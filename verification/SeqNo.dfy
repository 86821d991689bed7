/**
 Sequence number arithmetic.  The program carries 31-bit numbers that wrap; the model
 relates them to unbounded absolute numbers: the number on the wire is the absolute
 one modulo 2^31.  Every class of this project stores the wrapped numbers, as the
 program does, and keeps the absolute ones in ghost state only.
 */
module SeqNo {
  import opened Ring

  const MAX_SEQ_NO := 0x7FFF_FFFF
  const SEQ_NO_TH := 0x3FFF_FFFF

  predicate IsSeqNo(s: int) {
    0 <= s <= MAX_SEQ_NO
  }

  function Abs(x: int): int {
    if x < 0 then -x else x
  }

  function SeqCmp(s1: int, s2: int): int {
    if Abs(s1 - s2) < SEQ_NO_TH then s1 - s2 else s2 - s1
  }

  function SeqLen(s1: int, s2: int): int {
    if s1 <= s2 then s2 - s1 + 1 else s2 - s1 + MAX_SEQ_NO + 2
  }

  function SeqOff(s1: int, s2: int): int {
    if Abs(s1 - s2) < SEQ_NO_TH then s2 - s1
    else if s1 < s2 then s2 - s1 - MAX_SEQ_NO - 1
    else s2 - s1 + MAX_SEQ_NO + 1
  }

  function IncSeq(s: int): int {
    if s == MAX_SEQ_NO then 0 else s + 1
  }

  function DecSeq(s: int): int {
    if s == 0 then MAX_SEQ_NO else s - 1
  }

  /** The two-argument incseq. */
  function IncSeqBy(s: int, inc: int): int {
    if MAX_SEQ_NO - s >= inc then s + inc else s - MAX_SEQ_NO + inc - 1
  }

  /** The number that stands for the absolute number n on the wire. */
  ghost function Wrap(n: int): (s: int)
    ensures IsSeqNo(s)
  {
    Slot(n, MAX_SEQ_NO + 1)
  }

  ghost predicate Near(a: int, b: int) {
    Abs(a - b) < SEQ_NO_TH
  }

  lemma WrapDistance(a: int, b: int)
    requires Abs(b - a) <= MAX_SEQ_NO
    ensures Wrap(b) - Wrap(a) == b - a
         || Wrap(b) - Wrap(a) == b - a - MAX_SEQ_NO - 1
         || Wrap(b) - Wrap(a) == b - a + MAX_SEQ_NO + 1
  {
    SlotIsMod(a, MAX_SEQ_NO + 1);
    SlotIsMod(b, MAX_SEQ_NO + 1);
  }

  /** Comparison, offset and inclusive length agree with the integers on near numbers. */
  lemma NearAgrees(a: int, b: int)
    requires Near(a, b)
    ensures SeqCmp(Wrap(a), Wrap(b)) < 0 <==> a < b
    ensures SeqCmp(Wrap(a), Wrap(b)) == 0 <==> a == b
    ensures SeqCmp(Wrap(a), Wrap(b)) > 0 <==> a > b
    ensures Wrap(a) == Wrap(b) <==> a == b
    ensures SeqOff(Wrap(a), Wrap(b)) == b - a
    ensures a <= b ==> SeqLen(Wrap(a), Wrap(b)) == b - a + 1
  {
    WrapDistance(a, b);
  }

  lemma IncAgrees(a: int)
    ensures IncSeq(Wrap(a)) == Wrap(a + 1)
  {
    SlotIsMod(a, MAX_SEQ_NO + 1);
    SlotIsMod(a + 1, MAX_SEQ_NO + 1);
  }

  lemma DecAgrees(a: int)
    ensures DecSeq(Wrap(a)) == Wrap(a - 1)
  {
    IncAgrees(a - 1);
  }

  /** incseq by k counts k numbers on. */
  lemma IncByAgrees(a: int, k: int)
    requires 0 <= k <= MAX_SEQ_NO
    ensures IncSeqBy(Wrap(a), k) == Wrap(a + k)
  {
    SlotIsMod(a, MAX_SEQ_NO + 1);
    SlotIsMod(a + k, MAX_SEQ_NO + 1);
  }

  /** The offset of the number k places on is k. */
  lemma OffsetOfInc(s: int, k: int)
    requires IsSeqNo(s) && 0 <= k < SEQ_NO_TH
    ensures IsSeqNo(IncSeqBy(s, k)) && SeqOff(s, IncSeqBy(s, k)) == k
  {
    SlotSmall(s, MAX_SEQ_NO + 1);
    IncByAgrees(s, k);
    NearAgrees(s, s + k);
  }

  /** Within a window of numbers, wherever it lies, seqcmp is a total order. */
  lemma CmpOrders(first: int, a: int, b: int, c: int)
    requires first <= a < first + SEQ_NO_TH && first <= b < first + SEQ_NO_TH && first <= c < first + SEQ_NO_TH
    ensures
      var x, y, z := Wrap(a), Wrap(b), Wrap(c);
      && (SeqCmp(x, y) == 0 <==> x == y)
      && (SeqCmp(x, y) < 0 <==> SeqCmp(y, x) > 0)
      && (SeqCmp(x, y) <= 0 && SeqCmp(y, z) <= 0 ==> SeqCmp(x, z) <= 0)
  {
    NearAgrees(a, b);
    NearAgrees(b, a);
    NearAgrees(b, c);
    NearAgrees(a, c);
  }

  /** No result leaves the range of a 32-bit integer, but for the length of all 2^31 numbers. */
  lemma InIntRange(x: int, y: int)
    requires IsSeqNo(x) && IsSeqNo(y)
    ensures -MAX_SEQ_NO <= SeqCmp(x, y) <= MAX_SEQ_NO && -MAX_SEQ_NO <= SeqOff(x, y) <= MAX_SEQ_NO
    ensures 1 <= SeqLen(x, y) && (SeqLen(x, y) <= MAX_SEQ_NO <==> x != IncSeq(y))
  {
  }

  /** The bound cannot be relaxed: numbers SEQ_NO_TH apart are taken for being in the other order. */
  lemma BoundIsTight(a: int)
    requires 0 <= a && a + SEQ_NO_TH <= MAX_SEQ_NO
    ensures SeqCmp(Wrap(a), Wrap(a + SEQ_NO_TH)) > 0 && SeqOff(Wrap(a), Wrap(a + SEQ_NO_TH)) < 0
  {
    SlotSmall(a, MAX_SEQ_NO + 1);
    SlotSmall(a + SEQ_NO_TH, MAX_SEQ_NO + 1);
  }
}
