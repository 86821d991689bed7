/** The body of a loss report: single numbers, and ranges as two words with the first one marked. */
module LossReport {
  import opened SeqNo
  import opened Intervals

  /** The high bit of a 32-bit word. */
  const MARK := 0x8000_0000

  /** The words for the numbers a to b. */
  function Entry(a: int, b: int): seq<int> {
    if a == b then [a] else [a + MARK, b]
  }

  /** The report of some ranges, given by their absolute ends. */
  ghost function Encode(ranges: seq<(int, int)>): seq<int> {
    if ranges == [] then [] else Entry(Wrap(ranges[0].0), Wrap(ranges[0].1)) + Encode(ranges[1..])
  }

  /** A single number takes one word, a range two: its first number with the high bit set, and its last. */
  lemma {:induction false} EncodeNext(ranges: seq<(int, int)>, a: int, b: int)
    ensures Encode(ranges + [(a, b)])
            == Encode(ranges) + if Wrap(a) == Wrap(b) then [Wrap(a)] else [Wrap(a) + 0x8000_0000, Wrap(b)]
    decreases |ranges|
  {
    if ranges != [] {
      EncodeNext(ranges[1..], a, b);
      assert (ranges + [(a, b)])[1..] == ranges[1..] + [(a, b)];
    } else {
      assert Encode([(a, b)]) == Entry(Wrap(a), Wrap(b)) + Encode([]);
    }
  }

  /** Every marked word is followed by the end of its range. */
  ghost predicate Complete(words: seq<int>) {
    if words == [] then true
    else if words[0] >= MARK then
      IsSeqNo(words[0] - MARK) && |words| > 1 && IsSeqNo(words[1]) && Complete(words[2..])
    else IsSeqNo(words[0]) && Complete(words[1..])
  }

  /** The ranges a report names. */
  ghost function Parse(words: seq<int>): seq<(int, int)>
    requires Complete(words)
  {
    if words == [] then []
    else if words[0] >= MARK then [(words[0] - MARK, words[1])] + Parse(words[2..])
    else [(words[0], words[0])] + Parse(words[1..])
  }

  /** The named ranges are these, on the wire. */
  ghost predicate Names(named: seq<(int, int)>, ranges: seq<(int, int)>) {
    |named| == |ranges| && forall k | 0 <= k < |ranges| :: named[k] == (Wrap(ranges[k].0), Wrap(ranges[k].1))
  }

  /** What is left of a report from word i on stands for the ranges from k on. */
  ghost predicate Rest(words: seq<int>, i: int, ranges: seq<(int, int)>, k: int) {
    && 0 <= i <= |words| && 0 <= k <= |ranges| && (i < |words| <==> k < |ranges|)
    && forall t {:trigger Told(t)} | Told(t) :: Complete(words[i..]) && Names(Parse(words[i..]), ranges[k..])
  }

  lemma RestStarts(words: seq<int>, ranges: seq<(int, int)>)
    requires Complete(words) && Names(Parse(words), ranges)
    ensures Rest(words, 0, ranges, 0)
  {
    assert words[0..] == words && ranges[0..] == ranges;
  }

  /** The entry at word i, and where the next one starts. */
  lemma RestNext(words: seq<int>, i: int, ranges: seq<(int, int)>, k: int)
    requires Rest(words, i, ranges, k) && i < |words|
    ensures words[i] >= MARK ==> i + 1 < |words| && Rest(words, i + 2, ranges, k + 1)
    ensures words[i] >= MARK ==> (words[i] - MARK, words[i + 1]) == (Wrap(ranges[k].0), Wrap(ranges[k].1))
    ensures words[i] < MARK ==> Rest(words, i + 1, ranges, k + 1)
    ensures words[i] < MARK ==> (words[i], words[i]) == (Wrap(ranges[k].0), Wrap(ranges[k].1))
  {
    assert Told(0);
    NamesNext(Parse(words[i..]), ranges, k);
    var n := if words[i] >= MARK then 2 else 1;
    assert words[i..][n..] == words[i + n..];
    assert Parse(words[i..])[1..] == Parse(words[i + n..]);
  }

  lemma NamesNext(named: seq<(int, int)>, ranges: seq<(int, int)>, k: int)
    requires 0 <= k < |ranges| && Names(named, ranges[k..])
    ensures named[0] == (Wrap(ranges[k].0), Wrap(ranges[k].1)) && Names(named[1..], ranges[k + 1..])
  {
  }

  lemma ParseEntry(a: int, b: int, rest: seq<int>)
    requires IsSeqNo(a) && IsSeqNo(b) && Complete(rest)
    ensures Complete(Entry(a, b) + rest) && Parse(Entry(a, b) + rest) == [(a, b)] + Parse(rest)
  {
    var w := Entry(a, b) + rest;
    assert w[if a == b then 1 else 2..] == rest;
  }

  /** Decoding a report yields the ranges it was made of, in order. */
  lemma {:induction false} ParseEncode(ranges: seq<(int, int)>)
    ensures Complete(Encode(ranges)) && Names(Parse(Encode(ranges)), ranges)
  {
    if ranges != [] {
      ParseEncode(ranges[1..]);
      ParseEntry(Wrap(ranges[0].0), Wrap(ranges[0].1), Encode(ranges[1..]));
    }
  }

  /** A report grows at its end. */
  lemma {:induction false} EncodeAppend(ranges: seq<(int, int)>, r: (int, int))
    ensures Encode(ranges + [r]) == Encode(ranges) + Entry(Wrap(r.0), Wrap(r.1))
  {
    if ranges == [] {
      assert [r][1..] == [];
    } else {
      EncodeAppend(ranges[1..], r);
      assert (ranges + [r])[1..] == ranges[1..] + [r];
    }
  }

  /** x lies in one of the ranges. */
  ghost predicate Named(ranges: seq<(int, int)>, x: int) {
    exists r :: r in ranges && r.0 <= x <= r.1
  }

  /** The ranges are intervals of the list: all of them, or those before the one at bound. */
  ghost predicate Lists(ranges: seq<(int, int)>, nodes: map<int, int>, whole: bool, bound: int) {
    && (!whole ==> bound in nodes)
    && (forall r | r in ranges :: r.0 in nodes && r.1 == nodes[r.0] && (whole || r.0 < bound))
    && (forall c | c in nodes && (whole || c < bound) :: (c, nodes[c]) in ranges)
  }

  lemma NamedPrefix(ranges: seq<(int, int)>, nodes: map<int, int>, whole: bool, bound: int)
    requires Filled(nodes) && Disjoint(nodes) && Lists(ranges, nodes, whole, bound)
    ensures forall x :: Named(ranges, x) <==> x in Cover(nodes) && (whole || x < bound)
  {
    assert Parted(0);
    forall x ensures Named(ranges, x) <==> x in Cover(nodes) && (whole || x < bound) {
      InCover(nodes, x);
      if r :| r in ranges && r.0 <= x <= r.1 {
        assert InNode(nodes, r.0, x);
      }
    }
  }

  /**
   A report of the numbers in lost: its ranges are runs of them in ascending order, and name
   all of them, or all before bound, which is one of them.
   */
  ghost predicate Reports(ranges: seq<(int, int)>, lost: set<int>, whole: bool, bound: int) {
    forall k {:trigger Told(k)} | Told(k) ::
      && Ascending(ranges)
      && (forall r | r in ranges :: r.0 <= r.1 && r.0 in lost && r.1 in lost)
      && (forall x {:trigger Named(ranges, x)} :: Named(ranges, x) <==> x in lost && (whole || x < bound))
      && (!whole ==> bound in lost)
  }

  /** Asserting Told of some number brings what Reports says into a proof. */
  ghost predicate Told(k: int) {
    true
  }

  ghost predicate Ascending(ranges: seq<(int, int)>) {
    forall j, k | 0 <= j < k < |ranges| :: ranges[j].1 < ranges[k].0
  }

  lemma NothingReported(ranges: seq<(int, int)>, lost: set<int>, whole: bool, bound: int)
    requires Reports(ranges, lost, whole, bound)
    ensures ranges == [] && whole ==> lost == {}
    ensures lost == {} ==> ranges == []
  {
    assert Told(0);
    if ranges == [] && whole {
      forall x ensures x !in lost {
        assert Named(ranges, x) <==> x in lost;
      }
      assert lost == {};
    } else if ranges != [] {
      assert ranges[0] in ranges;
    }
  }

  /** Listing the first nodes makes a report of what the list covers. */
  lemma ListsReports(ranges: seq<(int, int)>, nodes: map<int, int>, whole: bool, bound: int)
    requires Filled(nodes) && Disjoint(nodes) && Lists(ranges, nodes, whole, bound) && Ascending(ranges)
    ensures Reports(ranges, Cover(nodes), whole, bound)
  {
    NamedPrefix(ranges, nodes, whole, bound);
    forall r | r in ranges ensures r.0 <= r.1 && r.0 in Cover(nodes) && r.1 in Cover(nodes) {
      Ends(nodes, r.0);
    }
    if !whole {
      Ends(nodes, bound);
    }
  }

  lemma AscendingNext(ranges: seq<(int, int)>, nodes: map<int, int>, p: int)
    requires Disjoint(nodes) && Lists(ranges, nodes, false, p) && Ascending(ranges)
    ensures Ascending(ranges + [(p, nodes[p])])
  {
    assert Parted(0);
  }

  lemma ListsNext(ranges: seq<(int, int)>, nodes: map<int, int>, p: int, whole: bool, bound: int)
    requires Lists(ranges, nodes, false, p)
    requires if whole then forall c | c in nodes :: c <= p
             else bound in nodes && p < bound && forall c | c in nodes :: c <= p || bound <= c
    ensures Lists(ranges + [(p, nodes[p])], nodes, whole, bound)
  {
    forall c | c in nodes && (whole || c < bound) ensures (c, nodes[c]) in ranges + [(p, nodes[p])] {
      assert c == p || (c, nodes[c]) in ranges;
    }
  }
}
