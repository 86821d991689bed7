/**
 What the receiving half of a connection does in stream mode, on absolute sequence
 numbers.  The class Receiver is proved to compute these functions with wrapped numbers.
 */
module ReceiverSpec {
  import opened Packets
  import opened Intervals

  datatype Ack = Ack(ackNo: int, ack: int)

  /**
   lastAck, cur, lastAckAck and ackNo are m_iRcvLastAck, m_iRcvCurrSeqNo,
   m_iRcvLastAckAck and m_iAckSeqNo.  store holds the packets of the receive buffer,
   start is the number of the first one not yet read to its end, notch how much of it was
   read, and acks the acknowledgements sent and not yet acknowledged themselves.
   */
  datatype Rcv = Rcv(size: int, lastAck: int, cur: int, lastAckAck: int, ackNo: int, loss: set<int>,
                     store: map<int, Block>, start: int, notch: int, acks: seq<Ack>)

  const MAX_ACK_NO := 0x7FFF_FFFF
  const ACK_WINDOW := 1024

  function IncAck(ackNo: int): int {
    if ackNo == MAX_ACK_NO then 0 else ackNo + 1
  }

  ghost function RcvInit(isn: int, size: int): Rcv {
    Rcv(size, isn, isn - 1, isn, 0, {}, map[], isn, 0, [])
  }

  /** getAvailBufSize. */
  ghost function Avail(r: Rcv): int {
    r.size - (r.lastAck - r.start) - 1
  }

  /** processData: the packet is stored, or dropped as useless; a gap it opens is reported. */
  ghost function OnData(r: Rcv, n: int, b: Block): (Rcv, Option<(int, int)>) {
    if n < r.lastAck || n - r.lastAck >= Avail(r) || n in r.store then (r, None)
    else
      var r1 := r.(store := r.store[n := b]);
      if n > r.cur + 1 then
        (r1.(loss := r.loss + Range(r.cur + 1, n - 1), cur := n), Some((r.cur + 1, n - 1)))
      else if n > r.cur then (r1.(cur := n), None)
      else (r1.(loss := r.loss - {n}), None)
  }

  /** The number an acknowledgement carries. */
  ghost function NextAck(r: Rcv): int {
    if r.loss == {} then r.cur + 1 else Least(r.loss)
  }

  /** sendCtrl(2) with a lite acknowledgement. */
  ghost function LiteAck(r: Rcv): Option<int> {
    if NextAck(r) == r.lastAckAck then None else Some(NextAck(r))
  }

  ghost function StoreAck(acks: seq<Ack>, a: Ack, size: int): seq<Ack> {
    var all := acks + [a];
    if |all| == size && all != [] then all[1..] else all
  }

  datatype FullAck = FullAck(ackNo: int, ack: int, window: int)

  /** Its last part: what was acknowledged is reported and recorded, unless the sender knows it already. */
  ghost function ReportAck(r: Rcv): (Rcv, Option<FullAck>) {
    if r.lastAck > r.lastAckAck then
      var no := IncAck(r.ackNo);
      (r.(ackNo := no, acks := StoreAck(r.acks, Ack(no, r.lastAck), ACK_WINDOW)),
       Some(FullAck(no, r.lastAck, Max(2, Avail(r)))))
    else (r, None)
  }

  /** sendCtrl(2) with a full acknowledgement; due says whether a repeated one may be sent. */
  ghost function SendAck(r: Rcv, due: bool): (Rcv, Option<FullAck>) {
    var ack := NextAck(r);
    if ack == r.lastAckAck then (r, None)
    else if ack < r.lastAck || (ack == r.lastAck && !due) then (r, None)
    else ReportAck(r.(lastAck := ack))
  }

  /** Where an acknowledgement number first stands in the history; its length if nowhere. */
  ghost function Find(acks: seq<Ack>, ackNo: int): (i: int)
    ensures 0 <= i <= |acks| && (i < |acks| ==> acks[i].ackNo == ackNo)
    ensures forall j | 0 <= j < i :: acks[j].ackNo != ackNo
  {
    if acks == [] then 0
    else if acks[0].ackNo == ackNo then 0
    else 1 + Find(acks[1..], ackNo)
  }

  /** processCtrl(6); measured says whether the round trip time came out positive. */
  ghost function OnAck2(r: Rcv, ackNo: int, measured: bool): Rcv {
    var i := Find(r.acks, ackNo);
    if i == |r.acks| then r
    else
      var r1 := r.(acks := r.acks[i + 1..]);
      if measured && r.acks[i].ack > r.lastAckAck then r1.(lastAckAck := r.acks[i].ack) else r1
  }

  // Reading

  /** What readBuffer makes of the acknowledged payloads: bytes out, first packet left, new notch. */
  datatype Taken = Taken(out: Bytes, start: int, notch: int)

  ghost predicate AllStored(store: map<int, Block>, i: int, j: int) {
    forall n | i <= n < j :: n in store
  }

  /** The payloads stored from i up to j, in order. */
  ghost function Held(store: map<int, Block>, i: int, j: int): Bytes
    requires i <= j && AllStored(store, i, j)
    decreases j - i
  {
    if i == j then [] else store[i].data + Held(store, i + 1, j)
  }

  ghost predicate NotchFits(store: map<int, Block>, i: int, j: int, notch: int)
    requires i <= j && AllStored(store, i, j)
  {
    if i == j then notch == 0 else 0 <= notch <= |store[i].data|
  }

  ghost function Take(store: map<int, Block>, i: int, j: int, notch: int, len: int): (t: Taken)
    requires i <= j && AllStored(store, i, j) && NotchFits(store, i, j, notch) && 0 <= len
    ensures i <= t.start <= j && NotchFits(store, t.start, j, t.notch)
    decreases j - i
  {
    if i == j || len == 0 then Taken([], i, notch)
    else
      var left := store[i].data[notch..];
      if len >= |left| then
        var t := Take(store, i + 1, j, 0, len - |left|);
        Taken(left + t.out, t.start, t.notch)
      else Taken(left[..len], i, notch + len)
  }

  ghost predicate IsSplit(all: Bytes, len: int, out: Bytes, rest: Bytes)
    requires 0 <= len
  {
    out == all[..Min(len, |all|)] && rest == all[Min(len, |all|)..]
  }

  lemma SplitPast(left: Bytes, rest: Bytes, len: int, out: Bytes, after: Bytes)
    requires len >= |left| && IsSplit(rest, len - |left|, out, after)
    ensures IsSplit(left + rest, len, left + out, after)
  {
  }

  lemma SplitWithin(left: Bytes, rest: Bytes, len: int)
    requires 0 <= len <= |left|
    ensures IsSplit(left + rest, len, left[..len], left[len..] + rest)
  {
  }

  lemma DropWithin(part: Bytes, rest: Bytes, k: int)
    requires 0 <= k <= |part|
    ensures (part + rest)[k..] == part[k..] + rest
  {
  }

  lemma {:induction false} NotchInHeld(store: map<int, Block>, i: int, j: int, notch: int)
    requires i <= j && AllStored(store, i, j) && NotchFits(store, i, j, notch)
    ensures 0 <= notch <= |Held(store, i, j)|
  {
  }

  /** readBuffer as a queue of bytes: the first len of what is there come out, and the rest stays. */
  lemma {:induction false} TakeIsPrefix(store: map<int, Block>, i: int, j: int, notch: int, len: int)
    requires i <= j && AllStored(store, i, j) && NotchFits(store, i, j, notch) && 0 <= len
    ensures
      var t := Take(store, i, j, notch, len);
      && 0 <= notch <= |Held(store, i, j)| && 0 <= t.notch <= |Held(store, t.start, j)|
      && IsSplit(Held(store, i, j)[notch..], len, t.out, Held(store, t.start, j)[t.notch..])
    decreases j - i
  {
    NotchInHeld(store, i, j, notch);
    if i < j {
      var part, rest := store[i].data, Held(store, i + 1, j);
      DropWithin(part, rest, notch);
      if 0 < len && len >= |part| - notch {
        var t := TakeNext(store, i, j, notch, len);
        TakeIsPrefix(store, i + 1, j, 0, len - (|part| - notch));
        assert rest[0..] == rest;
        SplitPast(part[notch..], rest, len, t.out, Held(store, t.start, j)[t.notch..]);
      } else {
        TakePart(store, i, j, notch, len);
        SplitWithin(part[notch..], rest, len);
        DropWithin(part, rest, notch + len);
        assert part[notch..][len..] == part[notch + len..];
      }
    }
  }

  /** The rest of the first packet, and then more. */
  lemma TakeNext(store: map<int, Block>, i: int, j: int, notch: int, len: int) returns (t: Taken)
    requires i < j && AllStored(store, i, j) && NotchFits(store, i, j, notch) && 0 < len
    requires len >= |store[i].data| - notch
    ensures t == Take(store, i + 1, j, 0, len - (|store[i].data| - notch))
    ensures Take(store, i, j, notch, len) == Taken(store[i].data[notch..] + t.out, t.start, t.notch)
  {
    t := Take(store, i + 1, j, 0, len - |store[i].data[notch..]|);
  }

  /** Only some of the first packet. */
  lemma TakePart(store: map<int, Block>, i: int, j: int, notch: int, len: int)
    requires i < j && AllStored(store, i, j) && NotchFits(store, i, j, notch) && 0 <= len
    requires len == 0 || len < |store[i].data| - notch
    ensures Take(store, i, j, notch, len) == Taken(store[i].data[notch..][..len], i, notch + len)
  {
  }

  ghost predicate Readable(r: Rcv) {
    r.start <= r.lastAck && AllStored(r.store, r.start, r.lastAck) && NotchFits(r.store, r.start, r.lastAck, r.notch)
  }

  ghost function Read(r: Rcv, len: int): (Rcv, Bytes)
    requires Readable(r) && len >= 0
  {
    var t := Take(r.store, r.start, r.lastAck, r.notch, len);
    (r.(start := t.start, notch := t.notch, store := map n | n in r.store && t.start <= n :: r.store[n]), t.out)
  }

  // Invariants

  /**
   The ledger: what is stored is what was sent, everything before lastAck is there, and the
   loss list is exactly what is missing between lastAck and cur.
   */
  ghost predicate RcvInv(r: Rcv, isn: int, hist: seq<Block>) {
    && isn <= r.start <= r.lastAck <= r.cur + 1 <= isn + |hist|
    && r.cur + 1 < r.start + r.size
    && (forall n | n in r.store :: r.start <= n <= r.cur && r.store[n] == hist[n - isn])
    && Readable(r)
    && (forall n :: n in r.loss <==> r.lastAck <= n <= r.cur && n !in r.store)
    && isn <= r.lastAckAck <= r.lastAck
    && (forall a | a in r.acks :: a.ack <= r.lastAck)
  }

  ghost predicate SentAs(hist: seq<Block>, isn: int, n: int, b: Block) {
    isn <= n < isn + |hist| && hist[n - isn] == b
  }

  lemma OnDataKeeps(r: Rcv, isn: int, hist: seq<Block>, n: int, b: Block)
    requires RcvInv(r, isn, hist) && SentAs(hist, isn, n, b)
    ensures RcvInv(OnData(r, n, b).0, isn, hist)
  {
  }

  /**
   A packet is refused only when it is not needed or does not fit.  A gap is reported if and
   only if the loss list grows, and is exactly what became missing.
   */
  lemma OnDataStores(r: Rcv, isn: int, hist: seq<Block>, n: int, b: Block)
    requires RcvInv(r, isn, hist) && SentAs(hist, isn, n, b)
    ensures n < r.start || n in OnData(r, n, b).0.store || n >= r.start + r.size - 1
    ensures r.store.Keys <= OnData(r, n, b).0.store.Keys
    ensures OnData(r, n, b).1 != None <==> !(OnData(r, n, b).0.loss <= r.loss)
    ensures OnData(r, n, b).1 != None ==>
      var gap := OnData(r, n, b).1.value;
      gap.0 <= gap.1 && forall x :: gap.0 <= x <= gap.1 <==> x in OnData(r, n, b).0.loss && x !in r.loss
  {
    if OnData(r, n, b).1 != None {
      assert n - 1 in OnData(r, n, b).0.loss && n - 1 !in r.loss;
    }
  }

  /** An acknowledgement carries the least number that has not been received. */
  lemma NextAckIsLeast(r: Rcv, isn: int, hist: seq<Block>)
    requires RcvInv(r, isn, hist)
    ensures r.lastAck <= NextAck(r) <= r.cur + 1
    ensures NextAck(r) !in r.store && forall n | r.start <= n < NextAck(r) :: n in r.store
  {
    if r.loss != {} {
      assert Least(r.loss) in r.loss;
    }
  }

  lemma ReportAckKeeps(r: Rcv, isn: int, hist: seq<Block>)
    requires RcvInv(r, isn, hist)
    ensures RcvInv(ReportAck(r).0, isn, hist)
  {
  }

  lemma SendAckKeeps(r: Rcv, isn: int, hist: seq<Block>, due: bool)
    requires RcvInv(r, isn, hist)
    ensures RcvInv(SendAck(r, due).0, isn, hist) && RcvInv(r.(lastAck := NextAck(r)), isn, hist)
    ensures SendAck(r, due).1 != None ==>
      var a := SendAck(r, due).1.value;
      isn <= a.ack == SendAck(r, due).0.lastAck && 2 <= a.window <= Max(2, r.size - 1)
  {
    NextAckIsLeast(r, isn, hist);
  }

  lemma OnAck2Keeps(r: Rcv, isn: int, hist: seq<Block>, ackNo: int, measured: bool)
    requires RcvInv(r, isn, hist)
    ensures RcvInv(OnAck2(r, ackNo, measured), isn, hist)
    ensures r.lastAckAck <= OnAck2(r, ackNo, measured).lastAckAck <= r.lastAck
  {
    var i := Find(r.acks, ackNo);
    if i < |r.acks| {
      assert r.acks[i] in r.acks;
    }
  }

  /** How many bytes of the stream the reader has had. */
  ghost function Position(r: Rcv, isn: int, hist: seq<Block>): int
    requires isn <= r.start <= isn + |hist|
  {
    |Join(hist, 0, r.start - isn)| + r.notch
  }

  lemma ReadKeeps(r: Rcv, isn: int, hist: seq<Block>, len: int)
    requires RcvInv(r, isn, hist) && len >= 0
    ensures RcvInv(Read(r, len).0, isn, hist)
  {
  }

  /** The payloads held are the next ones of the stream. */
  lemma {:induction false} HeldIsStream(store: map<int, Block>, i: int, j: int, isn: int, hist: seq<Block>)
    requires isn <= i <= j <= isn + |hist| && forall n | i <= n < j :: n in store && store[n] == hist[n - isn]
    ensures Held(store, i, j) == Join(hist, i - isn, j - isn)
    decreases j - i
  {
    if i < j {
      HeldIsStream(store, i + 1, j, isn, hist);
    }
  }

  /** Reading yields the bytes that follow the reader's position, and moves it behind them. */
  lemma ReadAdvances(r: Rcv, isn: int, hist: seq<Block>, len: int)
    requires RcvInv(r, isn, hist) && len >= 0
    ensures
      var r', out, all := Read(r, len).0, Read(r, len).1, Join(hist, 0, |hist|);
      && isn <= r'.start <= isn + |hist|
      && Position(r', isn, hist) == Position(r, isn, hist) + |out| <= |all|
      && all[..Position(r', isn, hist)] == all[..Position(r, isn, hist)] + out
  {
    var all := Join(hist, 0, |hist|);
    var a, a' := ReadMoves(r, isn, hist, len, all);
    assert Joined(0);
  }

  /** b is the bytes of the blocks from i to j; asserting Joined of some number brings that into a proof. */
  ghost predicate IsJoin(hist: seq<Block>, i: int, j: int, b: Bytes) {
    0 <= i <= j <= |hist| && forall k {:trigger Joined(k)} | Joined(k) :: b == Join(hist, i, j)
  }

  ghost predicate Joined(k: int) {
    true
  }

  ghost predicate IsHeld(store: map<int, Block>, i: int, j: int, b: Bytes) {
    i <= j && AllStored(store, i, j) && forall k {:trigger Joined(k)} | Joined(k) :: b == Held(store, i, j)
  }

  /** What is acknowledged and not read is stored as it was sent. */
  ghost predicate StreamHeld(r: Rcv, isn: int, hist: seq<Block>) {
    && isn <= r.start <= r.lastAck <= isn + |hist| && Readable(r)
    && forall n | r.start <= n < r.lastAck :: n in r.store && r.store[n] == hist[n - isn]
  }

  /** The bytes up to the reader's position, before and after. */
  lemma ReadMoves(r: Rcv, isn: int, hist: seq<Block>, len: int, all: Bytes) returns (a: Bytes, a': Bytes)
    requires StreamHeld(r, isn, hist) && len >= 0 && IsJoin(hist, 0, |hist|, all)
    ensures
      var r', out := Read(r, len).0, Read(r, len).1;
      && isn <= r'.start <= isn + |hist|
      && IsJoin(hist, 0, r.start - isn, a) && IsJoin(hist, 0, r'.start - isn, a')
      && |a'| + r'.notch == |a| + r.notch + |out| <= |all|
      && all[..|a'| + r'.notch] == all[..|a| + r.notch] + out
  {
    var t := Take(r.store, r.start, r.lastAck, r.notch, len);
    var b, b' := TakeFromStream(r, isn, hist, len);
    var c;
    a, a', c := StreamParts(r, isn, hist, t.start, b, b', all);
    Cut(a, b, c, a', b', r.notch, t.notch, t.out, len);
  }

  lemma TakeSplits(store: map<int, Block>, i: int, j: int, notch: int, len: int) returns (b: Bytes, b': Bytes)
    requires i <= j && AllStored(store, i, j) && NotchFits(store, i, j, notch) && 0 <= len
    ensures
      var t := Take(store, i, j, notch, len);
      && IsHeld(store, i, j, b) && IsHeld(store, t.start, j, b')
      && 0 <= notch <= |b| && 0 <= t.notch <= |b'| && IsSplit(b[notch..], len, t.out, b'[t.notch..])
  {
    TakeIsPrefix(store, i, j, notch, len);
    b, b' := Held(store, i, j), Held(store, Take(store, i, j, notch, len).start, j);
  }

  lemma HeldJoins(store: map<int, Block>, i: int, j: int, isn: int, hist: seq<Block>, b: Bytes)
    requires isn <= i <= j <= isn + |hist| && forall n | i <= n < j :: n in store && store[n] == hist[n - isn]
    requires IsHeld(store, i, j, b)
    ensures IsJoin(hist, i - isn, j - isn, b)
  {
    HeldIsStream(store, i, j, isn, hist);
  }

  lemma TakeFromStream(r: Rcv, isn: int, hist: seq<Block>, len: int) returns (b: Bytes, b': Bytes)
    requires StreamHeld(r, isn, hist) && len >= 0
    ensures
      var t := Take(r.store, r.start, r.lastAck, r.notch, len);
      && IsJoin(hist, r.start - isn, r.lastAck - isn, b) && IsJoin(hist, t.start - isn, r.lastAck - isn, b')
      && 0 <= r.notch <= |b| && 0 <= t.notch <= |b'| && IsSplit(b[r.notch..], len, t.out, b'[t.notch..])
  {
    var t := Take(r.store, r.start, r.lastAck, r.notch, len);
    b, b' := TakeSplits(r.store, r.start, r.lastAck, r.notch, len);
    HeldJoins(r.store, r.start, r.lastAck, isn, hist, b);
    HeldJoins(r.store, t.start, r.lastAck, isn, hist, b');
  }

  lemma StreamParts(r: Rcv, isn: int, hist: seq<Block>, start: int, b: Bytes, b': Bytes, all: Bytes)
    returns (a: Bytes, a': Bytes, c: Bytes)
    requires isn <= r.start <= start <= r.lastAck <= isn + |hist| && IsJoin(hist, 0, |hist|, all)
    requires IsJoin(hist, r.start - isn, r.lastAck - isn, b) && IsJoin(hist, start - isn, r.lastAck - isn, b')
    ensures IsJoin(hist, 0, r.start - isn, a) && IsJoin(hist, 0, start - isn, a')
    ensures a + b == a' + b' && all == a + b + c
  {
    assert Joined(0);
    var i, j, k := r.start - isn, start - isn, r.lastAck - isn;
    a, a', c := Join(hist, 0, i), Join(hist, 0, j), Join(hist, k, |hist|);
    JoinSplit(hist, 0, k, |hist|);
    JoinSplit(hist, 0, i, k);
    JoinSplit(hist, 0, j, k);
  }

  /** Two ways to divide the same bytes, with the bytes between the two positions. */
  lemma Cut(a: Bytes, b: Bytes, c: Bytes, a': Bytes, b': Bytes, notch: int, notch': int, out: Bytes, len: int)
    requires a + b == a' + b'
    requires 0 <= notch <= |b| && 0 <= notch' <= |b'| && len >= 0
    requires IsSplit(b[notch..], len, out, b'[notch'..])
    ensures |a'| + notch' == |a| + notch + |out| <= |a + b + c|
    ensures (a + b + c)[..|a'| + notch'] == (a + b + c)[..|a| + notch] + out
  {
    var all := a + b + c;
    assert |b| - notch == |out| + |b'| - notch';
    assert forall i | 0 <= i < |out| :: all[|a| + notch + i] == b[notch + i] == out[i];
  }

  /** What the sender adds does not disturb the receiver. */
  lemma RcvInvGrows(r: Rcv, isn: int, hist: seq<Block>, h: seq<Block>)
    requires RcvInv(r, isn, hist) && hist <= h
    ensures RcvInv(r, isn, h) && Position(r, isn, h) == Position(r, isn, hist)
  {
    JoinSame(hist, 0, r.start - isn, h, 0);
  }
}
