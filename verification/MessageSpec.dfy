/**
 Messages in the receive buffer, on absolute sequence numbers: what scanMsg finds and what
 readMsg delivers, when the packets come from messages framed by addBuffer.
 */
module MessageSpec {
  import opened Packets

  /**
   store holds the packets from start to end, seen the numbers of those already read out of
   order; the packets before lastAck have been acknowledged.
   */
  datatype Buf = Buf(store: map<int, Block>, seen: set<int>, start: int, lastAck: int, end: int)

  // The marks of a packet; asserting Marks of some number brings in how its field holds them.

  ghost predicate Begins(b: Block) {
    forall k {:trigger Marks(k)} | Marks(k) :: Boundary(b.msgNo) > 1
  }

  ghost predicate Ends(b: Block) {
    forall k {:trigger Marks(k)} | Marks(k) :: Boundary(b.msgNo) == 1 || Boundary(b.msgNo) == 3
  }

  ghost predicate Ordered(b: Block) {
    forall k {:trigger Marks(k)} | Marks(k) :: OrderFlag(b.msgNo)
  }

  ghost predicate Marks(k: int) {
    true
  }

  lemma MarksOf(b: Block)
    ensures Begins(b) <==> Boundary(b.msgNo) > 1
    ensures Ends(b) <==> Boundary(b.msgNo) == 1 || Boundary(b.msgNo) == 3
    ensures Ordered(b) <==> OrderFlag(b.msgNo)
    ensures 0 <= Boundary(b.msgNo) <= 3
  {
    assert Marks(0);
  }

  ghost predicate Unread(b: Buf, n: int) {
    n in b.store && n !in b.seen
  }

  // scanMsg

  /** From i on, nothing is missing or read up to the end of a message or the acknowledged position. */
  ghost predicate Whole(b: Buf, i: int)
    decreases b.lastAck - i
  {
    i >= b.lastAck || (Unread(b, i) && (Ends(b.store[i]) || Whole(b, i + 1)))
  }

  ghost predicate GoodStart(b: Buf, i: int) {
    Unread(b, i) && Begins(b.store[i]) && Whole(b, i)
  }

  /** The first position from i on where a message may start that is not bad. */
  ghost function SkipTo(b: Buf, i: int): (j: int)
    ensures i <= j && (i <= b.lastAck ==> j <= b.lastAck)
    decreases b.lastAck - i
  {
    if i >= b.lastAck || GoodStart(b, i) then i else SkipTo(b, i + 1)
  }

  /** The packets p to q, or no message and the place where one might have started. */
  datatype Hit = Hit(p: int, q: int) | Miss(head: Option<int>)

  ghost function HeadAt(b: Buf, q: int, p: Option<int>): Option<int> {
    if !Unread(b, q) then None else if Begins(b.store[q]) then Some(q) else p
  }

  ghost predicate FoundAt(b: Buf, q: int, p: Option<int>) {
    Unread(b, q) && Ends(b.store[q]) && HeadAt(b, q, p) != None && (q < b.lastAck || !Ordered(b.store[q]))
  }

  ghost function Search(b: Buf, q: int, p: Option<int>): Hit
    decreases b.end - q
  {
    if q > b.end then Miss(p)
    else if FoundAt(b, q, p) then Hit(HeadAt(b, q, p).value, q)
    else Search(b, q + 1, HeadAt(b, q, p))
  }

  ghost function From(b: Buf, i: int): Buf {
    b.(store := map n | n in b.store && i <= n :: b.store[n], seen := (set n | n in b.seen && i <= n), start := i)
  }

  /** What lies before i does not matter to what begins at i. */
  lemma {:induction false} WholeFrom(b: Buf, s: int, i: int)
    requires s <= i
    ensures Whole(From(b, s), i) <==> Whole(b, i)
    decreases b.lastAck - i
  {
    if i < b.lastAck {
      WholeFrom(b, s, i + 1);
    }
  }

  lemma GoodFrom(b: Buf, i: int)
    ensures GoodStart(From(b, i), i) <==> GoodStart(b, i)
  {
    WholeFrom(b, i, i);
  }

  lemma FromNext(b: Buf, i: int)
    ensures
      From(b, i) ==
      From(b, i - 1).(store := From(b, i - 1).store - {i - 1}, seen := From(b, i - 1).seen - {i - 1}, start := i)
  {
  }

  lemma FromFrom(b: Buf, i: int)
    ensures From(From(b, i), i + 1) == From(b, i + 1)
  {
  }

  /** The state behind the skipped packets. */
  ghost function Skipped(b: Buf): Buf {
    From(b, SkipTo(b, b.start))
  }

  /** Nothing is acknowledged and nothing lies more than one place behind: the program takes the buffer for empty. */
  ghost predicate SeemsEmpty(b: Buf) {
    b.start == b.lastAck && b.end <= b.lastAck
  }

  ghost function Scan(b: Buf): Hit {
    if SeemsEmpty(b) then Miss(None) else Search(Skipped(b), Skipped(b).start, None)
  }

  ghost predicate Spans(p: int, n: int, q: int) {
    p <= n <= q
  }

  ghost function Numbers(p: int, q: int): set<int> {
    set n | p <= n <= q && Spans(p, n, q)
  }

  /** readMsg: an acknowledged message is taken out, another one is marked as read. */
  ghost function ReadMsg(b: Buf): Buf {
    var b' := Skipped(b);
    match Scan(b)
    case Miss(_) => b'
    case Hit(p, q) => if q < b.lastAck then From(b', q + 1) else b'.(seen := b'.seen + Numbers(p, q))
  }

  /** addData: packet n has arrived. */
  ghost function Stored(b: Buf, n: int, block: Block): Buf {
    b.(store := b.store[n := block], end := if n > b.end then n else b.end)
  }

  /** ackData: everything before a is acknowledged. */
  ghost function AckedTo(b: Buf, a: int): Buf {
    b.(lastAck := a, end := if a > b.end then a else b.end)
  }

  // Framed streams

  /** The blocks are whole messages, one after the other, each of one kind. */
  ghost predicate Framed(hist: seq<Block>) {
    && (hist != [] ==> Begins(hist[0]) && Ends(hist[|hist| - 1]))
    && (forall i {:trigger Joined(hist, i)} | 0 <= i < |hist| - 1 :: Joined(hist, i))
  }

  /** A message begins where one ends, and is of one kind. */
  ghost predicate Joined(hist: seq<Block>, i: int)
    requires 0 <= i < |hist| - 1
  {
    && (Ends(hist[i]) <==> Begins(hist[i + 1]))
    && (!Ends(hist[i]) ==> (Ordered(hist[i]) <==> Ordered(hist[i + 1])))
  }

  lemma PacketizeFramed(data: Bytes, mss: int, no: int, order: bool)
    requires mss > 0 && 0 <= no <= MAX_MSG_NO
    ensures Framed(Packetize(data, mss, no, order))
    ensures forall b | b in Packetize(data, mss, no, order) :: Ordered(b) == order && MsgSeq(b.msgNo) == no
  {
    var c, h := Chunks(data, mss), Packetize(data, mss, no, order);
    forall i | 0 <= i < |h|
      ensures Begins(h[i]) == (i == 0) && Ends(h[i]) == (i == |h| - 1)
      ensures Ordered(h[i]) == order && MsgSeq(h[i].msgNo) == no
    {
      assert Marks(0);
      FieldRoundTrip(no, order, i == 0, i == |h| - 1);
    }
  }

  /** addBuffer keeps the history framed. */
  lemma FramedAppend(hist: seq<Block>, more: seq<Block>)
    requires Framed(hist) && Framed(more)
    ensures Framed(hist + more)
  {
    var h := hist + more;
    forall i | 0 <= i < |h| - 1
      ensures Joined(h, i)
    {
      if i < |hist| - 1 {
        assert Joined(hist, i);
      } else if i >= |hist| {
        assert Joined(more, i - |hist|);
      }
    }
  }

  /** The blocks from a to b make one message. */
  ghost predicate IsMessage(hist: seq<Block>, a: int, b: int) {
    && 0 <= a <= b < |hist| && Begins(hist[a]) && Ends(hist[b])
    && forall k | a <= k < b :: !Ends(hist[k])
  }

  // What is delivered

  /** A packet counts as delivered when it was read, or lies before the first one kept. */
  ghost predicate Delivered(b: Buf, n: int) {
    n < b.start || n in b.seen
  }

  /** Nothing acknowledged is missing, and a message is delivered as a whole or not at all. */
  ghost predicate MsgInv(b: Buf, isn: int, hist: seq<Block>) {
    && Framed(hist)
    && isn <= b.start <= b.lastAck <= b.end && b.lastAck <= isn + |hist|
    && forall k {:trigger Kept(k)} | Kept(k) :: Parts(b, isn, hist)
  }

  /** Asserting Kept of some number brings the parts of the invariant into a proof. */
  ghost predicate Kept(k: int) {
    true
  }

  ghost predicate Parts(b: Buf, isn: int, hist: seq<Block>) {
    && (forall n | n in b.store :: b.start <= n <= b.end && isn <= n < isn + |hist| && b.store[n] == hist[n - isn])
    && (forall n | b.start <= n < b.lastAck :: n in b.store)
    && (forall n | n in b.seen :: n in b.store)
    && (forall n {:trigger Together(b, isn, hist, n)} | isn <= n < isn + |hist| - 1 :: Together(b, isn, hist, n))
  }

  lemma At(b: Buf, isn: int, hist: seq<Block>, n: int)
    requires MsgInv(b, isn, hist) && n in b.store
    ensures b.start <= n <= b.end && isn <= n < isn + |hist| && b.store[n] == hist[n - isn]
  {
    assert Kept(0);
  }

  lemma Next(b: Buf, isn: int, hist: seq<Block>, n: int)
    requires MsgInv(b, isn, hist) && n in b.store && n + 1 in b.store
    ensures Ends(b.store[n]) <==> Begins(b.store[n + 1])
  {
    At(b, isn, hist, n);
    At(b, isn, hist, n + 1);
    assert Joined(hist, n - isn);
  }

  /** Behind an unread packet that does not end its message comes another unread one, if it has arrived. */
  lemma GoesOn(b: Buf, isn: int, hist: seq<Block>, n: int)
    requires MsgInv(b, isn, hist) && Unread(b, n) && !Ends(b.store[n])
    ensures n + 1 in b.store ==> Unread(b, n + 1)
    ensures n + 1 < b.lastAck ==> n + 1 in b.store
  {
    assert Kept(0);
    assert hist[n - isn] == b.store[n];
    assert n - isn != |hist| - 1;
    assert Together(b, isn, hist, n);
  }

  ghost predicate Together(b: Buf, isn: int, hist: seq<Block>, n: int)
    requires isn <= n < isn + |hist| - 1
  {
    Ends(hist[n - isn]) || (Delivered(b, n) <==> Delivered(b, n + 1))
  }

  /** A message that has begun unread goes on unread. */
  lemma {:induction false} UnreadWhole(b: Buf, isn: int, hist: seq<Block>, i: int)
    requires MsgInv(b, isn, hist) && Unread(b, i)
    ensures Whole(b, i)
    decreases b.lastAck - i
  {
    if i < b.lastAck && !Ends(b.store[i]) && i + 1 < b.lastAck {
      GoesOn(b, isn, hist, i);
      UnreadWhole(b, isn, hist, i + 1);
    }
  }

  /** When everything before it was delivered, an unread packet begins its message. */
  lemma UnreadBegins(b: Buf, isn: int, hist: seq<Block>, i: int)
    requires MsgInv(b, isn, hist) && Unread(b, i) && forall n | b.start <= n < i :: n in b.seen
    ensures Begins(b.store[i])
  {
    assert Kept(0);
    if i > isn {
      assert Together(b, isn, hist, i - 1) && Joined(hist, i - 1 - isn);
    }
  }

  /** Only packets that were read already are skipped, and the next message is a good one. */
  lemma {:induction false} SkipDelivered(b: Buf, isn: int, hist: seq<Block>, i: int)
    requires MsgInv(b, isn, hist) && b.start <= i <= b.lastAck && forall n | b.start <= n < i :: n in b.seen
    ensures forall n | b.start <= n < SkipTo(b, i) :: n in b.seen
    ensures SkipTo(b, i) < b.lastAck ==> GoodStart(b, SkipTo(b, i))
    decreases b.lastAck - i
  {
    if i < b.lastAck && !GoodStart(b, i) {
      assert Unread(b, i) || i in b.seen by {
        assert Kept(0);
      }
      if i in b.seen {
        SkipDelivered(b, isn, hist, i + 1);
      } else {
        UnreadWhole(b, isn, hist, i);
        UnreadBegins(b, isn, hist, i);
        assert false;
      }
    }
  }

  lemma SkippedInv(b: Buf, isn: int, hist: seq<Block>)
    requires MsgInv(b, isn, hist)
    ensures MsgInv(Skipped(b), isn, hist) && forall n :: Delivered(Skipped(b), n) <==> Delivered(b, n)
    ensures Skipped(b).start < b.lastAck ==> Unread(b, Skipped(b).start) && Begins(b.store[Skipped(b).start])
  {
    SkipDelivered(b, isn, hist, b.start);
    assert Kept(0);
    var b' := Skipped(b);
    forall n | isn <= n < isn + |hist| - 1 ensures Together(b', isn, hist, n) {
      assert Together(b, isn, hist, n);
    }
  }

  /** All packets from p to q - 1 are unread and of one message that begins at p. */
  ghost predicate Open(b: Buf, p: int, q: int) {
    && p < q && (forall k | p <= k < q :: Unread(b, k))
    && p in b.store && Begins(b.store[p]) && forall k | p <= k < q - 1 :: k in b.store && !Ends(b.store[k])
  }

  ghost predicate HeadOk(b: Buf, q: int, p: Option<int>) {
    p == None || Open(b, p.value, q)
  }

  lemma HeadStep(b: Buf, isn: int, hist: seq<Block>, q: int, p: Option<int>)
    requires MsgInv(b, isn, hist) && HeadOk(b, q, p)
    ensures HeadOk(b, q + 1, HeadAt(b, q, p))
  {
    if Unread(b, q) && p != None && !Begins(b.store[q]) {
      assert Unread(b, q - 1);
      Next(b, isn, hist, q - 1);
    }
  }

  /** A message whose last packet has come is whole. */
  lemma OpenEnds(b: Buf, isn: int, hist: seq<Block>, p: int, q: int)
    requires MsgInv(b, isn, hist) && Open(b, p, q + 1) && q in b.store && Ends(b.store[q])
    ensures IsMessage(hist, p - isn, q - isn)
  {
    assert Kept(0);
    assert Unread(b, p) && Unread(b, q);
    forall k | p - isn <= k < q - isn ensures !Ends(hist[k]) {
      assert k + isn in b.store;
    }
  }

  /** What is found is one whole unread message, acknowledged unless it may be read out of order. */
  lemma {:induction false} SearchFinds(b: Buf, isn: int, hist: seq<Block>, q: int, p: Option<int>)
    requires MsgInv(b, isn, hist) && HeadOk(b, q, p) && Search(b, q, p).Hit?
    ensures
      var h := Search(b, q, p);
      && IsMessage(hist, h.p - isn, h.q - isn) && (forall n | h.p <= n <= h.q :: Unread(b, n))
      && (h.q < b.lastAck || !Ordered(hist[h.q - isn]))
    decreases b.end - q
  {
    HeadStep(b, isn, hist, q, p);
    if FoundAt(b, q, p) {
      OpenEnds(b, isn, hist, HeadAt(b, q, p).value, q);
      At(b, isn, hist, q);
    } else {
      SearchFinds(b, isn, hist, q + 1, HeadAt(b, q, p));
    }
  }

  /** Inside an unread message the place of its head is kept. */
  lemma InsideMessage(b: Buf, isn: int, hist: seq<Block>, q: int, p: Option<int>, x: int, y: int)
    requires MsgInv(b, isn, hist)
    requires IsMessage(hist, x - isn, y - isn) && forall n | x <= n <= y :: Unread(b, n)
    requires x <= q <= y && (x < q ==> p == Some(x))
    ensures HeadAt(b, q, p) == Some(x) && q <= b.end && (q == y ==> Ends(b.store[q]))
  {
    assert Unread(b, q);
    At(b, isn, hist, q);
    if x < q {
      assert Unread(b, q - 1);
      Next(b, isn, hist, q - 1);
      At(b, isn, hist, q - 1);
    }
  }

  /** A whole unread message is not missed, unless it is ordered and not acknowledged. */
  lemma {:induction false} SearchMisses(b: Buf, isn: int, hist: seq<Block>, q: int, p: Option<int>, x: int, y: int)
    requires MsgInv(b, isn, hist) && Search(b, q, p).Miss? && q <= b.end + 1
    requires IsMessage(hist, x - isn, y - isn) && forall n | x <= n <= y :: Unread(b, n)
    requires q <= x || (q <= y && p == Some(x))
    ensures y >= b.lastAck && y in b.store && Ordered(b.store[y])
    decreases b.end - q
  {
    assert Unread(b, y);
    At(b, isn, hist, y);
    if x <= q {
      InsideMessage(b, isn, hist, q, p, x, y);
    }
    if q != y {
      SearchMisses(b, isn, hist, q + 1, HeadAt(b, q, p), x, y);
    }
  }

  /** When an acknowledged message is found it is the very next one. */
  lemma {:induction false} SearchFirst(b: Buf, isn: int, hist: seq<Block>, q: int)
    requires MsgInv(b, isn, hist) && b.start < q && Open(b, b.start, q) && q - 1 in b.store && !Ends(b.store[q - 1])
    requires Search(b, q, Some(b.start)).Hit? && Search(b, q, Some(b.start)).q < b.lastAck
    ensures Search(b, q, Some(b.start)).p == b.start
    decreases b.end - q
  {
    SearchLater(b, q, Some(b.start));
    assert Unread(b, q - 1);
    GoesOn(b, isn, hist, q - 1);
    Next(b, isn, hist, q - 1);
    if !FoundAt(b, q, Some(b.start)) {
      SearchFirst(b, isn, hist, q + 1);
    }
  }

  lemma {:induction false} SearchLater(b: Buf, q: int, p: Option<int>)
    requires Search(b, q, p).Hit?
    ensures q <= Search(b, q, p).q <= b.end
    decreases b.end - q
  {
    if !FoundAt(b, q, p) {
      SearchLater(b, q + 1, HeadAt(b, q, p));
    }
  }

  /**
   readMsg on a framed stream: it delivers exactly one message that was not delivered before,
   and all of it; an ordered one only when everything before it has been delivered.
   */
  lemma ReadDelivers(b: Buf, isn: int, hist: seq<Block>)
    requires MsgInv(b, isn, hist) && Scan(b).Hit?
    ensures
      var p, q := Scan(b).p, Scan(b).q;
      && IsMessage(hist, p - isn, q - isn)
      && (forall n | p <= n <= q :: !Delivered(b, n) && n in b.store)
      && (forall n :: Delivered(ReadMsg(b), n) <==> Delivered(b, n) || p <= n <= q)
      && (q < b.lastAck || Ordered(hist[q - isn]) ==> forall n | n < p :: Delivered(b, n))
    ensures MsgInv(ReadMsg(b), isn, hist)
  {
    var b' := Skipped(b);
    SkippedInv(b, isn, hist);
    SearchFinds(b', isn, hist, b'.start, None);
    var p, q := Scan(b).p, Scan(b).q;
    if q < b.lastAck {
      FirstFound(b', isn, hist);
    }
    ReadInv(b', isn, hist, p, q);
    forall n | p <= n <= q ensures !Delivered(b, n) && n in b.store {
      assert Unread(b', n);
      assert !Delivered(b', n) by {
        At(b', isn, hist, n);
      }
    }
  }

  /** Taking a message out, or marking it, keeps the invariant. */
  lemma ReadInv(b: Buf, isn: int, hist: seq<Block>, p: int, q: int)
    requires MsgInv(b, isn, hist) && IsMessage(hist, p - isn, q - isn) && forall n | p <= n <= q :: Unread(b, n)
    requires q < b.lastAck ==> p == b.start
    ensures
      var r := if q < b.lastAck then From(b, q + 1) else b.(seen := b.seen + Numbers(p, q));
      && MsgInv(r, isn, hist) && forall n :: Delivered(r, n) <==> Delivered(b, n) || p <= n <= q
  {
    assert Kept(0);
    var r := if q < b.lastAck then From(b, q + 1) else b.(seen := b.seen + Numbers(p, q));
    assert forall n :: Delivered(r, n) <==> Delivered(b, n) || p <= n <= q;
    forall n | n in r.seen ensures n in r.store {
      assert p <= n <= q ==> Unread(b, n);
    }
    assert forall n | n in r.store :: n in b.store && r.start <= n;
    assert forall n | r.start <= n < b.lastAck :: n in r.store;
    forall n {:trigger Together(r, isn, hist, n)} | isn <= n < isn + |hist| - 1 ensures Together(r, isn, hist, n) {
      assert Together(b, isn, hist, n);
      assert Joined(hist, n - isn);
    }
  }

  lemma FirstFound(b: Buf, isn: int, hist: seq<Block>)
    requires MsgInv(b, isn, hist) && (b.start < b.lastAck ==> Unread(b, b.start) && Begins(b.store[b.start]))
    requires Search(b, b.start, None).Hit? && Search(b, b.start, None).q < b.lastAck
    ensures Search(b, b.start, None).p == b.start
  {
    SearchLater(b, b.start, None);
    if !FoundAt(b, b.start, None) {
      SearchFirst(b, isn, hist, b.start + 1);
    }
  }

  /** What the reader may rely on when a message is found. */
  lemma HitFacts(b: Buf, isn: int, hist: seq<Block>)
    requires MsgInv(b, isn, hist) && Scan(b).Hit?
    ensures
      var p, q, v := Scan(b).p, Scan(b).q, Skipped(b);
      && v.start <= p <= q <= v.end && isn <= p && q < isn + |hist| && (q < b.lastAck ==> p == v.start)
      && forall n | p <= n <= q :: Unread(v, n) && v.store[n] == hist[n - isn]
  {
    var v := Skipped(b);
    SkippedInv(b, isn, hist);
    SearchFinds(v, isn, hist, v.start, None);
    var p, q := Scan(b).p, Scan(b).q;
    if q < b.lastAck {
      FirstFound(v, isn, hist);
    }
    forall n | p <= n <= q ensures Unread(v, n) && v.store[n] == hist[n - isn] {
      assert Unread(v, n);
      At(v, isn, hist, n);
    }
    assert Unread(v, p) && Unread(v, q);
    At(v, isn, hist, p);
    At(v, isn, hist, q);
  }

  lemma NumbersNext(s: set<int>, p: int, q: int)
    requires p <= q
    ensures s + Numbers(p, q) == s + Numbers(p, q - 1) + {q}
  {
  }

  /** A whole unread message that may be read now. */
  ghost predicate Readable(b: Buf, isn: int, hist: seq<Block>, x: int, y: int) {
    && IsMessage(hist, x - isn, y - isn) && (forall n | x <= n <= y :: n in b.store && !Delivered(b, n))
    && (y < b.lastAck || !Ordered(hist[y - isn]))
  }

  lemma NothingMissed(b: Buf, isn: int, hist: seq<Block>, x: int, y: int)
    requires MsgInv(b, isn, hist) && Scan(b).Miss? && !SeemsEmpty(b)
    ensures !Readable(b, isn, hist, x, y)
  {
    if Readable(b, isn, hist, x, y) {
      var b' := Skipped(b);
      SkippedInv(b, isn, hist);
      forall n | x <= n <= y ensures Unread(b', n) {
        assert !Delivered(b', n);
      }
      assert Unread(b', x) && Unread(b', y);
      At(b', isn, hist, x);
      At(b', isn, hist, y);
      SearchMisses(b', isn, hist, b'.start, None, x, y);
    }
  }

  /** A message is found if and only if there is one to read and the buffer does not seem empty. */
  lemma ScanExact(b: Buf, isn: int, hist: seq<Block>)
    requires MsgInv(b, isn, hist)
    ensures Scan(b).Hit? <==> !SeemsEmpty(b) && exists x, y :: Readable(b, isn, hist, x, y)
  {
    if Scan(b).Hit? {
      ReadDelivers(b, isn, hist);
      var b' := Skipped(b);
      SkippedInv(b, isn, hist);
      SearchFinds(b', isn, hist, b'.start, None);
      assert Readable(b, isn, hist, Scan(b).p, Scan(b).q);
    } else if !SeemsEmpty(b) {
      forall x, y ensures !Readable(b, isn, hist, x, y) {
        NothingMissed(b, isn, hist, x, y);
      }
    }
  }

  /** Of the messages that may be read the first one is found. */
  lemma {:induction false} SearchEarliest(b: Buf, isn: int, hist: seq<Block>, q: int, p: Option<int>, x: int, y: int)
    requires MsgInv(b, isn, hist) && Search(b, q, p).Hit?
    requires IsMessage(hist, x - isn, y - isn) && (forall n | x <= n <= y :: Unread(b, n))
    requires y < b.lastAck || !Ordered(hist[y - isn])
    requires q <= x || (q <= y && p == Some(x))
    ensures Search(b, q, p).q <= y
    decreases b.end - q
  {
    assert Unread(b, y);
    At(b, isn, hist, y);
    if x <= q {
      InsideMessage(b, isn, hist, q, p, x, y);
    }
    if q != y && !FoundAt(b, q, p) {
      SearchEarliest(b, isn, hist, q + 1, HeadAt(b, q, p), x, y);
    }
  }

  lemma ScanEarliest(b: Buf, isn: int, hist: seq<Block>, x: int, y: int)
    requires MsgInv(b, isn, hist) && Scan(b).Hit? && Readable(b, isn, hist, x, y)
    ensures Scan(b).q <= y
  {
    var b' := Skipped(b);
    SkippedInv(b, isn, hist);
    forall n | x <= n <= y ensures Unread(b', n) {
      assert !Delivered(b', n);
    }
    assert Unread(b', x);
    At(b', isn, hist, x);
    SearchEarliest(b', isn, hist, b'.start, None, x, y);
  }

  /** n was delivered before, or is one of the packets of the message found. */
  ghost predicate Had(b: Buf, n: int) {
    n in b.seen || (Scan(b).Hit? && Scan(b).p <= n <= Scan(b).q)
  }

  /**
   What a read leaves: the buffer starts behind an acknowledged message that was read, and
   otherwise at the first packet that has not been read; everything from there on stays, and
   what was read of it is marked.
   */
  lemma ReadLeaves(b: Buf, isn: int, hist: seq<Block>)
    requires MsgInv(b, isn, hist)
    ensures
      var r := ReadMsg(b);
      && r.lastAck == b.lastAck && r.end == b.end
      && (forall n :: n in r.store <==> n in b.store && r.start <= n)
      && (forall n | n in r.store :: r.store[n] == b.store[n])
      && (forall n :: n in r.seen <==> r.start <= n && Had(b, n))
      && (forall n | b.start <= n < r.start :: Had(b, n)) && b.start <= r.start <= b.lastAck
    ensures Scan(b).Hit? && Scan(b).q < b.lastAck ==> ReadMsg(b).start == Scan(b).q + 1
    ensures !(Scan(b).Hit? && Scan(b).q < b.lastAck) ==>
              ReadMsg(b).start == b.lastAck || Unread(b, ReadMsg(b).start)
  {
    SkipDelivered(b, isn, hist, b.start);
    if Scan(b).Hit? {
      HitFacts(b, isn, hist);
    }
  }

  /** For instance, a message of one packet that was the first to arrive is not found before it is acknowledged. */
  lemma LoneMessageMissed()
    ensures
      var hist := [Block(MsgField(1, false, true, true), [7])];
      var b := Buf(map[1 := hist[0]], {}, 1, 1, 1);
      MsgInv(b, 1, hist) && Readable(b, 1, hist, 1, 1) && Scan(b).Miss?
  {
    var hist := [Block(MsgField(1, false, true, true), [7])];
    var b := Buf(map[1 := hist[0]], {}, 1, 1, 1);
    assert Marks(0);
    FieldRoundTrip(1, false, true, true);
    assert Begins(hist[0]) && Ends(hist[0]) && !Ordered(hist[0]);
    assert Parts(b, 1, hist);
    assert IsMessage(hist, 0, 0) && !Delivered(b, 1);
  }
}
