/**
 The receiving half of CUDT: wrapped sequence numbers, the unit ring, the loss list and the
 acknowledgement history.  Every method is proved to do what ReceiverSpec says on absolute
 numbers.
 */
module ReceiverHalf {
  import opened Ring
  import opened SeqNo
  import opened Packets
  import opened Intervals
  import opened LossTable
  import opened LossReport
  import opened ReceiverSpec
  import ReceiverLoss
  import ReceiveBuffer
  import AckHistory

  /** A full acknowledgement as it goes out. */
  datatype WireAck = WireAck(ackNo: int, ack: int, window: int)

  ghost predicate SameAck(w: Option<WireAck>, a: Option<FullAck>) {
    if a == None then w == None else w == Some(WireAck(a.value.ackNo, Wrap(a.value.ack), a.value.window))
  }

  /** The invariant on absolute numbers, out of sight until Seen of some number is asserted. */
  ghost predicate Sound(r: Rcv, isn: int, hist: seq<Block>) {
    && r.start <= r.lastAck <= r.cur + 1 < r.start + r.size
    && forall k {:trigger Seen(k)} | Seen(k) :: RcvInv(r, isn, hist)
  }

  ghost predicate Seen(k: int) {
    true
  }

  lemma InitSound(isn: int, size: int)
    requires size > 1
    ensures Sound(RcvInit(isn, size), isn, [])
  {
  }

  lemma OnDataSound(r: Rcv, isn: int, hist: seq<Block>, n: int, b: Block)
    requires Sound(r, isn, hist) && SentAs(hist, isn, n, b)
    ensures
      var r' := ReceiverSpec.OnData(r, n, b).0;
      Sound(r', isn, hist) && r' == r.(cur := r'.cur, loss := r'.loss, store := r'.store)
    ensures ReceiverSpec.OnData(r, n, b).1 != None <==> !(ReceiverSpec.OnData(r, n, b).0.loss <= r.loss)
  {
    assert Seen(0);
    OnDataKeeps(r, isn, hist, n, b);
    OnDataStores(r, isn, hist, n, b);
  }

  lemma MissingBounds(r: Rcv, isn: int, hist: seq<Block>)
    requires Sound(r, isn, hist)
    ensures forall x | x in r.loss :: r.lastAck <= x <= r.cur
  {
    assert Seen(0);
  }

  lemma NextAckSound(r: Rcv, isn: int, hist: seq<Block>)
    requires Sound(r, isn, hist)
    ensures Sound(r.(lastAck := NextAck(r)), isn, hist)
    ensures r.lastAckAck <= r.lastAck <= NextAck(r) <= r.cur + 1
  {
    assert Seen(0);
    SendAckKeeps(r, isn, hist, true);
    NextAckIsLeast(r, isn, hist);
  }

  lemma ReportAckSound(r: Rcv, isn: int, hist: seq<Block>)
    requires Sound(r, isn, hist)
    ensures Sound(ReceiverSpec.ReportAck(r).0, isn, hist)
  {
    assert Seen(0);
    ReportAckKeeps(r, isn, hist);
  }

  lemma OnAck2Sound(r: Rcv, isn: int, hist: seq<Block>, ackNo: int, measured: bool)
    requires Sound(r, isn, hist)
    ensures Sound(ReceiverSpec.OnAck2(r, ackNo, measured), isn, hist)
  {
    assert Seen(0);
    OnAck2Keeps(r, isn, hist, ackNo, measured);
  }

  lemma ReadSound(r: Rcv, isn: int, hist: seq<Block>, len: int)
    requires Sound(r, isn, hist) && len >= 0
    ensures Readable(r) && Sound(ReceiverSpec.Read(r, len).0, isn, hist)
  {
    assert Seen(0);
    ReadKeeps(r, isn, hist, len);
  }

  /** The history keeps the acknowledged numbers as they are on the wire. */
  ghost predicate OnWire(records: seq<Ack>, acks: seq<Ack>) {
    && |records| == |acks|
    && forall k {:trigger Seen(k)} | Seen(k) ::
         forall i | 0 <= i < |acks| :: records[i] == Ack(acks[i].ackNo, Wrap(acks[i].ack))
  }

  lemma OnWireStore(records: seq<Ack>, acks: seq<Ack>, no: int, a: int)
    requires OnWire(records, acks)
    ensures OnWire(StoreAck(records, Ack(no, Wrap(a)), ACK_WINDOW), StoreAck(acks, Ack(no, a), ACK_WINDOW))
  {
    assert Seen(0);
  }

  lemma OnWireFind(records: seq<Ack>, acks: seq<Ack>, no: int)
    requires OnWire(records, acks)
    ensures Find(records, no) == Find(acks, no)
    ensures Find(acks, no) < |acks| ==>
      records[Find(acks, no)].ack == Wrap(acks[Find(acks, no)].ack)
    ensures Find(acks, no) < |acks| ==> OnWire(records[Find(acks, no) + 1..], acks[Find(acks, no) + 1..])
  {
    assert Seen(0);
  }

  class Receiver {
    const buffer: ReceiveBuffer.RcvBuffer
    const lossList: ReceiverLoss.RcvLossList
    const ackWindow: AckHistory.AckWindow
    var rcvLastAck: int
    var rcvCurrSeqNo: int
    var rcvLastAckAck: int
    var ackSeqNo: int
    // The state on absolute numbers, the initial number, and the blocks the peer has added.
    ghost var r: Rcv
    ghost var hist: seq<Block>
    ghost const isn: int

    ghost predicate Apart() {
      {lossList.data1, lossList.data2, lossList.next, lossList.prior} !!
      {ackWindow.ackSeqNo, ackWindow.ack, ackWindow.timeStamp}
    }

    ghost predicate Numbers(r: Rcv)
      reads this`rcvLastAck, this`rcvCurrSeqNo, this`rcvLastAckAck, this`ackSeqNo, this`hist
    {
      && rcvLastAck == Wrap(r.lastAck) && rcvCurrSeqNo == Wrap(r.cur) && rcvLastAckAck == Wrap(r.lastAckAck)
      && ackSeqNo == r.ackNo
      && Sound(r, isn, hist)
      && r.size == buffer.size <= Limit(lossList.size)
    }

    ghost predicate Formed()
      reads this, buffer, buffer.slots, buffer.ledger.held.Values, buffer.queue, buffer.queue.units
      reads lossList, lossList.data1, lossList.data2, lossList.next, lossList.prior
      reads ackWindow, ackWindow.ackSeqNo, ackWindow.ack, ackWindow.timeStamp
    {
      Apart() && Numbers(r) && Holds(r) && Misses(r) && Remembers(r)
    }

    /** The buffer holds these packets and stands where r says. */
    ghost predicate Holds(r: Rcv)
      reads buffer, buffer.slots, buffer.ledger.held.Values, buffer.queue, buffer.queue.units
    {
      && buffer.Valid() && buffer.store == r.store && buffer.notch == r.notch
      && buffer.ledger.start == r.start && buffer.ledger.lastAck == r.lastAck
    }

    ghost predicate Misses(r: Rcv)
      reads lossList, lossList.data1, lossList.data2, lossList.next, lossList.prior
    {
      lossList.Valid() && lossList.Lost() == r.loss
    }

    ghost predicate Remembers(r: Rcv)
      reads ackWindow, ackWindow.ackSeqNo, ackWindow.ack, ackWindow.timeStamp
    {
      ackWindow.Valid() && OnWire(ackWindow.records, r.acks) && ackWindow.size == ACK_WINDOW
    }

    /** All parts have taken a step to r'; so does the state. */
    ghost method Adopt(r': Rcv)
      requires Apart() && Numbers(r') && Holds(r') && Misses(r') && Remembers(r')
      modifies this`r
      ensures Formed() && r == r'
    {
      r := r';
    }

    /** All parts are in step; asserting Shown of some number brings in how. */
    ghost predicate Valid()
      reads this, buffer, buffer.slots, buffer.ledger.held.Values, buffer.queue, buffer.queue.units
      reads lossList, lossList.data1, lossList.data2, lossList.next, lossList.prior
      reads ackWindow, ackWindow.ackSeqNo, ackWindow.ack, ackWindow.timeStamp
    {
      forall k {:trigger Shown(k)} | Shown(k) :: Formed()
    }

    ghost predicate Shown(k: int) {
      true
    }

    /** The receive buffer has no more units than the loss list has slots. */
    constructor (queue: ReceiveBuffer.UnitQueue, isn: int, size: int, flightFlagSize: int)
      requires queue.Valid() && 1 <= isn <= MAX_SEQ_NO && 1 < size <= flightFlagSize && size < SEQ_NO_TH
      ensures Valid() && r == RcvInit(isn, size) && hist == [] && this.isn == isn
      ensures fresh(buffer) && fresh(buffer.slots) && buffer.queue == queue && fresh(ackWindow) && fresh(lossList)
      ensures fresh(lossList.data1) && fresh(lossList.data2) && fresh(lossList.next) && fresh(lossList.prior)
      ensures fresh(ackWindow.ackSeqNo) && fresh(ackWindow.ack) && fresh(ackWindow.timeStamp)
    {
      buffer := new ReceiveBuffer.RcvBuffer(queue, size, isn);
      lossList := new ReceiverLoss.RcvLossList(flightFlagSize);
      ackWindow := new AckHistory.AckWindow(ACK_WINDOW);
      rcvLastAck, rcvLastAckAck, rcvCurrSeqNo, ackSeqNo := isn, isn, isn - 1, 0;
      this.isn := isn;
      r, hist := RcvInit(isn, size), [];
      new;
      SlotSmall(isn, MAX_SEQ_NO + 1);
      SlotSmall(isn - 1, MAX_SEQ_NO + 1);
      InitSound(isn, size);
    }

    /** What the program's comparisons for the packet n come to. */
    lemma DataFacts(n: int)
      requires Numbers(r) && Near(r.lastAck, n) && Near(r.cur, n)
      ensures SeqOff(rcvLastAck, Wrap(n)) == n - r.lastAck
      ensures r.lastAck <= n < r.start + r.size ==> (SeqCmp(Wrap(n), IncSeq(rcvCurrSeqNo)) > 0 <==> n > r.cur + 1)
      ensures SeqCmp(Wrap(n), rcvCurrSeqNo) > 0 <==> n > r.cur
      ensures IncSeq(rcvCurrSeqNo) == Wrap(r.cur + 1) && DecSeq(Wrap(n)) == Wrap(n - 1)
      ensures n > r.cur + 1 ==> (Wrap(r.cur + 1) == Wrap(n - 1) <==> r.cur + 1 == n - 1)
    {
      NearAgrees(r.lastAck, n);
      NearAgrees(n, r.cur);
      IncAgrees(r.cur);
      DecAgrees(n);
      if r.lastAck <= n < r.start + r.size {
        NearAgrees(n, r.cur + 1);
      }
      if n > r.cur + 1 {
        NearAgrees(r.cur + 1, n - 1);
      }
    }

    /** A data packet: the unit the queue has read it into, n its absolute number, h what the peer has sent. */
    method OnData(unit: ReceiveBuffer.Unit, seqNo: int, ghost n: int, ghost h: seq<Block>)
      returns (res: int, report: seq<int>)
      requires Valid() && unit in buffer.queue.units && unit.flag == 0
      requires seqNo == Wrap(n) && hist <= h && SentAs(h, isn, n, Block(unit.msgNo, unit.data))
      requires Near(r.lastAck, n) && Near(r.cur, n)
      modifies this`r, this`hist, this`rcvCurrSeqNo
      modifies buffer`maxPos, buffer`ledger, buffer`store, buffer.slots, buffer.queue`count, unit`flag
      modifies lossList, lossList.data1, lossList.data2, lossList.next, lossList.prior
      ensures Valid() && hist == h
      ensures
        var o := ReceiverSpec.OnData(old(r), n, Block(old(unit.msgNo), old(unit.data)));
        && r == o.0 && report == Encode(if o.1 == None then [] else [o.1.value])
        && (res == 0 <==> n in r.store && n !in old(r).store) && (unit.flag == 0 <==> res != 0)
      ensures report != [] <==> !(r.loss <= old(r).loss)
    {
      assert Shown(0);
      assert Seen(0);
      RcvInvGrows(r, isn, hist, h);
      hist := h;
      DataFacts(n);
      ghost var b := Block(unit.msgNo, unit.data);
      report := [];
      var offset := SeqOff(rcvLastAck, seqNo);
      var avail := buffer.GetAvailBufSize();
      if offset < 0 || offset >= avail {
        return -1, report;
      }
      res, report := AcceptData(unit, seqNo, offset, n, b);
    }

    method AcceptData(unit: ReceiveBuffer.Unit, seqNo: int, offset: int, ghost n: int, ghost b: Block)
      returns (res: int, report: seq<int>)
      requires Formed() && unit in buffer.queue.units && unit.flag == 0 && b == Block(unit.msgNo, unit.data)
      requires seqNo == Wrap(n) && SentAs(hist, isn, n, b)
      requires Near(r.cur, n) && Near(r.lastAck, n) && 0 <= offset == n - r.lastAck < Avail(r)
      modifies this`r, this`rcvCurrSeqNo
      modifies buffer`maxPos, buffer`ledger, buffer`store, buffer.slots, buffer.queue`count, unit`flag
      modifies lossList, lossList.data1, lossList.data2, lossList.next, lossList.prior
      ensures Formed() && unit.flag == if res == 0 then 1 else 0
      ensures
        var o := ReceiverSpec.OnData(old(r), n, b);
        && r == o.0 && report == Encode(if o.1 == None then [] else [o.1.value])
        && (res == 0 <==> n in r.store && n !in old(r).store)
      ensures report != [] <==> !(r.loss <= old(r).loss)
    {
      OnDataSound(r, isn, hist, n, b);
      ghost var r' := ReceiverSpec.OnData(r, n, b).0;
      res, report := Accept(unit, seqNo, offset, n);
      Adopt(r');
    }

    /** The units of the buffer stay where they are. */
    method StoreUnit(unit: ReceiveBuffer.Unit, offset: int, ghost n: int) returns (stored: bool)
      requires Holds(r) && unit in buffer.queue.units && unit.flag == 0
      requires r.size == buffer.size && 0 <= offset == n - r.lastAck < Avail(r)
      modifies buffer`maxPos, buffer`ledger, buffer`store, buffer.slots, buffer.queue`count, unit`flag
      ensures stored <==> n !in r.store
      ensures Holds(if stored then r.(store := r.store[n := Block(unit.msgNo, unit.data)]) else r)
      ensures unit.flag == if stored then 1 else 0
    {
      var added := buffer.AddData(unit, offset);
      stored := added >= 0;
    }

    /** What the arrival of the packet n makes of the parts, r being the state before. */
    ghost predicate Arrived(n: int, b: Block, res: int, report: seq<int>)
      reads this, buffer, buffer.slots, buffer.ledger.held.Values, buffer.queue, buffer.queue.units
      reads lossList, lossList.data1, lossList.data2, lossList.next, lossList.prior
    {
      var (r', gap) := ReceiverSpec.OnData(r, n, b);
      && Holds(r') && Misses(r') && rcvCurrSeqNo == Wrap(r'.cur)
      && report == Encode(if gap == None then [] else [gap.value])
      && (res == 0 <==> n in r'.store && n !in r.store)
    }

    /** A packet that fits in the buffer. */
    method Accept(unit: ReceiveBuffer.Unit, seqNo: int, offset: int, ghost n: int) returns (res: int, report: seq<int>)
      requires Numbers(r) && Holds(r) && Misses(r)
      requires unit in buffer.queue.units && unit.flag == 0 && seqNo == Wrap(n)
      requires Near(r.cur, n) && Near(r.lastAck, n) && 0 <= offset == n - r.lastAck < Avail(r)
      modifies this`rcvCurrSeqNo
      modifies buffer`maxPos, buffer`ledger, buffer`store, buffer.slots, buffer.queue`count, unit`flag
      modifies lossList, lossList.data1, lossList.data2, lossList.next, lossList.prior
      ensures Arrived(n, Block(unit.msgNo, unit.data), res, report) && unit.flag == if res == 0 then 1 else 0
    {
      ghost var b := Block(unit.msgNo, unit.data);
      res, report := -1, [];
      var stored := StoreUnit(unit, offset, n);
      if stored {
        report := Detect(seqNo, n, b);
        res := 0;
      }
    }

    /** Loss detection for a stored packet. */
    method Detect(seqNo: int, ghost n: int, ghost b: Block) returns (report: seq<int>)
      requires Numbers(r) && Misses(r) && seqNo == Wrap(n)
      requires r.lastAck <= n < r.start + r.size - 1 && n !in r.store && Near(r.cur, n) && Near(r.lastAck, n)
      modifies this`rcvCurrSeqNo, lossList, lossList.data1, lossList.data2, lossList.next, lossList.prior
      ensures
        var o := ReceiverSpec.OnData(r, n, b);
        && rcvCurrSeqNo == Wrap(o.0.cur) && lossList.Valid() && lossList.Lost() == o.0.loss
        && report == Encode(if o.1 == None then [] else [o.1.value])
    {
      DataFacts(n);
      MissingBounds(r, isn, hist);
      report := [];
      if SeqCmp(seqNo, IncSeq(rcvCurrSeqNo)) > 0 {
        lossList.Insert(IncSeq(rcvCurrSeqNo), DecSeq(seqNo), r.cur + 1, n - 1);
        report := if IncSeq(rcvCurrSeqNo) == DecSeq(seqNo) then [DecSeq(seqNo)]
                  else [IncSeq(rcvCurrSeqNo) + MARK, DecSeq(seqNo)];
        assert [(r.cur + 1, n - 1)][1..] == [];
      }
      if SeqCmp(seqNo, rcvCurrSeqNo) > 0 {
        rcvCurrSeqNo := seqNo;
      } else {
        var removed := lossList.Remove(seqNo, n);
      }
    }

    lemma LeastIs(l: set<int>, n: int)
      requires n in l && forall x | x in l :: n <= x
      ensures Least(l) == n
    {
    }

    /** The least number that has not been received, a being its absolute value. */
    method FirstMissing() returns (ack: int, ghost a: int)
      requires Numbers(r) && Misses(r)
      ensures a == NextAck(r) && ack == Wrap(a)
    {
      IncAgrees(r.cur);
      var length := lossList.GetLossLength();
      if length == 0 {
        assert r.loss == {};
        return IncSeq(rcvCurrSeqNo), r.cur + 1;
      }
      assert r.loss != {};
      ack, a := lossList.GetFirstLostSeq();
      LeastIs(r.loss, a);
    }

    /** A lite acknowledgement tells the number and changes nothing. */
    method SendLiteAck() returns (ack: Option<int>)
      requires Valid() && Near(r.lastAckAck, NextAck(r))
      ensures ack == match LiteAck(r) { case None => None case Some(a) => Some(Wrap(a)) }
    {
      assert Shown(0);
      ghost var a;
      var seqNo;
      seqNo, a := FirstMissing();
      NearAgrees(r.lastAckAck, a);
      if seqNo == rcvLastAckAck {
        return None;
      }
      return Some(seqNo);
    }

    /** Moves the acknowledged position to a, which comes after it. */
    method MoveAck(ack: int, ghost a: int)
      requires Numbers(r) && Holds(r) && ack == Wrap(a) && r.lastAck < a < r.start + r.size
      modifies this`rcvLastAck, buffer`lastAckPos, buffer`maxPos, buffer`ledger
      ensures Holds(r.(lastAck := a)) && rcvLastAck == ack
    {
      NearAgrees(r.lastAck, a);
      var ackSize := SeqOff(rcvLastAck, ack);
      rcvLastAck := ack;
      buffer.AckData(ackSize);
    }

    /** A full acknowledgement; due says whether a repeated one may be sent at this time. */
    method SendAck(due: bool, now: int) returns (out: Option<WireAck>)
      requires Valid() && Near(r.lastAckAck, NextAck(r))
      modifies this`r, this`rcvLastAck, this`ackSeqNo, buffer`lastAckPos, buffer`maxPos, buffer`ledger
      modifies ackWindow, ackWindow.ackSeqNo, ackWindow.ack, ackWindow.timeStamp
      ensures Valid() && r == ReceiverSpec.SendAck(old(r), due).0
      ensures SameAck(out, ReceiverSpec.SendAck(old(r), due).1)
    {
      assert Shown(0);
      NextAckSound(r, isn, hist);
      ghost var a;
      var ack;
      ack, a := FirstMissing();
      NearAgrees(r.lastAckAck, a);
      if ack == rcvLastAckAck {
        return None;
      }
      var worth := Advance(ack, due, a);
      if !worth {
        return None;
      }
      out := ReportAck(now);
    }

    /** Moves the acknowledged position as far as it goes; worth is whether that is to be told. */
    method Advance(ack: int, due: bool, ghost a: int) returns (worth: bool)
      requires Formed() && a == NextAck(r) && ack == Wrap(a) && r.lastAck <= a <= r.cur + 1
      requires Sound(r.(lastAck := a), isn, hist)
      modifies this`r, this`rcvLastAck, buffer`lastAckPos, buffer`maxPos, buffer`ledger
      ensures Formed() && (worth <==> a > old(r).lastAck || due)
      ensures r == old(r).(lastAck := a)
    {
      NearAgrees(a, r.lastAck);
      if SeqCmp(ack, rcvLastAck) > 0 {
        ghost var r' := r.(lastAck := a);
        MoveAck(ack, a);
        Adopt(r');
        return true;
      } else if ack == rcvLastAck {
        return due;
      } else {
        return false;
      }
    }

    /** A report of all that is missing, as far as limit words go; nothing when nothing is missing. */
    method SendReport(limit: nat)
      returns (report: seq<int>, ghost ranges: seq<(int, int)>, ghost whole: bool, ghost bound: int)
      requires Valid()
      ensures report == Encode(ranges) && (ranges == [] <==> r.loss == {} || limit < 2) && |report| <= limit
      ensures ranges != [] ==> Reports(ranges, r.loss, whole, bound)
    {
      assert Shown(0);
      report, ranges, whole, bound := WriteReport(limit);
    }

    method CopyReport(limit: nat)
      returns (report: seq<int>, ghost ranges: seq<(int, int)>, ghost whole: bool, ghost bound: int)
      requires lossList.Valid()
      ensures report == Encode(ranges) && |report| <= limit
      ensures ranges == [] <==> lossList.Lost() == {} || limit < 2
      ensures Reports(ranges, lossList.Lost(), whole, bound)
    {
      var words := new int[limit];
      var len;
      len, ranges, whole, bound := lossList.GetLossArray(words, limit);
      report := words[..len];
    }

    method WriteReport(limit: nat)
      returns (report: seq<int>, ghost ranges: seq<(int, int)>, ghost whole: bool, ghost bound: int)
      requires lossList.Valid()
      ensures report == Encode(ranges) && |report| <= limit
      ensures ranges == [] <==> lossList.Lost() == {} || limit < 2
      ensures ranges != [] ==> Reports(ranges, lossList.Lost(), whole, bound)
    {
      report, ranges, whole, bound := [], [], true, 0;
      var length := lossList.GetLossLength();
      if length > 0 {
        report, ranges, whole, bound := CopyReport(limit);
      }
    }

    /** Sends the acknowledgement out and records it, unless the sender has had it before. */
    method ReportAck(now: int) returns (out: Option<WireAck>)
      requires Formed() && Near(r.lastAckAck, r.lastAck)
      modifies this`r, this`ackSeqNo
      modifies ackWindow, ackWindow.ackSeqNo, ackWindow.ack, ackWindow.timeStamp
      ensures Formed() && r == ReceiverSpec.ReportAck(old(r)).0 && SameAck(out, ReceiverSpec.ReportAck(old(r)).1)
    {
      NearAgrees(r.lastAck, r.lastAckAck);
      if SeqCmp(rcvLastAck, rcvLastAckAck) <= 0 {
        return None;
      }
      out := Announce(now);
    }

    method Announce(now: int) returns (out: Option<WireAck>)
      requires Formed() && r.lastAck > r.lastAckAck
      modifies this`r, this`ackSeqNo
      modifies ackWindow, ackWindow.ackSeqNo, ackWindow.ack, ackWindow.timeStamp
      ensures Formed() && r == ReceiverSpec.ReportAck(old(r)).0 && SameAck(out, ReceiverSpec.ReportAck(old(r)).1)
    {
      ReportAckSound(r, isn, hist);
      var avail := buffer.GetAvailBufSize();
      ghost var r' := ReceiverSpec.ReportAck(r).0;
      Remember(now);
      out := Some(WireAck(ackSeqNo, rcvLastAck, if avail < 2 then 2 else avail));
      Adopt(r');
    }

    /** The acknowledgement gets a number and goes into the history. */
    method Remember(now: int)
      requires Remembers(r) && Apart() && ackSeqNo == r.ackNo && rcvLastAck == Wrap(r.lastAck)
      modifies this`ackSeqNo, ackWindow, ackWindow.ackSeqNo, ackWindow.ack, ackWindow.timeStamp
      ensures ackSeqNo == IncAck(r.ackNo)
      ensures Remembers(r.(acks := StoreAck(r.acks, Ack(IncAck(r.ackNo), r.lastAck), ACK_WINDOW)))
    {
      ackSeqNo := IncAck(ackSeqNo);
      OnWireStore(ackWindow.records, r.acks, ackSeqNo, r.lastAck);
      ackWindow.Store(ackSeqNo, rcvLastAck, now);
    }

    /** An acknowledgement of an acknowledgement; rtt is -1 when the history does not have it. */
    method OnAck2(ackNo: int, now: int) returns (rtt: int)
      requires Valid() && forall a | a in r.acks :: Near(a.ack, r.lastAckAck)
      modifies this`r, this`rcvLastAckAck, ackWindow, ackWindow.ackSeqNo
      ensures Valid() && r == ReceiverSpec.OnAck2(old(r), ackNo, rtt > 0)
    {
      assert Shown(0);
      rtt := HearAck2(ackNo, now);
    }

    method HearAck2(ackNo: int, now: int) returns (rtt: int)
      requires Formed() && forall a | a in r.acks :: Near(a.ack, r.lastAckAck)
      modifies this`r, this`rcvLastAckAck, ackWindow, ackWindow.ackSeqNo
      ensures Formed() && r == ReceiverSpec.OnAck2(old(r), ackNo, rtt > 0)
    {
      rtt := Drop(ackNo, now);
      OnAck2Sound(r, isn, hist, ackNo, rtt > 0);
      Adopt(ReceiverSpec.OnAck2(r, ackNo, rtt > 0));
    }

    /** What it makes of the history and of the last acknowledged acknowledgement. */
    method Drop(ackNo: int, now: int) returns (rtt: int)
      requires ackWindow.Valid() && OnWire(ackWindow.records, r.acks) && rcvLastAckAck == Wrap(r.lastAckAck)
      requires forall a | a in r.acks :: Near(a.ack, r.lastAckAck)
      modifies this`rcvLastAckAck, ackWindow, ackWindow.ackSeqNo
      ensures ackWindow.Valid() && OnWire(ackWindow.records, ReceiverSpec.OnAck2(r, ackNo, rtt > 0).acks)
      ensures rcvLastAckAck == Wrap(ReceiverSpec.OnAck2(r, ackNo, rtt > 0).lastAckAck)
    {
      OnWireFind(ackWindow.records, r.acks, ackNo);
      ghost var i := Find(r.acks, ackNo);
      var ack;
      rtt, ack := ackWindow.Acknowledge(ackNo, now);
      if rtt > 0 {
        assert r.acks[i] in r.acks;
        Learn(ack, r.acks[i].ack);
      }
    }

    /** The sender knows of the acknowledgement of a. */
    method Learn(ack: int, ghost a: int)
      requires rcvLastAckAck == Wrap(r.lastAckAck) && ack == Wrap(a) && Near(a, r.lastAckAck)
      modifies this`rcvLastAckAck
      ensures rcvLastAckAck == Wrap(Max(a, r.lastAckAck))
    {
      NearAgrees(a, r.lastAckAck);
      if SeqCmp(ack, rcvLastAckAck) > 0 {
        rcvLastAckAck := ack;
      }
    }

    /** Copies acknowledged bytes out to the application. */
    method Read(len: int) returns (out: Bytes)
      requires Valid() && len >= 0
      modifies this`r, buffer`startPos, buffer`ledger, buffer`store, buffer`seen, buffer`notch, buffer.slots
      modifies buffer.queue`count, buffer.ledger.held.Values`flag
      ensures Valid() && Readable(old(r))
      ensures r == ReceiverSpec.Read(old(r), len).0 && out == ReceiverSpec.Read(old(r), len).1
    {
      assert Shown(0);
      out := TakeOut(len);
    }

    method TakeOut(len: int) returns (out: Bytes)
      requires Formed() && len >= 0
      modifies this`r, buffer`startPos, buffer`ledger, buffer`store, buffer`seen, buffer`notch, buffer.slots
      modifies buffer.queue`count, buffer.ledger.held.Values`flag
      ensures Formed() && Readable(old(r))
      ensures r == ReceiverSpec.Read(old(r), len).0 && out == ReceiverSpec.Read(old(r), len).1
    {
      ReadSound(r, isn, hist, len);
      out := buffer.ReadBuffer(len);
      Adopt(ReceiverSpec.Read(r, len).0);
    }
  }
}
