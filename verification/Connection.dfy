/**
 The two halves of a connection as they run: the classes Sender and Receiver, joined by the
 network of Protocol.  Every method is one event of a run, so that what Guarantees says of
 runs holds of the bytes that go into Send and come out of Read.
 */
module Connection {
  import opened SeqNo
  import opened Packets
  import opened LossReport
  import opened Intervals
  import opened SenderSpec
  import opened ReceiverSpec
  import opened Protocol
  import SenderHalf
  import ReceiverHalf
  import ReceiveBuffer
  import Guarantees
  import Effects

  class Connection {
    const sender: SenderHalf.Sender
    const receiver: ReceiverHalf.Receiver
    ghost const c: Config
    // The state of the run so far.
    ghost var sys: Sys

    /** Asserting Running of some number opens the invariant of the run. */
    ghost predicate Running(k: int) {
      true
    }

    ghost predicate Apart() {
      {sender.lossList.data1, sender.lossList.data2, sender.lossList.next} !!
      {receiver.lossList.data1, receiver.lossList.data2, receiver.lossList.next, receiver.lossList.prior,
       receiver.ackWindow.ackSeqNo, receiver.ackWindow.ack, receiver.ackWindow.timeStamp}
    }

    ghost predicate InRun(s: Sys) {
      && ValidConfig(c) && c.isn <= MAX_SEQ_NO && c.window + 1 < SEQ_NO_TH
      && forall k {:trigger Running(k)} | Running(k) :: Inv(c, s) && Effects.Bounded(c, s)
    }

    ghost predicate Valid()
      reads this, sender, sender.buffer, sender.buffer.ring
      reads sender.lossList, sender.lossList.data1, sender.lossList.data2, sender.lossList.next
      reads receiver, receiver.buffer, receiver.buffer.slots, receiver.buffer.ledger.held.Values
      reads receiver.buffer.queue, receiver.buffer.queue.units
      reads receiver.lossList, receiver.lossList.data1, receiver.lossList.data2
      reads receiver.lossList.next, receiver.lossList.prior
      reads receiver.ackWindow, receiver.ackWindow.ackSeqNo, receiver.ackWindow.ack, receiver.ackWindow.timeStamp
    {
      && Apart() && InRun(sys)
      && sender.Valid() && sender.s == sys.snd && sender.hist == sys.hist && sender.isn == c.isn
      && sender.widest == c.window && sender.buffer.mss == c.mss && sender.bufSize == c.sndBuf
      && receiver.Valid() && receiver.r == sys.rcv && receiver.hist <= sys.hist && receiver.isn == c.isn
    }

    constructor (isn: int, window: int, mss: int, sndBuf: int, rcvBuf: int, queue: ReceiveBuffer.UnitQueue)
      requires 1 <= isn <= MAX_SEQ_NO && mss > 0 && 2 <= rcvBuf <= window && window + 1 < SEQ_NO_TH && queue.Valid()
      ensures Valid() && sys == Init(Config(isn, mss, sndBuf, rcvBuf, window)) && receiver.buffer.queue == queue
      ensures c == Config(isn, mss, sndBuf, rcvBuf, window)
    {
      sender := new SenderHalf.Sender(isn, isn, window, mss, sndBuf);
      receiver := new ReceiverHalf.Receiver(queue, isn, rcvBuf, window);
      c := Config(isn, mss, sndBuf, rcvBuf, window);
      sys := Init(Config(isn, mss, sndBuf, rcvBuf, window));
      new;
      InitInv(c);
    }

    /** The parts have taken the event e; so does the run. */
    ghost method Moved(e: Event)
      requires Apart() && InRun(sys) && Enabled(sys, e)
      requires sender.Valid() && sender.s == Step(c, sys, e).snd && sender.hist == Step(c, sys, e).hist
      requires sender.isn == c.isn && sender.widest == c.window
      requires sender.buffer.mss == c.mss && sender.bufSize == c.sndBuf
      requires receiver.Valid() && receiver.r == Step(c, sys, e).rcv && receiver.hist <= Step(c, sys, e).hist
      requires receiver.isn == c.isn
      modifies this`sys
      ensures Valid() && Effects.Happened(c, old(sys), e, sys)
    {
      assert Running(0);
      StepKeeps(c, sys, e);
      Effects.StepHappens(c, sys, e);
      Effects.StepBounded(c, sys, e);
      sys := Step(c, sys, e);
    }

    /** The application sends. */
    method Send(data: Bytes) returns (n: int)
      requires Valid()
      modifies this`sys, sender`s, sender`hist, sender.buffer, sender.buffer.ring
      ensures Valid() && Effects.Happened(c, old(sys), AppSend(data), sys)
      ensures 0 <= n <= |data| && sys.accepted == old(sys.accepted) + data[..n]
    {
      n := sender.Send(data);
      Moved(AppSend(data));
    }

    /** packData, first half. */
    method TakeLost() returns (seqNo: int, ghost n: int)
      requires Valid() && Enabled(sys, LostTaken)
      modifies this`sys, sender`s
      modifies sender.lossList, sender.lossList.data1, sender.lossList.data2, sender.lossList.next
      ensures Valid() && Effects.Happened(c, old(sys), LostTaken, sys)
      ensures seqNo == -1 <==> old(sys).snd.loss == {}
      ensures old(sys).snd.loss != {} ==> sys.snd.pending == Some(n) && seqNo == Wrap(n)
    {
      seqNo, n := sender.TakeLost();
      Moved(LostTaken);
    }

    /** The packet is on the network, as it is on the wire. */
    ghost predicate Sent(w: Option<SenderHalf.Wire>)
      reads this
    {
      w != None ==> exists n :: DataPacket(Data(n, w.value.block)) in sys.net && w.value.seqNo == Wrap(n)
    }

    /** packData, second half, for the number n taken before. */
    method Resend(seqNo: int, ghost n: int) returns (packet: Option<SenderHalf.Wire>)
      requires Valid() && sys.snd.pending == Some(n) && seqNo == Wrap(n) && Near(sys.snd.dataUna, n)
      modifies this`sys, sender`s
      ensures Valid() && Effects.Happened(c, old(sys), Resent, sys) && Sent(packet)
    {
      ghost var d := Retransmit(sys.snd).1;
      packet := sender.Resend(seqNo, n);
      Moved(Resent);
      assert d != None ==> DataPacket(Data(d.value.n, d.value.block)) in sys.net;
    }

    /** packData for a new packet. */
    method SendNew(cwnd: int) returns (packet: Option<SenderHalf.Wire>)
      requires Valid() && Enabled(sys, NewSent(cwnd))
      modifies this`sys, sender`s, sender`sndCurrSeqNo, sender.buffer`curr, sender.buffer`ahead
      ensures Valid() && Effects.Happened(c, old(sys), NewSent(cwnd), sys) && Sent(packet)
    {
      ghost var d := SenderSpec.SendNew(sys.snd, cwnd).1;
      packet := sender.SendNew(cwnd);
      Moved(NewSent(cwnd));
      assert d != None ==> DataPacket(Data(d.value.n, d.value.block)) in sys.net;
    }

    /** packData: a lost number goes first; a new packet is only sent when there is none. */
    method PackData(cwnd: int) returns (packet: Option<SenderHalf.Wire>)
      requires Valid() && Enabled(sys, LostTaken)
      modifies this`sys, sender`s, sender`sndCurrSeqNo, sender.buffer`curr, sender.buffer`ahead
      modifies sender.lossList, sender.lossList.data1, sender.lossList.data2, sender.lossList.next
      ensures Valid() && Sent(packet) && sys.snd.pending == None
      ensures sys == Step(c, Step(c, old(sys), LostTaken), if old(sys).snd.loss != {} then Resent else NewSent(cwnd))
    {
      LostAreNear();
      var seqNo;
      ghost var n;
      seqNo, n := TakeLost();
      if seqNo >= 0 {
        packet := Resend(seqNo, n);
      } else {
        packet := SendNew(cwnd);
      }
    }

    lemma LostAreNear()
      requires InRun(sys)
      ensures sys.snd.loss != {} ==> Near(sys.snd.dataUna, Least(sys.snd.loss))
    {
      assert Running(0);
      if sys.snd.loss != {} {
        assert Least(sys.snd.loss) in sys.snd.loss;
      }
    }

    /** The expiration timer. */
    method OnTimeout()
      requires Valid()
      modifies this`sys, sender`s
      modifies sender.lossList, sender.lossList.data1, sender.lossList.data2, sender.lossList.next
      ensures Valid() && Effects.Happened(c, old(sys), TimedOut, sys)
    {
      sender.OnTimeout();
      Moved(TimedOut);
    }

    /** A full acknowledgement arrives; flag says whether it is acknowledged in turn. */
    method OnAck(ack: int, window: int, ghost a: FullAck, ghost flag: bool)
      requires Valid() && FullAckPacket(a) in sys.net && ack == Wrap(a.ack) && window == a.window
      requires Abs(a.ack - sys.snd.una) + c.window + 1 < SEQ_NO_TH
      modifies this`sys, sender`s, sender`flowWindowSize, sender`sndLastAck, sender`sndLastDataAck, sender`broken
      modifies sender.buffer`first, sender.buffer`count, sender.buffer`ring, sender.buffer`ahead, sender.buffer`blocks
      modifies sender.lossList, sender.lossList.data1, sender.lossList.data2, sender.lossList.next
      ensures Valid() && Effects.Happened(c, old(sys), Delivered(FullAckPacket(a), flag), sys)
    {
      Guarantees.AckIsNear(c, sys, a) by {
        assert Running(0);
      }
      sender.OnAck(ack, window, a.ack);
      Moved(Delivered(FullAckPacket(a), flag));
    }

    /** A lite acknowledgement arrives. */
    method OnLiteAck(ack: int, ghost a: int)
      requires Valid() && LiteAckPacket(a) in sys.net && ack == Wrap(a) && Abs(a - sys.snd.una) < SEQ_NO_TH
      modifies this`sys, sender`s, sender`flowWindowSize, sender`sndLastAck
      ensures Valid() && Effects.Happened(c, old(sys), Delivered(LiteAckPacket(a), false), sys)
    {
      Guarantees.LiteAckIsNear(c, sys, a) by {
        assert Running(0);
      }
      sender.OnLiteAck(ack, a);
      Moved(Delivered(LiteAckPacket(a), false));
    }

    /** A loss report arrives. */
    method OnNak(words: seq<int>, ghost ranges: seq<(int, int)>)
      requires Valid() && NakPacket(ranges) in sys.net && words == Encode(ranges)
      requires forall r | r in ranges :: Abs(r.0 - sys.snd.una) + c.window + 1 < SEQ_NO_TH
      modifies this`sys, sender`s, sender`broken
      modifies sender.lossList, sender.lossList.data1, sender.lossList.data2, sender.lossList.next
      ensures Valid() && Effects.Happened(c, old(sys), Delivered(NakPacket(ranges), false), sys)
    {
      ReportsNear(ranges);
      ParseEncode(ranges);
      sender.OnNak(words, ranges);
      Moved(Delivered(NakPacket(ranges), false));
    }

    lemma ReportsNear(ranges: seq<(int, int)>)
      requires Valid() && NakPacket(ranges) in sys.net
      requires forall r | r in ranges :: Abs(r.0 - sys.snd.una) + c.window + 1 < SEQ_NO_TH
      ensures !sender.broken && forall r | r in ranges :: sender.Reported(r)
    {
      assert Running(0);
      sender.BrokenIs();
      forall r | r in ranges ensures sender.Reported(r) {
        Guarantees.NakIsNear(c, sys, ranges, r);
      }
    }

    lemma DataReady(d: Data)
      requires InRun(sys) && DataPacket(d) in sys.net && Abs(d.n - sys.rcv.lastAck) + c.rcvBuf < SEQ_NO_TH
      ensures SentAs(sys.hist, c.isn, d.n, d.block) && Near(sys.rcv.lastAck, d.n) && Near(sys.rcv.cur, d.n)
    {
      assert Running(0);
      Guarantees.DataIsNear(c, sys, d);
    }

    /** A data packet arrives in a free unit; report are the words of the loss report it causes, for the gap. */
    method OnData(unit: ReceiveBuffer.Unit, seqNo: int, ghost d: Data)
      returns (res: int, report: seq<int>, ghost gap: seq<(int, int)>)
      requires Valid() && unit in receiver.buffer.queue.units && unit.flag == 0
      requires DataPacket(d) in sys.net && seqNo == Wrap(d.n) && d.block == Block(unit.msgNo, unit.data)
      requires Abs(d.n - sys.rcv.lastAck) + c.rcvBuf < SEQ_NO_TH
      modifies this`sys, receiver`r, receiver`hist, receiver`rcvCurrSeqNo
      modifies receiver.buffer`maxPos, receiver.buffer`ledger, receiver.buffer`store, receiver.buffer.slots
      modifies receiver.buffer.queue`count, unit`flag
      modifies receiver.lossList, receiver.lossList.data1, receiver.lossList.data2
      modifies receiver.lossList.next, receiver.lossList.prior
      ensures Valid() && Effects.Happened(c, old(sys), Delivered(DataPacket(d), false), sys)
      ensures report == Encode(gap) && (gap != [] ==> NakPacket(gap) in sys.net)
    {
      DataReady(d);
      ghost var o := ReceiverSpec.OnData(sys.rcv, d.n, d.block).1;
      gap := if o == None then [] else [o.value];
      res, report := receiver.OnData(unit, seqNo, d.n, sys.hist);
      Moved(Delivered(DataPacket(d), false));
    }

    /** The receiver sends a lite acknowledgement. */
    method SendLiteAck() returns (ack: Option<int>)
      requires Valid() && Near(sys.rcv.lastAckAck, NextAck(sys.rcv))
      modifies this`sys
      ensures Valid() && Effects.Happened(c, old(sys), LiteAckSent, sys)
      ensures ack != None ==> exists a :: LiteAckPacket(a) in sys.net && ack.value == Wrap(a)
    {
      ack := receiver.SendLiteAck();
      Moved(LiteAckSent);
      assert LiteAck(sys.rcv) != None ==> LiteAckPacket(LiteAck(sys.rcv).value) in sys.net;
    }

    /** The receiver sends a full acknowledgement. */
    method SendAck(due: bool, now: int) returns (out: Option<ReceiverHalf.WireAck>)
      requires Valid() && Near(sys.rcv.lastAckAck, NextAck(sys.rcv))
      modifies this`sys, receiver`r, receiver`rcvLastAck, receiver`ackSeqNo
      modifies receiver.buffer`lastAckPos, receiver.buffer`maxPos, receiver.buffer`ledger
      modifies receiver.ackWindow, receiver.ackWindow.ackSeqNo, receiver.ackWindow.ack, receiver.ackWindow.timeStamp
      ensures Valid() && Effects.Happened(c, old(sys), AckSent(due), sys)
      ensures out != None ==> exists a :: FullAckPacket(a) in sys.net && ReceiverHalf.SameAck(out, Some(a))
    {
      ghost var a := ReceiverSpec.SendAck(sys.rcv, due).1;
      out := receiver.SendAck(due, now);
      Moved(AckSent(due));
      assert a != None ==> FullAckPacket(a.value) in sys.net;
    }

    /** The receiver reports what it is missing, as far as limit words go. */
    method SendReport(limit: nat)
      returns (report: seq<int>, ghost ranges: seq<(int, int)>, ghost whole: bool, ghost bound: int)
      requires Valid()
      modifies this`sys
      ensures Valid() && report == Encode(ranges) && (ranges == [] <==> old(sys).rcv.loss == {} || limit < 2)
      ensures ranges == [] ==> sys == old(sys)
      ensures ranges != [] ==> Enabled(old(sys), ReportSent(ranges, whole, bound))
      ensures ranges != [] ==> sys == Step(c, old(sys), ReportSent(ranges, whole, bound))
    {
      report, ranges, whole, bound := receiver.SendReport(limit);
      if report != [] {
        Moved(ReportSent(ranges, whole, bound));
      }
    }

    /** An acknowledgement is acknowledged. */
    method OnAck2(ackNo: int, now: int) returns (rtt: int)
      requires Valid() && Ack2Packet(ackNo) in sys.net
      requires forall a | a in sys.rcv.acks :: Near(a.ack, sys.rcv.lastAckAck)
      modifies this`sys, receiver`r, receiver`rcvLastAckAck, receiver.ackWindow, receiver.ackWindow.ackSeqNo
      ensures Valid() && Effects.Happened(c, old(sys), Delivered(Ack2Packet(ackNo), rtt > 0), sys)
    {
      rtt := receiver.OnAck2(ackNo, now);
      Moved(Delivered(Ack2Packet(ackNo), rtt > 0));
    }

    lemma CanRead(len: int)
      requires InRun(sys) && len > 0
      ensures Enabled(sys, AppRead(len))
    {
      assert Running(0);
    }

    lemma ReadIsPrefix()
      requires InRun(sys)
      ensures sys.read <= sys.accepted
    {
      assert Running(0);
    }

    /** The application reads; what it has read so far is a prefix of what was sent. */
    method Read(len: int) returns (out: Bytes)
      requires Valid() && len > 0
      modifies this`sys, receiver`r, receiver.buffer`startPos, receiver.buffer`ledger, receiver.buffer`store
      modifies receiver.buffer`seen, receiver.buffer`notch, receiver.buffer.slots
      modifies receiver.buffer.queue`count, receiver.buffer.ledger.held.Values`flag
      ensures Valid() && Enabled(old(sys), AppRead(len)) && sys == Step(c, old(sys), AppRead(len))
      ensures sys.read == old(sys.read) + out && sys.read <= sys.accepted
    {
      CanRead(len);
      out := TakeOut(len);
      ReadIsPrefix();
    }

    method TakeOut(len: int) returns (out: Bytes)
      requires Valid() && len > 0 && Enabled(sys, AppRead(len))
      modifies this`sys, receiver`r, receiver.buffer`startPos, receiver.buffer`ledger, receiver.buffer`store
      modifies receiver.buffer`seen, receiver.buffer`notch, receiver.buffer.slots
      modifies receiver.buffer.queue`count, receiver.buffer.ledger.held.Values`flag
      ensures Valid() && Effects.Happened(c, old(sys), AppRead(len), sys) && sys.read == old(sys.read) + out
    {
      out := receiver.Read(len);
      Moved(AppRead(len));
    }
  }
}
