/** What the protocol guarantees in every state of every run. */
module Guarantees {
  import opened Ring
  import opened SeqNo
  import opened Packets
  import opened Intervals
  import opened SenderSpec
  import opened ReceiverSpec
  import opened Protocol

  /** Nothing that was accepted, sent, acknowledged or read is ever taken back. */
  ghost predicate Grows(s: Sys, s': Sys) {
    && s.accepted <= s'.accepted && s.read <= s'.read && s.hist <= s'.hist && s.net <= s'.net
    && s.snd.dataUna <= s'.snd.dataUna && s.snd.una <= s'.snd.una && s.snd.cur <= s'.snd.cur
    && s.rcv.lastAck <= s'.rcv.lastAck && s.rcv.cur <= s'.rcv.cur && s.rcv.start <= s'.rcv.start
    && s.rcv.lastAckAck <= s'.rcv.lastAckAck <= s'.rcv.lastAck && NextAck(s.rcv) <= NextAck(s'.rcv)
  }

  lemma StepGrows(c: Config, s: Sys, e: Event)
    requires ValidConfig(c) && Inv(c, s) && Enabled(s, e)
    ensures Grows(s, Step(c, s, e))
  {
    match e {
      case Delivered(p, flag) => DeliverGrows(c, s, p, flag);
      case AppRead(len) => ReceiverGrows(c, s, e);
      case AckSent(due) => ReceiverGrows(c, s, e);
      case _ => OthersGrow(c, s, e);
    }
  }

  lemma ReceiverGrows(c: Config, s: Sys, e: Event)
    requires ValidConfig(c) && Inv(c, s) && Enabled(s, e) && (e.AppRead? || e.AckSent?)
    ensures Grows(s, Step(c, s, e))
  {
    NextAckIsLeast(s.rcv, c.isn, s.hist);
    assert NextAck(Step(c, s, e).rcv) == NextAck(s.rcv);
  }

  lemma OthersGrow(c: Config, s: Sys, e: Event)
    requires ValidConfig(c) && Inv(c, s) && Enabled(s, e) && !e.Delivered? && !e.AppRead? && !e.AckSent?
    ensures Grows(s, Step(c, s, e))
  {
    assert Step(c, s, e).rcv == s.rcv;
  }

  lemma DeliverGrows(c: Config, s: Sys, p: Packet, flag: bool)
    requires ValidConfig(c) && Inv(c, s) && p in s.net
    ensures Grows(s, Deliver(s, p, flag))
  {
    match p {
      case DataPacket(d) => DataGrows(c, s, d, flag);
      case NakPacket(ranges) => OnNakKeeps(s.snd, c.isn, s.hist, c.window, ranges);
      case Ack2Packet(no) => OnAck2Keeps(s.rcv, c.isn, s.hist, no, flag);
      case FullAckPacket(a) => FullAckGrows(c, s, a, flag);
      case LiteAckPacket(ack) => assert PacketOk(c, s, p);
    }
  }

  lemma DataGrows(c: Config, s: Sys, d: Data, flag: bool)
    requires ValidConfig(c) && Inv(c, s) && DataPacket(d) in s.net
    ensures Grows(s, Deliver(s, DataPacket(d), flag))
  {
    assert PacketOk(c, s, DataPacket(d));
    NextAckMoves(c, s, d.n, d.block);
  }

  lemma FullAckGrows(c: Config, s: Sys, a: FullAck, flag: bool)
    requires ValidConfig(c) && Inv(c, s) && FullAckPacket(a) in s.net
    ensures Grows(s, Deliver(s, FullAckPacket(a), flag))
  {
    assert PacketOk(c, s, FullAckPacket(a));
  }

  lemma RunStepGrows(c: Config, states: seq<Sys>, events: seq<Event>, j: int)
    requires IsRun(c, states, events) && 0 < j < |states|
    ensures Grows(states[j - 1], states[j])
  {
    RunInv(c, states, events, j - 1);
    StepGrows(c, states[j - 1], events[j - 1]);
  }

  lemma GrowsOn(s: Sys, s': Sys, s'': Sys)
    requires Grows(s, s') && Grows(s', s'')
    ensures Grows(s, s'')
  {
  }

  lemma GrowsSelf(c: Config, s: Sys)
    requires Inv(c, s)
    ensures Grows(s, s)
  {
  }

  lemma {:induction false} RunGrows(c: Config, states: seq<Sys>, events: seq<Event>, i: int, j: int)
    requires IsRun(c, states, events) && 0 <= i <= j < |states|
    ensures Grows(states[i], states[j])
    decreases j
  {
    if i == j {
      RunInv(c, states, events, j);
      GrowsSelf(c, states[i]);
    } else {
      RunGrows(c, states, events, i, j - 1);
      RunStepGrows(c, states, events, j);
      GrowsOn(states[i], states[j - 1], states[j]);
    }
  }

  /** Whatever is lost, repeated or reordered, the bytes read are a prefix of the bytes added. */
  lemma StreamSafety(c: Config, states: seq<Sys>, events: seq<Event>, i: int, j: int)
    requires IsRun(c, states, events) && 0 <= i <= j < |states|
    ensures states[i].read <= states[i].accepted
    ensures states[i].read <= states[j].read && states[i].accepted <= states[j].accepted
    ensures !states[i].snd.broken
  {
    RunInv(c, states, events, i);
    RunGrows(c, states, events, i, j);
  }

  /** All packets ever sent under a number, first sent or sent again, are the same. */
  lemma RetransmissionFidelity(c: Config, states: seq<Sys>, events: seq<Event>, i: int, j: int, d: Data, d': Data)
    requires IsRun(c, states, events) && 0 <= i <= j < |states|
    requires DataPacket(d) in states[i].net && DataPacket(d') in states[j].net && d.n == d'.n
    ensures d == d' && SentAs(states[j].hist, c.isn, d.n, d.block)
  {
    RunInv(c, states, events, i);
    RunInv(c, states, events, j);
    RunGrows(c, states, events, i, j);
    assert PacketOk(c, states[i], DataPacket(d)) && PacketOk(c, states[j], DataPacket(d'));
  }

  /**
   A report sent in one state and delivered in a later one marks exactly what was missing then,
   is named, and is not acknowledged now; it never breaks the connection.
   */
  lemma ReportHeals(c: Config, states: seq<Sys>, events: seq<Event>, i: int, j: int,
                    ranges: seq<(int, int)>, whole: bool, bound: int, flag: bool)
    requires IsRun(c, states, events) && 0 <= i <= j < |events|
    requires events[i] == ReportSent(ranges, whole, bound) && events[j] == Delivered(NakPacket(ranges), flag)
    ensures
      var s := states[j].snd;
      !s.broken && states[j + 1].snd == s.(loss := s.loss + Marks(s, states[i].rcv.loss, whole, bound))
  {
    MissingWasSent(c, states, events, i, j);
    RunStep(c, states, events, i);
    RunStep(c, states, events, j);
    ReportMarks(states[j].snd, ranges, states[i].rcv.loss, whole, bound);
  }

  lemma RunStep(c: Config, states: seq<Sys>, events: seq<Event>, i: int)
    requires IsRun(c, states, events) && 0 <= i < |events|
    ensures Enabled(states[i], events[i]) && states[i + 1] == Step(c, states[i], events[i])
  {
  }

  lemma MissingWasSent(c: Config, states: seq<Sys>, events: seq<Event>, i: int, j: int)
    requires IsRun(c, states, events) && 0 <= i <= j < |states|
    ensures !states[j].snd.broken && forall x | x in states[i].rcv.loss :: x <= states[j].snd.cur
  {
    RunInv(c, states, events, i);
    RunInv(c, states, events, j);
    RunGrows(c, states, events, i, j);
  }

  ghost predicate Received(r: Rcv, n: int) {
    n < r.start || n in r.store
  }

  /** An acknowledgement in the network covers received packets only, and so does what the sender has let go. */
  lemma AcksAreTrue(c: Config, states: seq<Sys>, events: seq<Event>, i: int, n: int)
    requires IsRun(c, states, events) && 0 <= i < |states|
    ensures n < states[i].snd.dataUna || n < states[i].snd.una ==> Received(states[i].rcv, n)
    ensures forall a | FullAckPacket(a) in states[i].net && n < a.ack :: Received(states[i].rcv, n)
    ensures forall a | LiteAckPacket(a) in states[i].net && n < a :: Received(states[i].rcv, n)
  {
    var s := states[i];
    RunInv(c, states, events, i);
    NextAckIsLeast(s.rcv, c.isn, s.hist);
    forall a | FullAckPacket(a) in s.net && n < a.ack ensures Received(s.rcv, n) {
      assert PacketOk(c, s, FullAckPacket(a));
    }
    forall a | LiteAckPacket(a) in s.net && n < a ensures Received(s.rcv, n) {
      assert PacketOk(c, s, LiteAckPacket(a));
    }
  }

  /**
   The receiver's ledger: its loss list is exactly what is missing between lastAck and cur,
   and the number it would acknowledge next is the least one not received.
   */
  lemma LedgerExact(c: Config, states: seq<Sys>, events: seq<Event>, i: int)
    requires IsRun(c, states, events) && 0 <= i < |states|
    ensures
      var r := states[i].rcv;
      && (forall n :: n in r.loss <==> r.lastAck <= n <= r.cur && !Received(r, n))
      && !Received(r, NextAck(r)) && (forall n | n < NextAck(r) :: Received(r, n))
      && r.lastAck <= NextAck(r)
  {
    RunInv(c, states, events, i);
    NextAckIsLeast(states[i].rcv, c.isn, states[i].hist);
  }

  /** The sender keeps every number that is out within the widest window. */
  lemma WindowBound(c: Config, states: seq<Sys>, events: seq<Event>, i: int)
    requires IsRun(c, states, events) && 0 <= i < |states|
    ensures
      var s := states[i].snd;
      && s.dataUna <= s.una <= s.cur + 1 <= s.dataUna + c.window
      && s.una + s.window <= s.dataUna + c.window
      && forall n | n in s.loss :: s.dataUna <= n <= s.cur
  {
    RunInv(c, states, events, i);
  }

  /** So numbers out at the same time never share a slot of the loss list, whatever number slot 0 is for. */
  lemma SlotsDiffer(c: Config, states: seq<Sys>, events: seq<Event>, i: int, a: int, b: int, origin: int)
    requires IsRun(c, states, events) && 0 <= i < |states|
    requires states[i].snd.dataUna <= a < b <= states[i].snd.cur
    ensures Slot(a - origin, c.window * 2) != Slot(b - origin, c.window * 2)
  {
    WindowBound(c, states, events, i);
    SlotInjective(a - origin, b - origin, c.window * 2);
  }

  /** When the sender's buffer has emptied, one read gives the reader all that was added. */
  lemma Flush(c: Config, states: seq<Sys>, events: seq<Event>, i: int, len: int)
    requires IsRun(c, states, events) && 0 <= i < |states|
    requires states[i].snd.blocks == [] && len > |states[i].accepted|
    ensures Enabled(states[i], AppRead(len))
    ensures Step(c, states[i], AppRead(len)).read == states[i].accepted
  {
    RunInv(c, states, events, i);
    FlushState(c, states[i], len);
  }

  lemma FlushState(c: Config, s: Sys, len: int)
    requires ValidConfig(c) && Inv(c, s) && s.snd.blocks == [] && len > |s.accepted|
    ensures Enabled(s, AppRead(len)) && Step(c, s, AppRead(len)).read == s.accepted
  {
    HeldBound(s.rcv, c.isn, s.hist);
    var s' := Step(c, s, AppRead(len));
    StepKeeps(c, s, AppRead(len));
    TakesAll(s.rcv.store, s.rcv.start, s.rcv.lastAck, s.rcv.notch, len);
    assert s'.rcv.start - c.isn == |s.hist| && s'.rcv.notch == 0;
    assert Position(s'.rcv, c.isn, s.hist) == |s.accepted|;
  }

  lemma HeldBound(r: Rcv, isn: int, hist: seq<Block>)
    requires RcvInv(r, isn, hist)
    ensures |Held(r.store, r.start, r.lastAck)| <= |Join(hist, 0, |hist|)|
  {
    var a, b, k := r.start - isn, r.lastAck - isn, |hist|;
    HeldIsStream(r.store, r.start, r.lastAck, isn, hist);
    JoinSplit(hist, 0, a, k);
    JoinSplit(hist, a, b, k);
  }

  /** A read of more than there is takes all of it. */
  lemma {:induction false} TakesAll(store: map<int, Block>, i: int, j: int, notch: int, len: int)
    requires i <= j && AllStored(store, i, j) && NotchFits(store, i, j, notch) && len > |Held(store, i, j)|
    ensures Take(store, i, j, notch, len).start == j && Take(store, i, j, notch, len).notch == 0
    decreases j - i
  {
    if i < j {
      TakesAll(store, i + 1, j, 0, len - |store[i].data[notch..]|);
    }
  }

  // After a timeout

  /** The loss list is worked off k times: each time the least number is taken and sent again. */
  ghost function Resends(s: Snd, k: int): (Snd, seq<Data>)
    requires k >= 0
  {
    if k == 0 then (s, [])
    else
      var (s1, sent) := Resends(s, k - 1);
      var (s2, d) := Retransmit(TakeLost(s1));
      (s2, if d == None then sent else sent + [d.value])
  }

  lemma ResendsNext(s: Snd, k: int, s1: Snd, sent: seq<Data>, s2: Snd, d: Data)
    requires k > 0 && Resends(s, k - 1) == (s1, sent) && Retransmit(TakeLost(s1)) == (s2, Some(d))
    ensures Resends(s, k) == (s2, sent + [d])
  {
  }

  /** The blocks una to una + k - 1 of the history, under their numbers. */
  ghost function Outstanding(s: Snd, isn: int, hist: seq<Block>, k: int): seq<Data>
    requires isn <= s.una && k >= 0 && s.una + k - isn <= |hist|
  {
    seq(k, i requires 0 <= i < k => Data(s.una + i, hist[s.una + i - isn]))
  }

  /** Taking the least of the numbers n to the last one sent, and sending it again. */
  lemma ResendOne(s: Snd, isn: int, hist: seq<Block>, n: int)
    requires isn <= s.dataUna <= n <= s.cur < isn + |hist| && s.blocks == hist[s.dataUna - isn..]
    requires s.loss == Range(n, s.cur) && hist[n - isn].data != [] && s.pending == None
    ensures Retransmit(TakeLost(s)) == (s.(loss := Range(n + 1, s.cur)), Some(Data(n, hist[n - isn])))
  {
    assert n in s.loss && forall x | x in s.loss :: n <= x;
    assert Least(s.loss) == n;
    assert s.loss - {n} == Range(n + 1, s.cur);
    assert s.blocks[n - s.dataUna] == hist[n - isn];
  }

  lemma ResendFrom(s: Snd, isn: int, hist: seq<Block>, n: int)
    requires isn <= s.dataUna <= n <= s.cur < isn + |hist| && s.blocks == hist[s.dataUna - isn..]
    requires hist[n - isn].data != [] && s.pending == None
    ensures Retransmit(TakeLost(s.(loss := Range(n, s.cur))))
            == (s.(loss := Range(n + 1, s.cur)), Some(Data(n, hist[n - isn])))
  {
    ResendOne(s.(loss := Range(n, s.cur)), isn, hist, n);
  }

  lemma TimeoutLoses(s: Snd, isn: int, hist: seq<Block>, widest: int)
    requires SndInv(s, isn, hist, widest) && s.loss == {}
    ensures OnTimeout(s) == s.(loss := Range(s.una, s.cur))
  {
    if s.cur + 1 == s.una {
      assert Range(s.una, s.cur) == {};
    }
  }

  lemma OutstandingNext(s: Snd, isn: int, hist: seq<Block>, k: int)
    requires isn <= s.una && k > 0 && s.una + k - isn <= |hist|
    ensures
      var n := s.una + k - 1;
      Outstanding(s, isn, hist, k) == Outstanding(s, isn, hist, k - 1) + [Data(n, hist[n - isn])]
  {
  }

  lemma NextWorkedOff(s: Snd, isn: int, hist: seq<Block>, k: int)
    requires isn <= s.dataUna <= s.una <= s.cur + 1 <= isn + |hist| && s.blocks == hist[s.dataUna - isn..]
    requires s.pending == None && forall b | b in hist :: b.data != []
    requires 0 < k <= s.cur + 1 - s.una
    requires Resends(s, k - 1) == (s.(loss := Range(s.una + k - 1, s.cur)), Outstanding(s, isn, hist, k - 1))
    ensures Resends(s, k) == (s.(loss := Range(s.una + k, s.cur)), Outstanding(s, isn, hist, k))
  {
    var n := s.una + k - 1;
    assert hist[n - isn] in hist;
    ResendFrom(s, isn, hist, n);
    OutstandingNext(s, isn, hist, k);
    ResendsNext(s, k, s.(loss := Range(n, s.cur)), Outstanding(s, isn, hist, k - 1),
                s.(loss := Range(n + 1, s.cur)), Data(n, hist[n - isn]));
  }

  lemma {:induction false} LossWorkedOff(s: Snd, isn: int, hist: seq<Block>, k: int)
    requires isn <= s.dataUna <= s.una <= s.cur + 1 <= isn + |hist| && s.blocks == hist[s.dataUna - isn..]
    requires s.pending == None && forall b | b in hist :: b.data != []
    requires s.loss == Range(s.una, s.cur) && 0 <= k <= s.cur + 1 - s.una
    ensures Resends(s, k) == (s.(loss := Range(s.una + k, s.cur)), Outstanding(s, isn, hist, k))
    decreases k
  {
    if k == 0 {
      assert Outstanding(s, isn, hist, k) == [];
    } else {
      LossWorkedOff(s, isn, hist, k - 1);
      NextWorkedOff(s, isn, hist, k);
    }
  }

  /** After a timeout with nothing else lost, everything that is out is sent again, once and in order. */
  lemma TimeoutResends(s: Snd, isn: int, hist: seq<Block>, widest: int, k: int)
    requires SndInv(s, isn, hist, widest) && s.loss == {} && s.pending == None && forall b | b in hist :: b.data != []
    requires 0 <= k <= s.cur + 1 - s.una
    ensures s.cur + 1 - isn <= |hist|
    ensures Resends(OnTimeout(s), k) == (s.(loss := Range(s.una + k, s.cur)), Outstanding(s, isn, hist, k))
  {
    TimeoutLoses(s, isn, hist, widest);
    LossWorkedOff(OnTimeout(s), isn, hist, k);
  }

  // What a delivered packet meets: the preconditions of the classes Sender and Receiver

  /** A data packet that is not too old meets what Receiver.OnData asks for. */
  lemma DataIsNear(c: Config, s: Sys, d: Data)
    requires Inv(c, s) && DataPacket(d) in s.net && Abs(d.n - s.rcv.lastAck) + c.rcvBuf < SEQ_NO_TH
    ensures SentAs(s.hist, c.isn, d.n, d.block) && Near(s.rcv.lastAck, d.n) && Near(s.rcv.cur, d.n)
  {
    assert PacketOk(c, s, DataPacket(d));
  }

  /** The same for an acknowledgement: in particular it never covers what was not sent. */
  lemma AckIsNear(c: Config, s: Sys, a: FullAck)
    requires Inv(c, s) && FullAckPacket(a) in s.net && Abs(a.ack - s.snd.una) + c.window + 1 < SEQ_NO_TH
    ensures Near(s.snd.una, a.ack) && Near(s.snd.dataUna, a.ack) && Near(s.snd.cur + 1, a.ack)
    ensures a.window <= c.window && a.ack <= s.snd.cur + 1
  {
    assert PacketOk(c, s, FullAckPacket(a));
  }

  lemma LiteAckIsNear(c: Config, s: Sys, ack: int)
    requires Inv(c, s) && LiteAckPacket(ack) in s.net && Abs(ack - s.snd.una) < SEQ_NO_TH
    ensures Near(s.snd.una, ack) && ack <= s.snd.cur + 1
  {
    assert PacketOk(c, s, LiteAckPacket(ack));
    NextAckIsLeast(s.rcv, c.isn, s.hist);
  }

  lemma NakIsNear(c: Config, s: Sys, ranges: seq<(int, int)>, r: (int, int))
    requires Inv(c, s) && NakPacket(ranges) in s.net && r in ranges
    requires Abs(r.0 - s.snd.una) + c.window + 1 < SEQ_NO_TH && c.window + 1 < SEQ_NO_TH
    ensures r.0 <= r.1 <= s.snd.cur && Near(r.0, r.1) && Near(r.0, s.snd.cur) && Near(r.1, s.snd.cur)
    ensures Near(r.0, s.snd.una) && Near(r.1, s.snd.una)
  {
    assert PacketOk(c, s, NakPacket(ranges));
  }
}
