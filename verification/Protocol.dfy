/**
 A connection in stream mode: one sender, one receiver and a network between them that
 may lose, repeat, delay and reorder whatever was put on it.  Numbers are absolute.
 */
module Protocol {
  import opened Packets
  import opened Intervals
  import opened SenderSpec
  import opened ReceiverSpec
  import LossReport

  /** A packet that was sent stays in the network; it may be delivered never, once or often. */
  datatype Packet =
    | DataPacket(data: Data)
    | FullAckPacket(full: FullAck)
    | LiteAckPacket(ack: int)
    | NakPacket(ranges: seq<(int, int)>)
    | Ack2Packet(ackNo: int)

  datatype Config = Config(isn: int, mss: int, sndBuf: int, rcvBuf: int, window: int)

  ghost predicate ValidConfig(c: Config) {
    1 <= c.isn && c.mss > 0 && 2 <= c.rcvBuf <= c.window
  }

  /** hist and accepted are all blocks and bytes the sender's application added, read what the receiver's got. */
  datatype Sys = Sys(snd: Snd, rcv: Rcv, net: set<Packet>, hist: seq<Block>, accepted: Bytes, read: Bytes)

  datatype Event =
    | AppSend(data: Bytes)
    | LostTaken
    | Resent
    | NewSent(cwnd: int)
    | TimedOut
    | Delivered(packet: Packet, flag: bool)
    | LiteAckSent
    | AckSent(due: bool)
    | ReportSent(ranges: seq<(int, int)>, whole: bool, bound: int)
    | AppRead(len: int)

  ghost predicate Enabled(s: Sys, e: Event) {
    match e
    case NewSent(_) => s.snd.pending == None
    case LostTaken => s.snd.pending == None
    case Delivered(p, _) => p in s.net
    case ReportSent(ranges, whole, bound) =>
      ranges != [] && LossReport.Reports(ranges, s.rcv.loss, whole, bound)
    case AppRead(len) => len > 0 && Readable(s.rcv)
    case _ => true
  }

  ghost function Init(c: Config): Sys {
    Sys(SndInit(c.isn, c.window), RcvInit(c.isn, c.rcvBuf), {}, [], [], [])
  }

  ghost function Put(net: set<Packet>, p: Option<Data>): set<Packet> {
    if p == None then net else net + {DataPacket(p.value)}
  }

  ghost function Deliver(s: Sys, p: Packet, flag: bool): Sys {
    match p
    case DataPacket(d) =>
      var (r, gap) := OnData(s.rcv, d.n, d.block);
      s.(rcv := r, net := if gap == None then s.net else s.net + {NakPacket([gap.value])})
    case FullAckPacket(a) =>
      // flag says whether the acknowledgement is acknowledged
      s.(snd := OnAck(s.snd, a.ack, a.window), net := if flag then s.net + {Ack2Packet(a.ackNo)} else s.net)
    case LiteAckPacket(ack) => s.(snd := OnLiteAck(s.snd, ack))
    case NakPacket(ranges) => s.(snd := OnNak(s.snd, ranges))
    // flag says whether the round trip time came out positive
    case Ack2Packet(ackNo) => s.(rcv := OnAck2(s.rcv, ackNo, flag))
  }

  ghost function Step(c: Config, s: Sys, e: Event): Sys
    requires c.mss > 0 && Enabled(s, e)
  {
    match e
    case AppSend(data) =>
      var n := Room(s.snd, |data|, c.mss, c.sndBuf);
      if 0 < n <= |data| then
        s.(snd := Add(s.snd, data[..n], c.mss, false), accepted := s.accepted + data[..n],
           hist := s.hist + Packetize(data[..n], c.mss, s.snd.nextMsgNo, false))
      else s
    case LostTaken => s.(snd := TakeLost(s.snd))
    case Resent => s.(snd := Retransmit(s.snd).0, net := Put(s.net, Retransmit(s.snd).1))
    case NewSent(cwnd) => s.(snd := SendNew(s.snd, cwnd).0, net := Put(s.net, SendNew(s.snd, cwnd).1))
    case TimedOut => s.(snd := OnTimeout(s.snd))
    case Delivered(p, flag) => Deliver(s, p, flag)
    case LiteAckSent =>
      s.(net := if LiteAck(s.rcv) == None then s.net else s.net + {LiteAckPacket(LiteAck(s.rcv).value)})
    case AckSent(due) =>
      var (r, a) := SendAck(s.rcv, due);
      s.(rcv := r, net := if a == None then s.net else s.net + {FullAckPacket(a.value)})
    case ReportSent(ranges, _, _) => s.(net := s.net + {NakPacket(ranges)})
    case AppRead(len) => s.(rcv := ReceiverSpec.Read(s.rcv, len).0, read := s.read + ReceiverSpec.Read(s.rcv, len).1)
  }

  ghost predicate IsRun(c: Config, states: seq<Sys>, events: seq<Event>) {
    && ValidConfig(c)
    && |states| == |events| + 1 && states[0] == Init(c)
    && forall i | 0 <= i < |events| :: Enabled(states[i], events[i]) && states[i + 1] == Step(c, states[i], events[i])
  }

  // The invariant

  ghost predicate PacketOk(c: Config, s: Sys, p: Packet) {
    match p
    case DataPacket(d) => d.n <= s.snd.cur && SentAs(s.hist, c.isn, d.n, d.block)
    case FullAckPacket(a) => c.isn <= a.ack <= s.rcv.lastAck && 2 <= a.window <= c.window
    case LiteAckPacket(ack) => c.isn <= ack <= NextAck(s.rcv)
    case NakPacket(ranges) => forall r | r in ranges :: c.isn <= r.0 <= r.1 <= s.rcv.cur
    case Ack2Packet(_) => true
  }

  ghost predicate HistOk(c: Config, s: Sys) {
    Join(s.hist, 0, |s.hist|) == s.accepted && forall b | b in s.hist :: 0 < |b.data| <= c.mss
  }

  ghost predicate Inv(c: Config, s: Sys) {
    && SndInv(s.snd, c.isn, s.hist, c.window) && !s.snd.broken
    && RcvInv(s.rcv, c.isn, s.hist) && s.rcv.size == c.rcvBuf
    && HistOk(c, s)
    && s.rcv.cur <= s.snd.cur && s.snd.dataUna <= s.rcv.lastAck && s.snd.una <= NextAck(s.rcv)
    && (forall p {:trigger PacketOk(c, s, p)} | p in s.net :: PacketOk(c, s, p))
    && Position(s.rcv, c.isn, s.hist) <= |s.accepted|
    && s.read == s.accepted[..Position(s.rcv, c.isn, s.hist)]
  }

  lemma InitInv(c: Config)
    requires ValidConfig(c)
    ensures Inv(c, Init(c))
  {
  }

  /** What was true of the sent packets stays true when both halves only move on. */
  lemma PacketsKept(c: Config, s: Sys, s': Sys)
    requires forall p {:trigger PacketOk(c, s, p)} | p in s.net :: PacketOk(c, s, p)
    requires s.hist <= s'.hist && s.snd.cur <= s'.snd.cur
    requires s.rcv.cur <= s'.rcv.cur && s.rcv.lastAck <= s'.rcv.lastAck && NextAck(s.rcv) <= NextAck(s'.rcv)
    ensures forall p | p in s.net :: PacketOk(c, s', p)
  {
    forall p | p in s.net ensures PacketOk(c, s', p) {
      assert PacketOk(c, s, p);
    }
  }

  lemma HistGrows(c: Config, hist: seq<Block>, accepted: Bytes, data: Bytes, no: int)
    requires c.mss > 0 && Join(hist, 0, |hist|) == accepted && forall b | b in hist :: 0 < |b.data| <= c.mss
    ensures
      var h := hist + Packetize(data, c.mss, no, false);
      && Join(h, 0, |h|) == accepted + data
      && forall b | b in h :: 0 < |b.data| <= c.mss
  {
    var added := Packetize(data, c.mss, no, false);
    var h := hist + added;
    JoinPacketize(data, c.mss, no, false);
    JoinSplit(h, 0, |hist|, |h|);
    JoinSame(hist, 0, |hist|, h, 0);
    JoinSame(added, 0, |added|, h, |hist|);
  }

  lemma AppSendKeeps(c: Config, s: Sys, data: Bytes)
    requires ValidConfig(c) && Inv(c, s)
    ensures Inv(c, Step(c, s, AppSend(data)))
  {
    var n, s' := Room(s.snd, |data|, c.mss, c.sndBuf), Step(c, s, AppSend(data));
    if 0 < n <= |data| {
      AddKeeps(s.snd, c.isn, s.hist, c.window, data[..n], c.mss, false);
      HistGrows(c, s.hist, s.accepted, data[..n], s.snd.nextMsgNo);
      RcvInvGrows(s.rcv, c.isn, s.hist, s'.hist);
      PacketsKept(c, s, s');
    }
  }

  /** What a step of the sender alone has to show. */
  lemma SenderOnlyKeeps(c: Config, s: Sys, s': Sys, p: Option<Data>)
    requires Inv(c, s) && s' == s.(snd := s'.snd, net := Put(s.net, p))
    requires SndInv(s'.snd, c.isn, s.hist, c.window) && !s'.snd.broken
    requires s.snd.cur <= s'.snd.cur && s'.snd.dataUna == s.snd.dataUna && s'.snd.una == s.snd.una
    requires p != None ==> p.value.n <= s'.snd.cur && SentAs(s.hist, c.isn, p.value.n, p.value.block)
    ensures Inv(c, s')
  {
    PacketsKept(c, s, s');
    if p != None {
      assert PacketOk(c, s', DataPacket(p.value));
    }
  }

  lemma LostTakenKeeps(c: Config, s: Sys)
    requires ValidConfig(c) && Inv(c, s) && Enabled(s, LostTaken)
    ensures Inv(c, Step(c, s, LostTaken))
  {
    TakeLostKeeps(s.snd, c.isn, s.hist, c.window);
    SenderOnlyKeeps(c, s, Step(c, s, LostTaken), None);
  }

  lemma ResentKeeps(c: Config, s: Sys)
    requires ValidConfig(c) && Inv(c, s)
    ensures Inv(c, Step(c, s, Resent))
  {
    RetransmitKeeps(s.snd, c.isn, s.hist, c.window);
    SenderOnlyKeeps(c, s, Step(c, s, Resent), Retransmit(s.snd).1);
  }

  lemma NewSentKeeps(c: Config, s: Sys, cwnd: int)
    requires ValidConfig(c) && Inv(c, s) && Enabled(s, NewSent(cwnd))
    ensures Inv(c, Step(c, s, NewSent(cwnd)))
  {
    SendNewKeeps(s.snd, c.isn, s.hist, c.window, cwnd);
    SenderOnlyKeeps(c, s, Step(c, s, NewSent(cwnd)), SendNew(s.snd, cwnd).1);
  }

  lemma TimedOutKeeps(c: Config, s: Sys)
    requires ValidConfig(c) && Inv(c, s)
    ensures Inv(c, Step(c, s, TimedOut))
  {
    OnTimeoutKeeps(s.snd, c.isn, s.hist, c.window);
    SenderOnlyKeeps(c, s, Step(c, s, TimedOut), None);
  }

  lemma NextAckMoves(c: Config, s: Sys, n: int, b: Block)
    requires Inv(c, s) && SentAs(s.hist, c.isn, n, b)
    ensures
      var r := OnData(s.rcv, n, b).0;
      RcvInv(r, c.isn, s.hist) && r.cur == Max(s.rcv.cur, r.cur) && r.lastAck == s.rcv.lastAck
      && NextAck(s.rcv) <= NextAck(r) && r.start == s.rcv.start && r.notch == s.rcv.notch && r.size == s.rcv.size
      && (r.cur == s.rcv.cur || r.cur == n)
  {
    OnDataKeeps(s.rcv, c.isn, s.hist, n, b);
    NextAckIsLeast(s.rcv, c.isn, s.hist);
    NextAckIsLeast(OnData(s.rcv, n, b).0, c.isn, s.hist);
  }

  /** The receiver has moved on to r, and reports the gap, if there is one. */
  lemma ReceiverOnlyKeeps(c: Config, s: Sys, r: Rcv, gap: Option<(int, int)>)
    requires ValidConfig(c) && Inv(c, s) && RcvInv(r, c.isn, s.hist)
    requires r.start == s.rcv.start && r.notch == s.rcv.notch && r.size == s.rcv.size && r.lastAck == s.rcv.lastAck
    requires s.rcv.cur <= r.cur <= s.snd.cur && NextAck(s.rcv) <= NextAck(r)
    requires gap != None ==> c.isn <= gap.value.0 <= gap.value.1 <= r.cur
    ensures Inv(c, s.(rcv := r, net := if gap == None then s.net else s.net + {NakPacket([gap.value])}))
  {
    var s' := s.(rcv := r, net := if gap == None then s.net else s.net + {NakPacket([gap.value])});
    PacketsKept(c, s, s');
    if gap != None {
      assert PacketOk(c, s', NakPacket([gap.value]));
    }
  }

  lemma GapInside(c: Config, s: Sys, n: int, b: Block)
    requires Inv(c, s) && SentAs(s.hist, c.isn, n, b)
    ensures
      var (r, gap) := OnData(s.rcv, n, b);
      gap != None ==> c.isn <= gap.value.0 <= gap.value.1 <= r.cur
  {
  }

  lemma DataKeeps(c: Config, s: Sys, d: Data, flag: bool)
    requires ValidConfig(c) && Inv(c, s) && DataPacket(d) in s.net
    ensures Inv(c, Deliver(s, DataPacket(d), flag))
  {
    assert PacketOk(c, s, DataPacket(d));
    NextAckMoves(c, s, d.n, d.block);
    GapInside(c, s, d.n, d.block);
    var (r, gap) := OnData(s.rcv, d.n, d.block);
    ReceiverOnlyKeeps(c, s, r, gap);
  }

  lemma FullAckKeeps(c: Config, s: Sys, a: FullAck, flag: bool)
    requires ValidConfig(c) && Inv(c, s) && FullAckPacket(a) in s.net
    ensures Inv(c, Deliver(s, FullAckPacket(a), flag))
  {
    assert PacketOk(c, s, FullAckPacket(a));
    NextAckIsLeast(s.rcv, c.isn, s.hist);
    OnAckKeeps(s.snd, c.isn, s.hist, c.window, a.ack, a.window);
    PacketsKept(c, s, Deliver(s, FullAckPacket(a), flag));
  }

  lemma LiteAckKeeps(c: Config, s: Sys, ack: int, flag: bool)
    requires ValidConfig(c) && Inv(c, s) && LiteAckPacket(ack) in s.net
    ensures Inv(c, Deliver(s, LiteAckPacket(ack), flag))
  {
    assert PacketOk(c, s, LiteAckPacket(ack));
    NextAckIsLeast(s.rcv, c.isn, s.hist);
    OnLiteAckKeeps(s.snd, c.isn, s.hist, c.window, ack);
    PacketsKept(c, s, Deliver(s, LiteAckPacket(ack), flag));
  }

  lemma NakKeeps(c: Config, s: Sys, ranges: seq<(int, int)>, flag: bool)
    requires ValidConfig(c) && Inv(c, s) && NakPacket(ranges) in s.net
    ensures Inv(c, Deliver(s, NakPacket(ranges), flag))
  {
    assert PacketOk(c, s, NakPacket(ranges));
    OnNakKeeps(s.snd, c.isn, s.hist, c.window, ranges);
    OnNakAdds(s.snd, ranges);
    PacketsKept(c, s, Deliver(s, NakPacket(ranges), flag));
  }

  lemma Ack2Keeps(c: Config, s: Sys, ackNo: int, flag: bool)
    requires ValidConfig(c) && Inv(c, s) && Ack2Packet(ackNo) in s.net
    ensures Inv(c, Deliver(s, Ack2Packet(ackNo), flag))
  {
    OnAck2Keeps(s.rcv, c.isn, s.hist, ackNo, flag);
    PacketsKept(c, s, Deliver(s, Ack2Packet(ackNo), flag));
  }

  lemma LiteAckSentKeeps(c: Config, s: Sys)
    requires ValidConfig(c) && Inv(c, s)
    ensures Inv(c, Step(c, s, LiteAckSent))
  {
    NextAckIsLeast(s.rcv, c.isn, s.hist);
    PacketsKept(c, s, Step(c, s, LiteAckSent));
  }

  lemma AckSentKeeps(c: Config, s: Sys, due: bool)
    requires ValidConfig(c) && Inv(c, s)
    ensures Inv(c, Step(c, s, AckSent(due)))
  {
    NextAckIsLeast(s.rcv, c.isn, s.hist);
    SendAckKeeps(s.rcv, c.isn, s.hist, due);
    AckMoves(s.rcv, due);
    PacketsKept(c, s, Step(c, s, AckSent(due)));
  }

  lemma AckMoves(r: Rcv, due: bool)
    requires r.lastAck <= NextAck(r)
    ensures
      var r' := SendAck(r, due).0;
      && r' == r.(lastAck := r'.lastAck, ackNo := r'.ackNo, acks := r'.acks)
      && r.lastAck <= r'.lastAck <= NextAck(r) && NextAck(r') == NextAck(r)
  {
  }

  lemma ReportSentKeeps(c: Config, s: Sys, ranges: seq<(int, int)>, whole: bool, bound: int)
    requires ValidConfig(c) && Inv(c, s) && Enabled(s, ReportSent(ranges, whole, bound))
    ensures Inv(c, Step(c, s, ReportSent(ranges, whole, bound)))
  {
    assert LossReport.Told(0);
    PacketsKept(c, s, Step(c, s, ReportSent(ranges, whole, bound)));
  }

  lemma AppReadKeeps(c: Config, s: Sys, len: int)
    requires ValidConfig(c) && Inv(c, s) && Enabled(s, AppRead(len))
    ensures Inv(c, Step(c, s, AppRead(len)))
  {
    ReadKeeps(s.rcv, c.isn, s.hist, len);
    ReadAdvances(s.rcv, c.isn, s.hist, len);
    PacketsKept(c, s, Step(c, s, AppRead(len)));
  }

  lemma StepKeeps(c: Config, s: Sys, e: Event)
    requires ValidConfig(c) && Inv(c, s) && Enabled(s, e)
    ensures Inv(c, Step(c, s, e))
  {
    match e {
      case AppSend(data) => AppSendKeeps(c, s, data);
      case Delivered(p, flag) =>
        match p {
          case DataPacket(d) => DataKeeps(c, s, d, flag);
          case FullAckPacket(a) => FullAckKeeps(c, s, a, flag);
          case LiteAckPacket(ack) => LiteAckKeeps(c, s, ack, flag);
          case NakPacket(ranges) => NakKeeps(c, s, ranges, flag);
          case Ack2Packet(no) => Ack2Keeps(c, s, no, flag);
        }
      case LiteAckSent => LiteAckSentKeeps(c, s);
      case AckSent(due) => AckSentKeeps(c, s, due);
      case ReportSent(ranges, whole, bound) => ReportSentKeeps(c, s, ranges, whole, bound);
      case AppRead(len) => AppReadKeeps(c, s, len);
      case LostTaken => LostTakenKeeps(c, s);
      case Resent => ResentKeeps(c, s);
      case NewSent(cwnd) => NewSentKeeps(c, s, cwnd);
      case TimedOut => TimedOutKeeps(c, s);
    }
  }

  lemma {:induction false} RunInv(c: Config, states: seq<Sys>, events: seq<Event>, i: int)
    requires IsRun(c, states, events) && 0 <= i < |states|
    ensures Inv(c, states[i])
    decreases i
  {
    if i == 0 {
      InitInv(c);
    } else {
      RunInv(c, states, events, i - 1);
      StepKeeps(c, states[i - 1], events[i - 1]);
    }
  }
}
