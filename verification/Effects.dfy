/**
 What each event of a run does, said of the state before and the state after alone, without
 the functions that compute the step: how much send takes, when a window holds a packet
 back, what acknowledgements, loss reports and timeouts leave marked as lost, what the
 receiver stores, reports and acknowledges, and what a read hands out.
 */
module Effects {
  import opened Ring
  import opened Packets
  import opened Intervals
  import opened SenderSpec
  import opened ReceiverSpec
  import opened Protocol
  import opened Guarantees
  import LossReport

  // The sender

  /** send takes all of the data, or as many full packets as there are free blocks. */
  ghost predicate Accepts(c: Config, s: Sys, data: Bytes, t: Sys) {
    && |s.hist| <= |t.hist| && |s.accepted| <= |t.accepted|
    && Accepted(c, s, data, t, t.hist[|s.hist|..], |t.accepted| - |s.accepted|)
  }

  ghost predicate Accepted(c: Config, s: Sys, data: Bytes, t: Sys, added: seq<Block>, n: int) {
    var free, no := Max(0, c.sndBuf - |s.snd.blocks|), s.snd.nextMsgNo;
    && 0 <= n <= |data| && Framing(added, data[..n], c.mss, no, false)
    && |added| <= free && (n == |data| || (|added| == free && n == free * c.mss))
    && t == s.(snd := s.snd.(blocks := s.snd.blocks + added,
                             nextMsgNo := if n == 0 then no else if no < MAX_MSG_NO - 1 then no + 1 else 1),
               hist := s.hist + added, accepted := s.accepted + data[..n])
  }

  /** The least number marked as lost is taken, if there is one. */
  ghost predicate TakesLost(s: Sys, t: Sys) {
    && t == s.(snd := s.snd.(pending := t.snd.pending, loss := t.snd.loss))
    && match t.snd.pending
       case None => s.snd.loss == t.snd.loss == {}
       case Some(n) => n in s.snd.loss && (forall x | x in s.snd.loss :: n <= x) && t.snd.loss == s.snd.loss - {n}
  }

  /** The number taken goes out as it did first, unless it has been acknowledged since. */
  ghost predicate SendsAgain(c: Config, s: Sys, t: Sys) {
    match s.snd.pending
    case None => t == s
    case Some(n) =>
      && t == s.(snd := s.snd.(pending := None), net := t.net)
      && (n < s.snd.dataUna ==> t.net == s.net)
      && (n >= s.snd.dataUna ==> 0 <= n - c.isn < |s.hist|
                                 && t.net == s.net + {DataPacket(Data(n, s.hist[n - c.isn]))})
  }

  /** The next block goes out exactly when there is one and both windows have room for one more. */
  ghost predicate SendsNext(c: Config, s: Sys, cwnd: int, t: Sys) {
    var next, out := s.snd.cur + 1, s.snd.cur + 1 - s.snd.una;
    if 0 <= next - c.isn < |s.hist| && out + 1 <= cwnd && out + 1 <= s.snd.window then
      t == s.(snd := s.snd.(cur := next, curr := s.snd.curr + 1),
              net := s.net + {DataPacket(Data(next, s.hist[next - c.isn]))})
    else t == s
  }

  /** Everything that is out counts as lost, if nothing was marked so far. */
  ghost predicate LosesAll(s: Sys, t: Sys) {
    && t == s.(snd := s.snd.(loss := t.snd.loss))
    && forall x :: x in t.snd.loss <==> x in s.snd.loss || (s.snd.loss == {} && s.snd.una <= x <= s.snd.cur)
  }

  /** What was lost stays lost unless it is acknowledged; the window told counts unless the acknowledgement is old. */
  ghost predicate HearsAck(c: Config, s: Sys, a: FullAck, flag: bool, t: Sys) {
    && c.isn <= t.snd.dataUna <= c.isn + |s.hist|
    && t == s.(snd := s.snd.(una := Max(s.snd.una, a.ack), dataUna := Max(s.snd.dataUna, a.ack),
                             window := if a.ack < s.snd.una then s.snd.window else a.window,
                             loss := t.snd.loss, blocks := s.hist[t.snd.dataUna - c.isn..],
                             curr := s.snd.cur + 1 - t.snd.dataUna),
               net := if flag then s.net + {Ack2Packet(a.ackNo)} else s.net)
    && forall x :: x in t.snd.loss <==> x in s.snd.loss && x >= t.snd.dataUna
  }

  /** The first number not acknowledged moves, the edge of the window stays. */
  ghost predicate HearsLiteAck(s: Sys, ack: int, t: Sys) {
    && t == s.(snd := s.snd.(una := Max(s.snd.una, ack), window := t.snd.window))
    && t.snd.una + t.snd.window == s.snd.una + s.snd.window
  }

  /** Exactly the numbers named and not acknowledged are marked. */
  ghost predicate HearsReport(s: Sys, ranges: seq<(int, int)>, t: Sys) {
    && t == s.(snd := s.snd.(loss := t.snd.loss))
    && forall x :: x in t.snd.loss <==>
         x in s.snd.loss || (s.snd.una <= x && exists r :: r in ranges && r.0 <= x <= r.1)
  }

  // The receiver

  /** A packet is stored exactly when it is new and fits; what is missing before it is reported at once. */
  ghost predicate Takes(s: Sys, n: int, b: Block, t: Sys) {
    var r, r' := s.rcv, t.rcv;
    if r.lastAck <= n < r.start + r.size - 1 && n !in r.store then
      && r' == r.(store := r.store[n := b], cur := Max(r.cur, n), loss := r'.loss)
      && (forall x :: x in r'.loss <==> x != n && (x in r.loss || r.cur < x < n))
      && t == s.(rcv := r', net := if r.cur + 1 < n then s.net + {NakPacket([(r.cur + 1, n - 1)])} else s.net)
    else t == s
  }

  /** a is the least number not received. */
  ghost predicate FirstMissing(r: Rcv, a: int) {
    !Received(r, a) && forall n | n < a :: Received(r, n)
  }

  /** A lite acknowledgement tells the least number not received, unless the sender is known to know it. */
  ghost predicate TellsLite(s: Sys, t: Sys) {
    exists a :: FirstMissing(s.rcv, a)
                && t == if a == s.rcv.lastAckAck then s else s.(net := s.net + {LiteAckPacket(a)})
  }

  /**
   So does a full one, unless it were a repetition and none is due; the window is the free
   room, but at least two packets, and the latest 1023 are remembered.
   */
  ghost predicate Tells(s: Sys, due: bool, t: Sys) {
    exists a :: FirstMissing(s.rcv, a) && TellsOf(s, due, t, a)
  }

  ghost predicate TellsOf(s: Sys, due: bool, t: Sys, a: int) {
    var r, no := s.rcv, if s.rcv.ackNo < 0x7FFF_FFFF then s.rcv.ackNo + 1 else 0;
    if a == r.lastAckAck || (a == r.lastAck && !due) then t == s
    else
      t == s.(rcv := r.(lastAck := a, ackNo := no,
                        acks := (if |r.acks| < 1023 then r.acks else r.acks[1..]) + [Ack(no, a)]),
              net := s.net + {FullAckPacket(FullAck(no, a, Max(2, r.start + r.size - 1 - a)))})
  }

  /** The record with this number goes, and all older ones; its position counts if the time came out positive. */
  ghost predicate HearsAck2(s: Sys, no: int, measured: bool, t: Sys) {
    if forall i | 0 <= i < |s.rcv.acks| :: s.rcv.acks[i].ackNo != no then t == s
    else exists i :: HearsAck2At(s, no, measured, t, i)
  }

  ghost predicate HearsAck2At(s: Sys, no: int, measured: bool, t: Sys, i: int) {
    var r := s.rcv;
    && 0 <= i < |r.acks| && r.acks[i].ackNo == no && (forall j | 0 <= j < i :: r.acks[j].ackNo != no)
    && t == s.(rcv := r.(acks := r.acks[i + 1..],
                         lastAckAck := if measured then Max(r.lastAckAck, r.acks[i].ack) else r.lastAckAck))
  }

  /** How many bytes of the stream the receiver has acknowledged. */
  ghost function Ready(c: Config, s: Sys): int
    requires c.isn <= s.rcv.lastAck <= c.isn + |s.hist|
  {
    |Join(s.hist, 0, s.rcv.lastAck - c.isn)|
  }

  /** The next len bytes are read, or all that are ready; packets read to their end leave the buffer. */
  ghost predicate HandsOut(c: Config, s: Sys, len: int, t: Sys) {
    var r, r' := s.rcv, t.rcv;
    && c.isn <= r.start <= r'.start <= r.lastAck <= c.isn + |s.hist|
    && t == s.(rcv := r.(start := r'.start, notch := r'.notch,
                         store := map n | n in r.store && r'.start <= n :: r.store[n]), read := t.read)
    && 0 <= Min(|s.read| + len, Ready(c, s)) <= |s.accepted|
    && t.read == s.accepted[..Min(|s.read| + len, Ready(c, s))]
    && Position(r', c.isn, s.hist) == |t.read|
    && 0 <= r'.notch && (r'.notch == 0 || (r'.start < r.lastAck && r'.notch < |s.hist[r'.start - c.isn].data|))
  }

  ghost predicate Effect(c: Config, s: Sys, e: Event, t: Sys) {
    match e
    case AppSend(data) => Accepts(c, s, data, t)
    case LostTaken => TakesLost(s, t)
    case Resent => SendsAgain(c, s, t)
    case NewSent(cwnd) => SendsNext(c, s, cwnd, t)
    case TimedOut => LosesAll(s, t)
    case Delivered(p, flag) =>
      (match p
       case DataPacket(d) => Takes(s, d.n, d.block, t)
       case FullAckPacket(a) => HearsAck(c, s, a, flag, t)
       case LiteAckPacket(ack) => HearsLiteAck(s, ack, t)
       case NakPacket(ranges) => HearsReport(s, ranges, t)
       case Ack2Packet(no) => HearsAck2(s, no, flag, t))
    case LiteAckSent => TellsLite(s, t)
    case AckSent(due) => Tells(s, due, t)
    case ReportSent(ranges, _, _) => t == s.(net := s.net + {NakPacket(ranges)})
    case AppRead(len) => HandsOut(c, s, len, t)
  }

  /** Sizes and numbers that stay in bounds in every run. */
  ghost predicate Bounded(c: Config, s: Sys) {
    && 1 <= s.snd.nextMsgNo < MAX_MSG_NO && |s.rcv.acks| < 1024 && 0 <= s.rcv.ackNo <= 0x7FFF_FFFF
    && (0 <= c.sndBuf ==> |s.snd.blocks| <= c.sndBuf)
  }

  // Every event has its effect

  lemma AcceptsData(c: Config, s: Sys, data: Bytes)
    requires ValidConfig(c) && Inv(c, s) && Bounded(c, s)
    ensures Accepts(c, s, data, Step(c, s, AppSend(data)))
  {
    var n, free := Room(s.snd, |data|, c.mss, c.sndBuf), c.sndBuf - |s.snd.blocks|;
    if free > 0 {
      MulMonotone(1, free, c.mss);
    }
    var added := if n > 0 then Packetize(data[..n], c.mss, s.snd.nextMsgNo, false) else [];
    if n > 0 {
      PacketizeIsFraming(data[..n], c.mss, s.snd.nextMsgNo, false);
      RoomFits(|added|, free, n, |data|, c.mss);
    }
    assert data[..0] == [] && s.accepted + [] == s.accepted && s.hist + [] == s.hist;
    AcceptsAs(c, s, data, Step(c, s, AppSend(data)), added, n);
  }

  lemma AcceptsAs(c: Config, s: Sys, data: Bytes, t: Sys, added: seq<Block>, n: int)
    requires Accepted(c, s, data, t, added, n)
    ensures Accepts(c, s, data, t)
  {
    assert (s.hist + added)[|s.hist|..] == added;
  }

  lemma TakesLostEffect(c: Config, s: Sys)
    requires ValidConfig(c) && Enabled(s, LostTaken)
    ensures TakesLost(s, Step(c, s, LostTaken))
  {
  }

  lemma SendsNextEffect(c: Config, s: Sys, cwnd: int)
    requires ValidConfig(c) && Inv(c, s) && Enabled(s, NewSent(cwnd))
    ensures SendsNext(c, s, cwnd, Step(c, s, NewSent(cwnd)))
  {
  }

  lemma LosesAllEffect(c: Config, s: Sys)
    requires ValidConfig(c) && Inv(c, s)
    ensures LosesAll(s, Step(c, s, TimedOut))
  {
  }

  lemma SendsAgainEffect(c: Config, s: Sys)
    requires ValidConfig(c) && Inv(c, s)
    ensures SendsAgain(c, s, Step(c, s, Resent))
  {
    RetransmitSends(s.snd, c.isn, s.hist, c.window);
    RetransmitKeeps(s.snd, c.isn, s.hist, c.window);
  }

  lemma HearsAckEffect(c: Config, s: Sys, a: FullAck, flag: bool)
    requires ValidConfig(c) && Inv(c, s) && FullAckPacket(a) in s.net
    ensures HearsAck(c, s, a, flag, Deliver(s, FullAckPacket(a), flag))
  {
    assert PacketOk(c, s, FullAckPacket(a));
    NextAckIsLeast(s.rcv, c.isn, s.hist);
    AckReleases(s.snd, c.isn, s.hist, c.window, a.ack, a.window);
  }

  /** A full acknowledgement of sent data: the buffer, the cursor and the loss list after it. */
  lemma AckReleases(s: Snd, isn: int, hist: seq<Block>, widest: int, ack: int, window: int)
    requires SndInv(s, isn, hist, widest) && ack <= s.cur + 1
    ensures
      var s', d := OnAck(s, ack, window), Max(s.dataUna, ack);
      && isn <= d <= isn + |hist|
      && s' == s.(una := Max(s.una, ack), dataUna := d, window := if ack < s.una then s.window else window,
                  loss := s'.loss, blocks := hist[d - isn..], curr := s.cur + 1 - d)
      && forall x :: x in s'.loss <==> x in s.loss && x >= d
  {
    var offset := ack - s.dataUna;
    if 0 < offset <= |s.blocks| {
      assert hist[s.dataUna - isn..][offset..] == hist[ack - isn..];
    }
  }

  lemma HearsReportEffect(c: Config, s: Sys, ranges: seq<(int, int)>, flag: bool)
    requires ValidConfig(c) && Inv(c, s) && NakPacket(ranges) in s.net
    ensures HearsReport(s, ranges, Deliver(s, NakPacket(ranges), flag))
  {
    assert PacketOk(c, s, NakPacket(ranges));
    OnNakAdds(s.snd, ranges);
  }

  lemma FirstMissingIs(c: Config, s: Sys)
    requires Inv(c, s)
    ensures FirstMissing(s.rcv, NextAck(s.rcv)) && s.rcv.lastAckAck <= s.rcv.lastAck <= NextAck(s.rcv)
  {
    NextAckIsLeast(s.rcv, c.isn, s.hist);
  }

  lemma TellsLiteEffect(c: Config, s: Sys)
    requires ValidConfig(c) && Inv(c, s)
    ensures TellsLite(s, Step(c, s, LiteAckSent))
  {
    FirstMissingIs(c, s);
  }

  lemma StoreIs(acks: seq<Ack>, a: Ack)
    requires |acks| < 1024
    ensures StoreAck(acks, a, ACK_WINDOW) == (if |acks| < 1023 then acks else acks[1..]) + [a]
  {
  }

  lemma TellsEffect(c: Config, s: Sys, due: bool)
    requires ValidConfig(c) && Inv(c, s) && Bounded(c, s)
    ensures Tells(s, due, Step(c, s, AckSent(due)))
  {
    FirstMissingIs(c, s);
    var r := s.rcv;
    StoreIs(r.acks, Ack(IncAck(r.ackNo), NextAck(r)));
    assert TellsOf(s, due, Step(c, s, AckSent(due)), NextAck(r));
  }

  lemma HearsAck2Effect(s: Sys, no: int, flag: bool)
    ensures HearsAck2(s, no, flag, Deliver(s, Ack2Packet(no), flag))
  {
    var i := Find(s.rcv.acks, no);
    if i < |s.rcv.acks| {
      assert HearsAck2At(s, no, flag, Deliver(s, Ack2Packet(no), flag), i);
    }
  }

  /** A read never stops at the end of a packet, but at the start of the next one. */
  lemma {:induction false} TakeStops(store: map<int, Block>, i: int, j: int, notch: int, len: int)
    requires i <= j && AllStored(store, i, j) && NotchFits(store, i, j, notch) && 0 <= len && (len > 0 || notch == 0)
    ensures
      var t := Take(store, i, j, notch, len);
      t.notch == 0 || (t.start < j && 0 < t.notch < |store[t.start].data|)
    decreases j - i
  {
    if i < j && len >= |store[i].data[notch..]| {
      TakeStops(store, i + 1, j, 0, len - |store[i].data[notch..]|);
    }
  }

  /** How many bytes are held, and how far they reach into the stream. */
  lemma HeldCount(store: map<int, Block>, i: int, j: int, isn: int, hist: seq<Block>)
    requires isn <= i <= j <= isn + |hist| && forall n | i <= n < j :: n in store && store[n] == hist[n - isn]
    ensures |Join(hist, 0, i - isn)| + |Held(store, i, j)| == |Join(hist, 0, j - isn)| <= |Join(hist, 0, |hist|)|
  {
    HeldIsStream(store, i, j, isn, hist);
    JoinSplit(hist, 0, i - isn, j - isn);
    JoinSplit(hist, 0, j - isn, |hist|);
  }

  lemma TakeCount(store: map<int, Block>, i: int, j: int, notch: int, len: int)
    requires i <= j && AllStored(store, i, j) && NotchFits(store, i, j, notch) && 0 <= len
    ensures 0 <= notch <= |Held(store, i, j)|
    ensures |Take(store, i, j, notch, len).out| == Min(len, |Held(store, i, j)| - notch)
  {
    TakeIsPrefix(store, i, j, notch, len);
  }

  /** How many bytes come out. */
  lemma ReadCount(r: Rcv, isn: int, hist: seq<Block>, len: int)
    requires RcvInv(r, isn, hist) && len >= 0
    ensures
      var ready := |Join(hist, 0, r.lastAck - isn)|;
      && Position(r, isn, hist) <= ready <= |Join(hist, 0, |hist|)|
      && |ReceiverSpec.Read(r, len).1| == Min(len, ready - Position(r, isn, hist))
  {
    TakeCount(r.store, r.start, r.lastAck, r.notch, len);
    HeldCount(r.store, r.start, r.lastAck, isn, hist);
  }

  /** Where the reader stands after a read, and what leaves the buffer. */
  lemma ReadStops(r: Rcv, isn: int, hist: seq<Block>, len: int)
    requires RcvInv(r, isn, hist) && len > 0
    ensures
      var r' := ReceiverSpec.Read(r, len).0;
      && isn <= r.start <= r'.start <= r.lastAck <= isn + |hist|
      && r' == r.(start := r'.start, notch := r'.notch,
                  store := map n | n in r.store && r'.start <= n :: r.store[n])
      && 0 <= r'.notch && (r'.notch == 0 || (r'.start < r.lastAck && r'.notch < |hist[r'.start - isn].data|))
  {
    TakeStops(r.store, r.start, r.lastAck, r.notch, len);
  }

  /** The bytes read are the accepted ones up to the new position. */
  lemma ReadsUpTo(c: Config, s: Sys, len: int, t: Sys)
    requires Inv(c, s) && len >= 0
    requires t == s.(rcv := ReceiverSpec.Read(s.rcv, len).0, read := s.read + ReceiverSpec.Read(s.rcv, len).1)
    ensures c.isn <= t.rcv.start <= c.isn + |s.hist| && |t.read| == Position(t.rcv, c.isn, s.hist)
    ensures 0 <= |t.read| == Min(|s.read| + len, Ready(c, s)) <= |s.accepted| && t.read == s.accepted[..|t.read|]
  {
    ReadCount(s.rcv, c.isn, s.hist, len);
    ReadAdvances(s.rcv, c.isn, s.hist, len);
  }

  lemma HandsOutEffect(c: Config, s: Sys, len: int)
    requires ValidConfig(c) && Inv(c, s) && Enabled(s, AppRead(len))
    ensures HandsOut(c, s, len, Step(c, s, AppRead(len)))
  {
    ReadStops(s.rcv, c.isn, s.hist, len);
    ReadsUpTo(c, s, len, Step(c, s, AppRead(len)));
  }

  lemma DeliverEffect(c: Config, s: Sys, p: Packet, flag: bool)
    requires ValidConfig(c) && Inv(c, s) && p in s.net
    ensures Effect(c, s, Delivered(p, flag), Deliver(s, p, flag))
  {
    match p {
      case DataPacket(d) => TakesEffect(c, s, d, flag);
      case FullAckPacket(a) => HearsAckEffect(c, s, a, flag);
      case LiteAckPacket(ack) => assert HearsLiteAck(s, ack, Deliver(s, p, flag));
      case NakPacket(ranges) => HearsReportEffect(c, s, ranges, flag);
      case Ack2Packet(no) => HearsAck2Effect(s, no, flag);
    }
  }

  lemma TakesEffect(c: Config, s: Sys, d: Data, flag: bool)
    requires ValidConfig(c) && Inv(c, s) && DataPacket(d) in s.net
    ensures Takes(s, d.n, d.block, Deliver(s, DataPacket(d), flag))
  {
    DataTaken(s.rcv, c.isn, s.hist, d.n, d.block);
  }

  /** What the arrival of packet n makes of the receiver, and the gap it reports. */
  lemma DataTaken(r: Rcv, isn: int, hist: seq<Block>, n: int, b: Block)
    requires RcvInv(r, isn, hist)
    ensures
      var (r', gap) := OnData(r, n, b);
      if r.lastAck <= n < r.start + r.size - 1 && n !in r.store then
        && r' == r.(store := r.store[n := b], cur := Max(r.cur, n), loss := r'.loss)
        && (forall x :: x in r'.loss <==> x != n && (x in r.loss || r.cur < x < n))
        && gap == if r.cur + 1 < n then Some((r.cur + 1, n - 1)) else None
      else r' == r && gap == None
  {
  }

  lemma StepEffect(c: Config, s: Sys, e: Event)
    requires ValidConfig(c) && Inv(c, s) && Bounded(c, s) && Enabled(s, e)
    ensures Effect(c, s, e, Step(c, s, e))
  {
    match e {
      case AppSend(data) => AcceptsData(c, s, data);
      case LostTaken => TakesLostEffect(c, s);
      case Resent => SendsAgainEffect(c, s);
      case NewSent(cwnd) => SendsNextEffect(c, s, cwnd);
      case TimedOut => LosesAllEffect(c, s);
      case Delivered(p, flag) => DeliverEffect(c, s, p, flag);
      case LiteAckSent => TellsLiteEffect(c, s);
      case AckSent(due) => TellsEffect(c, s, due);
      case ReportSent(ranges, whole, bound) =>
      case AppRead(len) => HandsOutEffect(c, s, len);
    }
  }

  /** The event e makes t of s; asserting Told of some number brings in what that says of s and t alone. */
  ghost predicate Happened(c: Config, s: Sys, e: Event, t: Sys) {
    && c.mss > 0 && Enabled(s, e) && t == Step(c, s, e)
    && forall k {:trigger Told(k)} | Told(k) :: Effect(c, s, e, t)
  }

  ghost predicate Told(k: int) {
    true
  }

  lemma StepHappens(c: Config, s: Sys, e: Event)
    requires ValidConfig(c) && Inv(c, s) && Bounded(c, s) && Enabled(s, e)
    ensures Happened(c, s, e, Step(c, s, e))
  {
    StepEffect(c, s, e);
  }

  lemma StepBounded(c: Config, s: Sys, e: Event)
    requires ValidConfig(c) && Inv(c, s) && Bounded(c, s) && Enabled(s, e)
    ensures Bounded(c, Step(c, s, e))
  {
    match e {
      case AppSend(data) => AcceptsData(c, s, data);
      case Delivered(p, flag) => DeliverBounded(c, s, p, flag);
      case _ =>
    }
  }

  lemma DeliverBounded(c: Config, s: Sys, p: Packet, flag: bool)
    requires ValidConfig(c) && Inv(c, s) && Bounded(c, s) && p in s.net
    ensures Bounded(c, Deliver(s, p, flag))
  {
    match p {
      case NakPacket(ranges) => OnNakKeeps(s.snd, c.isn, s.hist, c.window, ranges);
      case _ =>
    }
  }

  lemma {:induction false} RunBounded(c: Config, states: seq<Sys>, events: seq<Event>, i: int)
    requires IsRun(c, states, events) && 0 <= i < |states|
    ensures Bounded(c, states[i])
    decreases i
  {
    if i > 0 {
      RunBounded(c, states, events, i - 1);
      RunInv(c, states, events, i - 1);
      StepBounded(c, states[i - 1], events[i - 1]);
    }
  }

  /** Every event of every run does what is said here. */
  lemma RunEffect(c: Config, states: seq<Sys>, events: seq<Event>, i: int)
    requires IsRun(c, states, events) && 0 <= i < |events|
    ensures Effect(c, states[i], events[i], states[i + 1])
  {
    RunInv(c, states, events, i);
    RunBounded(c, states, events, i);
    StepEffect(c, states[i], events[i]);
  }

  // The effects leave nothing open: there is one state after each event that has them

  lemma TakenOnce(len: int, free: int, mss: int, p: int, n: int, q: int, m: int)
    requires mss > 0 && n <= len && m <= len && p <= free && q <= free && n <= p * mss && m <= q * mss
    requires (n == len || n == free * mss) && (m == len || m == free * mss)
    ensures n == m
  {
    MulMonotone(p, free, mss);
    MulMonotone(q, free, mss);
  }

  lemma AcceptedOnce(c: Config, s: Sys, data: Bytes, t: Sys, u: Sys, p: seq<Block>, n: int, q: seq<Block>, m: int)
    requires c.mss > 0 && Accepted(c, s, data, t, p, n) && Accepted(c, s, data, u, q, m)
    ensures n == m && p == q
  {
    TakenOnce(|data|, Max(0, c.sndBuf - |s.snd.blocks|), c.mss, |p|, n, |q|, m);
    FramingUnique(p, q, data[..n], c.mss, s.snd.nextMsgNo, false);
  }

  lemma AcceptsOnce(c: Config, s: Sys, data: Bytes, t: Sys, u: Sys)
    requires c.mss > 0 && Accepts(c, s, data, t) && Accepts(c, s, data, u)
    ensures t == u
  {
    AcceptedOnce(c, s, data, t, u, t.hist[|s.hist|..], |t.accepted| - |s.accepted|,
                 u.hist[|s.hist|..], |u.accepted| - |s.accepted|);
  }

  lemma SameMembers(a: set<int>, b: set<int>)
    requires forall x :: x in a <==> x in b
    ensures a == b
  {
    assert forall x | x in a :: x in b;
    assert forall x | x in b :: x in a;
  }

  lemma LossOnce(t: Sys, u: Sys)
    requires u == t.(snd := t.snd.(loss := u.snd.loss)) && forall x :: x in t.snd.loss <==> x in u.snd.loss
    ensures t == u
  {
    SameMembers(t.snd.loss, u.snd.loss);
    var snd := t.snd;
    assert u.snd == snd.(loss := snd.loss) == snd;
    assert u == t.(snd := snd) == t;
  }

  lemma TakesOnce(s: Sys, n: int, b: Block, t: Sys, u: Sys)
    requires Takes(s, n, b, t) && Takes(s, n, b, u)
    ensures t == u
  {
    if s.rcv.lastAck <= n < s.rcv.start + s.rcv.size - 1 && n !in s.rcv.store {
      SameMembers(t.rcv.loss, u.rcv.loss);
    }
  }

  lemma FirstMissingOnce(r: Rcv, a: int, b: int)
    requires FirstMissing(r, a) && FirstMissing(r, b)
    ensures a == b
  {
  }

  lemma TellsOnce(s: Sys, due: bool, t: Sys, u: Sys)
    requires Tells(s, due, t) && Tells(s, due, u)
    ensures t == u
  {
    var a :| FirstMissing(s.rcv, a) && TellsOf(s, due, t, a);
    var b :| FirstMissing(s.rcv, b) && TellsOf(s, due, u, b);
    FirstMissingOnce(s.rcv, a, b);
  }

  lemma HearsAck2Once(s: Sys, no: int, measured: bool, t: Sys, u: Sys)
    requires HearsAck2(s, no, measured, t) && HearsAck2(s, no, measured, u)
    ensures t == u
  {
    if i, j :| HearsAck2At(s, no, measured, t, i) && HearsAck2At(s, no, measured, u, j) {
      assert i == j;
    }
  }

  /** Positions grow from packet to packet, because none is empty. */
  lemma PositionOnce(hist: seq<Block>, i: int, j: int, notch: int, notch': int)
    requires 0 <= i <= |hist| && 0 <= j <= |hist| && forall b | b in hist :: b.data != []
    requires 0 <= notch && (notch == 0 || (i < |hist| && notch < |hist[i].data|))
    requires 0 <= notch' && (notch' == 0 || (j < |hist| && notch' < |hist[j].data|))
    requires |Join(hist, 0, i)| + notch == |Join(hist, 0, j)| + notch'
    ensures i == j && notch == notch'
  {
    if i < j {
      PositionBefore(hist, i, j, notch);
    } else if j < i {
      PositionBefore(hist, j, i, notch');
    }
  }

  lemma PositionBefore(hist: seq<Block>, i: int, j: int, notch: int)
    requires 0 <= i < j <= |hist| && hist[i].data != [] && (notch == 0 || notch < |hist[i].data|)
    ensures |Join(hist, 0, i)| + notch < |Join(hist, 0, j)|
  {
    JoinSplit(hist, 0, i, j);
  }

  lemma HandsOutOnce(c: Config, s: Sys, len: int, t: Sys, u: Sys)
    requires HistOk(c, s) && HandsOut(c, s, len, t) && HandsOut(c, s, len, u)
    ensures t == u
  {
    forall b | b in s.hist ensures b.data != [] {
    }
    PositionOnce(s.hist, t.rcv.start - c.isn, u.rcv.start - c.isn, t.rcv.notch, u.rcv.notch);
  }

  lemma DeliversOnce(c: Config, s: Sys, p: Packet, flag: bool, t: Sys, u: Sys)
    requires Effect(c, s, Delivered(p, flag), t) && Effect(c, s, Delivered(p, flag), u)
    ensures t == u
  {
    match p {
      case DataPacket(d) => TakesOnce(s, d.n, d.block, t, u);
      case Ack2Packet(no) => HearsAck2Once(s, no, flag, t, u);
      case LiteAckPacket(_) =>
      case _ => LossOnce(t, u);
    }
  }

  lemma EffectOnce(c: Config, s: Sys, e: Event, t: Sys, u: Sys)
    requires c.mss > 0 && HistOk(c, s) && Effect(c, s, e, t) && Effect(c, s, e, u)
    ensures t == u
  {
    match e {
      case AppSend(data) => AcceptsOnce(c, s, data, t, u);
      case Delivered(p, flag) => DeliversOnce(c, s, p, flag, t, u);
      case TimedOut => LossOnce(t, u);
      case AckSent(due) => TellsOnce(s, due, t, u);
      case AppRead(len) => HandsOutOnce(c, s, len, t, u);
      case _ =>
    }
  }

  /** In a run a step is what it is said to be here, and nothing else. */
  lemma StepIsEffect(c: Config, s: Sys, e: Event, t: Sys)
    requires ValidConfig(c) && Inv(c, s) && Bounded(c, s) && Enabled(s, e)
    ensures t == Step(c, s, e) <==> Effect(c, s, e, t)
  {
    StepEffect(c, s, e);
    if Effect(c, s, e, t) {
      EffectOnce(c, s, e, t, Step(c, s, e));
    }
  }

  // What that means for single calls

  /** send takes all of the data, or fills the buffer to the last block with packets of mss bytes each. */
  lemma SendFills(c: Config, states: seq<Sys>, events: seq<Event>, i: int, data: Bytes)
    requires IsRun(c, states, events) && 0 <= i < |events| && events[i] == AppSend(data)
    requires |states[i].snd.blocks| <= c.sndBuf
    ensures
      var s, t := states[i], states[i + 1];
      var n, free := |t.accepted| - |s.accepted|, c.sndBuf - |s.snd.blocks|;
      && 0 <= n <= |data| && t.accepted == s.accepted + data[..n]
      && s.snd.blocks <= t.snd.blocks && |t.snd.blocks| <= c.sndBuf
      && (n == |data| || |t.snd.blocks| == c.sndBuf)
      && (n < |data| ==>
           n == free * c.mss && forall k | |s.snd.blocks| <= k < c.sndBuf :: |t.snd.blocks[k].data| == c.mss)
  {
    RunStep(c, states, events, i);
    var s, t := states[i], states[i + 1];
    RoomFills(s.snd, data, c.mss, c.sndBuf, false);
    var added := t.snd.blocks[|s.snd.blocks|..];
    forall k | |s.snd.blocks| <= k < |t.snd.blocks| && |t.accepted| - |s.accepted| < |data|
      ensures |t.snd.blocks[k].data| == c.mss
    {
      assert t.snd.blocks[k] in added;
    }
  }

  /** A new packet goes out if and only if there is one and, with it, no more are out than either window allows. */
  lemma WindowHolds(c: Config, states: seq<Sys>, events: seq<Event>, i: int, cwnd: int)
    requires IsRun(c, states, events) && 0 <= i < |events| && events[i] == NewSent(cwnd)
    ensures
      var s, t := states[i].snd, states[i + 1].snd;
      && (t.cur == s.cur || t.cur == s.cur + 1)
      && (t.cur > s.cur ==> t.cur + 1 - t.una <= cwnd && t.cur + 1 - t.una <= t.window)
      && (t.cur == s.cur ==> s.curr == |s.blocks| || s.cur + 2 - s.una > cwnd || s.cur + 2 - s.una > s.window)
      && t == s.(cur := t.cur, curr := s.curr + t.cur - s.cur)
  {
    RunInv(c, states, events, i);
    RunEffect(c, states, events, i);
    assert SendsNext(c, states[i], cwnd, states[i + 1]);
  }

  /** A full acknowledgement takes only what it covers off the loss list. */
  lemma AckSpares(c: Config, states: seq<Sys>, events: seq<Event>, i: int, a: FullAck, flag: bool)
    requires IsRun(c, states, events) && 0 <= i < |events| && events[i] == Delivered(FullAckPacket(a), flag)
    ensures
      var s, t := states[i].snd, states[i + 1].snd;
      && a.ack <= s.cur + 1 && !t.broken
      && t.una == Max(s.una, a.ack) && t.dataUna == Max(s.dataUna, a.ack)
      && t.window == (if a.ack >= s.una then a.window else s.window)
      && forall x :: x in t.loss <==> x in s.loss && x >= t.dataUna
  {
    RunInv(c, states, events, i);
    RunEffect(c, states, events, i);
    assert HearsAck(c, states[i], a, flag, states[i + 1]);
    assert PacketOk(c, states[i], FullAckPacket(a));
    NextAckIsLeast(states[i].rcv, c.isn, states[i].hist);
  }

  /** A loss report goes out exactly when the loss list grows, and names exactly what became missing. */
  lemma GapReported(c: Config, states: seq<Sys>, events: seq<Event>, i: int, d: Data, flag: bool)
    requires IsRun(c, states, events) && 0 <= i < |events| && events[i] == Delivered(DataPacket(d), flag)
    ensures
      var s, t := states[i], states[i + 1];
      var a, b := s.rcv.cur + 1, d.n - 1;
      if t.rcv.loss <= s.rcv.loss then t.net == s.net
      else t.net == s.net + {NakPacket([(a, b)])} && forall x :: a <= x <= b <==> x in t.rcv.loss && x !in s.rcv.loss
  {
    RunInv(c, states, events, i);
    RunEffect(c, states, events, i);
    var s, t := states[i], states[i + 1];
    assert Takes(s, d.n, d.block, t);
    if s.rcv.lastAck <= d.n < s.rcv.start + s.rcv.size - 1 && d.n !in s.rcv.store && s.rcv.cur + 1 < d.n {
      assert d.n - 1 in t.rcv.loss && d.n - 1 !in s.rcv.loss;
    }
  }

  /** Whatever is missing has been reported. */
  ghost predicate Reported(s: Sys) {
    forall x {:trigger x in s.rcv.loss} | x in s.rcv.loss :: InReport(s.net, x)
  }

  ghost predicate InReport(net: set<Packet>, x: int) {
    exists ranges :: NakPacket(ranges) in net && LossReport.Named(ranges, x)
  }

  /** What is missing after a step was missing before, or is named by the report that step sends. */
  lemma NewlyMissing(c: Config, s: Sys, e: Event, t: Sys, x: int)
    requires Effect(c, s, e, t) && x in t.rcv.loss && x !in s.rcv.loss
    ensures InReport(t.net, x)
  {
    var gap := (s.rcv.cur + 1, e.packet.data.n - 1);
    assert gap in [gap];
    assert NakPacket([gap]) in t.net && LossReport.Named([gap], x);
  }

  lemma StaysReported(net: set<Packet>, net': set<Packet>, x: int)
    requires InReport(net, x) && net <= net'
    ensures InReport(net', x)
  {
    var ranges :| NakPacket(ranges) in net && LossReport.Named(ranges, x);
    assert NakPacket(ranges) in net';
  }

  lemma EffectReports(c: Config, s: Sys, e: Event, t: Sys)
    requires Effect(c, s, e, t) && s.net <= t.net && Reported(s)
    ensures Reported(t)
  {
    forall x | x in t.rcv.loss ensures InReport(t.net, x) {
      if x in s.rcv.loss {
        StaysReported(s.net, t.net, x);
      } else {
        NewlyMissing(c, s, e, t, x);
      }
    }
  }

  /** In every state of every run each missing number is named by a loss report that was sent. */
  lemma {:induction false} MissingReported(c: Config, states: seq<Sys>, events: seq<Event>, i: int)
    requires IsRun(c, states, events) && 0 <= i < |states|
    ensures Reported(states[i])
    decreases i
  {
    if i > 0 {
      MissingReported(c, states, events, i - 1);
      RunEffect(c, states, events, i - 1);
      RunStepGrows(c, states, events, i);
      EffectReports(c, states[i - 1], events[i - 1], states[i]);
    }
  }

  /** How many messages were accepted before state i. */
  ghost function Messages(states: seq<Sys>, i: int): nat
    requires 0 <= i < |states|
  {
    if i == 0 then 0 else Messages(states, i - 1) + if states[i].accepted == states[i - 1].accepted then 0 else 1
  }

  /** The messages of a run are numbered in turn. */
  lemma {:induction false} MessagesNumbered(c: Config, states: seq<Sys>, events: seq<Event>, i: int)
    requires IsRun(c, states, events) && 0 <= i < |states|
    ensures states[i].snd.nextMsgNo == MsgNoAfter(1, Messages(states, i))
    decreases i
  {
    if i > 0 {
      MessagesNumbered(c, states, events, i - 1);
      NumberStep(c, states, events, i - 1);
      assert MsgNoAfter(1, Messages(states, i - 1) + 1) == NextMsgNo(MsgNoAfter(1, Messages(states, i - 1)));
    }
  }

  lemma NumberStep(c: Config, states: seq<Sys>, events: seq<Event>, i: int)
    requires IsRun(c, states, events) && 0 <= i < |events|
    ensures
      var s, t := states[i], states[i + 1];
      t.snd.nextMsgNo == if t.accepted == s.accepted then s.snd.nextMsgNo else NextMsgNo(s.snd.nextMsgNo)
  {
    RunBounded(c, states, events, i);
    RunEffect(c, states, events, i);
    NumberMoves(c, states[i], events[i], states[i + 1]);
  }

  lemma NumberMoves(c: Config, s: Sys, e: Event, t: Sys)
    requires Effect(c, s, e, t) && 1 <= s.snd.nextMsgNo < MAX_MSG_NO
    ensures t.snd.nextMsgNo == if t.accepted == s.accepted then s.snd.nextMsgNo else NextMsgNo(s.snd.nextMsgNo)
  {
  }
}
