/**
 Progress: whatever has happened, and even when everything on its way is lost, a connection
 has a way on after which the reader has had all that was accepted.
 */
module Progress {
  import opened Packets
  import opened Intervals
  import opened SenderSpec
  import opened ReceiverSpec
  import opened Protocol
  import Guarantees

  // Ways on

  /** The events are enabled one after the other and lead from s to t. */
  ghost predicate Leads(c: Config, s: Sys, events: seq<Event>, t: Sys)
    requires c.mss > 0
    decreases |events|
  {
    if events == [] then s == t
    else Enabled(s, events[0]) && Leads(c, Step(c, s, events[0]), events[1..], t)
  }

  ghost predicate Reaches(c: Config, s: Sys, t: Sys)
    requires c.mss > 0
  {
    exists events :: Leads(c, s, events, t)
  }

  lemma {:induction false} LeadsOn(c: Config, s: Sys, es: seq<Event>, t: Sys, fs: seq<Event>, u: Sys)
    requires c.mss > 0 && Leads(c, s, es, t) && Leads(c, t, fs, u)
    ensures Leads(c, s, es + fs, u)
    decreases |es|
  {
    if es == [] {
      assert es + fs == fs;
    } else {
      LeadsOn(c, Step(c, s, es[0]), es[1..], t, fs, u);
      assert (es + fs)[1..] == es[1..] + fs;
    }
  }

  lemma ReachesOn(c: Config, s: Sys, t: Sys, u: Sys)
    requires c.mss > 0 && Reaches(c, s, t) && Reaches(c, t, u)
    ensures Reaches(c, s, u)
  {
    var es, fs :| Leads(c, s, es, t) && Leads(c, t, fs, u);
    LeadsOn(c, s, es, t, fs, u);
  }

  lemma ReachesNext(c: Config, s: Sys, t: Sys, e: Event)
    requires c.mss > 0 && Reaches(c, s, t) && Enabled(t, e)
    ensures Reaches(c, s, Step(c, t, e))
  {
    var t' := Step(c, t, e);
    assert [e][1..] == [];
    assert Leads(c, t, [e], t');
    ReachesOn(c, s, t, t');
  }

  lemma ReachesSelf(c: Config, s: Sys)
    requires c.mss > 0
    ensures Reaches(c, s, s)
  {
    assert Leads(c, s, [], s);
  }

  /** What can be done can be done with more packets on the network. */
  lemma {:induction false} LeadsWithMore(c: Config, s: Sys, events: seq<Event>, t: Sys, net: set<Packet>)
    requires c.mss > 0 && Leads(c, s, events, t)
    ensures Leads(c, s.(net := s.net + net), events, t.(net := t.net + net))
    decreases |events|
  {
    if events != [] {
      LeadsWithMore(c, Step(c, s, events[0]), events[1..], t, net);
      StepWithMore(c, s, events[0], net);
    }
  }

  lemma StepWithMore(c: Config, s: Sys, e: Event, net: set<Packet>)
    requires c.mss > 0 && Enabled(s, e)
    ensures
      var s', t := s.(net := s.net + net), Step(c, s, e);
      Enabled(s', e) && Step(c, s', e) == t.(net := t.net + net)
  {
    var s', t := s.(net := s.net + net), Step(c, s, e);
    assert Step(c, s', e).net == t.net + net;
  }

  // What keeps a connection alive

  /**
   A sender whose acknowledgements are all complete may have two packets out, and the
   receiver takes nothing for known that the sender does not know.
   */
  ghost predicate Live(c: Config, s: Sys) {
    && ValidConfig(c) && Inv(c, s)
    && (s.snd.dataUna == s.snd.una ==> s.snd.window >= 2)
    && s.rcv.lastAckAck <= s.snd.dataUna
  }

  ghost predicate SameSource(s: Sys, t: Sys) {
    s.hist == t.hist && s.accepted == t.accepted
  }

  /** Full acknowledgements never leave less than two packets of room; others only free what they cover. */
  lemma WindowStays(c: Config, s: Sys, e: Event)
    requires ValidConfig(c) && Inv(c, s) && Enabled(s, e)
    requires s.snd.dataUna == s.snd.una ==> s.snd.window >= 2
    ensures
      var t := Step(c, s, e);
      t.snd.dataUna == t.snd.una ==> t.snd.window >= 2
  {
    match e {
      case Delivered(FullAckPacket(a), flag) => assert PacketOk(c, s, FullAckPacket(a));
      case Delivered(LiteAckPacket(ack), flag) => assert PacketOk(c, s, LiteAckPacket(ack));
      case Delivered(NakPacket(ranges), flag) => OnNakKeeps(s.snd, c.isn, s.hist, c.window, ranges);
      case _ =>
    }
  }

  lemma StepLive(c: Config, s: Sys, e: Event)
    requires Live(c, s) && Enabled(s, e) && !(e.Delivered? && e.packet.Ack2Packet?)
    ensures Live(c, Step(c, s, e))
  {
    StepKeeps(c, s, e);
    WindowStays(c, s, e);
    Guarantees.StepGrows(c, s, e);
    KnownStays(c, s, e);
  }

  lemma KnownStays(c: Config, s: Sys, e: Event)
    requires c.mss > 0 && Enabled(s, e) && !(e.Delivered? && e.packet.Ack2Packet?)
    ensures Step(c, s, e).rcv.lastAckAck == s.rcv.lastAckAck
  {
  }

  /** One more event on a way that keeps the connection alive. */
  lemma Go(c: Config, s: Sys, t: Sys, e: Event)
    requires Live(c, t) && Reaches(c, s, t) && Enabled(t, e) && !(e.Delivered? && e.packet.Ack2Packet?)
    ensures Live(c, Step(c, t, e)) && Reaches(c, s, Step(c, t, e))
  {
    StepLive(c, t, e);
    ReachesNext(c, s, t, e);
  }

  /**
   Acknowledgements of acknowledgements tell the truth: each is for one that was sent, and
   the sender has let go what it covers.
   */
  ghost predicate AcksKnown(s: Sys) {
    && (forall a | a in s.rcv.acks :: a.ackNo <= s.rcv.ackNo)
    && (forall f {:trigger FullAckPacket(f)} | FullAckPacket(f) in s.net :: f.ackNo <= s.rcv.ackNo)
    && (forall no {:trigger Ack2Packet(no)} | Ack2Packet(no) in s.net :: no <= s.rcv.ackNo)
    && (forall a, f {:trigger a in s.rcv.acks, FullAckPacket(f)} |
          a in s.rcv.acks && FullAckPacket(f) in s.net && f.ackNo == a.ackNo :: f.ack == a.ack)
    && (forall a {:trigger Ack2Packet(a.ackNo)} | a in s.rcv.acks && Ack2Packet(a.ackNo) in s.net ::
          a.ack <= s.snd.dataUna)
    && s.rcv.lastAckAck <= s.snd.dataUna
  }

  lemma FullAckKnown(c: Config, s: Sys, f: FullAck, flag: bool)
    requires ValidConfig(c) && Inv(c, s) && AcksKnown(s) && FullAckPacket(f) in s.net
    ensures AcksKnown(Deliver(s, FullAckPacket(f), flag))
  {
    assert PacketOk(c, s, FullAckPacket(f));
    var t := Deliver(s, FullAckPacket(f), flag);
    NextAckIsLeast(s.rcv, c.isn, s.hist);
    assert s.snd.dataUna <= t.snd.dataUna && f.ack <= t.snd.dataUna;
  }

  lemma Ack2Known(s: Sys, no: int, flag: bool)
    requires AcksKnown(s) && Ack2Packet(no) in s.net
    ensures AcksKnown(Deliver(s, Ack2Packet(no), flag))
  {
    var i := Find(s.rcv.acks, no);
    if i < |s.rcv.acks| {
      assert s.rcv.acks[i] in s.rcv.acks && Ack2Packet(s.rcv.acks[i].ackNo) in s.net;
    }
    assert forall a | a in Deliver(s, Ack2Packet(no), flag).rcv.acks :: a in s.rcv.acks;
  }

  lemma AckSentKnown(c: Config, s: Sys, due: bool)
    requires c.mss > 0 && AcksKnown(s) && s.rcv.ackNo < MAX_ACK_NO
    ensures AcksKnown(Step(c, s, AckSent(due)))
  {
    var t := Step(c, s, AckSent(due));
    forall a | a in t.rcv.acks ensures a in s.rcv.acks || a == Ack(t.rcv.ackNo, t.rcv.lastAck) {
    }
  }

  lemma OtherKnown(c: Config, s: Sys, e: Event)
    requires ValidConfig(c) && Inv(c, s) && AcksKnown(s) && Enabled(s, e) && !e.AckSent?
    requires e.Delivered? ==> !e.packet.FullAckPacket? && !e.packet.Ack2Packet?
    ensures AcksKnown(Step(c, s, e))
  {
    var t := Step(c, s, e);
    Guarantees.StepGrows(c, s, e);
    KnownStays(c, s, e);
    assert t.rcv.acks == s.rcv.acks && t.rcv.ackNo == s.rcv.ackNo;
    assert forall f :: FullAckPacket(f) in t.net <==> FullAckPacket(f) in s.net;
    assert forall no :: Ack2Packet(no) in t.net <==> Ack2Packet(no) in s.net;
  }

  lemma StepKnown(c: Config, s: Sys, e: Event)
    requires ValidConfig(c) && Inv(c, s) && AcksKnown(s) && Enabled(s, e) && s.rcv.ackNo < MAX_ACK_NO
    ensures AcksKnown(Step(c, s, e))
  {
    match e {
      case AckSent(due) => AckSentKnown(c, s, due);
      case Delivered(FullAckPacket(f), flag) => FullAckKnown(c, s, f, flag);
      case Delivered(Ack2Packet(no), flag) => Ack2Known(s, no, flag);
      case _ => OtherKnown(c, s, e);
    }
  }

  /** Every connection is alive as long as the numbers of its acknowledgements have not wrapped. */
  lemma {:induction false} RunLive(c: Config, states: seq<Sys>, events: seq<Event>, i: int)
    requires IsRun(c, states, events) && 0 <= i < |states|
    requires forall j | 0 <= j < i :: states[j].rcv.ackNo < MAX_ACK_NO
    ensures Live(c, states[i]) && AcksKnown(states[i])
    decreases i
  {
    RunInv(c, states, events, i);
    if i > 0 {
      RunLive(c, states, events, i - 1);
      Guarantees.RunStep(c, states, events, i - 1);
      WindowStays(c, states[i - 1], events[i - 1]);
      StepKnown(c, states[i - 1], events[i - 1]);
    }
  }

  // One round

  /** A number taken from the loss list and not sent again yet is dealt with. */
  lemma Settle(c: Config, s: Sys) returns (t: Sys)
    requires Live(c, s)
    ensures Reaches(c, s, t) && Live(c, t) && SameSource(s, t) && t.rcv == s.rcv
    ensures t.snd == s.snd.(pending := None)
  {
    ReachesSelf(c, s);
    Go(c, s, s, Resent);
    t := Step(c, s, Resent);
  }

  /** Sender and receiver agree on what is done, and all that has been received is acknowledged. */
  ghost predicate Agreed(s: Sys) {
    s.snd.pending == None && s.snd.dataUna == s.snd.una == NextAck(s.rcv) == s.rcv.lastAck
  }

  lemma Acknowledge(c: Config, s: Sys) returns (t: Sys)
    requires Live(c, s) && s.snd.pending == None
    ensures Reaches(c, s, t) && Live(c, t) && SameSource(s, t) && Agreed(t)
    ensures NextAck(t.rcv) == NextAck(s.rcv)
  {
    ReachesSelf(c, s);
    Go(c, s, s, AckSent(true));
    t := Step(c, s, AckSent(true));
    AckTold(c, s);
    var a := SendAck(s.rcv, true).1;
    if a != None {
      var e := Delivered(FullAckPacket(a.value), false);
      Go(c, s, t, e);
      AckTaken(c, t, a.value);
      t := Step(c, t, e);
    }
  }

  /** What sending an acknowledgement comes to: all that was received is acknowledged, or was known to be. */
  lemma AckTold(c: Config, s: Sys)
    requires Live(c, s)
    ensures
      var t, a := Step(c, s, AckSent(true)), SendAck(s.rcv, true).1;
      && NextAck(t.rcv) == t.rcv.lastAck == NextAck(s.rcv) && t.snd == s.snd
      && (a == None ==> s.snd.dataUna == s.snd.una == NextAck(s.rcv))
      && (a != None ==> a.value.ack == NextAck(s.rcv) && FullAckPacket(a.value) in t.net)
  {
    NextAckIsLeast(s.rcv, c.isn, s.hist);
  }

  /** A full acknowledgement of all that was received makes both sides agree. */
  lemma AckTaken(c: Config, s: Sys, a: FullAck)
    requires Live(c, s) && a.ack == NextAck(s.rcv)
    ensures
      var r := OnAck(s.snd, a.ack, a.window);
      r.dataUna == r.una == a.ack && r.pending == s.snd.pending
  {
    NextAckIsLeast(s.rcv, c.isn, s.hist);
  }

  /** The reader takes everything that is acknowledged. */
  lemma ReadAll(c: Config, s: Sys) returns (t: Sys)
    requires Live(c, s) && Agreed(s)
    ensures Reaches(c, s, t) && Live(c, t) && SameSource(s, t) && Agreed(t)
    ensures NextAck(t.rcv) == NextAck(s.rcv) == t.rcv.start && t.rcv.notch == 0
  {
    var e := AppRead(|s.accepted| + 1);
    Guarantees.HeldBound(s.rcv, c.isn, s.hist);
    Guarantees.TakesAll(s.rcv.store, s.rcv.start, s.rcv.lastAck, s.rcv.notch, |s.accepted| + 1);
    ReachesSelf(c, s);
    Go(c, s, s, e);
    t := Step(c, s, e);
    assert NextAck(t.rcv) == NextAck(s.rcv);
  }

  lemma AllRead(c: Config, s: Sys)
    requires Live(c, s) && Agreed(s) && s.rcv.start == NextAck(s.rcv) == c.isn + |s.hist| && s.rcv.notch == 0
    ensures s.read == s.accepted && s.snd.blocks == []
  {
  }

  /** The next packet the receiver waits for, as it is sent. */
  ghost function Next(c: Config, s: Sys): Data
    requires 0 <= NextAck(s.rcv) - c.isn < |s.hist|
  {
    Data(NextAck(s.rcv), s.hist[NextAck(s.rcv) - c.isn])
  }

  /** t differs from s in the sender's progress only. */
  ghost predicate SenderOnly(s: Sys, t: Sys) {
    SameSource(s, t) && t.rcv == s.rcv && t.snd.dataUna == s.snd.dataUna && t.snd.una == s.snd.una
  }

  /** Whatever is lost is taken off the list, one number after the other. */
  lemma {:induction false} WorkOff(c: Config, s: Sys) returns (t: Sys)
    requires Live(c, s) && Agreed(s)
    ensures Reaches(c, s, t) && Live(c, t) && SenderOnly(s, t) && Agreed(t)
    ensures t.snd == s.snd.(loss := {})
    decreases |s.snd.loss|
  {
    t := s;
    ReachesSelf(c, s);
    if s.snd.loss != {} {
      assert Least(s.snd.loss) in s.snd.loss;
      Go(c, s, s, LostTaken);
      var s1 := Step(c, s, LostTaken);
      Go(c, s, s1, Resent);
      var s2 := Step(c, s1, Resent);
      t := WorkOff(c, s2);
      ReachesOn(c, s, s2, t);
    }
  }

  /** When nothing is out, a new packet goes out: the window always has room for it. */
  lemma SendFresh(c: Config, s: Sys) returns (t: Sys)
    requires Live(c, s) && Agreed(s) && s.snd.cur + 1 == NextAck(s.rcv) < c.isn + |s.hist|
    ensures Reaches(c, s, t) && Live(c, t) && SenderOnly(s, t) && Agreed(t) && DataPacket(Next(c, s)) in t.net
  {
    ReachesSelf(c, s);
    Go(c, s, s, NewSent(1));
    t := Step(c, s, NewSent(1));
    assert SendNew(s.snd, 1).1 == Some(Next(c, s));
  }

  /** Something is out: the timer marks it lost and the first of it is sent again. */
  lemma SendAgain(c: Config, s: Sys) returns (t: Sys)
    requires Live(c, s) && Agreed(s) && s.snd.loss == {} && NextAck(s.rcv) <= s.snd.cur
    ensures NextAck(s.rcv) - c.isn < |s.hist|
    ensures Reaches(c, s, t) && Live(c, t) && SenderOnly(s, t) && Agreed(t) && DataPacket(Next(c, s)) in t.net
  {
    var s1 := Step(c, s, TimedOut);
    var s2 := Step(c, s1, LostTaken);
    t := Step(c, s2, Resent);
    AgainSends(c, s, s1, s2, t);
    ReachesSelf(c, s);
    Go(c, s, s, TimedOut);
    Go(c, s, s1, LostTaken);
    Go(c, s, s2, Resent);
  }

  lemma AgainSends(c: Config, s: Sys, s1: Sys, s2: Sys, t: Sys)
    requires Live(c, s) && Agreed(s) && s.snd.loss == {} && NextAck(s.rcv) <= s.snd.cur
    requires s1 == Step(c, s, TimedOut) && Enabled(s1, LostTaken) && s2 == Step(c, s1, LostTaken)
    requires t == Step(c, s2, Resent)
    ensures NextAck(s.rcv) - c.isn < |s.hist|
    ensures t == s.(snd := s.snd.(loss := Range(s.snd.una + 1, s.snd.cur)), net := s.net + {DataPacket(Next(c, s))})
  {
    var n := s.snd.una;
    Guarantees.TimeoutLoses(s.snd, c.isn, s.hist, c.window);
    assert s.hist[n - c.isn] in s.hist;
    Guarantees.ResendFrom(s.snd, c.isn, s.hist, n);
  }

  lemma SendNext(c: Config, s: Sys) returns (t: Sys)
    requires Live(c, s) && Agreed(s) && NextAck(s.rcv) < c.isn + |s.hist|
    ensures Reaches(c, s, t) && Live(c, t) && SenderOnly(s, t) && Agreed(t) && DataPacket(Next(c, s)) in t.net
  {
    if s.snd.cur + 1 == NextAck(s.rcv) {
      t := SendFresh(c, s);
    } else {
      var s1 := WorkOff(c, s);
      t := SendAgain(c, s1);
      ReachesOn(c, s, s1, t);
    }
  }

  /** A receiver whose buffer has been read takes it. */
  lemma TakeNext(c: Config, s: Sys) returns (t: Sys)
    requires Live(c, s) && Agreed(s) && NextAck(s.rcv) == s.rcv.start < c.isn + |s.hist|
    requires DataPacket(Next(c, s)) in s.net
    ensures Reaches(c, s, t) && Live(c, t) && SameSource(s, t) && NextAck(t.rcv) > NextAck(s.rcv)
  {
    var d := Next(c, s);
    ReachesSelf(c, s);
    NextAckIsLeast(s.rcv, c.isn, s.hist);
    Go(c, s, s, Delivered(DataPacket(d), false));
    t := Step(c, s, Delivered(DataPacket(d), false));
    NextAckIsLeast(t.rcv, c.isn, t.hist);
  }

  /** One round gets the receiver at least one packet further, or everything has been read. */
  lemma Round(c: Config, s: Sys) returns (t: Sys)
    requires Live(c, s)
    ensures Reaches(c, s, t) && Live(c, t) && SameSource(s, t)
    ensures (t.read == t.accepted && t.snd.blocks == []) || NextAck(s.rcv) < NextAck(t.rcv)
  {
    var s1 := Settle(c, s);
    var s2 := Acknowledge(c, s1);
    ReachesOn(c, s, s1, s2);
    t := ReadAll(c, s2);
    ReachesOn(c, s, s2, t);
    NextAckIsLeast(t.rcv, c.isn, t.hist);
    if NextAck(t.rcv) == c.isn + |t.hist| {
      AllRead(c, t);
    } else {
      var s3 := t;
      var s4 := SendNext(c, s3);
      ReachesOn(c, s, s3, s4);
      t := TakeNext(c, s4);
      ReachesOn(c, s, s4, t);
    }
  }

  lemma {:induction false} Finish(c: Config, s: Sys) returns (t: Sys)
    requires Live(c, s)
    ensures Reaches(c, s, t) && SameSource(s, t) && t.read == t.accepted && t.snd.blocks == []
    decreases c.isn + |s.hist| - NextAck(s.rcv)
  {
    t := Round(c, s);
    if t.read != t.accepted || t.snd.blocks != [] {
      NextAckIsLeast(t.rcv, c.isn, t.hist);
      var s1 := t;
      t := Finish(c, s1);
      ReachesOn(c, s, s1, t);
    }
  }

  /**
   From every state of every run whose acknowledgement numbers have not wrapped, some events
   make the reader have all that was accepted and empty the sender's buffer.  They deliver
   packets only that they have sent themselves, so all that was on its way may be lost.
   */
  lemma AlwaysFinishes(c: Config, states: seq<Sys>, events: seq<Event>, i: int) returns (more: seq<Event>, t: Sys)
    requires IsRun(c, states, events) && 0 <= i < |states|
    requires forall j | 0 <= j < i :: states[j].rcv.ackNo < MAX_ACK_NO
    ensures Leads(c, states[i].(net := {}), more, t) && Leads(c, states[i], more, t.(net := t.net + states[i].net))
    ensures t.accepted == states[i].accepted == t.read && t.snd.blocks == []
  {
    var s := states[i].(net := {});
    RunLive(c, states, events, i);
    t := Finish(c, s);
    more :| Leads(c, s, more, t);
    LeadsWithMore(c, s, more, t, states[i].net);
    assert s.(net := s.net + states[i].net) == states[i];
  }

  lemma OneMore(c: Config, states: seq<Sys>, events: seq<Event>, e: Event)
    requires IsRun(c, states, events) && Enabled(states[|events|], e)
    ensures IsRun(c, states + [Step(c, states[|events|], e)], events + [e])
  {
  }

  /** A way on from the last state makes a longer run. */
  lemma {:induction false} RunsOn(c: Config, states: seq<Sys>, events: seq<Event>, more: seq<Event>, t: Sys)
    returns (after: seq<Sys>)
    requires IsRun(c, states, events) && Leads(c, states[|events|], more, t)
    ensures IsRun(c, states + after, events + more) && (states + after)[|events + more|] == t
    decreases |more|
  {
    if more == [] {
      after := [];
      assert states + after == states && events + more == events;
    } else {
      var s := Step(c, states[|events|], more[0]);
      OneMore(c, states, events, more[0]);
      var rest := RunsOn(c, states + [s], events + [more[0]], more[1..], t);
      after := [s] + rest;
      assert states + [s] + rest == states + after && events + [more[0]] + more[1..] == events + more;
    }
  }

  // After a timeout

  /** k times: the least lost number is taken, and sent again. */
  ghost function Rounds(k: nat): seq<Event> {
    if k == 0 then [] else Rounds(k - 1) + [LostTaken, Resent]
  }

  ghost function PacketsOf(sent: seq<Data>): set<Packet> {
    set d | d in sent :: DataPacket(d)
  }

  ghost function AfterRounds(s: Sys, k: nat): Sys {
    s.(snd := Guarantees.Resends(s.snd, k).0, net := s.net + PacketsOf(Guarantees.Resends(s.snd, k).1))
  }

  lemma OneRound(c: Config, s: Sys)
    requires c.mss > 0 && s.snd.pending == None
    ensures
      var (r, d) := Retransmit(TakeLost(s.snd));
      Leads(c, s, [LostTaken, Resent], s.(snd := r, net := Put(s.net, d))) && r.pending == None
  {
    var s1 := Step(c, s, LostTaken);
    var t := Step(c, s1, Resent);
    var es := [LostTaken, Resent];
    assert es[1..] == [Resent] && es[1..][1..] == [];
    assert Leads(c, t, es[1..][1..], t);
    assert Leads(c, s1, es[1..], t);
  }

  lemma AfterNext(s: Sys, k: nat)
    requires k > 0
    ensures
      var s1 := AfterRounds(s, k - 1);
      var (r, d) := Retransmit(TakeLost(s1.snd));
      AfterRounds(s, k) == s1.(snd := r, net := Put(s1.net, d))
  {
    var s1 := AfterRounds(s, k - 1);
    var (r, d) := Retransmit(TakeLost(s1.snd));
    assert AfterRounds(s, k).net == Put(s1.net, d);
  }

  lemma {:induction false} RoundsLead(c: Config, s: Sys, k: nat)
    requires c.mss > 0 && s.snd.pending == None
    ensures Leads(c, s, Rounds(k), AfterRounds(s, k)) && AfterRounds(s, k).snd.pending == None
    decreases k
  {
    if k == 0 {
      assert AfterRounds(s, 0) == s;
    } else {
      RoundsLead(c, s, k - 1);
      var s1 := AfterRounds(s, k - 1);
      OneRound(c, s1);
      AfterNext(s, k);
      LeadsOn(c, s, Rounds(k - 1), s1, [LostTaken, Resent], AfterRounds(s, k));
    }
  }

  /**
   A timeout with nothing marked lost, and a round for each number that is out, put exactly
   these packets on an empty network, each as it was first sent.
   */
  lemma TimeoutRun(c: Config, states: seq<Sys>, events: seq<Event>, i: int)
    requires IsRun(c, states, events) && 0 <= i < |states|
    requires states[i].snd.loss == {} && states[i].snd.pending == None
    ensures
      var s, k := states[i], states[i].snd.cur + 1 - states[i].snd.una;
      && k >= 0 && c.isn <= s.snd.una && s.snd.una + k - c.isn <= |s.hist|
      && Leads(c, s.(net := {}), [TimedOut] + Rounds(k),
               s.(net := PacketsOf(Guarantees.Outstanding(s.snd, c.isn, s.hist, k))))
  {
    SenderSound(c, states, events, i);
    var s := states[i];
    TimeoutRounds(c, s, s.snd.cur + 1 - s.snd.una);
  }

  lemma SenderSound(c: Config, states: seq<Sys>, events: seq<Event>, i: int)
    requires IsRun(c, states, events) && 0 <= i < |states|
    ensures SndInv(states[i].snd, c.isn, states[i].hist, c.window) && forall b | b in states[i].hist :: 0 < |b.data|
  {
    RunInv(c, states, events, i);
  }

  lemma TimeoutRounds(c: Config, s: Sys, k: nat)
    requires c.mss > 0 && SndInv(s.snd, c.isn, s.hist, c.window) && forall b | b in s.hist :: 0 < |b.data|
    requires s.snd.loss == {} && s.snd.pending == None && k == s.snd.cur + 1 - s.snd.una
    ensures Leads(c, s.(net := {}), [TimedOut] + Rounds(k),
                  s.(net := PacketsOf(Guarantees.Outstanding(s.snd, c.isn, s.hist, k))))
  {
    var s0 := s.(net := {});
    var s1 := Step(c, s0, TimedOut);
    Guarantees.TimeoutResends(s.snd, c.isn, s.hist, c.window, k);
    Guarantees.TimeoutLoses(s.snd, c.isn, s.hist, c.window);
    RoundsLead(c, s1, k);
    assert Range(s.snd.una + k, s.snd.cur) == {};
    var t := AfterRounds(s1, k);
    assert t == s.(net := PacketsOf(Guarantees.Outstanding(s.snd, c.isn, s.hist, k)));
    assert ([TimedOut] + Rounds(k))[1..] == Rounds(k);
  }
}
