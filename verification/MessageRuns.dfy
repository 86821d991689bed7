/**
 Runs of the receive buffer in message mode: packets arrive in any order, positions are
 acknowledged, messages are read, and the sender frames more.
 */
module MessageRuns {
  import opened Packets
  import opened MessageSpec

  /** hist is everything framed so far, log the ranges of the messages read, in order. */
  datatype State = State(buf: Buf, hist: seq<Block>, log: seq<(int, int)>)

  datatype Op = Framing(more: seq<Block>) | Arrival(n: int) | AckTo(a: int) | Reading

  ghost predicate Possible(s: State, isn: int, o: Op) {
    match o
    case Framing(more) => Framed(more)
    case Arrival(n) => s.buf.lastAck <= n < isn + |s.hist| && n !in s.buf.store
    case AckTo(a) => s.buf.lastAck <= a && forall n | s.buf.lastAck <= n < a :: n in s.buf.store
    case Reading => true
  }

  ghost function Step(s: State, isn: int, o: Op): State
    requires Possible(s, isn, o) && isn <= s.buf.lastAck
  {
    match o
    case Framing(more) => s.(hist := s.hist + more)
    case Arrival(n) => s.(buf := Stored(s.buf, n, s.hist[n - isn]))
    case AckTo(a) => s.(buf := AckedTo(s.buf, a))
    case Reading =>
      s.(buf := ReadMsg(s.buf), log := if Scan(s.buf).Hit? then s.log + [(Scan(s.buf).p, Scan(s.buf).q)] else s.log)
  }

  /** n was read with one of the first k messages. */
  ghost predicate InLog(log: seq<(int, int)>, k: int, n: int) {
    exists j :: 0 <= j < k <= |log| && log[j].0 <= n <= log[j].1
  }

  /** Entry i is a whole message; an ordered one came after everything before it. */
  ghost predicate EntryOk(log: seq<(int, int)>, isn: int, hist: seq<Block>, i: int)
    requires 0 <= i < |log|
  {
    && IsMessage(hist, log[i].0 - isn, log[i].1 - isn)
    && (Ordered(hist[log[i].1 - isn]) ==> forall n | isn <= n < log[i].0 :: InLog(log, i, n))
    && forall n | log[i].0 <= n <= log[i].1 :: !InLog(log, i, n)
  }

  ghost predicate RunInv(s: State, isn: int) {
    && MsgInv(s.buf, isn, s.hist)
    && (forall i {:trigger EntryOk(s.log, isn, s.hist, i)} | 0 <= i < |s.log| :: EntryOk(s.log, isn, s.hist, i))
    && (forall n | isn <= n :: Delivered(s.buf, n) <==> InLog(s.log, |s.log|, n))
  }

  lemma LogGrows(log: seq<(int, int)>, e: (int, int), k: int, n: int)
    requires k <= |log|
    ensures InLog(log + [e], k, n) <==> InLog(log, k, n)
    ensures InLog(log + [e], |log| + 1, n) <==> InLog(log, |log|, n) || e.0 <= n <= e.1
  {
    if InLog(log, k, n) {
      var j :| 0 <= j < k <= |log| && log[j].0 <= n <= log[j].1;
      assert (log + [e])[j] == log[j];
    }
    if InLog(log, |log|, n) {
      var j :| 0 <= j < |log| && log[j].0 <= n <= log[j].1;
      assert (log + [e])[j] == log[j];
    }
    assert (log + [e])[|log|] == e;
  }

  lemma EntryKept(log: seq<(int, int)>, e: (int, int), isn: int, hist: seq<Block>, more: seq<Block>, i: int)
    requires 0 <= i < |log| && EntryOk(log, isn, hist, i)
    ensures EntryOk(log + [e], isn, hist, i) && EntryOk(log, isn, hist + more, i)
  {
    forall n ensures InLog(log + [e], i, n) <==> InLog(log, i, n) {
      LogGrows(log, e, i, n);
    }
    assert (log + [e])[i] == log[i];
    assert forall k | 0 <= k < |hist| :: (hist + more)[k] == hist[k];
  }

  lemma ReadingKeeps(s: State, isn: int)
    requires RunInv(s, isn)
    ensures RunInv(Step(s, isn, Reading), isn)
  {
    var s' := Step(s, isn, Reading);
    if Scan(s.buf).Hit? {
      var e := (Scan(s.buf).p, Scan(s.buf).q);
      ReadDelivers(s.buf, isn, s.hist);
      forall n ensures InLog(s'.log, |s.log|, n) <==> InLog(s.log, |s.log|, n)
        ensures InLog(s'.log, |s'.log|, n) <==> InLog(s.log, |s.log|, n) || e.0 <= n <= e.1 {
        LogGrows(s.log, e, |s.log|, n);
      }
      forall i | 0 <= i < |s'.log| ensures EntryOk(s'.log, isn, s.hist, i) {
        if i < |s.log| {
          EntryKept(s.log, e, isn, s.hist, [], i);
        }
      }
    } else {
      ReadMissInv(s.buf, isn, s.hist);
    }
  }

  lemma ReadMissInv(b: Buf, isn: int, hist: seq<Block>)
    requires MsgInv(b, isn, hist) && Scan(b).Miss?
    ensures MsgInv(ReadMsg(b), isn, hist) && forall n :: Delivered(ReadMsg(b), n) <==> Delivered(b, n)
  {
    SkippedInv(b, isn, hist);
  }

  lemma FramingKeeps(s: State, isn: int, more: seq<Block>)
    requires RunInv(s, isn) && Framed(more)
    ensures RunInv(Step(s, isn, Framing(more)), isn)
  {
    var b, h := s.buf, s.hist + more;
    assert Kept(0);
    FramedAppend(s.hist, more);
    forall n {:trigger Together(b, isn, h, n)} | isn <= n < isn + |h| - 1 ensures Together(b, isn, h, n) {
      if n < isn + |s.hist| - 1 {
        assert Together(b, isn, s.hist, n);
      } else if n == isn + |s.hist| - 1 {
        assert h[n - isn] == s.hist[|s.hist| - 1];
      }
    }
    forall i | 0 <= i < |s.log| ensures EntryOk(s.log, isn, h, i) {
      EntryKept(s.log, (0, 0), isn, s.hist, more, i);
    }
  }

  lemma ArrivalKeeps(s: State, isn: int, n: int)
    requires RunInv(s, isn) && Possible(s, isn, Arrival(n))
    ensures RunInv(Step(s, isn, Arrival(n)), isn)
  {
    var b' := Step(s, isn, Arrival(n)).buf;
    assert Kept(0);
    forall m {:trigger Together(b', isn, s.hist, m)} | isn <= m < isn + |s.hist| - 1
      ensures Together(b', isn, s.hist, m)
    {
      assert Together(s.buf, isn, s.hist, m);
    }
  }

  lemma AckToKeeps(s: State, isn: int, a: int)
    requires RunInv(s, isn) && Possible(s, isn, AckTo(a))
    ensures RunInv(Step(s, isn, AckTo(a)), isn)
  {
    var b' := Step(s, isn, AckTo(a)).buf;
    assert Kept(0);
    assert a > s.buf.lastAck ==> a - 1 in s.buf.store;
    forall m {:trigger Together(b', isn, s.hist, m)} | isn <= m < isn + |s.hist| - 1
      ensures Together(b', isn, s.hist, m)
    {
      assert Together(s.buf, isn, s.hist, m);
    }
  }

  ghost function Start(isn: int): State {
    State(Buf(map[], {}, isn, isn, isn), [], [])
  }

  ghost predicate IsRun(isn: int, states: seq<State>, ops: seq<Op>) {
    && |states| == |ops| + 1 && states[0] == Start(isn)
    && forall i | 0 <= i < |ops| ::
         && isn <= states[i].buf.lastAck && Possible(states[i], isn, ops[i])
         && states[i + 1] == Step(states[i], isn, ops[i])
  }

  lemma {:induction false} RunKeeps(isn: int, states: seq<State>, ops: seq<Op>, i: int)
    requires IsRun(isn, states, ops) && 0 <= i < |states|
    ensures RunInv(states[i], isn)
    decreases i
  {
    if i > 0 {
      RunKeeps(isn, states, ops, i - 1);
      var s := states[i - 1];
      match ops[i - 1] {
        case Framing(more) => FramingKeeps(s, isn, more);
        case Arrival(n) => ArrivalKeeps(s, isn, n);
        case AckTo(a) => AckToKeeps(s, isn, a);
        case Reading => ReadingKeeps(s, isn);
      }
    }
  }

  /**
   In every run the messages read are whole messages, no packet is in two of them, ordered
   ones come after everything before them, and what is neither read nor kept was never there.
   */
  lemma ExactlyOnce(isn: int, states: seq<State>, ops: seq<Op>, i: int)
    requires IsRun(isn, states, ops) && 0 <= i < |states|
    ensures
      var s := states[i];
      && (forall k | 0 <= k < |s.log| :: IsMessage(s.hist, s.log[k].0 - isn, s.log[k].1 - isn))
      && (forall j, k | 0 <= j < k < |s.log| :: s.log[j].1 < s.log[k].0 || s.log[k].1 < s.log[j].0)
      && (forall k, n | 0 <= k < |s.log| && isn <= n < s.log[k].0 && Ordered(s.hist[s.log[k].1 - isn]) ::
           InLog(s.log, k, n))
      && (forall n | isn <= n :: InLog(s.log, |s.log|, n) <==> n < s.buf.start || n in s.buf.seen)
  {
    RunKeeps(isn, states, ops, i);
    var s := states[i];
    forall k | 0 <= k < |s.log| ensures IsMessage(s.hist, s.log[k].0 - isn, s.log[k].1 - isn) {
      assert EntryOk(s.log, isn, s.hist, k);
    }
    forall j, k | 0 <= j < k < |s.log| ensures s.log[j].1 < s.log[k].0 || s.log[k].1 < s.log[j].0 {
      assert EntryOk(s.log, isn, s.hist, j) && EntryOk(s.log, isn, s.hist, k);
      var n := if s.log[j].0 >= s.log[k].0 then s.log[j].0 else s.log[k].0;
      assert s.log[j].0 <= n <= s.log[j].1 ==> InLog(s.log, k, n);
    }
    forall k, n | 0 <= k < |s.log| && isn <= n < s.log[k].0 && Ordered(s.hist[s.log[k].1 - isn])
      ensures InLog(s.log, k, n) {
      assert EntryOk(s.log, isn, s.hist, k);
    }
    forall n | isn <= n ensures InLog(s.log, |s.log|, n) <==> n < s.buf.start || n in s.buf.seen {
      assert Delivered(s.buf, n) <==> InLog(s.log, |s.log|, n);
    }
  }
}
