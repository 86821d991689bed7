/**
 The sending half of CUDT: wrapped sequence numbers, the block ring and the loss list.
 Every method is proved to do what SenderSpec says on absolute numbers.
 */
module SenderHalf {
  import opened Ring
  import opened SeqNo
  import opened Packets
  import opened Intervals
  import opened LossTable
  import opened LossReport
  import opened SenderSpec
  import SenderLoss
  import SendBuffer

  /** A data packet as it goes out. */
  datatype Wire = Wire(seqNo: int, block: Block)

  ghost predicate SameData(w: Option<Wire>, d: Option<Data>) {
    if d == None then w == None else w == Some(Wire(Wrap(d.value.n), d.value.block))
  }

  /** The invariant on absolute numbers: its bounds, and all of it once Seen of some number is asserted. */
  ghost predicate Sound(s: Snd, isn: int, hist: seq<Block>, widest: int) {
    && isn <= s.dataUna <= s.una <= s.cur + 1 <= s.dataUna + widest
    && s.curr == s.cur + 1 - s.dataUna <= |s.blocks|
    && (s.pending != None ==> isn <= s.pending.value <= s.cur)
    && forall k {:trigger Seen(k)} | Seen(k) :: SndInv(s, isn, hist, widest)
  }

  ghost predicate Seen(k: int) {
    true
  }

  lemma AddSound(s: Snd, isn: int, hist: seq<Block>, widest: int, data: Bytes, mss: int)
    requires Sound(s, isn, hist, widest) && mss > 0
    ensures Sound(Add(s, data, mss, false), isn, hist + Packetize(data, mss, s.nextMsgNo, false), widest)
  {
    assert Seen(0);
    AddKeeps(s, isn, hist, widest, data, mss, false);
  }

  lemma TakeLostSound(s: Snd, isn: int, hist: seq<Block>, widest: int)
    requires Sound(s, isn, hist, widest)
    ensures Sound(SenderSpec.TakeLost(s), isn, hist, widest)
  {
    assert Seen(0);
    TakeLostKeeps(s, isn, hist, widest);
  }

  lemma RetransmitSound(s: Snd, isn: int, hist: seq<Block>, widest: int)
    requires Sound(s, isn, hist, widest)
    ensures Sound(Retransmit(s).0, isn, hist, widest)
  {
    assert Seen(0);
    RetransmitKeeps(s, isn, hist, widest);
  }

  lemma SendNewSound(s: Snd, isn: int, hist: seq<Block>, widest: int, cwnd: int)
    requires Sound(s, isn, hist, widest)
    ensures Sound(SenderSpec.SendNew(s, cwnd).0, isn, hist, widest)
  {
    assert Seen(0);
    SendNewKeeps(s, isn, hist, widest, cwnd);
  }

  lemma LiteAckSound(s: Snd, isn: int, hist: seq<Block>, widest: int, ack: int)
    requires Sound(s, isn, hist, widest) && ack <= s.cur + 1
    ensures Sound(SenderSpec.OnLiteAck(s, ack), isn, hist, widest)
  {
    assert Seen(0);
    OnLiteAckKeeps(s, isn, hist, widest, ack);
  }

  lemma AckSound(s: Snd, isn: int, hist: seq<Block>, widest: int, ack: int, window: int)
    requires Sound(s, isn, hist, widest) && window <= widest
    ensures Sound(SenderSpec.OnAck(s, ack, window), isn, hist, widest)
    ensures ack <= s.cur + 1 ==> Acked(s, ack, window, SenderSpec.OnAck(s, ack, window))
  {
    assert Seen(0);
    OnAckKeeps(s, isn, hist, widest, ack, window);
    if ack <= s.cur + 1 {
      OnAckSpares(s, isn, hist, widest, ack, window);
    }
  }

  lemma LossSound(s: Snd, isn: int, hist: seq<Block>, widest: int, a: int, b: int)
    requires Sound(s, isn, hist, widest)
    ensures Sound(SenderSpec.OnLoss(s, a, b), isn, hist, widest)
  {
    assert Seen(0);
    OnLossKeeps(s, isn, hist, widest, a, b);
  }

  lemma TimeoutSound(s: Snd, isn: int, hist: seq<Block>, widest: int)
    requires Sound(s, isn, hist, widest)
    ensures Sound(SenderSpec.OnTimeout(s), isn, hist, widest)
  {
    assert Seen(0);
    OnTimeoutKeeps(s, isn, hist, widest);
  }

  lemma LostBounds(s: Snd, isn: int, hist: seq<Block>, widest: int)
    requires Sound(s, isn, hist, widest)
    ensures forall x | x in s.loss :: s.dataUna <= x <= s.cur
  {
    assert Seen(0);
  }

  class Sender {
    const buffer: SendBuffer.SndBuffer
    const lossList: SenderLoss.SndLossList
    const bufSize: int
    var sndLastAck: int
    var sndLastDataAck: int
    var sndCurrSeqNo: int
    var flowWindowSize: int
    var broken: bool
    // The state on absolute numbers, the initial number, every block added so far, and the
    // widest window the peer may advertise.
    ghost var s: Snd
    ghost var hist: seq<Block>
    ghost const isn: int
    ghost const widest: int

    ghost predicate Formed()
      reads this, buffer, buffer.ring, lossList, lossList.data1, lossList.data2, lossList.next
    {
      Numbers(s) && Carries(s) && Loses(s)
    }

    ghost predicate Numbers(s: Snd)
      reads this`sndLastAck, this`sndLastDataAck, this`sndCurrSeqNo, this`flowWindowSize, this`broken, this`hist
    {
      && sndLastAck == Wrap(s.una) && sndLastDataAck == Wrap(s.dataUna) && sndCurrSeqNo == Wrap(s.cur)
      && flowWindowSize == s.window && broken == s.broken
      && Sound(s, isn, hist, widest)
      && widest <= Limit(lossList.size) && widest + 1 < SEQ_NO_TH
    }

    ghost predicate Carries(s: Snd)
      reads buffer, buffer.ring
    {
      buffer.Valid() && buffer.blocks == s.blocks && buffer.ahead == s.curr && buffer.nextMsgNo == s.nextMsgNo
    }

    ghost predicate Loses(s: Snd)
      reads lossList, lossList.data1, lossList.data2, lossList.next
    {
      lossList.Valid() && lossList.Lost() == s.loss
    }

    /** All parts have taken a step to s'; so does the state. */
    ghost method Adopt(s': Snd)
      requires Numbers(s') && Carries(s') && Loses(s')
      modifies this`s
      ensures Formed() && s == s'
    {
      s := s';
    }

    /** All parts are in step; asserting Shown of some number brings in how. */
    ghost predicate Valid()
      reads this, buffer, buffer.ring, lossList, lossList.data1, lossList.data2, lossList.next
    {
      buffer.mss > 0 && forall k {:trigger Shown(k)} | Shown(k) :: Formed()
    }

    ghost predicate Shown(k: int) {
      true
    }

    /** The loss list has twice the room of the widest window. */
    constructor (ghost start: int, isn: int, window: int, mss: int, bufSize: int)
      requires 1 <= isn <= MAX_SEQ_NO && start == isn && mss > 0 && 0 < window && window + 1 < SEQ_NO_TH
      ensures Valid() && s == SndInit(isn, window) && hist == [] && this.isn == isn && widest == window
      ensures buffer.mss == mss && this.bufSize == bufSize && fresh(buffer) && fresh(lossList)
      ensures fresh(buffer.ring) && fresh(lossList.data1) && fresh(lossList.data2) && fresh(lossList.next)
    {
      this.bufSize := bufSize;
      sndLastAck, sndLastDataAck, sndCurrSeqNo := isn, isn, isn - 1;
      flowWindowSize, broken := window, false;
      buffer := new SendBuffer.SndBuffer(32, mss);
      lossList := new SenderLoss.SndLossList(window * 2);
      this.isn, widest := isn, window;
      s, hist := SndInit(isn, window), [];
      new;
      SlotSmall(isn, MAX_SEQ_NO + 1);
      SlotSmall(isn - 1, MAX_SEQ_NO + 1);
    }

    lemma BrokenIs()
      requires Valid()
      ensures broken == s.broken
    {
      assert Shown(0);
    }

    /** Numbers between the last acknowledged and the next one to send are near one another. */
    lemma WindowNear(a: int, b: int)
      requires Numbers(s) && s.dataUna - 1 <= a <= s.cur + 1 && s.dataUna - 1 <= b <= s.cur + 1
      ensures Near(a, b)
    {
    }

    /** send: takes as much of the data as there is room for. */
    method Send(data: Bytes) returns (n: int)
      requires Valid()
      modifies this`s, this`hist, buffer, buffer.ring
      ensures Valid() && n == Room(old(s), |data|, buffer.mss, bufSize)
      ensures n == 0 ==> s == old(s) && hist == old(hist)
      ensures 0 <= n && (n > 0 ==> n <= |data|)
      ensures n > 0 ==> s == Add(old(s), data[..n], buffer.mss, false)
      ensures n > 0 ==> hist == old(hist) + Packetize(data[..n], buffer.mss, old(s).nextMsgNo, false)
      ensures |old(s).blocks| <= bufSize ==> |s.blocks| <= bufSize && (n == |data| || |s.blocks| == bufSize)
      ensures |old(s).blocks| <= bufSize && n < |data| ==>
                forall b | b in s.blocks[|old(s).blocks|..] :: |b.data| == buffer.mss
    {
      assert Shown(0);
      if |s.blocks| <= bufSize {
        RoomFills(s, data, buffer.mss, bufSize, false);
      }
      if |data| <= 0 || bufSize <= buffer.count {
        return 0;
      }
      n := (bufSize - buffer.count) * buffer.mss;
      MulMonotone(1, bufSize - buffer.count, buffer.mss);
      if n > |data| {
        n := |data|;
      }
      AddSound(s, isn, hist, widest, data[..n], buffer.mss);
      buffer.AddBuffer(data[..n], false);
      hist := hist + Packetize(data[..n], buffer.mss, s.nextMsgNo, false);
      Adopt(Add(s, data[..n], buffer.mss, false));
    }

    /** The first half of packData; n is the absolute number taken. */
    method TakeLost() returns (seqNo: int, ghost n: int)
      requires Valid()
      modifies this`s, lossList, lossList.data1, lossList.data2, lossList.next
      ensures Valid() && s == SenderSpec.TakeLost(old(s))
      ensures seqNo == -1 <==> old(s).loss == {}
      ensures old(s).loss != {} ==> s.pending == Some(n) && seqNo == Wrap(n)
    {
      assert Shown(0);
      TakeLostSound(s, isn, hist, widest);
      seqNo, n := lossList.GetLostSeq();
      if s.loss != {} {
        LeastIs(s.loss, n);
      }
      Adopt(SenderSpec.TakeLost(s));
    }

    lemma LeastIs(l: set<int>, n: int)
      requires n in l && forall x | x in l :: n <= x
      ensures Least(l) == n
    {
    }

    /** The second half of packData for a lost packet, n being its absolute number. */
    method Resend(seqNo: int, ghost n: int) returns (packet: Option<Wire>)
      requires Valid() && s.pending == Some(n) && seqNo == Wrap(n) && Near(s.dataUna, n)
      modifies this`s
      ensures Valid() && s == Retransmit(old(s)).0 && SameData(packet, Retransmit(old(s)).1)
    {
      assert Shown(0);
      packet := Fetch(seqNo, n);
    }

    method Fetch(seqNo: int, ghost n: int) returns (packet: Option<Wire>)
      requires Formed() && s.pending == Some(n) && seqNo == Wrap(n) && Near(s.dataUna, n)
      modifies this`s
      ensures Formed() && s == Retransmit(old(s)).0 && SameData(packet, Retransmit(old(s)).1)
    {
      RetransmitSound(s, isn, hist, widest);
      packet := BlockOf(seqNo, n);
      Adopt(Retransmit(s).0);
    }

    /** The packet for the number n, if its block is still there. */
    method BlockOf(seqNo: int, ghost n: int) returns (packet: Option<Wire>)
      requires Formed() && s.pending == Some(n) && seqNo == Wrap(n) && Near(s.dataUna, n)
      ensures SameData(packet, Retransmit(s).1)
    {
      NearAgrees(s.dataUna, n);
      var offset := SeqOff(sndLastDataAck, seqNo);
      if offset < 0 {
        return None;
      }
      var block := buffer.ReadAt(offset);
      if |block.data| == 0 {
        return None;
      }
      return Some(Wire(seqNo, block));
    }

    /** packData for a new packet. */
    method SendNew(congestionWindow: int) returns (packet: Option<Wire>)
      requires Valid()
      modifies this`s, this`sndCurrSeqNo, buffer`curr, buffer`ahead
      ensures Valid() && s == SenderSpec.SendNew(old(s), congestionWindow).0
      ensures SameData(packet, SenderSpec.SendNew(old(s), congestionWindow).1)
      ensures packet != None <==> old(s).curr < |old(s).blocks|
                                  && Min(old(s).window, congestionWindow) >= old(s).cur + 2 - old(s).una
    {
      assert Shown(0);
      ghost var s' := SenderSpec.SendNew(s, congestionWindow).0;
      SendNewSound(s, isn, hist, widest, congestionWindow);
      IncAgrees(s.cur);
      var open := WindowOpen(congestionWindow);
      if !open {
        return None;
      }
      packet := TakeNew();
      Adopt(s');
    }

    /** The next block goes out under the next number. */
    method TakeNew() returns (packet: Option<Wire>)
      requires Numbers(s) && Carries(s)
      modifies this`sndCurrSeqNo, buffer`curr, buffer`ahead
      ensures s.curr == |s.blocks| ==> packet == None && Numbers(s) && Carries(s)
      ensures s.curr < |s.blocks| ==> packet == Some(Wire(Wrap(s.cur + 1), s.blocks[s.curr]))
      ensures s.curr < |s.blocks| ==> sndCurrSeqNo == Wrap(s.cur + 1) && Carries(s.(curr := s.curr + 1))
    {
      IncAgrees(s.cur);
      var block := buffer.ReadNext();
      if block == None {
        return None;
      }
      sndCurrSeqNo := IncSeq(sndCurrSeqNo);
      return Some(Wire(sndCurrSeqNo, block.value));
    }

    /** The test of the congestion and flow windows. */
    method WindowOpen(congestionWindow: int) returns (open: bool)
      requires Numbers(s)
      ensures open <==> Min(s.window, congestionWindow) >= s.cur + 2 - s.una
    {
      IncAgrees(s.cur);
      WindowLen();
      var cwnd := if flowWindowSize < congestionWindow then flowWindowSize else congestionWindow;
      open := cwnd >= SeqLen(sndLastAck, IncSeq(sndCurrSeqNo));
    }

    lemma WindowLen()
      requires Numbers(s)
      ensures SeqLen(sndLastAck, Wrap(s.cur + 1)) == s.cur + 2 - s.una
    {
      WindowNear(s.una, s.cur + 1);
      NearAgrees(s.una, s.cur + 1);
    }

    /** A lite acknowledgement of everything before a, which was sent. */
    method OnLiteAck(ack: int, ghost a: int)
      requires Valid() && ack == Wrap(a) && Near(s.una, a) && a <= s.cur + 1
      modifies this`s, this`flowWindowSize, this`sndLastAck
      ensures Valid() && s == SenderSpec.OnLiteAck(old(s), a)
    {
      assert Shown(0);
      LiteAckSound(s, isn, hist, widest, a);
      NearAgrees(a, s.una);
      NearAgrees(s.una, a);
      if SeqCmp(ack, sndLastAck) >= 0 {
        flowWindowSize := flowWindowSize - SeqOff(sndLastAck, ack);
        sndLastAck := ack;
      }
      Adopt(SenderSpec.OnLiteAck(s, a));
    }

    /** A full acknowledgement of everything before a. */
    method OnAck(ack: int, window: int, ghost a: int)
      requires Valid() && ack == Wrap(a) && window <= widest
      requires Near(s.una, a) && Near(s.dataUna, a) && Near(s.cur + 1, a)
      modifies this`s, this`flowWindowSize, this`sndLastAck, this`sndLastDataAck, this`broken
      modifies buffer`first, buffer`count, buffer`ring, buffer`ahead, buffer`blocks
      modifies lossList, lossList.data1, lossList.data2, lossList.next
      ensures Valid() && s == SenderSpec.OnAck(old(s), a, window)
      ensures a <= old(s).cur + 1 ==> Acked(old(s), a, window, s)
    {
      assert Shown(0);
      AckSound(s, isn, hist, widest, a, window);
      IncAgrees(s.cur);
      NearAgrees(a, s.cur + 1);
      if SeqCmp(ack, IncSeq(sndCurrSeqNo)) > 0 {
        Break(a, window);
        return;
      }
      AcceptAck(ack, window, a);
    }

    /** An acknowledgement of what was never sent. */
    method Break(ghost a: int, ghost window: int)
      requires Formed() && a > s.cur + 1
      modifies this`s, this`broken
      ensures Formed() && s == SenderSpec.OnAck(old(s), a, window)
    {
      broken := true;
      Adopt(SenderSpec.OnAck(s, a, window));
    }

    /** A full acknowledgement of sent data. */
    method AcceptAck(ack: int, window: int, ghost a: int)
      requires Formed() && ack == Wrap(a) && window <= widest && a <= s.cur + 1
      requires Near(s.una, a) && Near(s.dataUna, a)
      modifies this`s, this`flowWindowSize, this`sndLastAck, this`sndLastDataAck
      modifies buffer`first, buffer`count, buffer`ring, buffer`ahead, buffer`blocks
      modifies lossList, lossList.data1, lossList.data2, lossList.next
      ensures Formed() && s == SenderSpec.OnAck(old(s), a, window)
    {
      AckSound(s, isn, hist, widest, a, window);
      NearAgrees(a, s.una);
      NearAgrees(s.dataUna, a);
      ghost var s0 := s;
      if SeqCmp(ack, sndLastAck) >= 0 {
        flowWindowSize := window;
        sndLastAck := ack;
      }
      var offset := SeqOff(sndLastDataAck, ack);
      if offset > 0 {
        ReleaseAcked(ack, offset, a);
      }
      Adopt(SenderSpec.OnAck(s0, a, window));
    }

    /** Gives up the blocks before a and forgets what was lost of them. */
    method ReleaseAcked(ack: int, offset: int, ghost a: int)
      requires Sound(s, isn, hist, widest) && widest <= Limit(lossList.size) && widest + 1 < SEQ_NO_TH
      requires buffer.Valid() && buffer.blocks == s.blocks && buffer.ahead == s.curr
      requires lossList.Valid() && lossList.Lost() == s.loss
      requires ack == Wrap(a) && 0 < offset == a - s.dataUna && a <= s.cur + 1
      modifies this`sndLastDataAck
      modifies buffer`first, buffer`count, buffer`ring, buffer`ahead, buffer`blocks
      modifies lossList, lossList.data1, lossList.data2, lossList.next
      ensures sndLastDataAck == Wrap(a)
      ensures buffer.Valid() && buffer.blocks == s.blocks[offset..] && buffer.ahead == s.curr - offset
      ensures lossList.Valid() && lossList.Lost() == Above(s.loss, a - 1)
    {
      DecAgrees(a);
      LostBounds(s, isn, hist, widest);
      buffer.AckData(offset);
      sndLastDataAck := ack;
      lossList.Remove(DecSeq(sndLastDataAck), a - 1);
    }

    /** One entry of a loss report, a and b being its absolute ends. */
    method OnLoss(seqno1: int, seqno2: int, ghost a: int, ghost b: int)
      requires Formed() && !broken && seqno1 == Wrap(a) && seqno2 == Wrap(b)
      requires Near(a, b) && Near(b, s.cur) && Near(a, s.una) && Near(b, s.una)
      modifies this`s, this`broken, lossList, lossList.data1, lossList.data2, lossList.next
      ensures Formed() && s == SenderSpec.OnLoss(old(s), a, b)
    {
      LossSound(s, isn, hist, widest, a, b);
      NearAgrees(a, b);
      NearAgrees(b, s.cur);
      ghost var s' := SenderSpec.OnLoss(s, a, b);
      if SeqCmp(seqno1, seqno2) > 0 || SeqCmp(seqno2, sndCurrSeqNo) > 0 {
        broken := true;
      } else {
        MarkLost(seqno1, seqno2, a, b);
      }
      Adopt(s');
    }

    /** Marks what is not acknowledged of the numbers a to b, all of them sent. */
    method MarkLost(seqno1: int, seqno2: int, ghost a: int, ghost b: int)
      requires Numbers(s) && Loses(s) && seqno1 == Wrap(a) && seqno2 == Wrap(b) && a <= b <= s.cur
      requires Near(a, s.una) && Near(b, s.una)
      modifies lossList, lossList.data1, lossList.data2, lossList.next
      ensures Loses(s.(loss := s.loss + Range(Max(a, s.una), b)))
    {
      LostBounds(s, isn, hist, widest);
      NearAgrees(a, s.una);
      NearAgrees(b, s.una);
      if SeqCmp(seqno1, sndLastAck) >= 0 {
        var num := lossList.Insert(seqno1, seqno2, a, b);
      } else if SeqCmp(seqno2, sndLastAck) >= 0 {
        var num := lossList.Insert(sndLastAck, seqno2, s.una, b);
      } else {
        assert Range(s.una, b) == {};
      }
    }

    /** A single number of a loss report, a being its absolute value. */
    method OnSingleLoss(seqno: int, ghost a: int)
      requires Formed() && !broken && seqno == Wrap(a) && Near(a, s.cur) && Near(a, s.una)
      modifies this`s, this`broken, lossList, lossList.data1, lossList.data2, lossList.next
      ensures Formed() && s == SenderSpec.OnLoss(old(s), a, a)
    {
      LossSound(s, isn, hist, widest, a, a);
      NearAgrees(a, s.cur);
      NearAgrees(a, s.una);
      ghost var s' := SenderSpec.OnLoss(s, a, a);
      LostBounds(s, isn, hist, widest);
      if SeqCmp(seqno, sndLastAck) >= 0 {
        if SeqCmp(seqno, sndCurrSeqNo) > 0 {
          broken := true;
        } else {
          var num := lossList.Insert(seqno, seqno, a, a);
        }
      } else {
        assert Range(s.una, a) == {};
      }
      Adopt(s');
    }

    /** A range of a loss report lies near what is out. */
    ghost predicate Reported(r: (int, int))
      reads this
    {
      Near(r.0, r.1) && Near(r.0, s.cur) && Near(r.1, s.cur) && Near(r.0, s.una) && Near(r.1, s.una)
    }

    /** The entry at word i, which stands for the range k; i' is where the next entry starts. */
    method TakeEntry(words: seq<int>, i: int, ghost ranges: seq<(int, int)>, ghost k: int) returns (i': int)
      requires Formed() && !broken && Rest(words, i, ranges, k) && i < |words| && Reported(ranges[k])
      modifies this`s, this`broken, lossList, lossList.data1, lossList.data2, lossList.next
      ensures Formed() && s == SenderSpec.OnLoss(old(s), ranges[k].0, ranges[k].1)
      ensures i < i' && Rest(words, i', ranges, k + 1)
    {
      RestNext(words, i, ranges, k);
      if words[i] >= MARK {
        OnLoss(words[i] - MARK, words[i + 1], ranges[k].0, ranges[k].1);
        i' := i + 2;
      } else {
        NearAgrees(ranges[k].0, ranges[k].1);
        OnSingleLoss(words[i], ranges[k].0);
        i' := i + 1;
      }
    }

    /** A loss report; ranges are what its words stand for. */
    method OnNak(words: seq<int>, ghost ranges: seq<(int, int)>)
      requires Valid() && !broken && Complete(words) && Names(Parse(words), ranges)
      requires forall r | r in ranges :: Reported(r)
      modifies this`s, this`broken, lossList, lossList.data1, lossList.data2, lossList.next
      ensures Valid() && s == SenderSpec.OnNak(old(s), ranges)
    {
      assert Shown(0);
      RestStarts(words, ranges);
      TakeEntries(words, ranges);
    }

    method TakeEntries(words: seq<int>, ghost ranges: seq<(int, int)>)
      requires Formed() && !broken && Rest(words, 0, ranges, 0) && forall r | r in ranges :: Reported(r)
      modifies this`s, this`broken, lossList, lossList.data1, lossList.data2, lossList.next
      ensures Formed() && s == SenderSpec.OnNak(old(s), ranges)
    {
      ghost var s0, k := s, 0;
      var i := 0;
      while i < |words| && !broken
        invariant Formed() && Rest(words, i, ranges, k)
        invariant s == SenderSpec.OnNak(s0, ranges[..k]) && s.cur == s0.cur && s.una == s0.una
        decreases |words| - i
      {
        assert ranges[k] in ranges;
        OnNakNext(s0, ranges, k);
        i := TakeEntry(words, i, ranges, k);
        k := k + 1;
      }
      OnNakStops(s0, ranges, k);
    }

    /** The expiration timer: everything that is out counts as lost. */
    method OnTimeout()
      requires Valid()
      modifies this`s, lossList, lossList.data1, lossList.data2, lossList.next
      ensures Valid() && s == SenderSpec.OnTimeout(old(s))
    {
      assert Shown(0);
      LoseAll();
    }

    method LoseAll()
      requires Formed()
      modifies this`s, lossList, lossList.data1, lossList.data2, lossList.next
      ensures Formed() && s == SenderSpec.OnTimeout(old(s))
    {
      TimeoutSound(s, isn, hist, widest);
      if buffer.count > 0 {
        MarkOut();
      }
      Adopt(SenderSpec.OnTimeout(s));
    }

    /** Marks everything that is out, if something is and nothing is marked yet. */
    method MarkOut()
      requires Numbers(s) && Loses(s)
      modifies lossList, lossList.data1, lossList.data2, lossList.next
      ensures Loses(s.(loss := if s.cur + 1 != s.una && s.loss == {} then Range(s.una, s.cur) else s.loss))
    {
      IncAgrees(s.cur);
      WindowNear(s.cur + 1, s.una);
      NearAgrees(s.cur + 1, s.una);
      var lossLength := lossList.GetLossLength();
      if IncSeq(sndCurrSeqNo) != sndLastAck && lossLength == 0 {
        var num := lossList.Insert(sndLastAck, sndCurrSeqNo, s.una, s.cur);
      }
    }
  }

  /**
   The words GetLossArray writes for the numbers in lost, all of them sent: decoding gives the
   ranges back, and exactly the named numbers not before una are added.
   */
  lemma ReportArrives(s: Snd, words: seq<int>, ranges: seq<(int, int)>, lost: set<int>, whole: bool, bound: int)
    requires words == Encode(ranges) && Reports(ranges, lost, whole, bound)
    requires !s.broken && forall x | x in lost :: x <= s.cur
    ensures Complete(words) && Names(Parse(words), ranges)
    ensures SenderSpec.OnNak(s, ranges) == s.(loss := s.loss + Marks(s, lost, whole, bound))
  {
    ParseEncode(ranges);
    ReportMarks(s, ranges, lost, whole, bound);
  }
}
