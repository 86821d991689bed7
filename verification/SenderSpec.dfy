/**
 What the sending half of a connection does, on absolute sequence numbers.  The class
 Sender is proved to compute these functions with wrapped numbers.
 */
module SenderSpec {
  import opened Ring
  import opened Packets
  import opened Intervals
  import LossReport

  /**
   una, dataUna, cur and window are m_iSndLastAck, m_iSndLastDataAck, m_iSndCurrSeqNo and
   m_iFlowWindowSize; blocks is the buffer from m_pFirstBlock up to m_pLastBlock and curr
   the distance from m_pFirstBlock to m_pCurrBlock.  pending is a number already taken
   from the loss list whose block has not been read yet.
   */
  datatype Snd = Snd(una: int, dataUna: int, cur: int, window: int, loss: set<int>,
                     blocks: seq<Block>, curr: int, pending: Option<int>, nextMsgNo: int, broken: bool)

  datatype Data = Data(n: int, block: Block)

  ghost function SndInit(isn: int, window: int): Snd {
    Snd(isn, isn, isn - 1, window, {}, [], 0, None, 1, false)
  }

  /** addBuffer. */
  ghost function Add(s: Snd, data: Bytes, mss: int, order: bool): Snd
    requires mss > 0
  {
    s.(blocks := s.blocks + Packetize(data, mss, s.nextMsgNo, order), nextMsgNo := NextMsgNo(s.nextMsgNo))
  }

  /** How much of a message of len bytes send takes, given the free blocks. */
  ghost function Room(s: Snd, len: int, mss: int, bufSize: int): int {
    if len <= 0 || bufSize <= |s.blocks| then 0
    else if (bufSize - |s.blocks|) * mss > len then len
    else (bufSize - |s.blocks|) * mss
  }

  /** Packets that take n bytes fit in the free blocks, and fill them when not all was taken. */
  lemma RoomFits(count: int, free: int, n: int, len: int, mss: int)
    requires mss > 0 && free > 0 && n == (if free * mss > len then len else free * mss)
    requires (count - 1) * mss < n <= count * mss
    ensures count <= free && (n == len || count == free)
  {
    if count > free {
      MulMonotone(free, count - 1, mss);
    }
    if count < free {
      MulMonotone(count, free - 1, mss);
      assert (free - 1) * mss == free * mss - mss;
    }
  }

  /** What send takes is all of the data, or fills the buffer to the last block with packets of mss bytes each. */
  lemma RoomFills(s: Snd, data: Bytes, mss: int, bufSize: int, order: bool)
    requires mss > 0 && |s.blocks| <= bufSize
    ensures
      var n := Room(s, |data|, mss, bufSize);
      && 0 <= n <= |data|
      && var added := Packetize(data[..n], mss, s.nextMsgNo, order);
      && |s.blocks| + |added| <= bufSize
      && (n == |data| || (|s.blocks| + |added| == bufSize && forall b | b in added :: |b.data| == mss))
  {
    var n, free := Room(s, |data|, mss, bufSize), bufSize - |s.blocks|;
    MulMonotone(0, free, mss);
    var part, added := data[..n], Packetize(data[..n], mss, s.nextMsgNo, order);
    ChunksBound(part, mss);
    if 0 < free && data != [] {
      MulMonotone(1, free, mss);
      RoomFits(|added|, free, n, |data|, mss);
    }
    if n < |data| {
      FullChunks(part, mss);
    }
  }

  /** packData, first half: the least lost number is taken out of the loss list. */
  ghost function TakeLost(s: Snd): Snd {
    if s.loss == {} then s.(pending := None)
    else s.(pending := Some(Least(s.loss)), loss := s.loss - {Least(s.loss)})
  }

  /** packData, second half, under the lock that keeps acknowledgements out. */
  ghost function Retransmit(s: Snd): (Snd, Option<Data>) {
    if s.pending == None then (s, None)
    else
      var n := s.pending.value;
      var offset := n - s.dataUna;
      var s' := s.(pending := None);
      if 0 <= offset < |s.blocks| && s.blocks[offset].data != [] then (s', Some(Data(n, s.blocks[offset])))
      else (s', None)
  }

  /** packData when nothing is lost; cwnd is the congestion window. */
  ghost function SendNew(s: Snd, cwnd: int): (Snd, Option<Data>) {
    if Min(s.window, cwnd) >= s.cur + 2 - s.una && 0 <= s.curr < |s.blocks| then
      (s.(cur := s.cur + 1, curr := s.curr + 1), Some(Data(s.cur + 1, s.blocks[s.curr])))
    else (s, None)
  }

  ghost function OnLiteAck(s: Snd, ack: int): Snd {
    if ack >= s.una then s.(window := s.window - (ack - s.una), una := ack) else s
  }

  ghost function OnAck(s: Snd, ack: int, window: int): Snd {
    if ack > s.cur + 1 then s.(broken := true)
    else
      var s1 := if ack >= s.una then s.(window := window, una := ack) else s;
      var offset := ack - s.dataUna;
      if offset <= 0 || offset > |s.blocks| then s1
      else s1.(blocks := s.blocks[offset..], curr := s.curr - offset, dataUna := ack,
               loss := Above(s.loss, ack - 1))
  }

  /** One entry of a loss report. */
  ghost function OnLoss(s: Snd, a: int, b: int): Snd {
    if s.broken then s
    else if a > b || b > s.cur then s.(broken := true)
    else s.(loss := s.loss + Range(Max(a, s.una), b))
  }

  ghost function OnNak(s: Snd, ranges: seq<(int, int)>): Snd
    decreases |ranges|
  {
    if ranges == [] then s
    else OnLoss(OnNak(s, ranges[..|ranges| - 1]), ranges[|ranges| - 1].0, ranges[|ranges| - 1].1)
  }

  /** The expiration branch of checkTimers. */
  ghost function OnTimeout(s: Snd): Snd {
    if s.blocks != [] && s.cur + 1 != s.una && s.loss == {} then s.(loss := Range(s.una, s.cur)) else s
  }

  // Invariants of the sender alone, whatever the peer does within the stated bounds

  /**
   The buffer is the part of the history from the first number not acknowledged on,
   m_pCurrBlock stands at the number after m_iSndCurrSeqNo, what is lost was sent and not
   acknowledged, and no more than the widest window is out.
   */
  ghost predicate SndInv(s: Snd, isn: int, hist: seq<Block>, widest: int) {
    && isn <= s.dataUna <= s.una <= s.cur + 1 <= isn + |hist|
    && s.blocks == hist[s.dataUna - isn..]
    && s.curr == s.cur + 1 - s.dataUna
    && (forall n | n in s.loss :: s.dataUna <= n <= s.cur)
    && (s.pending != None ==> isn <= s.pending.value <= s.cur)
    && s.una + s.window <= s.dataUna + widest
    && s.cur + 1 <= s.dataUna + widest
  }

  lemma AddKeeps(s: Snd, isn: int, hist: seq<Block>, widest: int, data: Bytes, mss: int, order: bool)
    requires SndInv(s, isn, hist, widest) && mss > 0
    ensures SndInv(Add(s, data, mss, order), isn, hist + Packetize(data, mss, s.nextMsgNo, order), widest)
  {
  }

  lemma TakeLostKeeps(s: Snd, isn: int, hist: seq<Block>, widest: int)
    requires SndInv(s, isn, hist, widest)
    ensures SndInv(TakeLost(s), isn, hist, widest)
  {
  }

  /** A retransmission carries what was first sent under its number. */
  lemma RetransmitKeeps(s: Snd, isn: int, hist: seq<Block>, widest: int)
    requires SndInv(s, isn, hist, widest)
    ensures SndInv(Retransmit(s).0, isn, hist, widest)
    ensures
      var p := Retransmit(s).1;
      p != None ==> isn <= p.value.n <= s.cur && p.value.block == hist[p.value.n - isn]
  {
  }

  /** A retransmission is only skipped when the number has been acknowledged meanwhile. */
  lemma RetransmitSends(s: Snd, isn: int, hist: seq<Block>, widest: int)
    requires SndInv(s, isn, hist, widest) && forall b | b in hist :: b.data != []
    ensures Retransmit(s).1 != None <==> s.pending != None && s.pending.value >= s.dataUna
  {
    if s.pending != None && s.pending.value >= s.dataUna {
      var offset := s.pending.value - s.dataUna;
      assert s.blocks[offset] == hist[s.pending.value - isn];
      assert s.blocks[offset] in hist;
    }
  }

  lemma SendNewKeeps(s: Snd, isn: int, hist: seq<Block>, widest: int, cwnd: int)
    requires SndInv(s, isn, hist, widest)
    ensures SndInv(SendNew(s, cwnd).0, isn, hist, widest)
    ensures
      var p := SendNew(s, cwnd).1;
      p != None ==> p.value.n == s.cur + 1 == SendNew(s, cwnd).0.cur && p.value.block == hist[p.value.n - isn]
    ensures SendNew(s, cwnd).1 != None <==>
              s.cur + 1 < isn + |hist| && s.cur + 2 - s.una <= cwnd && s.cur + 2 - s.una <= s.window
    ensures SendNew(s, cwnd).1 == None ==> SendNew(s, cwnd).0 == s
  {
  }

  lemma OnLiteAckKeeps(s: Snd, isn: int, hist: seq<Block>, widest: int, ack: int)
    requires SndInv(s, isn, hist, widest) && ack <= s.cur + 1
    ensures SndInv(OnLiteAck(s, ack), isn, hist, widest)
    ensures OnLiteAck(s, ack).una + OnLiteAck(s, ack).window == s.una + s.window
  {
  }

  lemma OnAckKeeps(s: Snd, isn: int, hist: seq<Block>, widest: int, ack: int, window: int)
    requires SndInv(s, isn, hist, widest) && window <= widest
    ensures SndInv(OnAck(s, ack, window), isn, hist, widest)
  {
    var offset := ack - s.dataUna;
    if 0 < offset <= |s.blocks| && ack <= s.cur + 1 {
      assert hist[s.dataUna - isn..][offset..] == hist[ack - isn..];
    }
  }

  /**
   Positions never go back, an old acknowledgement says nothing of the window, and what is lost
   stays lost unless it is acknowledged.
   */
  ghost predicate Acked(s: Snd, ack: int, window: int, s': Snd) {
    && s'.una == Max(s.una, ack) && s'.dataUna == Max(s.dataUna, ack) && s'.cur == s.cur
    && s'.window == (if ack < s.una then s.window else window) && s'.broken == s.broken
    && forall x :: x in s'.loss <==> x in s.loss && x >= s'.dataUna
  }

  lemma OnAckSpares(s: Snd, isn: int, hist: seq<Block>, widest: int, ack: int, window: int)
    requires SndInv(s, isn, hist, widest) && ack <= s.cur + 1
    ensures Acked(s, ack, window, OnAck(s, ack, window))
  {
  }

  /** An acknowledgement of what was not sent breaks the connection and does nothing else. */
  lemma OnAckBreaks(s: Snd, ack: int, window: int)
    requires !s.broken
    ensures OnAck(s, ack, window).broken <==> ack > s.cur + 1
    ensures OnAck(s, ack, window).broken ==> OnAck(s, ack, window) == s.(broken := true)
  {
  }

  lemma OnLossKeeps(s: Snd, isn: int, hist: seq<Block>, widest: int, a: int, b: int)
    requires SndInv(s, isn, hist, widest)
    ensures SndInv(OnLoss(s, a, b), isn, hist, widest)
  {
  }

  lemma {:induction false} OnNakKeeps(s: Snd, isn: int, hist: seq<Block>, widest: int, ranges: seq<(int, int)>)
    requires SndInv(s, isn, hist, widest)
    ensures SndInv(OnNak(s, ranges), isn, hist, widest)
    ensures OnNak(s, ranges) == s.(loss := OnNak(s, ranges).loss, broken := OnNak(s, ranges).broken)
    ensures s.loss <= OnNak(s, ranges).loss
    decreases |ranges|
  {
    if ranges != [] {
      var init := ranges[..|ranges| - 1];
      OnNakKeeps(s, isn, hist, widest, init);
      OnLossKeeps(OnNak(s, init), isn, hist, widest, ranges[|ranges| - 1].0, ranges[|ranges| - 1].1);
    }
  }

  /** A report whose ranges were all sent adds exactly the reported numbers not before una. */
  lemma {:induction false} OnNakAdds(s: Snd, ranges: seq<(int, int)>)
    requires !s.broken && forall r | r in ranges :: r.0 <= r.1 <= s.cur
    ensures OnNak(s, ranges) == s.(loss := OnNak(s, ranges).loss)
    ensures forall x :: x in OnNak(s, ranges).loss <==>
              x in s.loss || (s.una <= x && LossReport.Named(ranges, x))
    decreases |ranges|
  {
    if ranges != [] {
      var init, last := ranges[..|ranges| - 1], ranges[|ranges| - 1];
      OnNakAdds(s, init);
      assert ranges == init + [last];
    }
  }

  /** What a report of the numbers in lost marks at a sender in state s. */
  ghost function Marks(s: Snd, lost: set<int>, whole: bool, bound: int): set<int> {
    set x | x in lost && s.una <= x && (whole || x < bound)
  }

  lemma MarksAre(s: Snd, loss: set<int>, ranges: seq<(int, int)>, lost: set<int>, whole: bool, bound: int)
    requires LossReport.Reports(ranges, lost, whole, bound)
    requires forall x :: x in loss <==> x in s.loss || (s.una <= x && LossReport.Named(ranges, x))
    ensures loss == s.loss + Marks(s, lost, whole, bound)
  {
    assert LossReport.Told(0);
    forall x ensures x in loss <==> x in s.loss + Marks(s, lost, whole, bound) {
      assert LossReport.Named(ranges, x) <==> x in lost && (whole || x < bound);
    }
  }

  /** A report of numbers that were all sent marks those of them that are named and not before una. */
  lemma ReportMarks(s: Snd, ranges: seq<(int, int)>, lost: set<int>, whole: bool, bound: int)
    requires !s.broken && LossReport.Reports(ranges, lost, whole, bound) && forall x | x in lost :: x <= s.cur
    ensures OnNak(s, ranges) == s.(loss := s.loss + Marks(s, lost, whole, bound))
  {
    assert LossReport.Told(0);
    assert forall r | r in ranges :: r.1 in lost;
    OnNakAdds(s, ranges);
    MarksAre(s, OnNak(s, ranges).loss, ranges, lost, whole, bound);
  }

  lemma OnNakNext(s: Snd, ranges: seq<(int, int)>, k: int)
    requires 0 <= k < |ranges|
    ensures OnNak(s, ranges[..k + 1]) == OnLoss(OnNak(s, ranges[..k]), ranges[k].0, ranges[k].1)
  {
    assert ranges[..k + 1][..k] == ranges[..k];
  }

  /** Nothing behind an entry that breaks the connection is looked at. */
  lemma {:induction false} OnNakStops(s: Snd, ranges: seq<(int, int)>, k: int)
    requires 0 <= k <= |ranges| && (k == |ranges| || OnNak(s, ranges[..k]).broken)
    ensures OnNak(s, ranges) == OnNak(s, ranges[..k])
    decreases |ranges|
  {
    if k < |ranges| {
      var init := ranges[..|ranges| - 1];
      assert init[..k] == ranges[..k];
      OnNakStops(s, init, k);
    } else {
      assert ranges[..k] == ranges;
    }
  }

  /** A report breaks the connection if and only if a range is reversed or was not all sent. */
  lemma {:induction false} OnNakBreaks(s: Snd, ranges: seq<(int, int)>)
    requires !s.broken
    ensures OnNak(s, ranges).broken <==> exists r :: r in ranges && !(r.0 <= r.1 <= s.cur)
    ensures OnNak(s, ranges) == s.(loss := OnNak(s, ranges).loss, broken := OnNak(s, ranges).broken)
    decreases |ranges|
  {
    if ranges != [] {
      var init, last := ranges[..|ranges| - 1], ranges[|ranges| - 1];
      OnNakBreaks(s, init);
      assert ranges == init + [last];
    }
  }

  /** Up to the first such range the report has been taken. */
  lemma OnNakUpTo(s: Snd, ranges: seq<(int, int)>, k: int)
    requires !s.broken && 0 <= k < |ranges| && !(ranges[k].0 <= ranges[k].1 <= s.cur)
    requires forall j | 0 <= j < k :: ranges[j].0 <= ranges[j].1 <= s.cur
    ensures OnNak(s, ranges) == s.(loss := OnNak(s, ranges).loss, broken := true)
    ensures forall x :: x in OnNak(s, ranges).loss <==>
              x in s.loss || (s.una <= x && LossReport.Named(ranges[..k], x))
  {
    OnNakAdds(s, ranges[..k]);
    OnNakNext(s, ranges, k);
    OnNakStops(s, ranges, k + 1);
  }

  lemma OnTimeoutKeeps(s: Snd, isn: int, hist: seq<Block>, widest: int)
    requires SndInv(s, isn, hist, widest)
    ensures SndInv(OnTimeout(s), isn, hist, widest)
  {
  }
}
