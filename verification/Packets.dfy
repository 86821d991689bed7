/** Data packets: what a block of the sender's buffer carries to the receiver's. */
module Packets {
  import opened Ring

  newtype byte = x: int | 0 <= x < 256

  type Bytes = seq<byte>

  datatype Option<+T> = None | Some(value: T)

  /** The 32-bit message field, read as unsigned, and the payload. */
  datatype Block = Block(msgNo: int, data: Bytes)

  const MAX_MSG_NO := 0x1FFF_FFFF

  function MsgField(no: int, order: bool, first: bool, last: bool): int {
    no + (if order then 0x2000_0000 else 0) + (if last then 0x4000_0000 else 0) + (if first then 0x8000_0000 else 0)
  }

  /** 3 for a message of one packet, 2 for the first packet of a longer one, 1 for its last, 0 inside. */
  function Boundary(field: int): int {
    field / 0x4000_0000 % 4
  }

  predicate OrderFlag(field: int) {
    field / 0x2000_0000 % 2 == 1
  }

  function MsgSeq(field: int): int {
    field % 0x2000_0000
  }

  lemma FieldRoundTrip(no: int, order: bool, first: bool, last: bool)
    requires 0 <= no <= MAX_MSG_NO
    ensures var f := MsgField(no, order, first, last);
      && MsgSeq(f) == no && OrderFlag(f) == order
      && Boundary(f) == (if first then 2 else 0) + (if last then 1 else 0)
      && 0 <= f < 0x1_0000_0000 && (f >= 0x8000_0000 <==> first)
      && (f % 0x8000_0000 >= 0x4000_0000 <==> last) && (f % 0x4000_0000 >= 0x2000_0000 <==> order)
  {
  }

  /** The three parts make up the whole field. */
  lemma FieldIs(f: int, g: int)
    requires 0 <= f < 0x1_0000_0000 && 0 <= g < 0x1_0000_0000
    requires MsgSeq(f) == MsgSeq(g) && OrderFlag(f) == OrderFlag(g) && Boundary(f) == Boundary(g)
    ensures f == g
  {
  }

  function NextMsgNo(no: int): int {
    if no + 1 == MAX_MSG_NO then 1 else no + 1
  }

  /** The number of the k-th message after the one numbered no. */
  ghost function MsgNoAfter(no: int, k: nat): int {
    if k == 0 then no else NextMsgNo(MsgNoAfter(no, k - 1))
  }

  /** Numbers go round through 1 to MAX_MSG_NO - 1. */
  lemma {:induction false} MsgNoIs(no: int, k: nat)
    requires 1 <= no < MAX_MSG_NO
    ensures MsgNoAfter(no, k) == Slot(no - 1 + k, MAX_MSG_NO - 1) + 1
    decreases k
  {
    var size := MAX_MSG_NO - 1;
    if k == 0 {
      SlotSmall(no - 1, size);
    } else {
      MsgNoIs(no, k - 1);
      var before := Slot(no - 2 + k, size);
      SlotPlus(no - 2 + k, 1, size);
      if before + 1 == size {
        SlotPeriod(0, size);
        SlotSmall(0, size);
      } else {
        SlotSmall(before + 1, size);
      }
    }
  }

  /** Messages have different numbers unless as many as there are numbers lie between them. */
  lemma MsgNosDiffer(no: int, i: nat, j: nat)
    requires 1 <= no < MAX_MSG_NO && i < j < i + MAX_MSG_NO - 1
    ensures 1 <= MsgNoAfter(no, i) < MAX_MSG_NO && MsgNoAfter(no, i) != MsgNoAfter(no, j)
  {
    MsgNoIs(no, i);
    MsgNoIs(no, j);
    SlotInjective(no - 1 + i, no - 1 + j, MAX_MSG_NO - 1);
  }

  /** The payloads of the blocks i to j, in order. */
  ghost function Join(blocks: seq<Block>, i: int, j: int): Bytes
    requires 0 <= i <= j <= |blocks|
    decreases j - i
  {
    if i == j then [] else blocks[i].data + Join(blocks, i + 1, j)
  }

  lemma {:induction false} JoinSplit(blocks: seq<Block>, i: int, j: int, k: int)
    requires 0 <= i <= j <= k <= |blocks|
    ensures Join(blocks, i, k) == Join(blocks, i, j) + Join(blocks, j, k)
    decreases j - i
  {
    if i < j {
      JoinSplit(blocks, i + 1, j, k);
    }
  }

  /** Blocks with the same payloads join to the same bytes, wherever they stand. */
  lemma {:induction false} JoinSame(a: seq<Block>, i: int, j: int, b: seq<Block>, d: int)
    requires 0 <= i <= j <= |a| && 0 <= i + d && j + d <= |b|
    requires forall n | i <= n < j :: a[n] == b[n + d]
    ensures Join(a, i, j) == Join(b, i + d, j + d)
    decreases j - i
  {
    if i < j {
      JoinSame(a, i + 1, j, b, d);
    }
  }

  // Framing: a message becomes packets of mss bytes, the last one with what is left

  ghost function Chunks(data: Bytes, mss: int): seq<Bytes>
    requires mss > 0
    decreases |data|
  {
    if data == [] then []
    else if |data| <= mss then [data]
    else [data[..mss]] + Chunks(data[mss..], mss)
  }

  ghost function Packetize(data: Bytes, mss: int, no: int, order: bool): seq<Block>
    requires mss > 0
  {
    var c := Chunks(data, mss);
    seq(|c|, i requires 0 <= i < |c| => Block(MsgField(no, order, i == 0, i == |c| - 1), c[i]))
  }

  /** Every packet carries between 1 and mss bytes. */
  lemma {:induction false} ChunkSizes(data: Bytes, mss: int)
    requires mss > 0
    ensures forall i | 0 <= i < |Chunks(data, mss)| :: 0 < |Chunks(data, mss)[i]| <= mss
    ensures data != [] ==> Chunks(data, mss) != []
    decreases |data|
  {
    if |data| > mss {
      ChunkSizes(data[mss..], mss);
    }
  }

  ghost function Flatten(parts: seq<Bytes>): Bytes {
    if parts == [] then [] else parts[0] + Flatten(parts[1..])
  }

  lemma {:induction false} FlattenChunks(data: Bytes, mss: int)
    requires mss > 0
    ensures Flatten(Chunks(data, mss)) == data
    decreases |data|
  {
    if |data| > mss {
      FlattenChunks(data[mss..], mss);
      assert Chunks(data, mss)[1..] == Chunks(data[mss..], mss);
      assert data == data[..mss] + data[mss..];
    }
  }

  lemma {:induction false} JoinFlatten(blocks: seq<Block>, i: int, parts: seq<Bytes>)
    requires 0 <= i && |blocks| == i + |parts| && forall k | 0 <= k < |parts| :: blocks[i + k].data == parts[k]
    ensures Join(blocks, i, |blocks|) == Flatten(parts)
    decreases |parts|
  {
    if parts != [] {
      JoinFlatten(blocks, i + 1, parts[1..]);
    }
  }

  /** Framing loses nothing: the payloads of the packets, joined, are the data. */
  lemma JoinPacketize(data: Bytes, mss: int, no: int, order: bool)
    requires mss > 0
    ensures Join(Packetize(data, mss, no, order), 0, |Packetize(data, mss, no, order)|) == data
    ensures forall b | b in Packetize(data, mss, no, order) :: 0 < |b.data| <= mss
  {
    JoinFlatten(Packetize(data, mss, no, order), 0, Chunks(data, mss));
    FlattenChunks(data, mss);
    ChunkSizes(data, mss);
  }

  /** How many packets a message of len bytes takes. */
  function ChunkCount(len: int, mss: int): int
    requires mss > 0
  {
    len / mss + if len % mss != 0 then 1 else 0
  }

  lemma {:induction false} ChunksCount(data: Bytes, mss: int)
    requires mss > 0
    ensures |Chunks(data, mss)| == ChunkCount(|data|, mss)
    decreases |data|
  {
    if |data| > mss {
      ChunksCount(data[mss..], mss);
      CountStep(|data|, mss);
    } else {
      CountSmall(|data|, mss);
    }
  }

  /** Packet i starts i * mss bytes into the data. */
  lemma {:induction false} ChunkAt(data: Bytes, mss: int, i: int)
    requires mss > 0 && 0 <= i < |Chunks(data, mss)|
    ensures 0 <= i * mss < |data|
    ensures Chunks(data, mss)[i] == data[i * mss..if |data| - i * mss > mss then i * mss + mss else |data|]
    decreases |data|
  {
    if |data| > mss && i > 0 {
      ChunkAt(data[mss..], mss, i - 1);
      assert (i - 1) * mss == i * mss - mss;
    }
  }

  /**
   The packets are the data cut every mss bytes, and no more of them than that takes.  Each is
   marked with the number and the order of the message; the first and the last are marked as such.
   */
  ghost predicate Framing(packets: seq<Block>, data: Bytes, mss: int, no: int, order: bool) {
    && (|packets| - 1) * mss < |data| <= |packets| * mss
    && forall i {:trigger packets[i]} | 0 <= i < |packets| ::
         && 0 <= i * mss < |data|
         && packets[i].data == data[i * mss..if |data| - i * mss > mss then i * mss + mss else |data|]
         && 0 <= packets[i].msgNo < 0x1_0000_0000
         && MsgSeq(packets[i].msgNo) == no && OrderFlag(packets[i].msgNo) == order
         && Boundary(packets[i].msgNo) == (if i == 0 then 2 else 0) + (if i == |packets| - 1 then 1 else 0)
  }

  lemma {:induction false} ChunksBound(data: Bytes, mss: int)
    requires mss > 0
    ensures (|Chunks(data, mss)| - 1) * mss < |data| <= |Chunks(data, mss)| * mss
    decreases |data|
  {
    if |data| > mss {
      ChunksBound(data[mss..], mss);
      var n := |Chunks(data[mss..], mss)|;
      assert (n + 1) * mss == n * mss + mss && (n - 1) * mss == n * mss - mss;
    }
  }

  /** Data that leaves no room in the last packet fills them all. */
  lemma FullChunks(data: Bytes, mss: int)
    requires mss > 0 && |data| == |Chunks(data, mss)| * mss
    ensures forall i | 0 <= i < |Chunks(data, mss)| :: |Chunks(data, mss)[i]| == mss
  {
    var c := Chunks(data, mss);
    forall i | 0 <= i < |c| ensures |c[i]| == mss {
      ChunkAt(data, mss, i);
      MulMonotone(i + 1, |c|, mss);
      assert (i + 1) * mss == i * mss + mss;
    }
  }

  lemma PacketizeIsFraming(data: Bytes, mss: int, no: int, order: bool)
    requires mss > 0 && 0 <= no <= MAX_MSG_NO
    ensures Framing(Packetize(data, mss, no, order), data, mss, no, order)
  {
    var p, c := Packetize(data, mss, no, order), Chunks(data, mss);
    ChunksBound(data, mss);
    forall i {:trigger p[i]} | 0 <= i < |p|
      ensures 0 <= i * mss < |data|
      ensures p[i].data == data[i * mss..if |data| - i * mss > mss then i * mss + mss else |data|]
      ensures 0 <= p[i].msgNo < 0x1_0000_0000
      ensures MsgSeq(p[i].msgNo) == no && OrderFlag(p[i].msgNo) == order
      ensures Boundary(p[i].msgNo) == (if i == 0 then 2 else 0) + (if i == |p| - 1 then 1 else 0)
    {
      ChunkAt(data, mss, i);
      FieldRoundTrip(no, order, i == 0, i == |c| - 1);
    }
  }

  /** The length alone says how many packets it takes. */
  lemma FramingCount(p: seq<Block>, q: seq<Block>, len: int, mss: int)
    requires mss > 0 && (|p| - 1) * mss < len <= |p| * mss && (|q| - 1) * mss < len <= |q| * mss
    ensures |p| == |q|
  {
    if |p| < |q| {
      MulMonotone(|p|, |q| - 1, mss);
    } else if |q| < |p| {
      MulMonotone(|q|, |p| - 1, mss);
    }
  }

  /** There is only one such framing. */
  lemma FramingUnique(p: seq<Block>, q: seq<Block>, data: Bytes, mss: int, no: int, order: bool)
    requires mss > 0 && Framing(p, data, mss, no, order) && Framing(q, data, mss, no, order)
    ensures p == q
  {
    FramingCount(p, q, |data|, mss);
    forall i | 0 <= i < |p| ensures p[i] == q[i] {
      FieldIs(p[i].msgNo, q[i].msgNo);
    }
  }

  lemma CountSmall(len: int, mss: int)
    requires mss > 0 && 0 <= len <= mss
    ensures ChunkCount(len, mss) == if len == 0 then 0 else 1
  {
    if len == mss {
      DivUnique(len, 1, 0, mss);
    } else {
      DivUnique(len, 0, len, mss);
    }
    assert len == len / mss * mss + len % mss;
    if len == mss {
      SmallMultiple(len / mss - 1, mss);
    } else {
      SmallMultiple(len / mss, mss);
    }
  }

  lemma CountStep(len: int, mss: int)
    requires mss > 0 && len > mss
    ensures ChunkCount(len, mss) == ChunkCount(len - mss, mss) + 1
  {
    var n := len - mss;
    ModPeriod(n, mss);
    assert n == n / mss * mss + n % mss && len == len / mss * mss + len % mss;
    assert (len / mss - n / mss - 1) * mss == len / mss * mss - n / mss * mss - mss == 0;
    SmallMultiple(len / mss - n / mss - 1, mss);
  }
}
