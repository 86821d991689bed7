/** CSndBuffer: the ring of blocks the sender keeps until they are acknowledged. */
module SendBuffer {
  import opened Packets

  class Node {
    var data: Bytes
    var msgNo: int
    var next: Node?

    constructor ()
      ensures next == null
    {
      data, msgNo, next := [], 0, null;
    }
  }

  /** The node after position i of a ring. */
  function After<T>(ring: seq<T>, i: int): T
    requires 0 <= i < |ring|
  {
    if i + 1 == |ring| then ring[0] else ring[i + 1]
  }

  /** The links of the nodes go around the ring. */
  ghost predicate Closed(ring: seq<Node>)
    reads ring
  {
    forall i {:trigger ring[i].next} | 0 <= i < |ring| :: ring[i].next == After(ring, i)
  }

  /** Asserting Compared of some number brings what Distinct says into a proof. */
  ghost predicate Compared(k: int) {
    true
  }

  ghost predicate Distinct<T>(s: seq<T>) {
    forall k {:trigger Compared(k)} | Compared(k) :: forall i, j | 0 <= i < j < |s| :: s[i] != s[j]
  }

  /** A chain of n new nodes. */
  method MakeChain(n: int) returns (head: Node, end: Node, ghost nodes: seq<Node>)
    requires n > 0
    ensures |nodes| == n && fresh(nodes) && Distinct(nodes)
    ensures head == nodes[0] && end == nodes[n - 1]
    ensures forall k | 0 <= k < n - 1 :: nodes[k].next == nodes[k + 1]
  {
    assert Compared(0);
    head := new Node();
    end := head;
    nodes := [head];
    for i := 1 to n
      invariant |nodes| == i && fresh(nodes) && Distinct(nodes)
      invariant nodes[0] == head && end == nodes[i - 1]
      invariant forall k | 0 <= k < i - 1 :: nodes[k].next == nodes[k + 1]
    {
      var b := new Node();
      end.next := b;
      end := b;
      nodes := nodes + [b];
    }
  }

  ghost function Spliced<T>(s: seq<T>, k: int, t: seq<T>): seq<T>
    requires 0 <= k <= |s|
  {
    s[..k] + t + s[k..]
  }

  lemma SplicedAt<T>(s: seq<T>, k: int, t: seq<T>, i: int)
    requires 0 <= k <= |s| && 0 <= i < |s| + |t|
    ensures Spliced(s, k, t)[i] == if i < k then s[i] else if i < k + |t| then t[i - k] else s[i - |t|]
  {
  }

  lemma SplicedDistinct<T>(s: seq<T>, k: int, t: seq<T>)
    requires 0 <= k <= |s| && Distinct(s) && Distinct(t)
    requires forall i, j | 0 <= i < |s| && 0 <= j < |t| :: s[i] != t[j]
    ensures Distinct(Spliced(s, k, t))
  {
    assert Compared(0);
    var r := Spliced(s, k, t);
    forall i, j | 0 <= i < j < |r| ensures r[i] != r[j] {
      SplicedAt(s, k, t, i);
      SplicedAt(s, k, t, j);
    }
  }

  /** Hooking a chain in behind position k - 1 makes a ring of the spliced nodes. */
  lemma SplicedLinks(s: seq<Node>, k: int, t: seq<Node>)
    requires 0 < k <= |s| && |t| > 0
    requires forall j {:trigger s[j].next} | 0 <= j < |s| && j != k - 1 :: s[j].next == After(s, j)
    requires s[k - 1].next == t[0] && t[|t| - 1].next == After(s, k - 1)
    requires forall j | 0 <= j < |t| - 1 :: t[j].next == t[j + 1]
    ensures Closed(Spliced(s, k, t))
  {
    var r := Spliced(s, k, t);
    forall i | 0 <= i < |r| ensures r[i].next == After(r, i) {
      SplicedAt(s, k, t, i);
      SplicedAt(s, k, t, if i + 1 == |r| then 0 else i + 1);
    }
  }

  class SndBuffer {
    const mss: int
    const unit: int
    var first: Node
    var curr: Node
    var last: Node
    var nextMsgNo: int
    var size: int
    var count: int
    // The ring from the first block on, how far behind it the current one is, and what the
    // blocks in use hold, first to last.
    ghost var ring: seq<Node>
    ghost var ahead: int
    ghost var blocks: seq<Block>

    ghost predicate Shape()
      reads this, ring
    {
      && mss > 0 && unit > 0
      && 0 <= ahead <= count == |blocks| < size == |ring|
      && Distinct(ring)
      && first == ring[0] && curr == ring[ahead] && last == ring[count]
      && Closed(ring)
      && forall i {:trigger blocks[i]} | 0 <= i < count :: Shows(ring[i], blocks[i])
    }

    ghost predicate Shows(b: Node, block: Block)
      reads b
    {
      b.msgNo == block.msgNo && b.data == block.data
    }

    /** The blocks in use hold what they should. */
    ghost predicate Valid()
      reads this, ring
    {
      && mss > 0 && 0 <= ahead <= count == |blocks|
      && forall k {:trigger Compared(k)} | Compared(k) :: Shape()
    }

    constructor (size: int, mss: int)
      requires size > 1 && mss > 0
      ensures Valid() && blocks == [] && ahead == 0 && nextMsgNo == 1
      ensures this.mss == mss && fresh(ring)
    {
      var b, end;
      ghost var nodes;
      b, end, nodes := MakeChain(size);
      assert Compared(0);
      end.next := b;
      this.mss := mss;
      this.unit := size;
      this.size := size;
      nextMsgNo, count, ahead := 1, 0, 0;
      first, curr, last := b, b, b;
      ring, blocks := nodes, [];
    }

    /** Adds one more unit of empty blocks behind the last one. */
    method Increase()
      requires Shape()
      modifies this`size, this`ring, last
      ensures Shape() && size == old(size) + unit
      ensures ring[..count + 1] == old(ring[..count + 1])
      ensures forall i | 0 <= i < |ring| :: ring[i] in old(ring) || fresh(ring[i])
    {
      var head, end;
      ghost var nodes;
      head, end, nodes := MakeChain(unit);
      ghost var r := ring;
      ring := Hooked(r, nodes);
      assert last !in nodes && end !in r;
      Link(head, end, r, nodes);
      size := size + unit;
      SamePlaces(r, ring);
    }

    lemma SamePlaces(r: seq<Node>, s: seq<Node>)
      requires 0 <= ahead <= count == |blocks| < |r| && count < |s| && s[..count + 1] == r[..count + 1]
      requires forall i {:trigger blocks[i]} | 0 <= i < count :: Shows(r[i], blocks[i])
      ensures s[0] == r[0] && s[ahead] == r[ahead] && s[count] == r[count]
      ensures forall i {:trigger blocks[i]} | 0 <= i < count :: Shows(s[i], blocks[i])
    {
      forall i | 0 <= i <= count ensures s[i] == r[i] {
        assert s[..count + 1][i] == r[..count + 1][i];
      }
    }

    /** The links of the new chain, hooked in behind the last block. */
    method Link(head: Node, end: Node, ghost r: seq<Node>, ghost nodes: seq<Node>)
      requires 0 <= count < |r| && last == r[count] && Distinct(r) && Closed(r) && last !in nodes && end !in r
      requires |nodes| > 0 && Distinct(nodes) && head == nodes[0] && end == nodes[|nodes| - 1]
      requires forall k | 0 <= k < |nodes| - 1 :: nodes[k].next == nodes[k + 1]
      modifies last`next, end`next
      ensures Closed(Spliced(r, count + 1, nodes))
    {
      assert Compared(0);
      end.next := last.next;
      last.next := head;
      SplicedLinks(r, count + 1, nodes);
    }

    ghost method Hooked(r: seq<Node>, nodes: seq<Node>) returns (s: seq<Node>)
      requires Shape() && r == ring && Distinct(nodes) && forall b | b in nodes :: b !in r
      ensures s == Spliced(r, count + 1, nodes) && |s| == |r| + |nodes| && Distinct(s)
      ensures s[..count + 1] == r[..count + 1]
      ensures forall b | b in s :: b in r || b in nodes
    {
      assert Compared(0);
      forall i, j | 0 <= i < |r| && 0 <= j < |nodes| ensures r[i] != nodes[j] {
        assert nodes[j] in nodes;
      }
      SplicedDistinct(r, count + 1, nodes);
      return Spliced(r, count + 1, nodes);
    }

    /** Makes room for n more blocks. */
    method Reserve(n: int)
      requires Shape() && n >= 0
      modifies this`size, this`ring, ring
      ensures Shape() && n + count < size
      ensures ring[..count + 1] == old(ring[..count + 1])
      ensures forall i | 0 <= i < |ring| :: ring[i] in old(ring) || fresh(ring[i])
    {
      while n + count >= size
        invariant Shape() && ring[..count + 1] == old(ring[..count + 1])
        invariant forall i | 0 <= i < |ring| :: ring[i] in old(ring) || fresh(ring[i])
        decreases n + count - size
      {
        Increase();
      }
    }

    /** Writes the n packets of data into the free blocks from the last one on. */
    method Fill(data: Bytes, order: bool, n: int, ghost packets: seq<Block>) returns (s: Node)
      requires Shape() && count + n < size
      requires packets == Packetize(data, mss, nextMsgNo, order) && n == |packets|
      modifies ring
      ensures Shape() && s == ring[count + n]
      ensures forall k {:trigger packets[k]} | 0 <= k < n :: Shows(ring[count + k], packets[k])
    {
      s := last;
      for i := 0 to n
        invariant Shape() && s == ring[count + i]
        invariant forall k {:trigger packets[k]} | 0 <= k < i :: Shows(ring[count + k], packets[k])
      {
        s := FillOne(s, data, order, i, n, packets);
      }
    }

    /** Writes packet i into the block s and steps to the next block. */
    method FillOne(s: Node, data: Bytes, order: bool, i: int, n: int, ghost packets: seq<Block>) returns (s': Node)
      requires Shape() && count + n < size && 0 <= i < n && s == ring[count + i]
      requires packets == Packetize(data, mss, nextMsgNo, order) && n == |packets|
      modifies s`data, s`msgNo
      ensures Shape() && s' == ring[count + i + 1] && Shows(ring[count + i], packets[i])
      ensures forall k {:trigger ring[k]} | 0 <= k < |ring| && k != count + i :: ring[k] != s
    {
      var piece := Piece(data, i);
      WriteBlock(s, piece, MsgField(nextMsgNo, order, i == 0, i == n - 1), count + i);
      s' := s.next;
    }

    /** The part of the data that goes into packet i. */
    method Piece(data: Bytes, i: int) returns (piece: Bytes)
      requires mss > 0 && 0 <= i < |Chunks(data, mss)|
      ensures piece == Chunks(data, mss)[i]
    {
      ChunkAt(data, mss, i);
      var pktlen := |data| - i * mss;
      if pktlen > mss {
        pktlen := mss;
      }
      piece := data[i * mss..i * mss + pktlen];
    }

    /** Writes a free block; the ghost position says which. */
    method WriteBlock(s: Node, data: Bytes, msgNo: int, ghost at: int)
      requires Shape() && count <= at < |ring| && s == ring[at]
      modifies s`data, s`msgNo
      ensures Shape() && s.data == data && s.msgNo == msgNo
      ensures forall k {:trigger ring[k]} | 0 <= k < |ring| && k != at :: ring[k] != s
    {
      assert Compared(0);
      s.data := data;
      s.msgNo := msgNo;
    }

    /** Takes n free blocks into use for the packets of data. */
    method Append(data: Bytes, order: bool, n: int, ghost packets: seq<Block>)
      requires Shape() && count + n < size
      requires packets == Packetize(data, mss, nextMsgNo, order) && n == |packets|
      modifies this`last, this`count, this`blocks, ring
      ensures Shape() && blocks == old(blocks) + packets
    {
      last := Fill(data, order, n, packets);
      count := count + n;
      blocks := blocks + packets;
    }

    /** Frames data as one message and appends its packets. */
    method AddBuffer(data: Bytes, order: bool)
      requires Valid()
      modifies this`size, this`ring, this`last, this`count, this`nextMsgNo, this`blocks, ring
      ensures Valid() && forall i | 0 <= i < |ring| :: ring[i] in old(ring) || fresh(ring[i])
      ensures blocks == old(blocks) + Packetize(data, mss, old(nextMsgNo), order)
      ensures nextMsgNo == NextMsgNo(old(nextMsgNo))
    {
      assert Compared(0);
      AddPackets(data, order);
      nextMsgNo := nextMsgNo + 1;
      if nextMsgNo == MAX_MSG_NO {
        nextMsgNo := 1;
      }
    }

    method AddPackets(data: Bytes, order: bool)
      requires Shape()
      modifies this`size, this`ring, this`last, this`count, this`blocks, ring
      ensures Shape() && forall i | 0 <= i < |ring| :: ring[i] in old(ring) || fresh(ring[i])
      ensures blocks == old(blocks) + Packetize(data, mss, nextMsgNo, order)
    {
      var n := CountPackets(data);
      Reserve(n);
      Append(data, order, n, Packetize(data, mss, nextMsgNo, order));
    }

    method CountPackets(data: Bytes) returns (n: int)
      requires mss > 0
      ensures n == |Chunks(data, mss)|
    {
      ChunksCount(data, mss);
      n := |data| / mss;
      if |data| % mss != 0 {
        n := n + 1;
      }
    }

    /** The next block that was not sent yet, if there is one; it counts as sent from now on. */
    method ReadNext() returns (block: Option<Block>)
      requires Valid()
      modifies this`curr, this`ahead
      ensures Valid()
      ensures old(ahead) == count ==> block == None && ahead == old(ahead)
      ensures old(ahead) < count ==> block == Some(blocks[old(ahead)]) && ahead == old(ahead) + 1
    {
      assert Compared(0);
      if curr == last {
        return None;
      }
      block := Some(Block(curr.msgNo, curr.data));
      curr := curr.next;
      ahead := ahead + 1;
    }

    /** The block at a distance from the first one. */
    method ReadAt(offset: int) returns (block: Block)
      requires Valid() && 0 <= offset < count
      ensures block == blocks[offset]
    {
      assert Compared(0);
      var p := first;
      for i := 0 to offset
        invariant p == ring[i]
      {
        p := p.next;
      }
      block := Block(p.msgNo, p.data);
    }

    /** Gives up the first blocks; only blocks that were sent can be given up. */
    method AckData(offset: int)
      requires Valid() && 0 <= offset <= ahead
      modifies this`first, this`count, this`ring, this`ahead, this`blocks
      ensures Valid() && blocks == old(blocks)[offset..]
      ensures ahead == old(ahead) - offset && forall b :: b in ring <==> b in old(ring)
    {
      assert Compared(0);
      Release(offset);
    }

    method Release(offset: int)
      requires Shape() && 0 <= offset <= ahead
      modifies this`first, this`count, this`ring, this`ahead, this`blocks
      ensures Shape() && blocks == old(blocks)[offset..]
      ensures ahead == old(ahead) - offset && forall b :: b in ring <==> b in old(ring)
    {
      Rotated(ring, offset);
      RotatedShows(ring, blocks, offset);
      Forward(offset);
      count := count - offset;
      ring, ahead, blocks := ring[offset..] + ring[..offset], ahead - offset, blocks[offset..];
    }

    lemma RotatedShows(r: seq<Node>, bs: seq<Block>, k: int)
      requires 0 <= k <= |bs| < |r| && forall i {:trigger bs[i]} | 0 <= i < |bs| :: Shows(r[i], bs[i])
      ensures
        var s, t := r[k..] + r[..k], bs[k..];
        forall i {:trigger t[i]} | 0 <= i < |t| :: Shows(s[i], t[i])
    {
      var s, t := r[k..] + r[..k], bs[k..];
      forall i {:trigger t[i]} | 0 <= i < |t| ensures Shows(s[i], t[i]) {
        assert t[i] == bs[i + k] && s[i] == r[i + k];
      }
    }

    method Forward(offset: int)
      requires Closed(ring) && 0 <= offset < |ring| && first == ring[0]
      modifies this`first
      ensures first == ring[offset]
    {
      for i := 0 to offset
        invariant first == ring[i]
      {
        first := first.next;
      }
    }

    lemma Rotated(r: seq<Node>, k: int)
      requires 0 <= k < |r| && Distinct(r) && Closed(r)
      ensures var s := r[k..] + r[..k];
        && |s| == |r| && Distinct(s) && Closed(s)
        && (forall b :: b in s <==> b in r)
        && forall i | 0 <= i < |r| - k :: s[i] == r[i + k]
    {
      assert Compared(0);
      var s := r[k..] + r[..k];
      forall i | 0 <= i < |s| ensures s[i].next == After(s, i) {
        if i < |r| - k {
          assert s[i] == r[i + k];
        } else {
          assert s[i] == r[i + k - |r|];
        }
      }
      forall b ensures b in s <==> b in r {
        assert r == r[..k] + r[k..];
      }
    }
  }
}
