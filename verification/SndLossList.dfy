/** CSndLossList: the numbers the sender has to send again. */
module SenderLoss {
  import opened SeqNo
  import opened Intervals
  import opened LossTable

  /** What the program computes, in a 32-bit int, to find the slot at an offset from the head. */
  function SlotSum(size: int, head: int, offset: int): int {
    head + offset + size
  }

  /** The sums fit for all offsets within a list exactly up to this size, which is twice the flow window. */
  lemma SlotSumsFit(size: int)
    requires size > 0
    ensures (forall head, offset | 0 <= head < size && -size < offset < size ::
               SlotSum(size, head, offset) <= MAX_SEQ_NO) <==> size <= 715_827_883
  {
    assert SlotSum(size, size - 1, size - 1) == 3 * size - 2;
  }

  /** Joining the node after that of a to it: the new table, and what JoinEnds needs to know of the ends. */
  lemma Merged(t: Table, g: Plan, a: int) returns (u: Table)
    requires Wired(t, g) && a in g.nodes && DisjointBut(g.nodes, a)
    requires t.next[At(g, a)] != -1 && Owned(g, t.next[At(g, a)]) && t.data2[At(g, a)] != -1
    requires g.owner[t.next[At(g, a)]] <= g.nodes[a] + 1
    ensures
      var i := t.next[At(g, a)];
      var c := g.owner[i];
      var b := Max(g.nodes[a], g.nodes[c]);
      var nodes := (g.nodes - {c})[a := b];
      && c in g.nodes && a < c <= g.nodes[c] && i != At(g, a)
      && u == Table(t.data1[i := -1], t.data2[At(g, a) := Wrap(b)][i := -1], t.next[At(g, a) := t.next[i]], t.head)
      && Wired(u, g.(nodes := nodes)) && DisjointBut(nodes, a) && Cover(nodes) == Cover(g.nodes)
      && |Cover(nodes - {a})| == |Cover(g.nodes - {a})| - (g.nodes[c] - c + 1) && |nodes| < |g.nodes|
      && t.data2[At(g, a)] == Wrap(g.nodes[a]) && t.data1[i] == Wrap(c) && t.data2[i] == EndMark(c, g.nodes[c])
      && Near(c, g.nodes[a] + 1) && Near(c, g.nodes[a]) && Near(g.nodes[c], g.nodes[a]) && Near(c, g.nodes[c])
  {
    var i := t.next[At(g, a)];
    var c := g.owner[i];
    var b := Max(g.nodes[a], g.nodes[c]);
    MergeWired(t, g, a);
    NodesNear(t, g, a, c);
    NodesNear(t, g, c, a);
    CoverMerge(g.nodes, a, c);
    MergeDisjoint(g.nodes, a, c, b);
    u := DropNext(PutEnd(t, g, a, b), PlanPutEnd(g, a, b), a);
  }

  class SndLossList {
    const size: int
    const data1: array<int>
    const data2: array<int>
    const next: array<int>
    var head: int
    var length: int
    var lastInsertPos: int
    ghost var plan: Plan

    /** The set this list stands for, as absolute numbers. */
    ghost function Lost(): set<int>
      reads this
    {
      Cover(plan.nodes)
    }

    ghost function Contents(): Table
      reads this, data1, data2, next
    {
      Table(data1[..], data2[..], next[..], head)
    }

    /** The arrays describe the plan; its intervals may overlap while an insert is under way. */
    ghost predicate Consistent()
      reads this, data1, data2, next
    {
      && Arrays()
      && |plan.owner| == size
      && Wired(Contents(), plan)
      && (lastInsertPos == -1 || Owned(plan, lastInsertPos))
    }

    ghost predicate Formed()
      reads this, data1, data2, next
    {
      && Consistent()
      && Disjoint(plan.nodes)
      && length == |Lost()|
    }

    /** The list is well formed. */
    ghost predicate Valid()
      reads this, data1, data2, next
    {
      forall k {:trigger Opened(k)} | Opened(k) :: Formed()
    }

    constructor (size: int)
      requires size > 0
      ensures Valid() && fresh(data1) && fresh(data2) && fresh(next)
      ensures this.size == size && Lost() == {}
    {
      this.size := size;
      data1 := new int[size](_ => -1);
      data2 := new int[size](_ => -1);
      next := new int[size];
      head, length, lastInsertPos := -1, 0, -1;
      plan := Plan(map[], 0, 0, seq(size, _ => 0));
      new;
      CoverEmpty(plan.nodes);
    }

    /** The head node is a single number: the head moves to the next node. */
    method DropFirst()
      requires Formed() && plan.nodes != map[] && plan.nodes[plan.first] == plan.first
      requires lastInsertPos != head
      modifies this, data1
      ensures Formed() && Lost() == old(Lost()) - {old(plan.first)}
    {
      DropHeadWired(Contents(), plan);
      CoverDrop(plan.nodes, plan.first);
      CoverDropSize(plan.nodes, plan.first);
      DisjointDrop(plan.nodes, plan.first);
      assert Inside(0) && Holds(Contents(), plan, plan.first);
      ghost var t := Contents();
      data1[head] := -1;
      head := next[head];
      assert Contents() == DropHead(t);
      plan := PlanDropHead(t, plan);
      length := length - 1;
    }

    ghost predicate Arrays() {
      data1.Length == data2.Length == next.Length == size && data1 != data2 && data2 != next && next != data1
    }

    /** Writes the number after the head's first, and the head's end, one slot on. */
    method MoveHead(loc: int)
      requires Arrays() && 0 <= head < size && 0 <= loc < size && loc != head
      modifies this`head, data1, data2, next
      ensures data1[..] == old(data1[..])[loc := IncSeq(old(data1[head]))][old(head) := -1]
      ensures data2[..] == old(data2[..])[loc :=
        if SeqCmp(old(data2[head]), IncSeq(old(data1[head]))) > 0 then old(data2[head])
        else old(data2[loc])][old(head) := -1]
      ensures next[..] == old(next[..])[loc := old(next[head])]
      ensures head == loc
    {
      data1[loc] := IncSeq(data1[head]);
      if SeqCmp(data2[head], data1[loc]) > 0 {
        data2[loc] := data2[head];
      }
      data1[head] := -1;
      data2[head] := -1;
      next[loc] := next[head];
      head := loc;
    }

    /** The head node is a pair: the rest of it moves one slot on. */
    method ShiftFirst()
      requires Formed() && plan.nodes != map[] && plan.first < plan.nodes[plan.first]
      requires lastInsertPos != head
      modifies this, data1, data2, next
      ensures Formed() && Lost() == old(Lost()) - {old(plan.first)}
    {
      ghost var t, g := Contents(), plan;
      ShiftHeadWired(t, g);
      IncAgrees(g.first);
      NearAgrees(g.nodes[g.first], g.first + 1);
      MoveHead((head + 1) % size);
      plan := PlanShiftHead(g);
      length := length - 1;
      assert Contents() == ShiftHead(t, g);
    }

    /** Takes the least number out; n is its absolute value. */
    method GetLostSeq() returns (seqno: int, ghost n: int)
      requires Valid()
      modifies this, data1, data2, next
      ensures Valid()
      ensures old(Lost()) == {} ==> seqno == -1 && Lost() == {}
      ensures old(Lost()) != {} ==>
        && n in old(Lost()) && (forall x | x in old(Lost()) :: n <= x)
        && seqno == Wrap(n) && Lost() == old(Lost()) - {n}
    {
      assert Opened(0);
      assert Inside(0);
      CoverEmpty(plan.nodes);
      n := plan.first;
      if length == 0 {
        return -1, n;
      }
      assert Holds(Contents(), plan, n);
      LeastCovered(plan.nodes, n);
      seqno := data1[head];
      TakeFirst();
    }

    /** Takes the first number of the head node out. */
    method TakeFirst()
      requires Formed() && plan.nodes != map[]
      modifies this, data1, data2, next
      ensures Formed() && Lost() == old(Lost()) - {old(plan.first)}
    {
      assert Inside(0) && Holds(Contents(), plan, plan.first);
      if lastInsertPos == head {
        lastInsertPos := -1;
      }
      if data2[head] == -1 {
        DropFirst();
      } else {
        ShiftFirst();
      }
    }

    /** Every interval but that of a is in place; a's may reach over the ones after it. */
    ghost predicate Pending(a: int)
      reads this, data1, data2, next
    {
      && Consistent()
      && a in plan.nodes && lastInsertPos == At(plan, a)
      && DisjointBut(plan.nodes, a)
      && (plan.nodes[a] == a ==> Disjoint(plan.nodes))
      && length == |Cover(plan.nodes - {a})| + plan.nodes[a] - a + 1
    }

    /** The end at loc becomes the later of the two ends; what both held is counted once. */
    method JoinEnds(loc: int, i: int, ghost h: int, ghost c: int, ghost e: int)
      requires Arrays() && 0 <= loc < size && 0 <= i < size && loc != i
      requires data2[loc] == Wrap(h) && data1[i] == Wrap(c) && data2[i] == EndMark(c, e)
      requires c <= e && c <= h + 1 && Near(c, h + 1) && Near(c, h) && Near(e, h) && Near(c, e)
      modifies this`length, data2
      ensures data2[..] == old(data2[..])[loc := Wrap(Max(h, e))]
      ensures length == old(length) - (e - c + 1) + Max(h, e) - h
    {
      IncAgrees(h);
      NearAgrees(c, h + 1);
      NearAgrees(h, c);
      NearAgrees(e, h);
      NearAgrees(c, e);
      NearAgrees(c, h);
      if data2[i] != -1 {
        if SeqCmp(data2[i], data2[loc]) > 0 {
          if SeqCmp(data2[loc], data1[i]) >= 0 {
            length := length - SeqLen(data1[i], data2[loc]);
          }
          data2[loc] := data2[i];
        } else {
          length := length - SeqLen(data1[i], data2[i]);
        }
      } else {
        if data1[i] == IncSeq(data2[loc]) {
          data2[loc] := data1[i];
        } else {
          length := length - 1;
        }
      }
    }

    /** Joins the node after that of a, which it touches or overlaps. */
    method MergeNext(loc: int, ghost a: int)
      requires Pending(a) && loc == At(plan, a)
      requires next[loc] != -1 && data2[loc] != -1
      requires Owned(plan, next[loc]) && plan.owner[next[loc]] <= plan.nodes[a] + 1
      modifies this`length, this`plan, data1, data2, next
      ensures Pending(a) && loc == At(plan, a)
      ensures Lost() == old(Lost()) && |plan.nodes| < old(|plan.nodes|)
    {
      var i := next[loc];
      ghost var g, c := plan, plan.owner[i];
      ghost var t := Merged(Contents(), g, a);
      JoinEnds(loc, i, g.nodes[a], c, g.nodes[c]);
      Unhook(loc, i);
      plan := g.(nodes := (g.nodes - {c})[a := Max(g.nodes[a], g.nodes[c])]);
      assert Contents() == t;
    }

    /** Blanks the slot i, which comes after that at loc. */
    method Unhook(loc: int, i: int)
      requires Arrays() && 0 <= loc < size && 0 <= i < size && loc != i
      modifies data1, data2, next
      ensures data1[..] == old(data1[..])[i := -1] && data2[..] == old(data2[..])[i := -1]
      ensures next[..] == old(next[..])[loc := old(next[..])[i]]
    {
      data1[i] := -1;
      data2[i] := -1;
      next[loc] := next[i];
    }

    /** Coalesces the interval of a with those after it. */
    method Coalesce(loc: int, ghost a: int)
      requires Pending(a) && loc == At(plan, a)
      modifies this`length, this`plan, data1, data2, next
      ensures Formed() && Lost() == old(Lost())
    {
      while next[loc] != -1 && data2[loc] != -1
        invariant Pending(a) && loc == At(plan, a) && Lost() == old(Lost())
        decreases |plan.nodes|
      {
        NodesNear(Contents(), plan, a, a);
        var i := next[loc];
        ghost var c := plan.owner[i];
        NodesNear(Contents(), plan, c, a);
        IncAgrees(plan.nodes[a]);
        NearAgrees(c, plan.nodes[a] + 1);
        if SeqCmp(data1[i], IncSeq(data2[loc])) <= 0 {
          MergeNext(loc, a);
        } else {
          break;
        }
      }
      NodesNear(Contents(), plan, a, a);
      Settle(plan.nodes, a);
    }

    /** Goes along the nodes from that of p0 to the last one that starts before a. */
    method Walk(i0: int, seqno: int, ghost p0: int, ghost a: int) returns (i: int, ghost p: int)
      requires Consistent() && seqno == Wrap(a) && p0 in plan.nodes && i0 == At(plan, p0) && p0 < a
      requires forall c | c in plan.nodes :: Near(a, c)
      ensures p in plan.nodes && i == At(plan, p) && p < a
      ensures forall c | c in plan.nodes :: c <= p || a <= c
    {
      i, p := i0, p0;
      NodesNear(Contents(), plan, p, p);
      while next[i] != -1 && SeqCmp(data1[next[i]], seqno) < 0
        invariant p in plan.nodes && i == At(plan, p) && p < a
        invariant Linked(Contents(), plan, p)
        decreases a - p
      {
        ghost var c := plan.owner[next[i]];
        NodesNear(Contents(), plan, c, c);
        NearAgrees(c, a);
        i, p := next[i], c;
      }
      if next[i] != -1 {
        ghost var c := plan.owner[next[i]];
        NodesNear(Contents(), plan, c, c);
        NearAgrees(c, a);
      }
    }

    /** The node after which a new node for a goes, from the last insert on if that is before it. */
    method FindPrior(seqno: int, ghost a: int) returns (i: int, ghost p: int)
      requires Consistent() && seqno == Wrap(a) && plan.nodes != map[] && plan.first < a
      requires forall c | c in plan.nodes :: Near(a, c)
      ensures p in plan.nodes && i == At(plan, p) && p < a
      ensures forall c | c in plan.nodes :: c <= p || a <= c
    {
      if lastInsertPos != -1 {
        NodesNear(Contents(), plan, plan.owner[lastInsertPos], plan.first);
        NearAgrees(plan.owner[lastInsertPos], a);
      }
      if lastInsertPos != -1 && SeqCmp(data1[lastInsertPos], seqno) < 0 {
        i, p := Walk(lastInsertPos, seqno, plan.owner[lastInsertPos], a);
      } else {
        i, p := Walk(head, seqno, plan.first, a);
      }
    }

    /** The first interval of an empty list goes to slot 0. */
    method AddFirst(seqno1: int, seqno2: int, ghost a: int, ghost b: int)
      requires Formed() && plan.nodes == map[] && length == 0
      requires seqno1 == Wrap(a) && seqno2 == Wrap(b) && a <= b && b - a < Limit(size)
      modifies this, data1, data2, next
      ensures Formed() && Lost() == Range(a, b)
    {
      ghost var t, g := Contents(), plan.(origin := a);
      NearAgrees(a, b);
      EmptyRebase(t, plan, a);
      AddedFirst(t, g, a, b);
      head := 0;
      data1[head] := seqno1;
      if seqno2 != seqno1 {
        data2[head] := seqno2;
      }
      next[head] := -1;
      lastInsertPos := head;
      length := length + SeqLen(seqno1, seqno2);
      plan := PlanAddNode(g, a, b).(first := a);
      assert Contents() == AddHead(t, g, a, b);
    }

    /** A new node before the head. */
    method AddBefore(loc: int, seqno1: int, seqno2: int, ghost a: int, ghost b: int)
      requires Formed() && plan.nodes != map[] && a < plan.first
      requires seqno1 == Wrap(a) && seqno2 == Wrap(b) && a <= b && loc == At(plan, a)
      requires Fits(Lost(), a, b, Limit(size))
      modifies this, data1, data2, next
      ensures Pending(a) && loc == At(plan, a) && Lost() == old(Lost()) + Range(a, b)
    {
      ghost var t, g := Contents(), plan;
      AddedBefore(t, g, a, b);
      NearAgrees(a, b);
      data1[loc] := seqno1;
      if seqno2 != seqno1 {
        data2[loc] := seqno2;
      }
      next[loc] := head;
      head := loc;
      lastInsertPos := loc;
      length := length + SeqLen(seqno1, seqno2);
      plan := PlanAddNode(g, a, b).(first := a);
      assert Contents() == AddHead(t, g, a, b);
    }

    /** A new node after that of p. */
    method AddAfter(loc: int, i: int, seqno1: int, seqno2: int, ghost p: int, ghost a: int, ghost b: int)
      requires Formed() && p in plan.nodes && i == At(plan, p) && plan.nodes[p] < a
      requires a !in plan.nodes && forall c | c in plan.nodes :: c <= p || a <= c
      requires seqno1 == Wrap(a) && seqno2 == Wrap(b) && a <= b && loc == At(plan, a)
      requires Fits(Lost(), a, b, Limit(size))
      modifies this, data1, data2, next
      ensures Pending(a) && loc == At(plan, a) && Lost() == old(Lost()) + Range(a, b)
    {
      ghost var t, g := Contents(), plan;
      AddedAfter(t, g, p, a, b);
      NearAgrees(a, b);
      lastInsertPos := loc;
      WriteAfter(loc, i, seqno1, seqno2);
      length := length + SeqLen(seqno1, seqno2);
      plan := PlanAddNode(g, a, b);
      assert Contents() == AddNode(t, g, p, a, b);
    }

    /** Writes a node at loc and links it in behind the one at i. */
    method WriteAfter(loc: int, i: int, seqno1: int, seqno2: int)
      requires Arrays() && 0 <= loc < size && 0 <= i < size
      modifies data1, data2, next
      ensures data1[..] == old(data1[..])[loc := seqno1]
      ensures data2[..] == if seqno2 != seqno1 then old(data2[..])[loc := seqno2] else old(data2[..])
      ensures next[..] == old(next[..])[loc := old(next[i])][i := loc]
    {
      data1[loc] := seqno1;
      if seqno2 != seqno1 {
        data2[loc] := seqno2;
      }
      next[loc] := next[i];
      next[i] := loc;
    }

    /** The interval of p, which holds a, is lengthened to b; the length was updated before. */
    method Lengthen(loc: int, seqno2: int, ghost p: int, ghost a: int, ghost b: int)
      requires Consistent() && Disjoint(plan.nodes)
      requires p in plan.nodes && loc == At(plan, p) && lastInsertPos == loc
      requires p <= a <= plan.nodes[p] < b && seqno2 == Wrap(b)
      requires length == |Lost()| + b - plan.nodes[p]
      requires Fits(Lost(), a, b, Limit(size))
      modifies this`plan, data2
      ensures Pending(p) && loc == At(plan, p) && Lost() == old(Lost()) + Range(a, b)
    {
      ghost var t, g := Contents(), plan;
      Lengthened(t, g, p, a, b);
      data2[loc] := seqno2;
      plan := PlanPutEnd(g, p, b);
      assert Contents() == PutEnd(t, g, p, b);
    }

    /** The insert changed nothing: all of a..b was there. */
    lemma AlreadyThere(p: int, a: int, b: int)
      requires Formed() && p in plan.nodes && p <= a && b <= plan.nodes[p]
      ensures Lost() + Range(a, b) == Lost()
    {
      CoverHas(plan.nodes, p, a, b);
    }

    /** What the branches of Insert start from, once a slot for a has been computed. */
    lemma InsertFacts(a: int, b: int)
      requires Formed() && plan.nodes != map[] && a <= b && Fits(Lost(), a, b, Limit(size))
      ensures SeqOff(data1[head], Wrap(a)) == a - plan.first
      ensures (head + (a - plan.first) + size) % size == At(plan, a)
      ensures data1[At(plan, a)] == Wrap(a) <==> a in plan.nodes
      ensures forall c | c in plan.nodes :: Near(a, c) && plan.first <= c
      ensures Near(a, b)
    {
      FitsNear(Contents(), plan, a, b);
      NodesNear(Contents(), plan, plan.first, plan.first);
      NearAgrees(plan.first, a);
      Located(Contents(), plan, a);
      FoundAt(Contents(), plan, a);
    }

    /** The branch where a is already the first number of a node. */
    method InsertAt(loc: int, seqno1: int, seqno2: int, ghost a: int, ghost b: int) returns (changed: bool)
      requires Formed() && a in plan.nodes && loc == At(plan, a)
      requires seqno1 == Wrap(a) && seqno2 == Wrap(b) && a <= b && Fits(Lost(), a, b, Limit(size))
      modifies this`length, this`lastInsertPos, this`plan, data2
      ensures changed ==> Pending(a) && loc == At(plan, a) && Lost() == old(Lost()) + Range(a, b)
      ensures !changed ==> Formed() && Lost() == old(Lost()) && Lost() + Range(a, b) == Lost() && length == old(length)
    {
      FitsNear(Contents(), plan, a, b);
      NodesNear(Contents(), plan, a, a);
      NearAgrees(a, b);
      NearAgrees(b, plan.nodes[a]);
      NearAgrees(plan.nodes[a], b);
      lastInsertPos := loc;
      if b <= plan.nodes[a] {
        AlreadyThere(a, a, b);
      }
      if data2[loc] == -1 {
        if seqno2 == seqno1 {
          return false;
        }
        length := length + SeqLen(seqno1, seqno2) - 1;
      } else if SeqCmp(seqno2, data2[loc]) > 0 {
        length := length + SeqLen(data2[loc], seqno2) - 1;
      } else {
        return false;
      }
      Lengthen(loc, seqno2, a, a, b);
      return true;
    }

    /** The branch where a lies behind the head's first number and starts no node. */
    method InsertInside(loc: int, seqno1: int, seqno2: int, ghost a: int, ghost b: int)
      returns (changed: bool, at: int, ghost p: int)
      requires Formed() && plan.nodes != map[] && plan.first < a && a !in plan.nodes && loc == At(plan, a)
      requires seqno1 == Wrap(a) && seqno2 == Wrap(b) && a <= b && Fits(Lost(), a, b, Limit(size))
      modifies this, data1, data2, next
      ensures changed ==> Pending(p) && at == At(plan, p) && Lost() == old(Lost()) + Range(a, b)
      ensures !changed ==> Formed() && Lost() == old(Lost()) && Lost() + Range(a, b) == Lost() && length == old(length)
    {
      FitsNear(Contents(), plan, a, b);
      var i;
      i, p := FindPrior(seqno1, a);
      NodesNear(Contents(), plan, p, p);
      NearAgrees(plan.nodes[p], a);
      NearAgrees(plan.nodes[p], b);
      if data2[i] == -1 || SeqCmp(data2[i], seqno1) < 0 {
        AddAfter(loc, i, seqno1, seqno2, p, a, b);
        return true, loc, a;
      }
      lastInsertPos := i;
      if SeqCmp(data2[i], seqno2) < 0 {
        length := length + SeqLen(data2[i], seqno2) - 1;
        Lengthen(i, seqno2, p, a, b);
        return true, i, p;
      }
      AlreadyThere(p, a, b);
      return false, i, p;
    }

    /** The offset of a from the head's first number, and its slot. */
    method Locate(seqno1: int, ghost a: int, ghost b: int) returns (offset: int, loc: int)
      requires Formed() && plan.nodes != map[]
      requires seqno1 == Wrap(a) && a <= b && Fits(Lost(), a, b, Limit(size))
      ensures offset == a - plan.first && loc == At(plan, a) && 0 <= loc < size
      ensures (seqno1 == data1[loc] <==> a in plan.nodes) && forall c | c in plan.nodes :: plan.first <= c
    {
      InsertFacts(a, b);
      offset := SeqOff(data1[head], seqno1);
      loc := SlotSum(size, head, offset) % size;
    }

    /** Finds the place of a..b in a list that is not empty and writes it there. */
    method Place(seqno1: int, seqno2: int, ghost a: int, ghost b: int)
      returns (changed: bool, at: int, ghost p: int)
      requires Formed() && plan.nodes != map[]
      requires seqno1 == Wrap(a) && seqno2 == Wrap(b) && a <= b && Fits(Lost(), a, b, Limit(size))
      modifies this, data1, data2, next
      ensures changed ==> Pending(p) && at == At(plan, p) && Lost() == old(Lost()) + Range(a, b)
      ensures !changed ==> Formed() && Lost() == old(Lost()) && Lost() + Range(a, b) == Lost() && length == old(length)
    {
      var offset, loc := Locate(seqno1, a, b);
      p := a;
      if offset < 0 {
        AddBefore(loc, seqno1, seqno2, a, b);
        return true, loc, a;
      }
      if seqno1 == data1[loc] {
        changed := InsertAt(loc, seqno1, seqno2, a, b);
        return changed, loc, a;
      }
      changed, at, p := InsertInside(loc, seqno1, seqno2, a, b);
    }

    /** Adds the numbers a..b and says how many of them are new. */
    method Insert(seqno1: int, seqno2: int, ghost a: int, ghost b: int) returns (added: int)
      requires Valid() && seqno1 == Wrap(a) && seqno2 == Wrap(b) && a <= b
      requires Fits(Lost(), a, b, Limit(size))
      modifies this, data1, data2, next
      ensures Valid() && Lost() == old(Lost()) + Range(a, b)
      ensures added == |Lost()| - |old(Lost())|
    {
      assert Opened(0);
      EmptyLength();
      if length == 0 {
        AddFirst(seqno1, seqno2, a, b);
        return length;
      }
      var origlen := length;
      var changed, loc;
      ghost var p;
      changed, loc, p := Place(seqno1, seqno2, a, b);
      if !changed {
        return 0;
      }
      Coalesce(loc, p);
      return length - origlen;
    }

    lemma EmptyLength()
      requires Formed()
      ensures length == 0 <==> plan.nodes == map[]
      ensures length == 0 <==> Lost() == {}
    {
      assert Inside(0);
      CoverEmpty(plan.nodes);
    }

    /** Cuts the node of p behind s; loc, the slot after that of s, gets the second part. */
    method CutBehind(i: int, loc: int, seqno: int, mark: int, ghost p: int, ghost s: int)
      requires Formed() && p in plan.nodes && p <= s < plan.nodes[p]
      requires i == At(plan, p) && loc == (At(plan, s) + 1) % size
      requires seqno == Wrap(s) && mark == EndMark(p, s)
      modifies this`plan, data1, data2, next
      ensures Formed() && Lost() == old(Lost()) && plan == PlanCut(old(plan), p, s)
      ensures loc == At(plan, s + 1) && Owned(plan, loc) && plan.owner[loc] == s + 1
    {
      ghost var t, g := Contents(), plan;
      CutWired(t, g, p, s);
      IncAgrees(s);
      NearAgrees(g.nodes[p], s + 1);
      data1[loc] := IncSeq(seqno);
      if SeqCmp(data2[i], data1[loc]) > 0 {
        data2[loc] := data2[i];
      }
      data2[i] := mark;
      next[loc] := next[i];
      next[i] := loc;
      plan := PlanCut(g, p, s);
      assert Contents() == Cut(t, g, p, s);
    }

    ghost function TableFrom(h: int): Table
      reads data1, data2, next
    {
      Table(data1[..], data2[..], next[..], h)
    }

    /** While Remove goes along the nodes it drops: h is the first one left, m the head to be. */
    ghost predicate Trimming(h: int, m: int, s: int)
      reads this, data1, data2, next
    {
      && Arrays() && |plan.owner| == size
      && Wired(TableFrom(h), plan)
      && (lastInsertPos == -1 || Owned(plan, lastInsertPos))
      && Disjoint(plan.nodes)
      && length == |Lost()|
      && (forall c | c in plan.nodes && c <= s :: plan.nodes[c] <= s)
      && (if m == -1 then forall c | c in plan.nodes :: c <= s
          else Owned(plan, m) && s < plan.owner[m] && forall c | c in plan.nodes :: c <= s || plan.owner[m] <= c)
    }

    lemma TrimFacts(h: int, m: int, s: int)
      requires Trimming(h, m, s)
      ensures Filled(plan.nodes)
      ensures h == m ==> forall c | c in plan.nodes :: s < c
      ensures h != m ==> plan.nodes != map[] && plan.nodes[plan.first] <= s
    {
      assert Inside(0);
      var t := TableFrom(h);
      if h == m && m != -1 {
        assert Holds(t, plan, plan.first);
      }
    }

    /** Blanks the slot of the numbers a to b. */
    method Blank(h: int, ghost a: int, ghost b: int)
      requires Arrays() && 0 <= h < size && data1[h] == Wrap(a) && data2[h] == EndMark(a, b) && a <= b && Near(a, b)
      modifies this`length, data1, data2
      ensures data1[..] == old(data1[..])[h := -1] && data2[..] == old(data2[..])[h := -1]
      ensures length == old(length) - (b - a + 1)
    {
      NearAgrees(a, b);
      if data2[h] != -1 {
        length := length - SeqLen(data1[h], data2[h]);
        data2[h] := -1;
      } else {
        length := length - 1;
      }
      data1[h] := -1;
    }

    /** Blanks the first node left. */
    method DropOne(h: int, ghost m: int, ghost s: int) returns (h': int)
      requires Trimming(h, m, s) && h != m
      modifies this`length, this`lastInsertPos, this`plan, data1, data2
      ensures Trimming(h', m, s) && Above(Lost(), s) == old(Above(Lost(), s))
      ensures |plan.nodes| < old(|plan.nodes|)
    {
      ghost var t, g := TableFrom(h), plan;
      TrimFacts(h, m, s);
      NodesNear(t, g, g.first, g.first);
      DropHeadWired(t, g);
      DroppedBelow(g.nodes, g.first, s);
      Blank(h, g.first, g.nodes[g.first]);
      if lastInsertPos == h {
        lastInsertPos := -1;
      }
      h' := next[h];
      plan := PlanDropHead(t, g);
      Smaller(g.nodes, g.first);
      assert TableFrom(h') == DropHead(t);
    }

    /** Removes the numbers up to and including s, which lies behind the head's first number. */
    method Trim(h: int, ghost s: int)
      requires Trimming(h, head, s)
      modifies this`length, this`lastInsertPos, this`plan, data1, data2
      ensures Formed() && Lost() == old(Above(Lost(), s))
    {
      var i := h;
      while i != head
        invariant Trimming(i, head, s) && Above(Lost(), s) == old(Above(Lost(), s))
        decreases |plan.nodes|
      {
        i := DropOne(i, head, s);
      }
      TrimFacts(i, head, s);
      AllAbove(plan.nodes, s);
    }

    /** A head to be, for a number with no node of its own, found by going along the nodes. */
    method CutInside(loc: int, seqno: int, ghost s: int) returns (m: int)
      requires Formed() && plan.nodes != map[] && plan.first < s && s !in plan.nodes
      requires seqno == Wrap(s) && loc == At(plan, s)
      requires forall c | c in plan.nodes :: Near(s, c) && Near(s, plan.nodes[c])
      modifies this`plan, data1, data2, next
      ensures Trimming(head, m, s) && Lost() == old(Lost())
    {
      var i;
      ghost var p;
      i, p := Walk(head, seqno, plan.first, s);
      NodesNear(Contents(), plan, p, p);
      NearAgrees(plan.nodes[p], s);
      if data2[i] != -1 && SeqCmp(data2[i], seqno) > 0 {
        CutBehind(i, (loc + 1) % size, seqno, seqno, p, s);
        EndsBefore(plan.nodes);
        return (loc + 1) % size;
      }
      EndsBefore(plan.nodes);
      return next[i];
    }

    /** A node ends before all later ones start. */
    lemma EndsBefore(nodes: map<int, int>)
      requires Disjoint(nodes)
      ensures forall c, d | c in nodes && d in nodes && c < d :: nodes[c] < d
    {
      assert Parted(0);
    }

    /** A head to be, for a number that starts a node. */
    method CutAt(loc: int, seqno: int, ghost s: int) returns (m: int)
      requires Formed() && s in plan.nodes
      requires seqno == Wrap(s) && loc == At(plan, s)
      modifies this`plan, data1, data2, next
      ensures Trimming(head, m, s) && Lost() == old(Lost())
    {
      assert Parted(0);
      NodesNear(Contents(), plan, s, s);
      if data2[loc] == -1 {
        return next[loc];
      }
      CutBehind(loc, (loc + 1) % size, seqno, -1, s, s);
      return (loc + 1) % size;
    }

    /** Takes out every number up to and including s. */
    method Remove(seqno: int, ghost s: int)
      requires Valid() && seqno == Wrap(s)
      requires forall x | x in Lost() :: Near(s, x)
      modifies this, data1, data2, next
      ensures Valid() && Lost() == old(Above(Lost(), s))
    {
      assert Opened(0);
      EmptyLength();
      if length == 0 {
        return;
      }
      RemoveFacts(s);
      var offset := SeqOff(data1[head], seqno);
      var loc := SlotSum(size, head, offset) % size;
      if offset == 0 {
        TakeFirst();
      } else if offset > 0 {
        RemoveUpTo(loc, seqno, s);
      }
    }

    /** Cuts behind s and drops every node before the cut. */
    method RemoveUpTo(loc: int, seqno: int, ghost s: int)
      requires Formed() && plan.nodes != map[] && plan.first < s
      requires seqno == Wrap(s) && loc == At(plan, s) && (data1[loc] == Wrap(s) <==> s in plan.nodes)
      requires forall c | c in plan.nodes :: Near(s, c) && Near(s, plan.nodes[c])
      modifies this, data1, data2, next
      ensures Formed() && Lost() == old(Above(Lost(), s))
    {
      var h, m := head, head;
      if seqno == data1[loc] {
        m := CutAt(loc, seqno, s);
      } else {
        m := CutInside(loc, seqno, s);
      }
      head := m;
      Trim(h, s);
    }

    lemma RemoveFacts(s: int)
      requires Formed() && plan.nodes != map[] && forall x | x in Lost() :: Near(s, x)
      ensures SeqOff(data1[head], Wrap(s)) == s - plan.first
      ensures s >= plan.first ==> (head + (s - plan.first) + size) % size == At(plan, s)
      ensures data1[At(plan, s)] == Wrap(s) <==> s in plan.nodes
      ensures forall c | c in plan.nodes :: Near(s, c) && Near(s, plan.nodes[c])
      ensures data2[head] == EndMark(plan.first, plan.nodes[plan.first]) && plan.first <= plan.nodes[plan.first]
      ensures s < plan.first ==> Above(Lost(), s) == Lost()
      ensures s == plan.first ==> Above(Lost(), s) == Lost() - {s}
    {
      var t, n := Contents(), plan.first;
      NodesNear(t, plan, n, n);
      forall c | c in plan.nodes ensures Near(s, c) && Near(s, plan.nodes[c]) {
        Ends(plan.nodes, c);
      }
      NearAgrees(n, s);
      if s >= n {
        Located(t, plan, s);
      }
      FoundAt(t, plan, s);
      LeastCovered(plan.nodes, n);
    }

    method GetLossLength() returns (n: int)
      requires Valid()
      ensures n == |Lost()|
    {
      assert Opened(0);
      return length;
    }
  }
}
