/** CRcvLossList: the numbers the receiver is missing. */
module ReceiverLoss {
  import opened Ring
  import opened SeqNo
  import opened Intervals
  import opened LossTable
  import opened LossChain
  import opened LossReport

  class RcvLossList {
    const size: int
    const data1: array<int>
    const data2: array<int>
    const next: array<int>
    const prior: array<int>
    var head: int
    var tail: int
    var length: int
    ghost var plan: Plan

    /** The set this list stands for, as absolute numbers. */
    ghost function Lost(): set<int>
      reads this
    {
      Cover(plan.nodes)
    }

    ghost function Contents(): Table
      reads this, data1, data2, next
    {
      Table(data1[..], data2[..], next[..], head)
    }

    ghost function Back(): Chain
      reads this, prior
    {
      Chain(prior[..], tail)
    }

    ghost predicate Arrays() {
      && data1.Length == data2.Length == next.Length == prior.Length == size
      && data1 != data2 && data1 != next && data1 != prior
      && data2 != next && data2 != prior && next != prior
    }

    ghost predicate Formed()
      reads this, data1, data2, next, prior
    {
      && Arrays()
      && |plan.owner| == size
      && Wired(Contents(), plan)
      && Chained(Contents(), plan, Back())
      && Disjoint(plan.nodes)
      && length == |Lost()|
    }

    /** The list is well formed. */
    ghost predicate Valid()
      reads this, data1, data2, next, prior
    {
      forall k {:trigger Opened(k)} | Opened(k) :: Formed()
    }

    constructor (size: int)
      requires size > 0
      ensures Valid() && fresh(data1) && fresh(data2) && fresh(next) && fresh(prior)
      ensures this.size == size && Lost() == {}
    {
      this.size := size;
      data1 := new int[size](_ => -1);
      data2 := new int[size](_ => -1);
      next := new int[size];
      prior := new int[size];
      head, tail, length := -1, -1, 0;
      plan := Plan(map[], 0, 0, seq(size, _ => 0));
      new;
      CoverEmpty(plan.nodes);
    }

    lemma EmptyLength()
      requires Formed()
      ensures length == 0 <==> plan.nodes == map[]
      ensures length == 0 <==> Lost() == {}
    {
      assert Inside(0);
      CoverEmpty(plan.nodes);
    }

    /** The first interval of an empty list goes to slot 0. */
    method AddFirst(seqno1: int, seqno2: int, ghost a: int, ghost b: int)
      requires Formed() && plan.nodes == map[] && length == 0
      requires seqno1 == Wrap(a) && seqno2 == Wrap(b) && a <= b && b - a < Limit(size)
      modifies this, data1, data2, next, prior
      ensures Formed() && Lost() == Range(a, b)
    {
      ghost var t, g := Contents(), plan.(origin := a);
      NearAgrees(a, b);
      EmptyRebase(t, plan, a);
      AddedFirst(t, g, a, b);
      head := 0;
      tail := 0;
      data1[head] := seqno1;
      if seqno2 != seqno1 {
        data2[head] := seqno2;
      }
      next[head] := -1;
      prior[head] := -1;
      length := length + SeqLen(seqno1, seqno2);
      plan := PlanAddNode(g, a, b).(first := a);
      assert Contents() == AddHead(t, g, a, b);
      assert forall x | x in plan.nodes :: x == a;
      assert forall x | x in plan.nodes :: BackLinked(Contents(), plan, Back(), x);
    }

    /** A later range that continues the pair at the tail. */
    method ExtendTail(seqno1: int, seqno2: int, ghost p: int, ghost a: int, ghost b: int)
      requires Formed() && p in plan.nodes && tail == At(plan, p) && plan.nodes[p] + 1 == a <= b
      requires forall x | x in plan.nodes :: x <= p
      requires seqno1 == Wrap(a) && seqno2 == Wrap(b) && p < b && Fits(Lost(), a, b, Limit(size))
      modifies this`plan, this`length, data2
      ensures Formed() && Lost() == old(Lost()) + Range(a, b)
    {
      ghost var t, g := Contents(), plan;
      NearAgrees(a, b);
      Continued(t, g, p, a, b);
      PutEndChained(t, g, Back(), p, b);
      data2[tail] := seqno2;
      length := length + SeqLen(seqno1, seqno2);
      plan := PlanPutEnd(g, p, b);
      assert Contents() == PutEnd(t, g, p, b);
    }

    /** A new node for a later range. */
    method Append(loc: int, seqno1: int, seqno2: int, ghost p: int, ghost a: int, ghost b: int)
      requires Formed() && p in plan.nodes && tail == At(plan, p) && plan.nodes[p] < a <= b && loc == At(plan, a)
      requires forall x | x in plan.nodes :: x <= p
      requires seqno1 == Wrap(a) && seqno2 == Wrap(b) && Fits(Lost(), a, b, Limit(size))
      modifies this`plan, this`length, this`tail, data1, data2, next, prior
      ensures Formed() && Lost() == old(Lost()) + Range(a, b)
    {
      ghost var t, g, c := Contents(), plan, Back();
      NearAgrees(a, b);
      Appended(t, g, c, p, a, b);
      WriteLast(loc, seqno1, seqno2);
      tail := loc;
      length := length + SeqLen(seqno1, seqno2);
      plan := PlanAddNode(g, a, b);
      assert Contents() == AddNode(t, g, p, a, b);
      assert Back() == ChainAdd(t, g, c, p, a);
    }

    /** Writes a pair into the blank slot loc and hooks it in behind the tail. */
    method WriteLast(loc: int, seqno1: int, seqno2: int)
      requires Arrays() && 0 <= loc < size && 0 <= tail < size && loc != tail && data2[loc] == -1
      modifies data1, data2, next, prior
      ensures data1[..] == old(data1[..])[loc := seqno1]
      ensures data2[..] == old(data2[..])[loc := if seqno2 != seqno1 then seqno2 else -1]
      ensures next[..] == old(next[..])[loc := -1][tail := loc] && prior[..] == old(prior[..])[loc := tail]
    {
      data1[loc] := seqno1;
      if seqno2 != seqno1 {
        data2[loc] := seqno2;
      }
      next[tail] := loc;
      prior[loc] := tail;
      next[loc] := -1;
    }

    /** Adds the numbers a..b, which all come after those in the list. */
    method Insert(seqno1: int, seqno2: int, ghost a: int, ghost b: int)
      requires Valid() && seqno1 == Wrap(a) && seqno2 == Wrap(b) && a <= b
      requires Fits(Lost(), a, b, Limit(size)) && forall x | x in Lost() :: x < a
      modifies this, data1, data2, next, prior
      ensures Valid() && Lost() == old(Lost()) + Range(a, b)
    {
      assert Opened(0);
      EmptyLength();
      if length == 0 {
        AddFirst(seqno1, seqno2, a, b);
        return;
      }
      InsertBehind(seqno1, seqno2, a, b);
    }

    /** Behind a list that is not empty. */
    method InsertBehind(seqno1: int, seqno2: int, ghost a: int, ghost b: int)
      requires Formed() && plan.nodes != map[] && seqno1 == Wrap(a) && seqno2 == Wrap(b) && a <= b
      requires Fits(Lost(), a, b, Limit(size)) && forall x | x in Lost() :: x < a
      modifies this, data1, data2, next, prior
      ensures Formed() && Lost() == old(Lost()) + Range(a, b)
    {
      ghost var p := plan.owner[tail];
      InsertFacts(p, a, b);
      var offset := SeqOff(data1[head], seqno1);
      var loc := (head + offset) % size;
      if data2[tail] != -1 && IncSeq(data2[tail]) == seqno1 {
        ExtendTail(seqno1, seqno2, p, a, b);
      } else {
        Append(loc, seqno1, seqno2, p, a, b);
      }
    }

    lemma InsertFacts(p: int, a: int, b: int)
      requires Formed() && plan.nodes != map[] && p == plan.owner[tail] && a <= b
      requires Fits(Lost(), a, b, Limit(size)) && forall x | x in Lost() :: x < a
      ensures p in plan.nodes && tail == At(plan, p) && p <= plan.nodes[p] < a
      ensures forall x | x in plan.nodes :: x <= p
      ensures 0 <= head < size
      ensures (head + SeqOff(data1[head], Wrap(a))) % size == At(plan, a)
      ensures data2[tail] == EndMark(p, plan.nodes[p])
      ensures data2[tail] != -1 ==> (IncSeq(data2[tail]) == Wrap(a) <==> plan.nodes[p] + 1 == a)
    {
      var t := Contents();
      FitsNear(t, plan, a, b);
      NodesNear(t, plan, plan.first, p);
      NodesNear(t, plan, p, p);
      Ends(plan.nodes, p);
      NearAgrees(plan.first, a);
      LocatedAfter(t, plan, a);
      IncAgrees(plan.nodes[p]);
      NearAgrees(plan.nodes[p] + 1, a);
    }

    /** Takes a node out that is the single number s. */
    method DropNode(loc: int, ghost s: int)
      requires Formed() && s in plan.nodes && plan.nodes[s] == s && loc == At(plan, s)
      modifies this, data1, next, prior
      ensures Formed() && s in old(Lost()) && Lost() == old(Lost()) - {s}
    {
      HeadOnly(s);
      if head == loc {
        DropHeadNode();
      } else {
        DropMidNode(loc, s);
      }
    }

    lemma HeadOnly(s: int)
      requires Formed() && s in plan.nodes
      ensures head == At(plan, s) <==> s == plan.first
    {
      NodesNear(Contents(), plan, s, plan.first);
      NodesNear(Contents(), plan, plan.first, s);
    }

    method DropHeadNode()
      requires Formed() && plan.nodes != map[] && plan.nodes[plan.first] == plan.first
      modifies this, data1, prior
      ensures Formed() && old(plan.first) in old(Lost()) && Lost() == old(Lost()) - {old(plan.first)}
    {
      ghost var t, g, c := Contents(), plan, Back();
      LossChain.DropFirst(t, g, c);
      var loc := head;
      head := next[head];
      if head != -1 {
        prior[head] := -1;
      }
      data1[loc] := -1;
      length := length - 1;
      plan := PlanDropHead(t, g);
      assert Contents() == DropHead(t);
      assert Back() == ChainDropHead(t, c);
    }

    method DropMidNode(loc: int, ghost s: int)
      requires Formed() && s in plan.nodes && s != plan.first && plan.nodes[s] == s && loc == At(plan, s)
      modifies this`length, this`plan, this`tail, data1, next, prior
      ensures Formed() && s in old(Lost()) && Lost() == old(Lost()) - {s}
    {
      ghost var t, g, c := Contents(), plan, Back();
      DropMid(t, g, c, s);
      ghost var q := g.owner[prior[loc]];
      next[prior[loc]] := next[loc];
      if next[loc] != -1 {
        prior[next[loc]] := prior[loc];
      } else {
        tail := prior[loc];
      }
      data1[loc] := -1;
      length := length - 1;
      plan := g.(nodes := g.nodes - {s});
      assert Contents() == DropNext(t, g, q);
      assert Back() == ChainDropNext(t, g, c, q);
    }

    /** Writes the node of a, less its first number, one slot on, and links it in. */
    method MoveNode(loc: int, i: int)
      requires Arrays() && 0 <= loc < size && 0 <= i < size && loc != i
      requires head == loc || 0 <= prior[loc] < size
      requires tail == loc || 0 <= next[loc] < size
      requires next[loc] != i && (head != loc ==> prior[loc] != i && prior[loc] != loc)
      modifies this`head, this`tail, data1, data2, next, prior
      ensures data1[..] == old(data1[..])[i := IncSeq(old(data1[loc]))][loc := -1]
      ensures data2[..] == old(data2[..])[i :=
        if SeqCmp(old(data2[loc]), IncSeq(old(data1[loc]))) > 0 then old(data2[loc]) else old(data2[i])][loc := -1]
      ensures head == if old(head) == loc then i else old(head)
      ensures tail == if old(tail) == loc then i else old(tail)
      ensures next[..] ==
        if old(head) == loc then old(next[..])[i := old(next[loc])]
        else old(next[..])[i := old(next[loc])][old(prior[loc]) := i]
      ensures prior[..] ==
        if old(tail) == loc then old(prior[..])[i := old(prior[loc])]
        else old(prior[..])[i := old(prior[loc])][old(next[loc]) := i]
    {
      data1[i] := IncSeq(data1[loc]);
      if SeqCmp(data2[loc], IncSeq(data1[loc])) > 0 {
        data2[i] := data2[loc];
      }
      data1[loc] := -1;
      data2[loc] := -1;
      next[i] := next[loc];
      prior[i] := prior[loc];
      if head == loc {
        head := i;
      } else {
        next[prior[i]] := i;
      }
      if tail == loc {
        tail := i;
      } else {
        prior[next[i]] := i;
      }
    }

    /** Takes s out of the node it starts, when more numbers follow in the node. */
    method ShiftNode(loc: int, ghost s: int)
      requires Formed() && s in plan.nodes && s < plan.nodes[s] && loc == At(plan, s)
      modifies this, data1, data2, next, prior
      ensures Formed() && s in old(Lost()) && Lost() == old(Lost()) - {s}
    {
      ghost var t, g, c := Contents(), plan, Back();
      HeadOnly(s);
      ShiftFacts(s);
      IncAgrees(s);
      NearAgrees(g.nodes[s], s + 1);
      CoverShift(g.nodes, s);
      MoveNode(loc, (loc + 1) % size);
      length := length - 1;
      if s == g.first {
        ShiftHeadWired(t, g);
        LossChain.ShiftFirst(t, g, c);
        plan := PlanShiftHead(g);
        assert Contents() == ShiftHead(t, g);
        assert Back() == ShiftChain(t, g, c, s);
      } else {
        ShiftMid(t, g, c, s);
        ShiftDisjoint(g.nodes, s);
        plan := PlanShift(g, s);
        assert Contents() == ShiftMidTable(t, g, c, s);
        assert Back() == ShiftChain(t, g, c, s);
      }
    }

    lemma ShiftFacts(s: int)
      requires Formed() && s in plan.nodes && s < plan.nodes[s]
      ensures var loc := At(plan, s);
        && At(plan, s + 1) == (loc + 1) % size && loc != At(plan, s + 1)
        && data1[loc] == Wrap(s) && data2[loc] == Wrap(plan.nodes[s])
        && data2[At(plan, s + 1)] == -1
        && next[loc] != loc && next[loc] != At(plan, s + 1)
        && (next[loc] == -1 || 0 <= next[loc] < size)
        && (tail == loc <==> next[loc] == -1)
        && (s != plan.first ==> 0 <= prior[loc] < size && prior[loc] != loc && prior[loc] != At(plan, s + 1))
        && Near(plan.nodes[s], s + 1)
    {
      ShiftAdded(Contents(), plan, Back(), s);
      SplitWired(Contents(), plan, s, s);
      NodesNear(Contents(), plan, s, s);
      TailOnly(s);
      if s != plan.first {
        BackFacts(Contents(), plan, Back(), s);
      }
    }

    lemma TailOnly(s: int)
      requires Formed() && s in plan.nodes
      ensures tail == At(plan, s) <==> next[At(plan, s)] == -1
    {
      NodesNear(Contents(), plan, s, s);
      NodesNear(Contents(), plan, plan.owner[tail], s);
    }

    /** Goes back from the slot of s to the last node that starts before s. */
    method SearchBack(loc: int, ghost s: int) returns (i: int, ghost p: int)
      requires Formed() && plan.nodes != map[] && s !in plan.nodes && loc == At(plan, s)
      requires plan.first < s < plan.first + size
      requires forall c | c in plan.nodes :: c < plan.first + size
      ensures p in plan.nodes && i == At(plan, p) && p < s
      ensures forall c | c in plan.nodes :: c <= p || s < c
    {
      i := (loc - 1 + size) % size;
      p := s - 1;
      StepBack(s);
      while data1[i] == -1
        invariant plan.first <= p < s && i == At(plan, p)
        invariant forall c | c in plan.nodes :: c <= p || s < c
        decreases p - plan.first
      {
        BlankSlot(p);
        StepBack(p);
        i := (i - 1 + size) % size;
        p := p - 1;
      }
      BlankSlot(p);
    }

    lemma StepBack(n: int)
      requires Formed()
      ensures (At(plan, n) - 1 + size) % size == At(plan, n - 1)
    {
      SlotFrom(n - plan.origin, -1, size);
      assert n - plan.origin + -1 == n - 1 - plan.origin;
      assert At(plan, n) + -1 + size == At(plan, n) - 1 + size;
    }

    /** Within one round of the ring from the head, a slot is blank exactly when no node starts there. */
    lemma BlankSlot(n: int)
      requires Formed() && plan.nodes != map[] && plan.first <= n < plan.first + size
      requires forall c | c in plan.nodes :: c < plan.first + size
      ensures data1[At(plan, n)] == -1 <==> n !in plan.nodes
    {
      if n in plan.nodes {
        NodesNear(Contents(), plan, n, n);
      } else {
        FreeSlot(Contents(), plan, n);
      }
    }

    /** Takes s out of a node it does not start. */
    method RemoveInside(i: int, loc: int, seqno: int, ghost p: int, ghost s: int)
      requires Formed() && p in plan.nodes && i == At(plan, p) && p < s <= plan.nodes[p]
      requires seqno == Wrap(s) && loc == At(plan, s)
      modifies this`tail, this`length, this`plan, data1, data2, next, prior
      ensures Formed() && s in old(Lost()) && Lost() == old(Lost()) - {s}
    {
      ghost var t, g, c := Contents(), plan, Back();
      NodesNear(t, g, p, p);
      WithoutSets(g.nodes, p, s);
      NearAgrees(s, g.nodes[p]);
      IncAgrees(p);
      NearAgrees(s, p + 1);
      DecAgrees(s);
      if seqno == data2[i] {
        TrimEnd(t, g, c, p, s);
        if seqno == IncSeq(data1[i]) {
          data2[i] := -1;
        } else {
          data2[i] := DecSeq(seqno);
        }
        plan := PlanPutEnd(g, p, s - 1);
        assert Contents() == PutEnd(t, g, p, s - 1);
        assert Back() == c;
        length := length - 1;
      } else {
        SplitNode(i, (loc + 1) % size, seqno, p, s);
      }
    }

    /** Writes the part of the node at i behind seqno at loc, and cuts the node at i short. */
    method WriteSplit(i: int, loc: int, seqno: int)
      requires Arrays() && 0 <= i < size && 0 <= loc < size && loc != i
      requires tail == i || 0 <= next[i] < size
      modifies this`tail, data1, data2, next, prior
      ensures data1[..] == old(data1[..])[loc := IncSeq(seqno)]
      ensures data2[..] == old(data2[..])[loc :=
        if SeqCmp(old(data2[i]), IncSeq(seqno)) > 0 then old(data2[i]) else old(data2[loc])]
        [i := if seqno == IncSeq(old(data1[i])) then -1 else DecSeq(seqno)]
      ensures next[..] == old(next[..])[loc := old(next[i])][i := loc]
      ensures prior[..] == if old(tail) == i then old(prior[..])[loc := i]
                           else old(prior[..])[loc := i][old(next[i]) := loc]
      ensures tail == if old(tail) == i then loc else old(tail)
    {
      data1[loc] := IncSeq(seqno);
      if SeqCmp(data2[i], data1[loc]) > 0 {
        data2[loc] := data2[i];
      }
      if seqno == IncSeq(data1[i]) {
        data2[i] := -1;
      } else {
        data2[i] := DecSeq(seqno);
      }
      next[loc] := next[i];
      next[i] := loc;
      prior[loc] := i;
      if tail == i {
        tail := loc;
      } else {
        prior[next[loc]] := loc;
      }
    }

    method SplitNode(i: int, loc: int, seqno: int, ghost p: int, ghost s: int)
      requires Formed() && p in plan.nodes && i == At(plan, p) && p < s < plan.nodes[p]
      requires seqno == Wrap(s) && loc == (At(plan, s) + 1) % size
      modifies this`tail, this`length, this`plan, data1, data2, next, prior
      ensures Formed() && s in old(Lost()) && Lost() == old(Lost()) - {s}
    {
      ghost var t, g, c := Contents(), plan, Back();
      SplitAdded(t, g, c, p, s);
      SplitOut(t, g, c, p, s);
      NodesNear(t, g, p, p);
      TailOnly(p);
      WithoutSets(g.nodes, p, s);
      IncAgrees(s);
      NearAgrees(g.nodes[p], s + 1);
      IncAgrees(p);
      NearAgrees(s, p + 1);
      DecAgrees(s);
      WriteSplit(i, loc, seqno);
      length := length - 1;
      ghost var t1, g1 := AddNode(t, g, p, s + 1, g.nodes[p]), PlanAddNode(g, s + 1, g.nodes[p]);
      plan := PlanPutEnd(g1, p, s - 1);
      assert Contents() == PutEnd(t1, g1, p, s - 1);
      assert Back() == ChainAdd(t, g, c, p, s + 1);
    }

    /** Takes s out, if it is there. */
    method Remove(seqno: int, ghost s: int) returns (removed: bool)
      requires Valid() && seqno == Wrap(s)
      requires forall x | x in Lost() :: -Limit(size) < s - x < Limit(size)
      modifies this, data1, data2, next, prior
      ensures Valid() && Lost() == old(Lost()) - {s}
      ensures removed <==> s in old(Lost())
    {
      assert Opened(0);
      EmptyLength();
      if length == 0 {
        return false;
      }
      RemoveFacts(s);
      var offset := SeqOff(data1[head], seqno);
      if offset < 0 {
        return false;
      }
      var loc := (head + offset) % size;
      if seqno == data1[loc] {
        if data2[loc] == -1 {
          DropNode(loc, s);
        } else {
          ShiftNode(loc, s);
        }
        return true;
      }
      var i;
      ghost var p;
      i, p := SearchBack(loc, s);
      NodesNear(Contents(), plan, p, p);
      NearAgrees(s, plan.nodes[p]);
      if data2[i] == -1 || SeqCmp(seqno, data2[i]) > 0 {
        NotCovered(plan.nodes, p, s);
        return false;
      }
      RemoveInside(i, loc, seqno, p, s);
      return true;
    }

    lemma RemoveFacts(s: int)
      requires Formed() && plan.nodes != map[]
      requires forall x | x in Lost() :: -Limit(size) < s - x < Limit(size)
      ensures 0 <= head < size && SeqOff(data1[head], Wrap(s)) == s - plan.first
      ensures s < plan.first ==> s !in Lost()
      ensures s >= plan.first ==> (head + (s - plan.first)) % size == At(plan, s) && s < plan.first + size
      ensures data1[At(plan, s)] == Wrap(s) <==> s in plan.nodes
      ensures s in plan.nodes ==> s <= plan.nodes[s] && data2[At(plan, s)] == EndMark(s, plan.nodes[s])
      ensures forall c | c in plan.nodes :: c < plan.first + size && Near(s, plan.nodes[c])
      ensures Filled(plan.nodes)
    {
      var t, n := Contents(), plan.first;
      NodesNear(t, plan, n, n);
      forall c | c in plan.nodes ensures Near(s, c) && Near(s, plan.nodes[c]) && c < n + size {
        Ends(plan.nodes, c);
        CloseFirst(c);
      }
      NearAgrees(n, s);
      if s >= n {
        LocatedAfter(t, plan, s);
      }
      FoundAt(t, plan, s);
      LeastCovered(plan.nodes, n);
      if s in plan.nodes {
        NodesNear(t, plan, s, s);
      }
    }

    lemma CloseFirst(c: int)
      requires Formed() && c in plan.nodes
      ensures c < plan.first + size
    {
      CloseNodes(Contents(), plan, c, plan.first);
    }

    /** The least missing number, or -1 when none is missing. */
    method GetFirstLostSeq() returns (seqno: int, ghost n: int)
      requires Valid()
      ensures Lost() == {} ==> seqno == -1
      ensures Lost() != {} ==> n in Lost() && (forall x | x in Lost() :: n <= x) && seqno == Wrap(n)
    {
      assert Opened(0);
      EmptyLength();
      n := plan.first;
      if length == 0 {
        return -1, n;
      }
      NodesNear(Contents(), plan, n, n);
      LeastCovered(plan.nodes, n);
      return data1[head], n;
    }

    method GetLossLength() returns (n: int)
      requires Valid()
      ensures n == |Lost()|
    {
      assert Opened(0);
      return length;
    }

    /** What the links say at the node of p: where the walk goes next. */
    lemma WalkFacts(p: int)
      requires Formed() && p in plan.nodes
      ensures 0 <= At(plan, p) < size && data1[At(plan, p)] == Wrap(p)
      ensures data2[At(plan, p)] == EndMark(p, plan.nodes[p]) && p <= plan.nodes[p] && Near(p, plan.nodes[p])
      ensures
        var i := next[At(plan, p)];
        if i == -1 then forall c | c in plan.nodes :: c <= p
        else Owned(plan, i) && p < plan.owner[i] && forall c | c in plan.nodes :: c <= p || plan.owner[i] <= c
    {
      NodesNear(Contents(), plan, p, p);
    }

    /** The walk is at the node of p, and p is -1 no longer a node when it is past the tail. */
    ghost predicate Walking(i: int, p: int)
      reads this
    {
      |plan.owner| > 0 && (i != -1 ==> p in plan.nodes && i == At(plan, p))
    }

    lemma WalkStarts()
      requires Formed()
      ensures Walking(head, plan.first) && Filled(plan.nodes)
      ensures Lists([], plan.nodes, head == -1, plan.first)
    {
      assert Inside(0);
    }

    /** Writes one entry; the walk goes on behind it. */
    method WriteEntry(words: array<int>, len: int, i: int, ghost p: int) returns (len': int)
      requires Formed() && p in plan.nodes && i == At(plan, p)
      requires words !in {data1, data2, next, prior} && 0 <= len && len + 1 < words.Length
      modifies words
      ensures len < len' <= len + 2 && Formed()
      ensures words[..len'] == old(words[..len]) + Entry(Wrap(p), Wrap(plan.nodes[p]))
    {
      WalkFacts(p);
      NearAgrees(p, plan.nodes[p]);
      words[len] := data1[i];
      len' := len;
      if data2[i] != -1 {
        words[len] := words[len] + MARK;
        len' := len + 1;
        words[len'] := data2[i];
      }
      len' := len' + 1;
    }

    /** Adds the node of p to the report of the ones before it. */
    method WriteNode(words: array<int>, len: int, i: int, ghost p: int, ghost ranges: seq<(int, int)>)
      returns (len': int)
      requires Valid() && |plan.owner| > 0 && p in plan.nodes && i == At(plan, p)
      requires words !in {data1, data2, next, prior} && 0 <= len && len + 1 < words.Length
      requires words[..len] == Encode(ranges)
      requires Lists(ranges, plan.nodes, false, p) && Ascending(ranges)
      modifies words
      ensures len < len' <= len + 2 && Valid()
      ensures words[..len'] == Encode(ranges + [(p, plan.nodes[p])])
      ensures Ascending(ranges + [(p, plan.nodes[p])])
    {
      assert Opened(0);
      EncodeAppend(ranges, (p, plan.nodes[p]));
      AscendingNext(ranges, plan.nodes, p);
      len' := WriteEntry(words, len, i, p);
    }

    /** Goes from the node of p to the next one. */
    method WalkOn(i: int, ghost p: int, ghost ranges: seq<(int, int)>) returns (i': int, ghost p': int)
      requires Valid() && |plan.owner| > 0 && p in plan.nodes && i == At(plan, p)
      requires Lists(ranges, plan.nodes, false, p)
      ensures Walking(i', p') && Lists(ranges + [(p, plan.nodes[p])], plan.nodes, i' == -1, p')
    {
      assert Opened(0);
      WalkFacts(p);
      i' := next[i];
      p' := if i' == -1 then p else plan.owner[i'];
      ListsNext(ranges, plan.nodes, p, i' == -1, p');
    }

    /**
     Writes the nodes in order until fewer than two words are left.  The words are a report
     of all missing numbers, or of all before the node at bound when the room did not suffice.
     */
    method GetLossArray(words: array<int>, limit: int)
      returns (len: int, ghost ranges: seq<(int, int)>, ghost whole: bool, ghost bound: int)
      requires Valid() && words !in {data1, data2, next, prior} && limit <= words.Length
      modifies words
      ensures Valid() && 0 <= len && (len <= limit || len == 0)
      ensures words[..len] == Encode(ranges)
      ensures Reports(ranges, Lost(), whole, bound) && Lists(ranges, plan.nodes, whole, bound)
      ensures whole || len >= limit - 1
      ensures ranges == [] <==> Lost() == {} || limit < 2
    {
      len, ranges := 0, [];
      var i := head;
      ghost var p := plan.first;
      WalkStarts() by {
        assert Opened(0);
      }
      while len < limit - 1 && i != -1
        invariant Valid() && Walking(i, p) && Lists(ranges, plan.nodes, i == -1, p) && Ascending(ranges)
        invariant (ranges == [] <==> len == 0) && (limit < 2 ==> len == 0)
        invariant 0 <= len && (len <= limit || len == 0) && words[..len] == Encode(ranges)
        decreases limit - len
      {
        ghost var node := (p, plan.nodes[p]);
        len := WriteNode(words, len, i, p, ranges);
        i, p := WalkOn(i, p, ranges);
        ranges := ranges + [node];
      }
      whole, bound := i == -1, p;
      ReportMade(ranges, whole, bound);
    }

    lemma ReportMade(ranges: seq<(int, int)>, whole: bool, bound: int)
      requires Valid() && Lists(ranges, plan.nodes, whole, bound) && Ascending(ranges)
      ensures Reports(ranges, Lost(), whole, bound)
      ensures (ranges == [] && whole ==> Lost() == {}) && (Lost() == {} ==> ranges == [])
    {
      assert Opened(0);
      WalkStarts();
      ListsReports(ranges, plan.nodes, whole, bound);
      NothingReported(ranges, Lost(), whole, bound);
    }

    lemma FindFacts(p: int, a: int, b: int)
      requires Formed() && p in plan.nodes && a <= b && forall x | x in Lost() :: Near(x, a) && Near(x, b)
      ensures SeqCmp(Wrap(p), Wrap(a)) < 0 <==> p < a
      ensures SeqCmp(Wrap(p), Wrap(a)) == 0 <==> p == a
      ensures SeqCmp(Wrap(p), Wrap(b)) > 0 <==> p > b
      ensures SeqCmp(Wrap(plan.nodes[p]), Wrap(a)) < 0 <==> plan.nodes[p] < a
      ensures p <= b && a <= plan.nodes[p] ==> Max(p, a) in Lost()
    {
      NodesNear(Contents(), plan, p, p);
      Ends(plan.nodes, p);
      NearAgrees(p, a);
      NearAgrees(p, b);
      NearAgrees(plan.nodes[p], a);
      InCover(plan.nodes, Max(p, a));
      assert p <= b && a <= plan.nodes[p] ==> InNode(plan.nodes, p, Max(p, a));
    }

    /** Whether any of the numbers a to b is missing. */
    method Find(seqno1: int, seqno2: int, ghost a: int, ghost b: int) returns (found: bool)
      requires Valid() && seqno1 == Wrap(a) && seqno2 == Wrap(b) && a <= b
      requires forall x | x in Lost() :: Near(x, a) && Near(x, b)
      ensures found <==> exists x :: x in Lost() && a <= x <= b
    {
      assert Opened(0);
      EmptyLength();
      if length == 0 {
        return false;
      }
      var i := head;
      ghost var p := plan.first;
      WalkStarts();
      while i != -1
        invariant Walking(i, p) && forall c | c in plan.nodes && (i == -1 || c < p) :: plan.nodes[c] < a || b < c
        decreases if i == -1 then 0 else plan.first + size - p
      {
        WalkFacts(p);
        CloseFirst(p);
        FindFacts(p, a, b);
        if SeqCmp(data1[i], seqno1) == 0
          || (SeqCmp(data1[i], seqno1) > 0 && SeqCmp(data1[i], seqno2) <= 0)
          || (SeqCmp(data1[i], seqno1) < 0 && data2[i] != -1 && SeqCmp(data2[i], seqno1) >= 0) {
          assert Max(p, a) in Lost();
          return true;
        }
        i := next[i];
        p := if i == -1 then p else plan.owner[i];
      }
      forall x | x in Lost() ensures x < a || b < x {
        InCover(plan.nodes, x);
      }
      return false;
    }

    /** Takes the numbers a to b out one by one, except one when the numbers on the wire wrap. */
    method RemoveRange(seqno1: int, seqno2: int, ghost a: int, ghost b: int) returns (r: bool)
      requires Valid() && seqno1 == Wrap(a) && seqno2 == Wrap(b) && a <= b && Near(a, b)
      requires forall x | x in Lost() :: -Limit(size) < a - x && b - x < Limit(size)
      modifies this, data1, data2, next, prior
      ensures Valid() && Lost() == old(Lost()) - (Range(a, b) - Skipped(a, b))
    {
      WrapDistance(a, b);
      if seqno1 <= seqno2 {
        RemoveRun(seqno1, seqno2, a, b);
      } else {
        RemoveRun(seqno1, MAX_SEQ_NO - 1, a, b - seqno2 - 2);
        WrapStep(a, MAX_SEQ_NO + 1 - seqno1);
        RemoveRun(0, seqno2, b - seqno2, b);
        TwoRuns(a, b - seqno2 - 1, b);
      }
      return true;
    }

    method RemoveRun(first: int, last: int, ghost a: int, ghost b: int)
      requires Valid() && first == Wrap(a) && last - first == b - a && last <= MAX_SEQ_NO
      requires forall x | x in Lost() :: -Limit(size) < a - x && b - x < Limit(size)
      modifies this, data1, data2, next, prior
      ensures Valid() && Lost() == old(Lost()) - Range(a, b)
    {
      var i := first;
      while i <= last
        invariant first <= i && (i <= last + 1 || i == first)
        invariant Valid() && Lost() == old(Lost()) - Range(a, a + (i - first) - 1)
      {
        ghost var s := a + (i - first);
        WrapStep(a, i - first);
        var removed := Remove(i, s);
        RangeNext(a, s);
        i := i + 1;
      }
    }
  }

  lemma RangeNext(a: int, s: int)
    requires a <= s
    ensures Range(a, s) == Range(a, s - 1) + {s}
  {
  }

  /** Numbers on the wire count on until they wrap. */
  lemma WrapStep(a: int, k: int)
    requires k >= 0 && Wrap(a) + k <= MAX_SEQ_NO + 1
    ensures Wrap(a + k) == if Wrap(a) + k <= MAX_SEQ_NO then Wrap(a) + k else 0
  {
    SlotPlus(a, k, MAX_SEQ_NO + 1);
    if Wrap(a) + k <= MAX_SEQ_NO {
      SlotSmall(Wrap(a) + k, MAX_SEQ_NO + 1);
    } else {
      SlotPeriod(0, MAX_SEQ_NO + 1);
      SlotSmall(0, MAX_SEQ_NO + 1);
    }
  }

  /** The number remove leaves in when the range wraps: the last one before the wrap. */
  ghost function Skipped(a: int, b: int): set<int> {
    if Wrap(a) <= Wrap(b) then {} else {b - Wrap(b) - 1}
  }

  lemma TwoRuns(a: int, m: int, b: int)
    requires a <= m < b
    ensures Range(a, m - 1) + Range(m + 1, b) == Range(a, b) - {m}
  {
  }

  /** Removing a range removes all of it exactly when it does not wrap or that number is not missing. */
  lemma RangeRemoved(lost: set<int>, a: int, b: int)
    requires a <= b && Near(a, b)
    ensures lost - (Range(a, b) - Skipped(a, b)) == lost - Range(a, b)
       <==> Wrap(a) <= Wrap(b) || b - Wrap(b) - 1 !in lost
    ensures Wrap(a) > Wrap(b) ==> Wrap(b - Wrap(b) - 1) == MAX_SEQ_NO
  {
    WrapDistance(a, b);
    if Wrap(a) > Wrap(b) {
      var m := b - Wrap(b) - 1;
      WrapStep(a, MAX_SEQ_NO - Wrap(a));
      assert m in Range(a, b);
      assert m in lost ==> m in lost - (Range(a, b) - Skipped(a, b));
    }
  }

  /** For instance, 2^31 - 1 stays when 2^31 - 1 and 0 are to be removed. */
  lemma RangeNotRemoved()
    ensures var m := MAX_SEQ_NO; m in {m} - (Range(m, m + 1) - Skipped(m, m + 1))
  {
    SlotSmall(MAX_SEQ_NO, MAX_SEQ_NO + 1);
    WrapStep(MAX_SEQ_NO, 1);
  }
}
