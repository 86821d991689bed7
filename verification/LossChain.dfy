/** The backward links of the receiver's loss list, on top of the shared table. */
module LossChain {
  import opened SeqNo
  import opened Intervals
  import opened LossTable

  datatype Chain = Chain(prior: seq<int>, tail: int)

  ghost predicate BackLinked(t: Table, g: Plan, c: Chain, a: int)
    requires Sized(t, g) && |c.prior| == |t.next|
  {
    var q := c.prior[At(g, a)];
    if a == g.first then q == -1 else Owned(g, q) && t.next[q] == At(g, a)
  }

  ghost predicate Tailed(g: Plan, c: Chain)
    requires |g.owner| > 0
  {
    g.nodes != map[] ==> Owned(g, c.tail) && forall b | b in g.nodes :: b <= g.owner[c.tail]
  }

  ghost predicate Chained(t: Table, g: Plan, c: Chain) {
    && Sized(t, g) && |c.prior| == |t.next|
    && Tailed(g, c)
    && forall k {:trigger Inside(k)} | Inside(k) :: AllBackLinked(t, g, c)
  }

  ghost predicate AllBackLinked(t: Table, g: Plan, c: Chain)
    requires Sized(t, g) && |c.prior| == |t.next|
  {
    forall a {:trigger BackLinked(t, g, c, a)} | a in g.nodes :: BackLinked(t, g, c, a)
  }

  /** Going forward and then back ends where it started. */
  lemma MutuallyInverse(t: Table, g: Plan, c: Chain, a: int)
    requires Wired(t, g) && Chained(t, g, c) && a in g.nodes
    ensures t.next[At(g, a)] != -1 ==> Owned(g, t.next[At(g, a)]) && c.prior[t.next[At(g, a)]] == At(g, a)
    ensures c.prior[At(g, a)] != -1 ==> Owned(g, c.prior[At(g, a)]) && t.next[c.prior[At(g, a)]] == At(g, a)
  {
    assert Inside(0) && BackLinked(t, g, c, a) && Linked(t, g, a);
    var p := t.next[At(g, a)];
    if p != -1 {
      var n := g.owner[p];
      assert BackLinked(t, g, c, n) && n != g.first;
      var m := g.owner[c.prior[p]];
      assert Linked(t, g, m) && Holds(t, g, n);
      assert m < n;
    }
  }

  // What the three changes of the table make of the backward links

  ghost function ChainAdd(t: Table, g: Plan, c: Chain, p: int, a: int): Chain
    requires Sized(t, g) && |c.prior| == |t.next|
  {
    var n, prior := t.next[At(g, p)], c.prior[At(g, a) := At(g, p)];
    if 0 <= n < |prior| then Chain(prior[n := At(g, a)], c.tail) else Chain(prior, At(g, a))
  }

  lemma ChainAddKeeps(t: Table, g: Plan, c: Chain, p: int, a: int, b: int, x: int)
    requires Sized(t, g) && |c.prior| == |t.next| && p in g.nodes && p < a && a !in g.nodes
    requires x in g.nodes && BackLinked(t, g, c, x) && Linked(t, g, p)
    requires At(g, x) != At(g, a) && At(g, p) != At(g, a)
    requires t.next[At(g, p)] != -1 ==> (t.next[At(g, p)] == At(g, x) <==> g.owner[t.next[At(g, p)]] == x)
    requires !Owned(g, At(g, a)) && forall s | Owned(g, s) :: Owned(PlanAddNode(g, a, b), s)
    requires g.first <= p
    requires x == g.first ==> t.next[At(g, p)] != At(g, x)
    ensures BackLinked(AddNode(t, g, p, a, b), PlanAddNode(g, a, b), ChainAdd(t, g, c, p, a), x)
  {
  }

  lemma ChainAddMakes(t: Table, g: Plan, c: Chain, p: int, a: int, b: int)
    requires Sized(t, g) && |c.prior| == |t.next| && p in g.nodes && p < a && a !in g.nodes
    requires Linked(t, g, p) && At(g, p) != At(g, a) && Owned(g, At(g, p))
    requires !Owned(g, At(g, a)) && forall s | Owned(g, s) :: Owned(PlanAddNode(g, a, b), s)
    requires g.first <= p
    ensures BackLinked(AddNode(t, g, p, a, b), PlanAddNode(g, a, b), ChainAdd(t, g, c, p, a), a)
  {
  }

  lemma ChainAddChained(t: Table, g: Plan, c: Chain, p: int, a: int, b: int)
    requires Wired(t, g) && Chained(t, g, c) && p in g.nodes && p < a <= b && a !in g.nodes
    requires forall c | c in g.nodes :: c <= p || a < c
    requires Compact(g.nodes[a := b], Limit(|g.owner|))
    ensures Chained(AddNode(t, g, p, a, b), PlanAddNode(g, a, b), ChainAdd(t, g, c, p, a))
  {
    assert Inside(0);
    CloseTo(g, a, b);
    FreeSlot(t, g, a);
    OwnersKept(t, g, a, b);
    Apart(g, a, p);
    assert Linked(t, g, p) && Holds(t, g, p);
    ChainAddMakes(t, g, c, p, a, b);
    var t', g', c' := AddNode(t, g, p, a, b), PlanAddNode(g, a, b), ChainAdd(t, g, c, p, a);
    forall x | x in g'.nodes ensures BackLinked(t', g', c', x) {
      if x != a {
        assert BackLinked(t, g, c, x) && Holds(t, g, x);
        Apart(g, a, x);
        ChainAddKeeps(t, g, c, p, a, b, x);
      }
    }
  }

  ghost function ChainDropHead(t: Table, c: Chain): Chain
    requires 0 <= t.head < |t.next|
  {
    var n := t.next[t.head];
    if 0 <= n < |c.prior| then c.(prior := c.prior[n := -1]) else c
  }

  lemma ChainDropHeadChained(t: Table, g: Plan, c: Chain)
    requires Wired(t, g) && Chained(t, g, c) && g.nodes != map[]
    ensures Chained(DropHead(t), PlanDropHead(t, g), ChainDropHead(t, c))
  {
    assert Inside(0);
    assert Linked(t, g, g.first) && Holds(t, g, g.first);
    var t', g', c' := DropHead(t), PlanDropHead(t, g), ChainDropHead(t, c);
    DropHeadWired(t, g);
    forall x | x in g'.nodes ensures BackLinked(t', g', c', x) {
      assert BackLinked(t, g, c, x) && Holds(t, g, x);
    }
    if g'.nodes != map[] {
      assert Owned(g, t.next[t.head]);
      assert g.owner[c.tail] != g.first;
    }
  }

  ghost function ChainDropNext(t: Table, g: Plan, c: Chain, a: int): Chain
    requires Sized(t, g) && |c.prior| == |t.next|
  {
    var i := t.next[At(g, a)];
    if 0 <= i < |t.next| then
      var n := t.next[i];
      if 0 <= n < |t.next| then c.(prior := c.prior[n := c.prior[i]]) else c.(tail := c.prior[i])
    else c
  }

  lemma ChainDropNextKeeps(t: Table, g: Plan, c: Chain, a: int, x: int)
    requires Sized(t, g) && |c.prior| == |t.next| && a in g.nodes && Linked(t, g, a) && t.next[At(g, a)] != -1
    requires Owned(g, At(g, a)) && g.owner[At(g, a)] == a && c.prior[t.next[At(g, a)]] == At(g, a)
    requires Linked(t, g, g.owner[t.next[At(g, a)]])
    requires x in g.nodes && g.owner[At(g, x)] == x != g.owner[t.next[At(g, a)]] && BackLinked(t, g, c, x)
    requires g.first <= a
    ensures BackLinked(DropNext(t, g, a), PlanDropNext(t, g, a), ChainDropNext(t, g, c, a), x)
  {
  }

  lemma ChainDropNextNodes(t: Table, g: Plan, c: Chain, a: int)
    requires Wired(t, g) && Chained(t, g, c) && a in g.nodes && t.next[At(g, a)] != -1
    ensures AllBackLinked(DropNext(t, g, a), PlanDropNext(t, g, a), ChainDropNext(t, g, c, a))
  {
    assert Inside(0);
    MutuallyInverse(t, g, c, a);
    assert Linked(t, g, a) && Holds(t, g, a);
    assert Linked(t, g, g.owner[t.next[At(g, a)]]);
    var t', g', c' := DropNext(t, g, a), PlanDropNext(t, g, a), ChainDropNext(t, g, c, a);
    forall x | x in g'.nodes ensures BackLinked(t', g', c', x) {
      assert BackLinked(t, g, c, x) && Holds(t, g, x);
      ChainDropNextKeeps(t, g, c, a, x);
    }
  }

  lemma ChainDropNextTail(t: Table, g: Plan, c: Chain, a: int)
    requires Wired(t, g) && Chained(t, g, c) && a in g.nodes && t.next[At(g, a)] != -1
    ensures Tailed(PlanDropNext(t, g, a), ChainDropNext(t, g, c, a))
  {
    MutuallyInverse(t, g, c, a);
    assert Linked(t, g, a) && Holds(t, g, a) by {
      assert Inside(0);
    }
    var d := g.owner[t.next[At(g, a)]];
    assert Linked(t, g, d) && Holds(t, g, d) by {
      assert Inside(0);
    }
  }

  lemma ChainDropNextChained(t: Table, g: Plan, c: Chain, a: int)
    requires Wired(t, g) && Chained(t, g, c) && a in g.nodes && t.next[At(g, a)] != -1
    ensures Chained(DropNext(t, g, a), PlanDropNext(t, g, a), ChainDropNext(t, g, c, a))
  {
    ChainDropNextNodes(t, g, c, a);
    ChainDropNextTail(t, g, c, a);
  }

  lemma PutEndChained(t: Table, g: Plan, c: Chain, a: int, b: int)
    requires Chained(t, g, c) && a in g.nodes
    ensures Chained(PutEnd(t, g, a, b), PlanPutEnd(g, a, b), c)
  {
    assert Inside(0);
    var t', g' := PutEnd(t, g, a, b), PlanPutEnd(g, a, b);
    forall x | x in g'.nodes ensures BackLinked(t', g', c, x) {
      assert BackLinked(t, g, c, x);
    }
  }

  /** The links of blank slots do not matter to the way back either. */
  lemma NextIrrelevantChained(t: Table, g: Plan, c: Chain, next: seq<int>)
    requires Chained(t, g, c) && |next| == |t.next|
    requires forall s | 0 <= s < |next| && Owned(g, s) :: next[s] == t.next[s]
    ensures Chained(t.(next := next), g, c)
  {
    assert Inside(0);
    forall x | x in g.nodes ensures BackLinked(t.(next := next), g, c, x) {
      assert BackLinked(t, g, c, x);
    }
  }

  /** A node behind the tail. */
  lemma Appended(t: Table, g: Plan, c: Chain, p: int, a: int, b: int)
    requires Wired(t, g) && Chained(t, g, c) && Disjoint(g.nodes)
    requires p in g.nodes && c.tail == At(g, p) && g.nodes[p] < a <= b
    requires forall x | x in g.nodes :: x <= p
    requires Fits(Cover(g.nodes), a, b, Limit(|g.owner|))
    ensures Wired(AddNode(t, g, p, a, b), PlanAddNode(g, a, b)) && Blank(t, g, a) && Near(a, b)
    ensures Chained(AddNode(t, g, p, a, b), PlanAddNode(g, a, b), ChainAdd(t, g, c, p, a))
    ensures At(g, p) != At(g, a) && t.next[At(g, p)] == -1
    ensures Disjoint(g.nodes[a := b]) && |Cover(g.nodes[a := b])| == |Cover(g.nodes)| + b - a + 1
    ensures Cover(g.nodes[a := b]) == Cover(g.nodes) + Range(a, b)
  {
    AllBefore(t, g, p, a);
    AppendedWired(t, g, p, a, b);
    CompactPut(g.nodes, a, a, b, Limit(|g.owner|));
    ChainAddChained(t, g, c, p, a, b);
    AppendSets(g.nodes, a, b);
  }

  lemma AllBefore(t: Table, g: Plan, p: int, a: int)
    requires Wired(t, g) && Disjoint(g.nodes) && p in g.nodes && g.nodes[p] < a
    requires forall x | x in g.nodes :: x <= p
    ensures Filled(g.nodes) && Compact(g.nodes, Limit(|g.owner|)) && p <= g.nodes[p]
    ensures a !in g.nodes && forall c | c in g.nodes :: c < a && g.nodes[c] < a
    ensures t.next[At(g, p)] == -1
  {
    assert Parted(0);
    assert Inside(0) && Linked(t, g, p);
  }

  lemma AppendedWired(t: Table, g: Plan, p: int, a: int, b: int)
    requires Wired(t, g) && Disjoint(g.nodes) && p in g.nodes && g.nodes[p] < a <= b
    requires forall x | x in g.nodes :: x <= p
    requires Fits(Cover(g.nodes), a, b, Limit(|g.owner|))
    ensures Wired(AddNode(t, g, p, a, b), PlanAddNode(g, a, b)) && Blank(t, g, a) && Near(a, b)
    ensures At(g, p) != At(g, a)
  {
    AllBefore(t, g, p, a);
    AddedAfter(t, g, p, a, b);
  }

  /** The node before that of s, by the backward link. */
  lemma BackFacts(t: Table, g: Plan, c: Chain, s: int)
    requires Wired(t, g) && Chained(t, g, c) && s in g.nodes && s != g.first
    ensures Owned(g, c.prior[At(g, s)])
    ensures t.next[c.prior[At(g, s)]] == At(g, s) && g.owner[c.prior[At(g, s)]] < s
    ensures g.owner[At(g, s)] == s && At(g, s) != t.head && At(g, s) != c.prior[At(g, s)]
  {
    assert Inside(0) && BackLinked(t, g, c, s) && Holds(t, g, s) && Holds(t, g, g.first);
    assert Linked(t, g, g.owner[c.prior[At(g, s)]]);
  }

  /** A node that is a single number is dropped from behind another. */
  lemma DropMid(t: Table, g: Plan, c: Chain, s: int)
    requires Wired(t, g) && Chained(t, g, c) && Disjoint(g.nodes)
    requires s in g.nodes && s != g.first && g.nodes[s] == s
    ensures Owned(g, c.prior[At(g, s)]) && t.next[c.prior[At(g, s)]] == At(g, s)
    ensures At(g, s) != t.head && At(g, s) != c.prior[At(g, s)] && t.data2[At(g, s)] == -1
    ensures t.next[At(g, s)] == -1 || 0 <= t.next[At(g, s)] < |t.next|
    ensures
      var q := g.owner[c.prior[At(g, s)]];
      && Wired(DropNext(t, g, q), g.(nodes := g.nodes - {s}))
      && Chained(DropNext(t, g, q), g.(nodes := g.nodes - {s}), ChainDropNext(t, g, c, q))
    ensures Disjoint(g.nodes - {s}) && s in Cover(g.nodes) && Cover(g.nodes - {s}) == Cover(g.nodes) - {s}
  {
    BackFacts(t, g, c, s);
    var q := g.owner[c.prior[At(g, s)]];
    DropNextWired(t, g, q);
    ChainDropNextChained(t, g, c, q);
    NodesNear(t, g, s, s);
    DropSingle(g.nodes, s);
  }

  /** The same for the head. */
  lemma DropFirst(t: Table, g: Plan, c: Chain)
    requires Wired(t, g) && Chained(t, g, c) && Disjoint(g.nodes)
    requires g.nodes != map[] && g.nodes[g.first] == g.first
    ensures Wired(DropHead(t), PlanDropHead(t, g))
    ensures Chained(DropHead(t), PlanDropHead(t, g), ChainDropHead(t, c))
    ensures t.data2[t.head] == -1 && (t.next[t.head] == -1 || 0 <= t.next[t.head] < |t.next|)
    ensures Disjoint(g.nodes - {g.first})
    ensures g.first in Cover(g.nodes) && Cover(g.nodes - {g.first}) == Cover(g.nodes) - {g.first}
  {
    DropHeadWired(t, g);
    ChainDropHeadChained(t, g, c);
    NodesNear(t, g, g.first, g.first);
    DropSingle(g.nodes, g.first);
  }

  lemma DropSingle(nodes: map<int, int>, s: int)
    requires Disjoint(nodes) && s in nodes && nodes[s] == s
    ensures Disjoint(nodes - {s}) && s in Cover(nodes) && Cover(nodes - {s}) == Cover(nodes) - {s}
  {
    CoverDrop(nodes, s);
    DisjointDrop(nodes, s);
    assert Range(s, s) == {s};
    assert s in Range(s, s);
  }

  /** The backward links after the first number is taken off the node of a. */
  ghost function ShiftChain(t: Table, g: Plan, c: Chain, a: int): Chain
    requires Sized(t, g) && |c.prior| == |t.next|
  {
    var loc, i := At(g, a), At(g, a + 1);
    var n, prior := t.next[loc], c.prior[i := c.prior[loc]];
    if 0 <= n < |prior| then Chain(prior[n := i], c.tail) else Chain(prior, i)
  }

  lemma ShiftFirst(t: Table, g: Plan, c: Chain)
    requires Wired(t, g) && Chained(t, g, c) && Disjoint(g.nodes)
    requires g.nodes != map[] && g.first < g.nodes[g.first]
    ensures Chained(ShiftHead(t, g), PlanShiftHead(g), ShiftChain(t, g, c, g.first))
  {
    var a, b := g.first, g.nodes[g.first];
    SplitWired(t, g, a, a);
    var t1, g1, c1 := AddNode(t, g, a, a + 1, b), PlanAddNode(g, a + 1, b), ChainAdd(t, g, c, a, a + 1);
    ShiftHeadWired(t, g);
    ShiftAdded(t, g, c, a);
    ChainDropHeadChained(t1, g1, c1);
    assert PlanDropHead(t1, g1) == PlanShiftHead(g);
    NextIrrelevantChained(DropHead(t1), PlanShiftHead(g), ChainDropHead(t1, c1), ShiftHead(t, g).next);
    assert ShiftHead(t, g) == DropHead(t1).(next := ShiftHead(t, g).next);
    assert ChainDropHead(t1, c1) == ShiftChain(t, g, c, a);
  }

  lemma ShiftAdded(t: Table, g: Plan, c: Chain, a: int)
    requires Wired(t, g) && Chained(t, g, c) && Disjoint(g.nodes) && a in g.nodes && a < g.nodes[a]
    ensures Chained(AddNode(t, g, a, a + 1, g.nodes[a]), PlanAddNode(g, a + 1, g.nodes[a]), ChainAdd(t, g, c, a, a + 1))
    ensures a == g.first ==> c.prior[At(g, a)] == -1
    ensures t.next[At(g, a)] == -1 || Owned(g, t.next[At(g, a)])
    ensures t.next[At(g, a)] != At(g, a)
    ensures a + 1 !in g.nodes && !Owned(g, At(g, a + 1))
    ensures g.owner[At(g, a)] == a && Owned(g, At(g, a)) && At(g, a) != At(g, a + 1)
  {
    SplitWired(t, g, a, a);
    assert Inside(0) && BackLinked(t, g, c, a) && Linked(t, g, a) && Holds(t, g, a);
    ChainAddChained(t, g, c, a, a + 1, g.nodes[a]);
  }

  /** The table after the first number is taken off a node behind the head. */
  ghost function ShiftMidTable(t: Table, g: Plan, c: Chain, a: int): Table
    requires Sized(t, g) && |c.prior| == |t.next| && a in g.nodes
  {
    var loc, i, q := At(g, a), At(g, a + 1), c.prior[At(g, a)];
    t.(data1 := t.data1[i := Wrap(a + 1)][loc := -1],
       data2 := t.data2[i := EndMark(a + 1, g.nodes[a])][loc := -1],
       next := if 0 <= q < |t.next| then t.next[i := t.next[loc]][q := i] else t.next)
  }

  ghost function PlanShift(g: Plan, a: int): Plan
    requires |g.owner| > 0 && a in g.nodes
  {
    g.(nodes := g.nodes[a + 1 := g.nodes[a]] - {a}, owner := g.owner[At(g, a + 1) := a + 1])
  }

  /** The three steps, add behind, drop and skip, written out. */
  lemma ShiftMidShape(t: Table, g: Plan, c: Chain, a: int, q: int)
    requires Sized(t, g) && |c.prior| == |t.next| && a in g.nodes && a + 1 !in g.nodes
    requires c.prior[At(g, a)] == At(g, q) && t.next[At(g, q)] == At(g, a)
    requires At(g, a) != At(g, a + 1) && At(g, q) != At(g, a) && At(g, q) != At(g, a + 1)
    requires g.owner[At(g, a)] == a && t.next[At(g, a)] != At(g, a + 1)
    requires -1 <= t.next[At(g, a)] < |t.next| && t.next[At(g, a)] != At(g, a)
    ensures
      var t1, g1 := AddNode(t, g, a, a + 1, g.nodes[a]), PlanAddNode(g, a + 1, g.nodes[a]);
      var t2 := DropNext(t1, g1, q);
      && t1.next[At(g1, q)] == At(g, a)
      && PlanDropNext(t1, g1, q) == PlanShift(g, a)
      && ChainDropNext(t1, g1, ChainAdd(t, g, c, a, a + 1), q) == ShiftChain(t, g, c, a)
      && t2 == ShiftMidTable(t, g, c, a).(next := ShiftMidTable(t, g, c, a).next[At(g, a) := At(g, a + 1)])
  {
    var t1, g1, t' := AddNode(t, g, a, a + 1, g.nodes[a]), PlanAddNode(g, a + 1, g.nodes[a]), ShiftMidTable(t, g, c, a);
    assert DropNext(t1, g1, q).next == t'.next[At(g, a) := At(g, a + 1)];
    var c1 := ChainAdd(t, g, c, a, a + 1);
    assert ChainDropNext(t1, g1, c1, q).prior == ShiftChain(t, g, c, a).prior;
  }

  lemma ShiftMidFacts(t: Table, g: Plan, c: Chain, a: int) returns (q: int)
    requires Wired(t, g) && Chained(t, g, c) && Disjoint(g.nodes)
    requires a in g.nodes && a != g.first && a < g.nodes[a]
    ensures q in g.nodes && c.prior[At(g, a)] == At(g, q) && t.next[At(g, q)] == At(g, a)
    ensures At(g, a) != At(g, a + 1) && At(g, q) != At(g, a) && At(g, q) != At(g, a + 1)
    ensures g.owner[At(g, a)] == a && t.next[At(g, a)] != At(g, a + 1)
    ensures -1 <= t.next[At(g, a)] < |t.next| && t.next[At(g, a)] != At(g, a)
  {
    ShiftAdded(t, g, c, a);
    BackFacts(t, g, c, a);
    q := g.owner[c.prior[At(g, a)]];
  }

  lemma ShiftMid(t: Table, g: Plan, c: Chain, a: int)
    requires Wired(t, g) && Chained(t, g, c) && Disjoint(g.nodes)
    requires a in g.nodes && a != g.first && a < g.nodes[a]
    ensures Wired(ShiftMidTable(t, g, c, a), PlanShift(g, a))
    ensures Chained(ShiftMidTable(t, g, c, a), PlanShift(g, a), ShiftChain(t, g, c, a))
  {
    var q := ShiftMidFacts(t, g, c, a);
    var t1, g1 := AddNode(t, g, a, a + 1, g.nodes[a]), PlanAddNode(g, a + 1, g.nodes[a]);
    SplitWired(t, g, a, a);
    ShiftAdded(t, g, c, a);
    ShiftMidShape(t, g, c, a, q);
    DropNextWired(t1, g1, q);
    ChainDropNextChained(t1, g1, ChainAdd(t, g, c, a, a + 1), q);
    SkipBlank(ShiftMidTable(t, g, c, a), PlanShift(g, a), ShiftChain(t, g, c, a), At(g, a), At(g, a + 1));
  }

  lemma SkipBlank(t: Table, g: Plan, c: Chain, s: int, v: int)
    requires Sized(t, g) && 0 <= s < |t.next| && !Owned(g, s)
    requires Wired(t.(next := t.next[s := v]), g) && Chained(t.(next := t.next[s := v]), g, c)
    ensures Wired(t, g) && Chained(t, g, c)
  {
    var t2 := t.(next := t.next[s := v]);
    NextIrrelevant(t2, g, t.next);
    NextIrrelevantChained(t2, g, c, t.next);
    assert t2.(next := t.next) == t;
  }

  lemma SplitFacts(t: Table, g: Plan, p: int, s: int)
    requires Wired(t, g) && Disjoint(g.nodes) && p in g.nodes && p < s < g.nodes[p]
    ensures s + 1 !in g.nodes && forall c | c in g.nodes :: c <= p || s + 1 < c
    ensures Compact(g.nodes[s + 1 := g.nodes[p]], Limit(|g.owner|))
    ensures Compact(WithoutNodes(g.nodes, p, s), Limit(|g.owner|))
    ensures t.next[At(g, p)] == -1 || Owned(g, t.next[At(g, p)])
    ensures Near(g.nodes[p], s + 1) && Owned(g, At(g, p))
  {
    assert Parted(0);
    assert Inside(0) && Spread(0) && Linked(t, g, p) && Holds(t, g, p);
  }

  lemma SplitAdded(t: Table, g: Plan, c: Chain, p: int, s: int)
    requires Wired(t, g) && Chained(t, g, c) && Disjoint(g.nodes) && p in g.nodes && p < s < g.nodes[p]
    ensures
      var t1, g1 := AddNode(t, g, p, s + 1, g.nodes[p]), PlanAddNode(g, s + 1, g.nodes[p]);
      Wired(t1, g1) && Chained(t1, g1, ChainAdd(t, g, c, p, s + 1))
    ensures Compact(WithoutNodes(g.nodes, p, s), Limit(|g.owner|))
    ensures Blank(t, g, s + 1) && At(g, s + 1) == (At(g, s) + 1) % |g.owner| && At(g, s + 1) != At(g, p)
    ensures t.next[At(g, p)] == -1 || Owned(g, t.next[At(g, p)])
    ensures !Owned(g, At(g, s + 1)) && Near(g.nodes[p], s + 1)
  {
    SplitFacts(t, g, p, s);
    SplitWired(t, g, p, s);
    ChainAddChained(t, g, c, p, s + 1, g.nodes[p]);
  }

  /** Taking s out of the inside of the node of p: a second node behind s, the first one shortened. */
  lemma SplitOut(t: Table, g: Plan, c: Chain, p: int, s: int)
    requires Wired(t, g) && Chained(t, g, c) && Disjoint(g.nodes) && p in g.nodes && p < s < g.nodes[p]
    ensures
      var t1, g1 := AddNode(t, g, p, s + 1, g.nodes[p]), PlanAddNode(g, s + 1, g.nodes[p]);
      Wired(PutEnd(t1, g1, p, s - 1), PlanPutEnd(g1, p, s - 1))
      && Chained(PutEnd(t1, g1, p, s - 1), PlanPutEnd(g1, p, s - 1), ChainAdd(t, g, c, p, s + 1))
      && PlanPutEnd(g1, p, s - 1).nodes == WithoutNodes(g.nodes, p, s)
  {
    var t1, g1 := AddNode(t, g, p, s + 1, g.nodes[p]), PlanAddNode(g, s + 1, g.nodes[p]);
    SplitAdded(t, g, c, p, s);
    PutEndWired(t1, g1, p, s - 1);
    PutEndChained(t1, g1, ChainAdd(t, g, c, p, s + 1), p, s - 1);
  }

  /** Taking s off the end of the node of p. */
  lemma TrimEnd(t: Table, g: Plan, c: Chain, p: int, s: int)
    requires Wired(t, g) && Chained(t, g, c) && p in g.nodes && p < s == g.nodes[p]
    ensures Wired(PutEnd(t, g, p, s - 1), PlanPutEnd(g, p, s - 1))
    ensures Chained(PutEnd(t, g, p, s - 1), PlanPutEnd(g, p, s - 1), c)
    ensures PlanPutEnd(g, p, s - 1).nodes == WithoutNodes(g.nodes, p, s)
  {
    assert Inside(0);
    assert Compact(g.nodes[p := s - 1], Limit(|g.owner|));
    PutEndWired(t, g, p, s - 1);
    PutEndChained(t, g, c, p, s - 1);
  }
}
