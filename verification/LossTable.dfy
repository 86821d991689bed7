/**
 The representation both loss lists share: intervals of wrapped sequence numbers in a
 static array, where the slot of an interval follows from its first number, the free
 slots are blank and the used ones are chained in increasing order.
 */
module LossTable {
  import opened SeqNo
  import opened Ring
  import opened Intervals

  /** The contents of the three arrays and the list head. */
  datatype Table = Table(data1: seq<int>, data2: seq<int>, next: seq<int>, head: int)

  /**
   What the table stands for: the absolute intervals, the first of them, the number that
   belongs in slot 0, and for each slot with a node the absolute first number of the node.
   */
  datatype Plan = Plan(nodes: map<int, int>, first: int, origin: int, owner: seq<int>)

  ghost function At(g: Plan, n: int): int
    requires |g.owner| > 0
  {
    Slot(n - g.origin, |g.owner|)
  }

  ghost predicate Owned(g: Plan, s: int)
    requires |g.owner| > 0
  {
    0 <= s < |g.owner| && g.owner[s] in g.nodes && At(g, g.owner[s]) == s
  }

  ghost predicate Sized(t: Table, g: Plan) {
    |t.data1| == |t.data2| == |t.next| == |g.owner| > 0
  }

  /** The node of a is written at its slot. */
  ghost predicate Holds(t: Table, g: Plan, a: int)
    requires Sized(t, g) && a in g.nodes
  {
    && g.owner[At(g, a)] == a
    && t.data1[At(g, a)] == Wrap(a)
    && t.data2[At(g, a)] == if g.nodes[a] == a then -1 else Wrap(g.nodes[a])
  }

  /** The node of a points to the next node in order, or to none when it is the last. */
  ghost predicate Linked(t: Table, g: Plan, a: int)
    requires Sized(t, g)
  {
    var p := t.next[At(g, a)];
    if p == -1 then
      forall b | b in g.nodes :: b <= a
    else
      Owned(g, p) && a < g.owner[p] && forall b | b in g.nodes :: b <= a || g.owner[p] <= b
  }

  ghost predicate Clean(t: Table, g: Plan, s: int)
    requires Sized(t, g) && 0 <= s < |t.data1|
  {
    Owned(g, s) || (t.data1[s] == -1 && t.data2[s] == -1)
  }

  /** All numbers of a list lie closer together than this. */
  ghost function Limit(size: int): int {
    if size < SEQ_NO_TH then size else SEQ_NO_TH
  }

  ghost predicate Headed(t: Table, g: Plan)
    requires |g.owner| > 0
  {
    if g.nodes == map[] then t.head == -1
    else g.first in g.nodes && t.head == At(g, g.first) && forall a | a in g.nodes :: g.first <= a
  }

  /** The table describes the intervals in order; they may still overlap. */
  ghost predicate Wired(t: Table, g: Plan) {
    Sized(t, g) && Headed(t, g) && forall k {:trigger Inside(k)} :: Inside(k) ==> Parts(t, g)
  }

  /** Asserting Opened of some number brings what a list's Valid says into a proof. */
  ghost predicate Opened(k: int) {
    true
  }

  /** Asserting Inside of some number brings the conjuncts of Wired into a proof. */
  ghost predicate Inside(k: int) {
    true
  }

  ghost predicate Parts(t: Table, g: Plan)
    requires Sized(t, g)
  {
    && Filled(g.nodes)
    && Compact(g.nodes, Limit(|g.owner|))
    && (forall a {:trigger Holds(t, g, a)} | a in g.nodes :: Holds(t, g, a))
    && (forall a {:trigger Linked(t, g, a)} | a in g.nodes :: Linked(t, g, a))
    && (forall s {:trigger Clean(t, g, s)} | 0 <= s < |t.data1| :: Clean(t, g, s))
  }

  lemma CloseNodes(t: Table, g: Plan, a: int, c: int)
    requires Wired(t, g) && a in g.nodes && c in g.nodes
    ensures -|g.owner| < a - c < |g.owner|
  {
    assert Inside(0) && Spread(0);
  }

  /** Slots of different nearby numbers differ. */
  lemma Apart(g: Plan, a: int, b: int)
    requires |g.owner| > 0 && -|g.owner| < a - b < |g.owner|
    ensures At(g, a) == At(g, b) <==> a == b
  {
    SlotInjective(a - g.origin, b - g.origin, |g.owner|);
  }

  /** The slot computed from the head is the slot of the number. */
  lemma Located(t: Table, g: Plan, a: int)
    requires Wired(t, g) && g.nodes != map[] && -|g.owner| <= a - g.first
    ensures (t.head + (a - g.first) + |g.owner|) % |g.owner| == At(g, a)
  {
    assert Inside(0);
    SlotFrom(g.first - g.origin, a - g.first, |g.owner|);
    assert a - g.origin == g.first - g.origin + (a - g.first);
  }

  /** The same for an offset that is known not to be negative. */
  lemma LocatedAfter(t: Table, g: Plan, a: int)
    requires Wired(t, g) && g.nodes != map[] && g.first <= a
    ensures (t.head + (a - g.first)) % |g.owner| == At(g, a)
  {
    assert Inside(0);
    SlotFrom(g.first - g.origin, a - g.first, |g.owner|);
    assert a - g.origin == g.first - g.origin + (a - g.first);
  }

  lemma StepSlot(g: Plan, a: int)
    requires |g.owner| > 0
    ensures (At(g, a) + 1) % |g.owner| == At(g, a + 1)
  {
    SlotFrom(a - g.origin, 1, |g.owner|);
    assert a - g.origin + 1 == a + 1 - g.origin;
  }

  ghost predicate Close(g: Plan, a: int) {
    forall b | b in g.nodes :: -|g.owner| < a - b < |g.owner|
  }

  /** A free number has a free slot. */
  lemma FreeSlot(t: Table, g: Plan, a: int)
    requires Wired(t, g) && a !in g.nodes && Close(g, a)
    ensures !Owned(g, At(g, a)) && t.data1[At(g, a)] == -1 && t.data2[At(g, a)] == -1
  {
    assert Inside(0);
    if Owned(g, At(g, a)) {
      Apart(g, a, g.owner[At(g, a)]);
      assert false;
    }
    assert Clean(t, g, At(g, a));
  }

  ghost function EndMark(a: int, b: int): int {
    if a == b then -1 else Wrap(b)
  }

  // The five changes the lists make to a table, and what each makes of the plan.

  /** The first node is unhooked and its slot blanked. */
  ghost function DropHead(t: Table): Table
    requires 0 <= t.head < |t.data1| == |t.data2| == |t.next|
  {
    Table(t.data1[t.head := -1], t.data2[t.head := -1], t.next, t.next[t.head])
  }

  ghost function PlanDropHead(t: Table, g: Plan): Plan
    requires 0 <= t.head < |t.next| == |g.owner|
  {
    var p := t.next[t.head];
    g.(nodes := g.nodes - {g.first}, first := if 0 <= p < |g.owner| then g.owner[p] else g.first)
  }

  lemma DropHeadKeeps(t: Table, g: Plan, b: int)
    requires Sized(t, g) && Headed(t, g) && b in g.nodes && b != g.first
    requires Holds(t, g, b) && Linked(t, g, b) && Linked(t, g, g.first)
    requires -|g.owner| < g.first - b < |g.owner|
    ensures Holds(DropHead(t), PlanDropHead(t, g), b) && Linked(DropHead(t), PlanDropHead(t, g), b)
  {
    Apart(g, g.first, b);
  }

  lemma DropHeadHeaded(t: Table, g: Plan)
    requires Sized(t, g) && Headed(t, g) && g.nodes != map[] && Linked(t, g, g.first)
    ensures Headed(DropHead(t), PlanDropHead(t, g))
  {
    if t.next[t.head] == -1 {
      assert forall b :: b !in PlanDropHead(t, g).nodes;
      assert PlanDropHead(t, g).nodes == map[];
    } else {
      assert g.owner[t.next[t.head]] in PlanDropHead(t, g).nodes;
    }
  }

  lemma DropHeadNodes(t: Table, g: Plan)
    requires Wired(t, g) && g.nodes != map[]
    ensures forall b | b in PlanDropHead(t, g).nodes ::
      Holds(DropHead(t), PlanDropHead(t, g), b) && Linked(DropHead(t), PlanDropHead(t, g), b)
  {
    assert Inside(0);
    var t', g' := DropHead(t), PlanDropHead(t, g);
    assert Linked(t, g, g.first);
    forall b | b in g'.nodes ensures Holds(t', g', b) && Linked(t', g', b) {
      assert Holds(t, g, b) && Linked(t, g, b);
      CloseNodes(t, g, g.first, b);
      DropHeadKeeps(t, g, b);
    }
  }

  lemma DropHeadWired(t: Table, g: Plan)
    requires Wired(t, g) && g.nodes != map[]
    ensures Wired(DropHead(t), PlanDropHead(t, g))
    ensures forall s | Owned(g, s) && s != t.head :: Owned(PlanDropHead(t, g), s)
  {
    assert Inside(0);
    var t', g' := DropHead(t), PlanDropHead(t, g);
    assert Linked(t, g, g.first);
    DropHeadHeaded(t, g);
    DropHeadNodes(t, g);
    forall s | 0 <= s < |t'.data1| ensures Clean(t', g', s) {
      assert Clean(t, g, s);
      assert Owned(g, s) && s != t.head ==> Owned(g', s);
    }
  }

  /** The node after that of a is unhooked and its slot blanked. */
  ghost function DropNext(t: Table, g: Plan, a: int): Table
    requires Sized(t, g)
  {
    var i := t.next[At(g, a)];
    if 0 <= i < |t.next| then
      t.(data1 := t.data1[i := -1], data2 := t.data2[i := -1], next := t.next[At(g, a) := t.next[i]])
    else t
  }

  ghost function PlanDropNext(t: Table, g: Plan, a: int): Plan
    requires Sized(t, g)
  {
    var i := t.next[At(g, a)];
    if 0 <= i < |t.next| then g.(nodes := g.nodes - {g.owner[i]}) else g
  }

  lemma DropNextKeeps(t: Table, g: Plan, a: int, b: int)
    requires Sized(t, g) && a in g.nodes && Linked(t, g, a) && t.next[At(g, a)] != -1
    requires b in g.nodes && b != g.owner[t.next[At(g, a)]]
    requires Holds(t, g, b) && Linked(t, g, b) && Linked(t, g, g.owner[t.next[At(g, a)]])
    requires -|g.owner| < a - b < |g.owner|
    requires -|g.owner| < g.owner[t.next[At(g, a)]] - b < |g.owner|
    ensures Holds(DropNext(t, g, a), PlanDropNext(t, g, a), b)
    ensures Linked(DropNext(t, g, a), PlanDropNext(t, g, a), b)
  {
    Apart(g, a, b);
    Apart(g, g.owner[t.next[At(g, a)]], b);
  }

  lemma DropNextNodes(t: Table, g: Plan, a: int)
    requires Wired(t, g) && a in g.nodes && t.next[At(g, a)] != -1
    ensures
      var t', g' := DropNext(t, g, a), PlanDropNext(t, g, a);
      forall b | b in g'.nodes :: Holds(t', g', b) && Linked(t', g', b)
  {
    assert Inside(0);
    assert Linked(t, g, a);
    assert Linked(t, g, g.owner[t.next[At(g, a)]]);
    var t', g' := DropNext(t, g, a), PlanDropNext(t, g, a);
    forall b | b in g'.nodes ensures Holds(t', g', b) && Linked(t', g', b) {
      assert Holds(t, g, b) && Linked(t, g, b);
      CloseNodes(t, g, a, b);
      CloseNodes(t, g, g.owner[t.next[At(g, a)]], b);
      DropNextKeeps(t, g, a, b);
    }
  }

  lemma DropNextWired(t: Table, g: Plan, a: int)
    requires Wired(t, g) && a in g.nodes && t.next[At(g, a)] != -1
    ensures Wired(DropNext(t, g, a), PlanDropNext(t, g, a))
  {
    assert Inside(0);
    var i := t.next[At(g, a)];
    assert Linked(t, g, a);
    var c, t', g' := g.owner[i], DropNext(t, g, a), PlanDropNext(t, g, a);
    DropNextNodes(t, g, a);
    forall s | 0 <= s < |t'.data1| ensures Clean(t', g', s) {
      assert Clean(t, g, s);
      assert Owned(g, s) && g.owner[s] != c ==> Owned(g', s);
    }
    assert a in g'.nodes && g.first != c;
  }

  /** The node of a gets a new end. */
  ghost function PutEnd(t: Table, g: Plan, a: int, b: int): Table
    requires Sized(t, g)
  {
    t.(data2 := t.data2[At(g, a) := EndMark(a, b)])
  }

  ghost function PlanPutEnd(g: Plan, a: int, b: int): Plan {
    g.(nodes := g.nodes[a := b])
  }

  lemma PutEndKeeps(t: Table, g: Plan, a: int, b: int, c: int)
    requires Sized(t, g) && a in g.nodes && c in g.nodes
    requires Holds(t, g, c) && Linked(t, g, c) && -|g.owner| < a - c < |g.owner|
    ensures Holds(PutEnd(t, g, a, b), PlanPutEnd(g, a, b), c)
    ensures Linked(PutEnd(t, g, a, b), PlanPutEnd(g, a, b), c)
  {
    Apart(g, a, c);
  }

  lemma PutEndWired(t: Table, g: Plan, a: int, b: int)
    requires Wired(t, g) && a in g.nodes && a <= b
    requires Compact(g.nodes[a := b], Limit(|g.owner|))
    ensures Wired(PutEnd(t, g, a, b), PlanPutEnd(g, a, b))
  {
    assert Inside(0);
    var t', g' := PutEnd(t, g, a, b), PlanPutEnd(g, a, b);
    forall c | c in g'.nodes ensures Holds(t', g', c) && Linked(t', g', c) {
      assert Holds(t, g, c) && Linked(t, g, c);
      CloseNodes(t, g, a, c);
      PutEndKeeps(t, g, a, b, c);
    }
    forall s | 0 <= s < |t'.data1| ensures Clean(t', g', s) {
      assert Clean(t, g, s);
      assert Owned(g, s) ==> Owned(g', s);
      assert Holds(t, g, a);
    }
  }

  /** A node for a..b is written at its slot and chained after the node of p. */
  ghost function AddNode(t: Table, g: Plan, p: int, a: int, b: int): Table
    requires Sized(t, g)
  {
    t.(data1 := t.data1[At(g, a) := Wrap(a)],
       data2 := t.data2[At(g, a) := EndMark(a, b)],
       next := t.next[At(g, a) := t.next[At(g, p)]][At(g, p) := At(g, a)])
  }

  ghost function PlanAddNode(g: Plan, a: int, b: int): Plan
    requires |g.owner| > 0
  {
    g.(nodes := g.nodes[a := b], owner := g.owner[At(g, a) := a])
  }

  lemma AddNodeKeeps(t: Table, g: Plan, p: int, a: int, b: int, c: int)
    requires Sized(t, g) && p in g.nodes && p < a && a !in g.nodes && Linked(t, g, p)
    requires forall s | Owned(g, s) :: Owned(PlanAddNode(g, a, b), s) && s != At(g, a)
    requires forall c | c in g.nodes :: c <= p || a < c
    requires c in g.nodes && Holds(t, g, c) && Linked(t, g, c)
    requires -|g.owner| < p - c < |g.owner| && -|g.owner| < a - c < |g.owner|
    ensures Holds(AddNode(t, g, p, a, b), PlanAddNode(g, a, b), c)
    ensures Linked(AddNode(t, g, p, a, b), PlanAddNode(g, a, b), c)
  {
    Apart(g, a, c);
    Apart(g, p, c);
  }

  lemma AddNodeMakes(t: Table, g: Plan, p: int, a: int, b: int)
    requires Sized(t, g) && p in g.nodes && p < a <= b && a !in g.nodes && Linked(t, g, p)
    requires forall s | Owned(g, s) :: Owned(PlanAddNode(g, a, b), s) && s != At(g, a)
    requires forall c | c in g.nodes :: c <= p || a < c
    requires At(g, p) != At(g, a)
    ensures Holds(AddNode(t, g, p, a, b), PlanAddNode(g, a, b), a)
    ensures Linked(AddNode(t, g, p, a, b), PlanAddNode(g, a, b), a)
  {
  }

  lemma AddNodeHeaded(t: Table, g: Plan, p: int, a: int, b: int)
    requires Sized(t, g) && Headed(t, g) && p in g.nodes && p < a <= b && Filled(g.nodes)
    ensures Headed(AddNode(t, g, p, a, b), PlanAddNode(g, a, b)) && Filled(PlanAddNode(g, a, b).nodes)
  {
  }

  lemma AddNodeWired(t: Table, g: Plan, p: int, a: int, b: int)
    requires Wired(t, g) && p in g.nodes && p < a <= b && a !in g.nodes
    requires forall c | c in g.nodes :: c <= p || a < c
    requires Compact(g.nodes[a := b], Limit(|g.owner|))
    ensures Wired(AddNode(t, g, p, a, b), PlanAddNode(g, a, b))
  {
    assert Inside(0);
    var t', g' := AddNode(t, g, p, a, b), PlanAddNode(g, a, b);
    CloseTo(g, a, b);
    assert Linked(t, g, p);
    OwnersKept(t, g, a, b);
    Apart(g, p, a);
    AddNodeMakes(t, g, p, a, b);
    AddNodeHeaded(t, g, p, a, b);
    forall c | c in g'.nodes ensures Holds(t', g', c) && Linked(t', g', c) {
      if c != a {
        assert Holds(t, g, c) && Linked(t, g, c);
        CloseNodes(t, g, p, c);
        AddNodeKeeps(t, g, p, a, b, c);
      }
    }
    CleanAfterAdd(t, g, t', a, b);
  }

  lemma CloseTo(g: Plan, a: int, b: int)
    requires |g.owner| > 0 && a <= b && Filled(g.nodes) && Compact(g.nodes[a := b], Limit(|g.owner|))
    ensures Close(g, a)
  {
    assert Spread(0);
    var after := g.nodes[a := b];
    forall c | c in g.nodes ensures -|g.owner| < a - c < |g.owner| {
      assert c in after && a in after;
    }
  }

  lemma OwnersKept(t: Table, g: Plan, a: int, b: int)
    requires Wired(t, g) && a !in g.nodes && Close(g, a)
    ensures forall s | Owned(g, s) :: Owned(PlanAddNode(g, a, b), s) && s != At(g, a)
  {
    assert Inside(0);
    FreeSlot(t, g, a);
  }

  lemma CleanAfterAdd(t: Table, g: Plan, t': Table, a: int, b: int)
    requires Wired(t, g) && a !in g.nodes && Close(g, a)
    requires Sized(t', g)
    requires t'.data1 == t.data1[At(g, a) := Wrap(a)] && t'.data2 == t.data2[At(g, a) := EndMark(a, b)]
    ensures forall s {:trigger Clean(t', PlanAddNode(g, a, b), s)} | 0 <= s < |t'.data1| ::
              Clean(t', PlanAddNode(g, a, b), s)
  {
    assert Inside(0);
    OwnersKept(t, g, a, b);
    forall s | 0 <= s < |t'.data1| ensures Clean(t', PlanAddNode(g, a, b), s) {
      assert Clean(t, g, s);
    }
  }

  /** A node for a..b becomes the head. */
  ghost function AddHead(t: Table, g: Plan, a: int, b: int): Table
    requires Sized(t, g)
  {
    Table(t.data1[At(g, a) := Wrap(a)], t.data2[At(g, a) := EndMark(a, b)],
          t.next[At(g, a) := t.head], At(g, a))
  }

  lemma AddHeadKeeps(t: Table, g: Plan, a: int, b: int, c: int)
    requires Sized(t, g) && a !in g.nodes && c in g.nodes && a < c
    requires forall s | Owned(g, s) :: Owned(PlanAddNode(g, a, b), s) && s != At(g, a)
    requires Holds(t, g, c) && Linked(t, g, c)
    requires -|g.owner| < a - c < |g.owner|
    ensures Holds(AddHead(t, g, a, b), PlanAddNode(g, a, b).(first := a), c)
    ensures Linked(AddHead(t, g, a, b), PlanAddNode(g, a, b).(first := a), c)
  {
    Apart(g, a, c);
  }

  lemma AddHeadNodes(t: Table, g: Plan, a: int, b: int)
    requires Wired(t, g) && a <= b
    requires forall c | c in g.nodes :: a < c
    requires Compact(g.nodes[a := b], Limit(|g.owner|))
    ensures
      var t', g' := AddHead(t, g, a, b), PlanAddNode(g, a, b).(first := a);
      forall c | c in g'.nodes :: Holds(t', g', c) && Linked(t', g', c)
  {
    assert Inside(0);
    var t', g' := AddHead(t, g, a, b), PlanAddNode(g, a, b).(first := a);
    CloseTo(g, a, b);
    OwnersKept(t, g, a, b);
    forall c | c in g'.nodes ensures Holds(t', g', c) && Linked(t', g', c) {
      if c != a {
        assert Holds(t, g, c) && Linked(t, g, c);
        AddHeadKeeps(t, g, a, b, c);
      } else if g.nodes != map[] {
        assert Holds(t, g, g.first) && Owned(g, t.head);
      }
    }
  }

  lemma AddHeadWired(t: Table, g: Plan, a: int, b: int)
    requires Wired(t, g) && a <= b
    requires forall c | c in g.nodes :: a < c
    requires Compact(g.nodes[a := b], Limit(|g.owner|))
    ensures Wired(AddHead(t, g, a, b), PlanAddNode(g, a, b).(first := a))
  {
    assert Inside(0);
    var t', g' := AddHead(t, g, a, b), PlanAddNode(g, a, b).(first := a);
    CloseTo(g, a, b);
    AddHeadNodes(t, g, a, b);
    CleanAfterAdd(t, g, t', a, b);
    forall s | 0 <= s < |t'.data1| ensures Clean(t', g', s) {
      assert Clean(t', PlanAddNode(g, a, b), s);
    }
  }

  /** The links of blank slots do not matter. */
  lemma NextIrrelevant(t: Table, g: Plan, next: seq<int>)
    requires Wired(t, g) && |next| == |t.next|
    requires forall s | 0 <= s < |next| && Owned(g, s) :: next[s] == t.next[s]
    ensures Wired(t.(next := next), g)
  {
    assert Inside(0);
    var t' := t.(next := next);
    forall a | a in g.nodes ensures Holds(t', g, a) && Linked(t', g, a) {
      assert Holds(t, g, a) && Linked(t, g, a);
      assert Owned(g, At(g, a));
    }
    forall s | 0 <= s < |t.data1| ensures Clean(t', g, s) {
      assert Clean(t, g, s);
    }
  }

  /** Splitting the node of a behind s: the slot for the second part is the one after that of s. */
  lemma SplitWired(t: Table, g: Plan, a: int, s: int)
    requires Wired(t, g) && Disjoint(g.nodes) && a in g.nodes && a <= s < g.nodes[a]
    ensures s + 1 !in g.nodes && t.data1[At(g, s + 1)] == -1 && t.data2[At(g, s + 1)] == -1
    ensures !Owned(g, At(g, s + 1)) && At(g, s + 1) == (At(g, s) + 1) % |g.owner|
    ensures Wired(AddNode(t, g, a, s + 1, g.nodes[a]), PlanAddNode(g, s + 1, g.nodes[a]))
  {
    assert Parted(0);
    assert Inside(0);
    StepSlot(g, s);
    assert Compact(g.nodes[s + 1 := g.nodes[a]], Limit(|g.owner|));
    CloseTo(g, s + 1, g.nodes[a]);
    FreeSlot(t, g, s + 1);
    AddNodeWired(t, g, a, s + 1, g.nodes[a]);
  }

  /** The first number is taken off the first node, which moves one slot on. */
  ghost function ShiftHead(t: Table, g: Plan): Table
    requires Sized(t, g) && 0 <= t.head < |t.data1| && g.first in g.nodes
  {
    var a, b := g.first, g.nodes[g.first];
    var loc := At(g, a + 1);
    Table(t.data1[loc := Wrap(a + 1)][t.head := -1],
          t.data2[loc := EndMark(a + 1, b)][t.head := -1],
          t.next[loc := t.next[t.head]], loc)
  }

  ghost function PlanShiftHead(g: Plan): Plan
    requires |g.owner| > 0 && g.first in g.nodes
  {
    var a := g.first;
    g.(nodes := g.nodes[a + 1 := g.nodes[a]] - {a}, first := a + 1, owner := g.owner[At(g, a + 1) := a + 1])
  }

  lemma ShiftHeadWired(t: Table, g: Plan)
    requires Wired(t, g) && g.nodes != map[] && Disjoint(g.nodes) && g.first < g.nodes[g.first]
    ensures Wired(ShiftHead(t, g), PlanShiftHead(g))
    ensures Disjoint(PlanShiftHead(g).nodes)
    ensures Cover(PlanShiftHead(g).nodes) == Cover(g.nodes) - {g.first}
    ensures g.first in Cover(g.nodes)
    ensures forall s | Owned(g, s) && s != t.head :: Owned(PlanShiftHead(g), s)
    ensures Near(g.first, g.nodes[g.first]) && Near(g.first + 1, g.nodes[g.first])
    ensures t.data1[t.head] == Wrap(g.first) && t.data2[t.head] == Wrap(g.nodes[g.first])
    ensures t.data2[At(g, g.first + 1)] == -1 && t.head != At(g, g.first + 1) == (t.head + 1) % |g.owner|
  {
    assert Inside(0);
    var a, b := g.first, g.nodes[g.first];
    assert Holds(t, g, a);
    NodesNear(t, g, a, a);
    CoverShift(g.nodes, a);
    SplitWired(t, g, a, a);
    var t1, g1 := AddNode(t, g, a, a + 1, b), PlanAddNode(g, a + 1, b);
    DropHeadWired(t1, g1);
    assert PlanDropHead(t1, g1) == PlanShiftHead(g);
    assert Holds(t, g, a) && !Owned(PlanShiftHead(g), t.head);
    NextIrrelevant(DropHead(t1), PlanShiftHead(g), ShiftHead(t, g).next);
    assert ShiftHead(t, g) == DropHead(t1).(next := ShiftHead(t, g).next);
  }

  /** The ends of the intervals are near one another, so wrapped comparison is sound on them. */
  lemma NodesNear(t: Table, g: Plan, a: int, c: int)
    requires Wired(t, g) && a in g.nodes && c in g.nodes
    ensures Filled(g.nodes) && a <= g.nodes[a] && c <= g.nodes[c]
    ensures Near(a, c) && Near(g.nodes[a], c) && Near(g.nodes[a], g.nodes[c]) && Near(a, g.nodes[a])
    ensures Holds(t, g, a) && Linked(t, g, a)
  {
    assert Inside(0) && Spread(0);
  }

  /** Joining the node after that of a to it. */
  lemma MergeWired(t: Table, g: Plan, a: int)
    requires Wired(t, g) && a in g.nodes && t.next[At(g, a)] != -1
    ensures Owned(g, t.next[At(g, a)]) && a < g.owner[t.next[At(g, a)]]
    ensures
      var c := g.owner[t.next[At(g, a)]];
      var b := Max(g.nodes[a], g.nodes[c]);
      var g1 := PlanPutEnd(g, a, b);
      && Wired(DropNext(PutEnd(t, g, a, b), g1, a), PlanDropNext(PutEnd(t, g, a, b), g1, a))
      && PlanDropNext(PutEnd(t, g, a, b), g1, a) == g.(nodes := (g.nodes - {c})[a := b])
  {
    assert Inside(0) && Linked(t, g, a);
    var c := g.owner[t.next[At(g, a)]];
    var b := Max(g.nodes[a], g.nodes[c]);
    var t1, g1 := PutEnd(t, g, a, b), PlanPutEnd(g, a, b);
    PutEndWired(t, g, a, b);
    DropNextWired(t1, g1, a);
    assert g1.nodes - {c} == (g.nodes - {c})[a := b];
  }

  /** The slot computed by the lists holds a's first number exactly when a is a first number. */
  lemma FoundAt(t: Table, g: Plan, a: int)
    requires Wired(t, g) && forall c | c in g.nodes :: Near(a, c)
    ensures t.data1[At(g, a)] == Wrap(a) <==> a in g.nodes
  {
    assert Inside(0) && Clean(t, g, At(g, a));
    if a in g.nodes {
      assert Holds(t, g, a);
    } else if Owned(g, At(g, a)) {
      OtherOwner(t, g, a, g.owner[At(g, a)]);
    } else {
      assert t.data1[At(g, a)] == -1 && IsSeqNo(Wrap(a));
    }
  }

  lemma OtherOwner(t: Table, g: Plan, a: int, c: int)
    requires Wired(t, g) && c in g.nodes && c != a && Near(a, c) && At(g, a) == At(g, c)
    ensures t.data1[At(g, a)] != Wrap(a)
  {
    assert Inside(0) && Holds(t, g, c);
    NearAgrees(a, c);
  }

  lemma FitsNear(t: Table, g: Plan, a: int, b: int)
    requires Wired(t, g) && a <= b && Fits(Cover(g.nodes), a, b, Limit(|g.owner|))
    ensures Filled(g.nodes) && Compact(g.nodes, Limit(|g.owner|)) && Near(a, b)
    ensures forall c | c in g.nodes :: Near(a, c) && Near(b, c) && Near(a, g.nodes[c]) && Near(b, g.nodes[c])
    ensures forall c | c in g.nodes :: -|g.owner| < a - c < |g.owner|
  {
    assert Inside(0);
    forall c | c in g.nodes
      ensures Near(a, c) && Near(b, c) && Near(a, g.nodes[c]) && Near(b, g.nodes[c])
      ensures -|g.owner| < a - c < |g.owner|
    {
      Ends(g.nodes, c);
    }
  }

  /** With no nodes the numbering of the slots can start anew. */
  lemma EmptyRebase(t: Table, g: Plan, a: int)
    requires Wired(t, g) && g.nodes == map[]
    ensures Wired(t, g.(origin := a)) && At(g.(origin := a), a) == 0
  {
    assert Inside(0);
    SlotIsMod(0, |g.owner|);
    DivUnique(0, 0, 0, |g.owner|);
    forall s | 0 <= s < |t.data1| ensures Clean(t, g.(origin := a), s) {
      assert Clean(t, g, s);
    }
  }

  // What an insert makes of the intervals, next to what it makes of the table

  ghost predicate Blank(t: Table, g: Plan, a: int)
    requires Sized(t, g)
  {
    t.data1[At(g, a)] == -1 && t.data2[At(g, a)] == -1
  }

  lemma AddedFirst(t: Table, g: Plan, a: int, b: int)
    requires Wired(t, g) && g.nodes == map[] && a <= b && b - a < Limit(|g.owner|)
    ensures Wired(AddHead(t, g, a, b), PlanAddNode(g, a, b).(first := a)) && Blank(t, g, a)
    ensures Disjoint(g.nodes[a := b])
    ensures Cover(g.nodes[a := b]) == Range(a, b) && |Cover(g.nodes[a := b])| == b - a + 1
  {
    JoinedSize(g.nodes, a, b);
    assert Compact(g.nodes[a := b], Limit(|g.owner|));
    AddHeadWired(t, g, a, b);
    FreeSlot(t, g, a);
  }

  lemma AddedBefore(t: Table, g: Plan, a: int, b: int)
    requires Wired(t, g) && g.nodes != map[] && a < g.first && a <= b && Disjoint(g.nodes)
    requires Fits(Cover(g.nodes), a, b, Limit(|g.owner|))
    ensures Wired(AddHead(t, g, a, b), PlanAddNode(g, a, b).(first := a)) && Blank(t, g, a) && Near(a, b)
    ensures DisjointBut(g.nodes[a := b], a) && (a == b ==> Disjoint(g.nodes[a := b]))
    ensures |Cover(g.nodes[a := b] - {a})| == |Cover(g.nodes)|
    ensures Cover(g.nodes[a := b]) == Cover(g.nodes) + Range(a, b)
  {
    FitsNear(t, g, a, b);
    CompactPut(g.nodes, a, a, b, Limit(|g.owner|));
    AddHeadWired(t, g, a, b);
    FreeSlot(t, g, a);
    AddDisjointBut(g.nodes, a, b);
    CoverPut(g.nodes, a, b);
  }

  lemma AddedAfter(t: Table, g: Plan, p: int, a: int, b: int)
    requires Wired(t, g) && p in g.nodes && g.nodes[p] < a && a <= b && Disjoint(g.nodes)
    requires a !in g.nodes && forall c | c in g.nodes :: c <= p || a <= c
    requires Fits(Cover(g.nodes), a, b, Limit(|g.owner|))
    ensures Wired(AddNode(t, g, p, a, b), PlanAddNode(g, a, b)) && Blank(t, g, a) && Near(a, b)
    ensures At(g, p) != At(g, a)
    ensures DisjointBut(g.nodes[a := b], a) && (a == b ==> Disjoint(g.nodes[a := b]))
    ensures |Cover(g.nodes[a := b] - {a})| == |Cover(g.nodes)|
    ensures Cover(g.nodes[a := b]) == Cover(g.nodes) + Range(a, b)
  {
    assert Parted(0);
    AfterWired(t, g, p, a, b);
    assert Filled(g.nodes) by {
      assert Inside(0);
    }
    AddDisjointBut(g.nodes, a, b);
    CoverPut(g.nodes, a, b);
  }

  lemma AfterWired(t: Table, g: Plan, p: int, a: int, b: int)
    requires Wired(t, g) && p in g.nodes && g.nodes[p] < a && a <= b
    requires a !in g.nodes && forall c | c in g.nodes :: c <= p || a <= c
    requires Fits(Cover(g.nodes), a, b, Limit(|g.owner|))
    ensures Wired(AddNode(t, g, p, a, b), PlanAddNode(g, a, b)) && Blank(t, g, a) && Near(a, b)
    ensures At(g, p) != At(g, a)
  {
    FitsNear(t, g, a, b);
    CompactPut(g.nodes, a, a, b, Limit(|g.owner|));
    assert p <= g.nodes[p];
    AddNodeWired(t, g, p, a, b);
    FreeSlot(t, g, a);
    Apart(g, p, a);
  }

  lemma Lengthened(t: Table, g: Plan, p: int, a: int, b: int)
    requires Wired(t, g) && p in g.nodes && p <= a <= g.nodes[p] < b && Disjoint(g.nodes)
    requires Fits(Cover(g.nodes), a, b, Limit(|g.owner|))
    ensures Wired(PutEnd(t, g, p, b), PlanPutEnd(g, p, b))
    ensures DisjointBut(g.nodes[p := b], p)
    ensures |Cover(g.nodes[p := b] - {p})| == |Cover(g.nodes)| - (g.nodes[p] - p + 1)
    ensures Cover(g.nodes[p := b]) == Cover(g.nodes) + Range(a, b)
  {
    FitsNear(t, g, a, b);
    CompactPut(g.nodes, p, a, b, Limit(|g.owner|));
    PutEndWired(t, g, p, b);
    ExtendDisjointBut(g.nodes, p, b);
    CoverExtend(g.nodes, p, a, b);
  }

  /** The node of p is cut behind s: its second part gets the slot after that of s. */
  ghost function Cut(t: Table, g: Plan, p: int, s: int): Table
    requires Sized(t, g) && p in g.nodes
  {
    PutEnd(AddNode(t, g, p, s + 1, g.nodes[p]), PlanAddNode(g, s + 1, g.nodes[p]), p, s)
  }

  ghost function PlanCut(g: Plan, p: int, s: int): Plan
    requires |g.owner| > 0 && p in g.nodes
  {
    g.(nodes := CutNodes(g.nodes, p, s), owner := g.owner[At(g, s + 1) := s + 1])
  }

  lemma CutWired(t: Table, g: Plan, p: int, s: int)
    requires Wired(t, g) && Disjoint(g.nodes) && p in g.nodes && p <= s < g.nodes[p]
    ensures Wired(Cut(t, g, p, s), PlanCut(g, p, s))
    ensures Disjoint(CutNodes(g.nodes, p, s)) && Cover(CutNodes(g.nodes, p, s)) == Cover(g.nodes)
    ensures forall k | Owned(g, k) :: Owned(PlanCut(g, p, s), k)
    ensures Blank(t, g, s + 1) && At(g, s + 1) == (At(g, s) + 1) % |g.owner| && At(g, s + 1) != At(g, p)
    ensures Owned(PlanCut(g, p, s), At(g, s + 1)) && s + 1 !in g.nodes
    ensures Near(g.nodes[p], s + 1) && t.data2[At(g, p)] == Wrap(g.nodes[p])
  {
    NodesNear(t, g, p, p);
    NearNext(g.nodes[p], p, s);
    SplitWired(t, g, p, s);
    ShortenWired(AddNode(t, g, p, s + 1, g.nodes[p]), PlanAddNode(g, s + 1, g.nodes[p]), p, s);
    CutKeeps(g.nodes, p, s);
    assert Owned(g, At(g, p));
  }

  /** The node of p gets an earlier end. */
  lemma ShortenWired(t: Table, g: Plan, p: int, s: int)
    requires Wired(t, g) && p in g.nodes && p <= s <= g.nodes[p]
    ensures Wired(PutEnd(t, g, p, s), PlanPutEnd(g, p, s))
  {
    assert Compact(g.nodes[p := s], Limit(|g.owner|)) by {
      assert Inside(0) && Spread(0);
    }
    PutEndWired(t, g, p, s);
  }

  lemma NearNext(b: int, a: int, s: int)
    requires Near(a, b) && a <= s < b
    ensures Near(b, s + 1)
  {
  }

  /** The last interval is lengthened by the range that follows it. */
  lemma Continued(t: Table, g: Plan, p: int, a: int, b: int)
    requires Wired(t, g) && p in g.nodes && g.nodes[p] + 1 == a <= b && Disjoint(g.nodes)
    requires forall c | c in g.nodes :: c <= p
    requires Fits(Cover(g.nodes), a, b, Limit(|g.owner|))
    ensures Wired(PutEnd(t, g, p, b), PlanPutEnd(g, p, b)) && Near(a, b)
    ensures Disjoint(g.nodes[p := b])
    ensures |Cover(g.nodes[p := b])| == |Cover(g.nodes)| + b - a + 1
    ensures Cover(g.nodes[p := b]) == Cover(g.nodes) + Range(a, b)
  {
    ContinuedWired(t, g, p, a, b);
    assert Filled(g.nodes) by {
      assert Inside(0);
    }
    ContinueSets(g.nodes, p, b);
  }

  lemma ContinuedWired(t: Table, g: Plan, p: int, a: int, b: int)
    requires Wired(t, g) && p in g.nodes && g.nodes[p] + 1 == a <= b && Fits(Cover(g.nodes), a, b, Limit(|g.owner|))
    ensures Wired(PutEnd(t, g, p, b), PlanPutEnd(g, p, b)) && Near(a, b)
  {
    FitsNear(t, g, a, b);
    CompactPut(g.nodes, p, a, b, Limit(|g.owner|));
    assert p <= g.nodes[p];
    PutEndWired(t, g, p, b);
  }
}
