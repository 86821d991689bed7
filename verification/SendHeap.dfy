/** CSndUList: the sockets that have something to send, as a heap ordered by time. */
module SendHeap {

  // Heaps of keys

  function Parent(i: int): int {
    (i - 1) / 2
  }

  ghost predicate Ordered(k: seq<int>) {
    forall i {:trigger Parent(i)} | 0 < i < |k| :: k[Parent(i)] <= k[i]
  }

  lemma {:induction false} RootIsLeast(k: seq<int>, i: int)
    requires Ordered(k) && 0 <= i < |k|
    ensures k[0] <= k[i]
    decreases i
  {
    if i > 0 {
      RootIsLeast(k, Parent(i));
    }
  }

  function Swapped<T>(s: seq<T>, p: int, q: int): seq<T>
    requires 0 <= p < |s| && 0 <= q < |s|
  {
    s[p := s[q]][q := s[p]]
  }

  /** In order but for the key at q, which may be too small for its parent. */
  ghost predicate Rising(k: seq<int>, q: int) {
    && 0 <= q < |k|
    && (forall i {:trigger Parent(i)} | 0 < i < |k| && i != q :: k[Parent(i)] <= k[i])
    && (forall i {:trigger Parent(i)} | 0 < i < |k| && Parent(i) == q && q > 0 :: k[Parent(q)] <= k[i])
  }

  lemma RiseStep(k: seq<int>, q: int)
    requires Rising(k, q) && q > 0 && k[Parent(q)] > k[q]
    ensures Rising(Swapped(k, Parent(q), q), Parent(q))
  {
    var p := Parent(q);
    var k' := Swapped(k, p, q);
    forall i {:trigger Parent(i)} | 0 < i < |k| && i != p ensures k'[Parent(i)] <= k'[i] {
      assert k[i] == k[i] && k[Parent(i)] == k[Parent(i)];
    }
    forall i {:trigger Parent(i)} | 0 < i < |k| && Parent(i) == p && p > 0 ensures k'[Parent(p)] <= k'[i] {
      assert k[Parent(p)] <= k[p] && (i != q ==> k[p] <= k[i]);
    }
  }

  lemma RiseEnd(k: seq<int>, q: int)
    requires Rising(k, q) && (q > 0 ==> k[Parent(q)] <= k[q])
    ensures Ordered(k)
  {
  }

  /** In order but for the key at q, which may be too large for its children. */
  ghost predicate Sinking(k: seq<int>, q: int) {
    && 0 <= q
    && (forall i {:trigger Parent(i)} | 0 < i < |k| && Parent(i) != q :: k[Parent(i)] <= k[i])
    && (forall i {:trigger Parent(i)} | 0 < i < |k| && Parent(i) == q && 0 < q :: k[Parent(q)] <= k[i])
  }

  /** p is the child of q with the lesser key. */
  ghost predicate LesserChild(k: seq<int>, q: int, p: int) {
    0 <= q < p < |k| && Parent(p) == q && forall i {:trigger Parent(i)} | 0 < i < |k| && Parent(i) == q :: k[p] <= k[i]
  }

  lemma SinkStep(k: seq<int>, q: int, p: int)
    requires Sinking(k, q) && LesserChild(k, q, p) && k[q] > k[p]
    ensures Sinking(Swapped(k, p, q), p)
  {
    var k' := Swapped(k, p, q);
    forall i {:trigger Parent(i)} | 0 < i < |k| && Parent(i) != p ensures k'[Parent(i)] <= k'[i] {
      assert k[i] == k[i];
    }
    forall i {:trigger Parent(i)} | 0 < i < |k| && Parent(i) == p ensures k'[Parent(p)] <= k'[i] {
      assert k[p] <= k[i];
    }
  }

  ghost predicate Settled(k: seq<int>, q: int) {
    0 <= q && (q < |k| ==> forall i {:trigger Parent(i)} | 0 < i < |k| && Parent(i) == q :: k[q] <= k[i])
  }

  lemma SinkEnd(k: seq<int>, q: int)
    requires Sinking(k, q) && Settled(k, q)
    ensures Ordered(k)
  {
  }

  /** The entry at q0 of k0 has sunk to q. */
  ghost predicate Sank(k0: seq<int>, q0: int, k: seq<int>, q: int) {
    && (Sinking(k0, q0) ==> Sinking(k, q))
    && (Settled(k0, q0) ==> k == k0 && q == q0)
    && 0 <= q && |k| == |k0|
  }

  lemma SinkOn(k0: seq<int>, q0: int, k: seq<int>, q: int, p: int)
    requires Sank(k0, q0, k, q) && LesserChild(k, q, p) && k[q] > k[p]
    ensures Sank(k0, q0, Swapped(k, p, q), p)
  {
    if Sinking(k, q) {
      SinkStep(k, q, p);
    }
    assert Parent(p) == q;
    assert !Settled(k, q);
  }

  lemma SinkStops(k: seq<int>, q: int, p: int)
    requires LesserChild(k, q, p) && k[q] <= k[p]
    ensures Settled(k, q)
  {
  }

  /** The keys after the last one has taken the place of the one at q. */
  ghost function Plugged<T>(s: seq<T>, q: int): seq<T>
    requires 0 <= q < |s|
  {
    s[q := s[|s| - 1]][..|s| - 1]
  }

  /** When the key that fills the gap at q is not too small for its new parent. */
  ghost predicate FillsWell(k: seq<int>, q: int) {
    0 <= q < |k| && (q == 0 || q == |k| - 1 || k[Parent(q)] <= k[|k| - 1])
  }

  lemma PluggedSinks(k: seq<int>, q: int)
    requires Ordered(k) && 0 <= q < |k| && FillsWell(k, q)
    ensures Sinking(Plugged(k, q), q)
  {
    var k' := Plugged(k, q);
    forall i {:trigger Parent(i)} | 0 < i < |k'| && Parent(i) != q ensures k'[Parent(i)] <= k'[i] {
      assert k[Parent(i)] <= k[i];
    }
    forall i {:trigger Parent(i)} | 0 < i < |k'| && Parent(i) == q && 0 < q ensures k'[Parent(q)] <= k'[i] {
      assert k[q] <= k[i] && k[Parent(q)] <= k[q];
    }
  }

  /** A key too small for its new parent is too small to sink, and stays out of order. */
  lemma PluggedStays(k: seq<int>, q: int)
    requires Ordered(k) && 0 <= q < |k| && !FillsWell(k, q)
    ensures q < |k| - 1 && !Ordered(Plugged(k, q))
    ensures Settled(Plugged(k, q), q)
  {
    var k' := Plugged(k, q);
    assert k'[Parent(q)] > k'[q];
    forall i {:trigger Parent(i)} | 0 < i < |k'| && Parent(i) == q ensures k'[q] <= k'[i] {
      assert k[q] <= k[i] && k[Parent(q)] <= k[q];
    }
  }

  /** i is j or one of the positions above it. */
  ghost predicate Above(i: int, j: int)
    decreases j
  {
    i == j || (j > 0 && Above(i, Parent(j)))
  }

  lemma {:induction false} AboveParent(i: int, j: int)
    requires Above(i, j) && i > 0 && j >= 0
    ensures Above(Parent(i), j)
    decreases j
  {
    if i != j {
      AboveParent(i, Parent(j));
    } else {
      assert Above(Parent(j), Parent(j));
    }
  }

  lemma {:induction false} PathOrdered(k: seq<int>, i: int, j: int)
    requires Ordered(k) && 0 <= j < |k| && Above(i, j)
    ensures 0 <= i <= j && k[i] <= k[j]
    decreases j
  {
    if i != j {
      PathOrdered(k, i, Parent(j));
    }
  }

  /** k' differs from k, but for new entries, only on the path to the position j. */
  ghost predicate SamePast(k: seq<int>, k': seq<int>, j: int) {
    |k| <= |k'| && forall i {:trigger k[i]} {:trigger Parent(i)} | 0 <= i < |k| && !Above(i, j) :: k'[i] == k[i]
  }

  /** The entry at q0 of k0 has risen to q. */
  ghost predicate Rose(k0: seq<int>, q0: int, k: seq<int>, q: int) {
    && (Rising(k0, q0) ==> Rising(k, q))
    && 0 <= q < |k| == |k0| && Above(q, q0) && SamePast(k0, k, q0)
  }

  lemma RiseOn(k0: seq<int>, q0: int, k: seq<int>, q: int)
    requires Rose(k0, q0, k, q) && q > 0 && q0 >= 0 && k[Parent(q)] > k[q]
    ensures Rose(k0, q0, Swapped(k, Parent(q), q), Parent(q))
  {
    AboveParent(q, q0);
    if Rising(k, q) {
      RiseStep(k, q);
    }
  }

  /** A new last entry that has risen. */
  lemma PutPast(k0: seq<int>, k1: seq<int>, ts: int, k: seq<int>, q: int)
    requires k1 == k0 + [ts] && Rose(k1, |k0|, k, q)
    ensures SamePast(k0, k, |k0|)
  {
    forall i {:trigger k0[i]} {:trigger Parent(i)} | 0 <= i < |k0| && !Above(i, |k0|) ensures k[i] == k0[i] {
      assert k1[i] == k0[i];
    }
  }

  lemma AppendRises(k: seq<int>, ts: int)
    requires Ordered(k)
    ensures Rising(k + [ts], |k|)
  {
    var k' := k + [ts];
    forall i {:trigger Parent(i)} | 0 < i < |k'| && i != |k| ensures k'[Parent(i)] <= k'[i] {
      assert k[Parent(i)] <= k[i];
    }
  }

  /** What rises from the place of the last entry does not repair the order it left. */
  lemma StaysBroken(k: seq<int>, q: int, k': seq<int>)
    requires Ordered(k) && 0 <= q < |k| && !FillsWell(k, q) && SamePast(Plugged(k, q), k', |k| - 1)
    ensures !Ordered(k')
  {
    var last := |k| - 1;
    PluggedStays(k, q);
    if Above(Parent(q), last) {
      PathOrdered(k, Parent(q), last);
      assert false;
    }
    if Above(q, last) {
      AboveParent(q, last);
      assert false;
    }
    var p := Plugged(k, q);
    assert k'[Parent(q)] == p[Parent(q)] == k[Parent(q)] && k'[q] == p[q] == k[last];
  }

  /** For instance: taking 11 out of this heap puts 3 below 10. */
  lemma InteriorRemovalBreaksOrder()
    ensures
      var k := [0, 10, 1, 11, 12, 2, 3];
      Ordered(k) && !FillsWell(k, 3) && !Ordered(Plugged(k, 3))
  {
    var k := [0, 10, 1, 11, 12, 2, 3];
    assert Ordered(k);
    PluggedStays(k, 3);
  }

  class SNode {
    var timeStamp: int
    var heapLoc: int

    constructor ()
      ensures heapLoc == -1
    {
      timeStamp, heapLoc := 0, -1;
    }
  }

  class SndUList {
    var heap: array<SNode?>
    var lastEntry: int
    // The nodes on the heap by position, their keys, and all nodes that may be put on it.
    ghost var nodes: seq<SNode>
    ghost var keys: seq<int>
    ghost const known: set<SNode>

    /** Position i is taken by its node, which knows its place unless it is x. */
    ghost predicate Placed(i: int, x: SNode?)
      requires 0 <= i < |nodes| == |keys| <= heap.Length
      reads this, heap, known
    {
      && nodes[i] in known && heap[i] == nodes[i] && nodes[i].timeStamp == keys[i]
      && (nodes[i] != x ==> nodes[i].heapLoc == i)
    }

    /** A node is off the heap, or stands at the place it knows. */
    ghost predicate Located(n: SNode)
      reads this, n
    {
      n.heapLoc == -1 || (0 <= n.heapLoc < |nodes| && nodes[n.heapLoc] == n)
    }

    /** Well formed, but for the place x knows. */
    ghost predicate Shape(x: SNode?)
      reads this, heap, known
    {
      && |nodes| == |keys| == lastEntry + 1 <= heap.Length && heap.Length > 0
      && (forall i {:trigger nodes[i]} | 0 <= i < |nodes| :: Placed(i, x))
      && (forall i, j {:trigger nodes[i], nodes[j]} | 0 <= i < j < |nodes| :: nodes[i] != nodes[j])
      && (forall n {:trigger n in known} | n in known && n != x :: Located(n))
    }

    ghost predicate Valid()
      reads this, heap, known
    {
      Shape(null)
    }

    constructor (ghost known: set<SNode>)
      requires forall n | n in known :: n.heapLoc == -1
      ensures Valid() && keys == [] && nodes == [] && this.known == known && fresh(heap)
    {
      heap := new SNode?[4096](_ => null);
      lastEntry, nodes, keys := -1, [], [];
      this.known := known;
    }

    /** Moves the node x up from q to p. */
    method SwapUp(p: int, q: int, ghost x: SNode)
      requires Shape(x) && 0 <= p < q < |nodes| && nodes[q] == x
      modifies this`nodes, this`keys, heap, known`heapLoc
      ensures Shape(x) && keys == Swapped(old(keys), p, q) && nodes[p] == x
      ensures forall m :: m in nodes <==> m in old(nodes)
    {
      ghost var ns := nodes;
      assert Placed(p, x) && Placed(q, x);
      var t := heap[p];
      heap[p] := heap[q];
      heap[q] := t;
      t.heapLoc := q;
      Exchange(p, q);
      forall i | 0 <= i < |nodes| ensures Placed(i, x) {
        assert old(Placed(i, x));
      }
      forall n | n in known && n != x ensures Located(n) {
        assert old(Located(n));
      }
    }

    ghost method Exchange(p: int, q: int)
      requires 0 <= p < |nodes| == |keys| && 0 <= q < |nodes|
      modifies this`nodes, this`keys
      ensures nodes == Swapped(old(nodes), p, q) && keys == Swapped(old(keys), p, q)
      ensures forall m :: m in nodes <==> m in old(nodes)
    {
      ghost var ns := nodes;
      nodes, keys := Swapped(nodes, p, q), Swapped(keys, p, q);
      forall m ensures m in nodes <==> m in ns {
        if m in ns {
          var i :| 0 <= i < |ns| && ns[i] == m;
          assert nodes[if i == p then q else if i == q then p else i] == m;
        }
      }
    }

    /** Exchanges two nodes while x is being taken off. */
    method SwapDown(p: int, q: int, ghost x: SNode)
      requires Shape(x) && 0 <= q < p < |nodes| && x !in nodes
      modifies this`nodes, this`keys, heap, known`heapLoc
      ensures Shape(x) && keys == Swapped(old(keys), p, q)
      ensures forall m :: m in nodes <==> m in old(nodes)
    {
      assert Placed(p, x) && Placed(q, x);
      var t := heap[p];
      heap[p] := heap[q];
      heap[p].heapLoc := p;
      heap[q] := t;
      heap[q].heapLoc := q;
      Exchange(p, q);
      forall i | 0 <= i < |nodes| ensures Placed(i, x) {
        assert old(Placed(i, x));
      }
      forall n | n in known && n != x ensures Located(n) {
        assert old(Located(n));
      }
    }

    /** x settles: at its position, or off the heap. */
    method Settle(x: SNode, q: int)
      requires Shape(x) && x in known
      requires if q == -1 then x !in nodes else 0 <= q < |nodes| && nodes[q] == x
      modifies x`heapLoc
      ensures Valid() && x.heapLoc == q
    {
      x.heapLoc := q;
      forall i | 0 <= i < |nodes| ensures Placed(i, null) {
        assert old(Placed(i, x));
      }
      forall m | m in known ensures Located(m) {
        assert m != x ==> old(Located(m));
      }
    }

    /** A new last entry. */
    method Append(ts: int, n: SNode)
      requires Valid() && n in known && n.heapLoc < 0 && lastEntry + 1 < heap.Length
      modifies this`lastEntry, this`nodes, this`keys, heap, n`timeStamp
      ensures Shape(n) && nodes == old(nodes) + [n] && keys == old(keys) + [ts] && n.timeStamp == ts
    {
      assert forall i {:trigger nodes[i]} | 0 <= i < |nodes| :: nodes[i] != n by {
        forall i | 0 <= i < |nodes| ensures nodes[i] != n {
          assert Placed(i, null);
        }
      }
      lastEntry := lastEntry + 1;
      heap[lastEntry] := n;
      n.timeStamp := ts;
      nodes, keys := nodes + [n], keys + [ts];
      forall i | 0 <= i < |nodes| ensures Placed(i, n) {
        assert i < |old(nodes)| ==> old(Placed(i, null));
      }
      forall m | m in known && m != n ensures Located(m) {
        assert old(Located(m));
      }
    }

    /** The node n rises from the position q0 until its parent is not later. */
    method Rise(q0: int, n: SNode) returns (q: int)
      requires Shape(n) && 0 <= q0 < |nodes| && nodes[q0] == n
      modifies this`nodes, this`keys, heap, known`heapLoc
      ensures Shape(n) && 0 <= q < |nodes| && nodes[q] == n && Rose(old(keys), q0, keys, q)
      ensures Rising(old(keys), q0) ==> Ordered(keys)
      ensures forall m :: m in nodes <==> m in old(nodes)
    {
      q := q0;
      var p := q;
      while p != 0
        invariant p == q && 0 <= q < |nodes| && Shape(n) && nodes[q] == n && Rose(old(keys), q0, keys, q)
        invariant forall m :: m in nodes <==> m in old(nodes)
      {
        p := (q - 1) / 2;
        assert Placed(p, n) && Placed(q, n);
        if heap[p].timeStamp > heap[q].timeStamp {
          RiseOn(old(keys), q0, keys, q);
          SwapUp(p, q, n);
          q := p;
        } else {
          break;
        }
      }
      if Rising(keys, q) {
        RiseEnd(keys, q);
      }
    }

    /** insert_: a node that is not on the heap rises to its place. */
    method Put(ts: int, n: SNode)
      requires Valid() && n in known && (n.heapLoc < 0 ==> lastEntry + 1 < heap.Length)
      modifies this`lastEntry, this`nodes, this`keys, heap, n`timeStamp, known`heapLoc
      ensures Valid() && n.heapLoc >= 0
      ensures old(n.heapLoc) >= 0 ==> nodes == old(nodes) && keys == old(keys) && n.timeStamp == old(n.timeStamp)
      ensures old(n.heapLoc) < 0 ==> n.timeStamp == ts && forall m :: m in nodes <==> m in old(nodes) || m == n
      ensures old(Ordered(keys)) ==> Ordered(keys)
      ensures SamePast(old(keys), keys, |old(keys)|)
    {
      if n.heapLoc >= 0 {
        return;
      }
      ghost var k0 := keys;
      Append(ts, n);
      ghost var k1 := keys;
      if Ordered(k0) {
        AppendRises(k0, ts);
      }
      var q := Rise(lastEntry, n);
      Settle(n, q);
      PutPast(k0, k1, ts, keys, q);
    }

    /** insert: the array grows first when it is full. */
    method Insert(ts: int, n: SNode)
      requires Valid() && n in known
      modifies this`heap, this`lastEntry, this`nodes, this`keys, heap, n`timeStamp, known`heapLoc
      ensures Valid() && n.heapLoc >= 0 && (heap == old(heap) || fresh(heap))
      ensures old(n.heapLoc) >= 0 ==> nodes == old(nodes) && keys == old(keys) && n.timeStamp == old(n.timeStamp)
      ensures old(n.heapLoc) < 0 ==> n.timeStamp == ts && forall m :: m in nodes <==> m in old(nodes) || m == n
      ensures old(Ordered(keys)) ==> Ordered(keys)
    {
      if lastEntry == heap.Length - 1 {
        Grow();
      }
      Put(ts, n);
    }

    method Grow()
      requires Valid()
      modifies this`heap
      ensures Valid() && fresh(heap) && heap.Length == 2 * old(heap.Length)
    {
      var temp := new SNode?[heap.Length * 2];
      for i := 0 to heap.Length
        modifies temp
        invariant forall j | 0 <= j < i :: temp[j] == heap[j]
      {
        temp[i] := heap[i];
      }
      heap := temp;
      forall i | 0 <= i < |nodes| ensures Placed(i, null) {
        assert old(Placed(i, null));
      }
      forall n | n in known ensures Located(n) {
        assert old(Located(n));
      }
    }

    /** The last entry takes the place of n. */
    method Plug(n: SNode)
      requires Valid() && n in known && n.heapLoc >= 0
      modifies this`lastEntry, this`nodes, this`keys, heap, known`heapLoc
      ensures 0 <= n.heapLoc == old(n.heapLoc) < |old(nodes)| == |old(keys)|
      ensures Shape(n) && nodes == Plugged(old(nodes), n.heapLoc) && keys == Plugged(old(keys), n.heapLoc)
      ensures forall m :: m in nodes <==> m in old(nodes) && m != n
    {
      ghost var loc, last, ns := n.heapLoc, lastEntry, nodes;
      assert Located(n) && Placed(loc, null) && Placed(last, null);
      heap[n.heapLoc] := heap[lastEntry];
      lastEntry := lastEntry - 1;
      heap[n.heapLoc].heapLoc := n.heapLoc;
      nodes, keys := Plugged(nodes, loc), Plugged(keys, loc);
      PluggedMembers(ns, loc);
      forall i | 0 <= i < |nodes| ensures Placed(i, n) {
        assert old(Placed(i, null));
      }
      forall m | m in known && m != n ensures Located(m) {
        assert old(Located(m));
      }
    }

    lemma PluggedMembers(ns: seq<SNode>, loc: int)
      requires 0 <= loc < |ns| && forall i, j {:trigger ns[i], ns[j]} | 0 <= i < j < |ns| :: ns[i] != ns[j]
      ensures forall m :: m in Plugged(ns, loc) <==> m in ns && m != ns[loc]
    {
      var r := Plugged(ns, loc);
      forall m ensures m in r <==> m in ns && m != ns[loc] {
        if m in ns && m != ns[loc] {
          var i :| 0 <= i < |ns| && ns[i] == m;
          assert r[if i == |ns| - 1 then loc else i] == m;
        }
      }
    }

    /** The child of q whose time is first. */
    method FirstChild(q: int, ghost x: SNode) returns (p: int)
      requires Shape(x) && 0 <= q && q * 2 + 1 <= lastEntry
      ensures LesserChild(keys, q, p)
    {
      p := q * 2 + 1;
      assert Placed(p, x) && (p + 1 <= lastEntry ==> Placed(p + 1, x));
      if p + 1 <= lastEntry && heap[p].timeStamp > heap[p + 1].timeStamp {
        p := p + 1;
      }
    }

    /** The entry at q0 sinks to its place, or stays when it is no larger than its children. */
    method Sink(q0: int, ghost x: SNode)
      requires Shape(x) && x !in nodes && 0 <= q0 <= |nodes|
      modifies this`nodes, this`keys, heap, known`heapLoc
      ensures Shape(x) && |keys| == |old(keys)| && forall m :: m in nodes <==> m in old(nodes)
      ensures Sinking(old(keys), q0) ==> Ordered(keys)
      ensures Settled(old(keys), q0) ==> keys == old(keys)
    {
      var q := q0;
      var p := q * 2 + 1;
      while p <= lastEntry
        invariant p == q * 2 + 1 && Shape(x) && Sank(old(keys), q0, keys, q)
        invariant forall m :: m in nodes <==> m in old(nodes)
      {
        p := FirstChild(q, x);
        assert Placed(p, x) && Placed(q, x);
        if heap[q].timeStamp > heap[p].timeStamp {
          SinkOn(old(keys), q0, keys, q, p);
          SwapDown(p, q, x);
          q := p;
          p := q * 2 + 1;
        } else {
          SinkStops(keys, q, p);
          break;
        }
      }
      assert Settled(keys, q);
      if Sinking(keys, q) {
        SinkEnd(keys, q);
      }
    }

    /**
     remove_: the last entry fills the gap and sinks.  The heap stays in order exactly when
     that entry is not too small for its new parent.
     */
    method Take(n: SNode)
      requires Valid() && n in known
      modifies this`lastEntry, this`nodes, this`keys, heap, known`heapLoc
      ensures Valid() && n.heapLoc == -1
      ensures forall m :: m in nodes <==> m in old(nodes) && m != n
      ensures old(n.heapLoc) < 0 ==> nodes == old(nodes) && keys == old(keys)
      ensures old(n.heapLoc) >= 0 ==> old(n.heapLoc) < |old(keys)| == |keys| + 1
      ensures old(n.heapLoc) >= 0 && old(Ordered(keys)) ==> (Ordered(keys) <==> FillsWell(old(keys), old(n.heapLoc)))
      ensures old(n.heapLoc) >= 0 && old(Ordered(keys)) && !FillsWell(old(keys), old(n.heapLoc)) ==>
        keys == Plugged(old(keys), old(n.heapLoc))
    {
      assert Located(n);
      if n.heapLoc < 0 {
        forall m | m in nodes ensures m != n {
          var i :| 0 <= i < |nodes| && nodes[i] == m;
          assert Placed(i, null);
        }
        return;
      }
      ghost var k0, loc := keys, n.heapLoc;
      Plug(n);
      if Ordered(k0) && FillsWell(k0, loc) {
        PluggedSinks(k0, loc);
      } else if Ordered(k0) {
        PluggedStays(k0, loc);
      }
      Sink(n.heapLoc, n);
      Settle(n, -1);
    }

    /**
     With no key below 1, the heap stays in order exactly when update takes no interior node
     out, or the last entry is not too small for the parent of the one it takes out.
     */
    method Update(n: SNode, reschedule: bool)
      requires Valid() && n in known && (n.heapLoc < 0 ==> lastEntry + 1 < heap.Length)
      modifies this`lastEntry, this`nodes, this`keys, heap, n`timeStamp, known`heapLoc
      ensures Valid() && n in nodes
      ensures forall m :: m in nodes <==> m in old(nodes) || m == n
      ensures old(n.heapLoc) >= 0 && !reschedule ==> nodes == old(nodes) && keys == old(keys)
      ensures old(n.heapLoc) < 0 || reschedule ==> n.timeStamp == 1
      ensures old(Ordered(keys) && forall i | 0 <= i < |keys| :: 1 <= keys[i]) ==>
        (Ordered(keys) <==> old(n.heapLoc) <= 0 || !reschedule || FillsWell(old(keys), old(n.heapLoc)))
    {
      assert Located(n);
      if n.heapLoc >= 0 {
        assert Placed(n.heapLoc, null);
        if !reschedule {
          return;
        }
        if n.heapLoc == 0 {
          Advance(n);
          return;
        }
        Requeue(n);
        return;
      }
      Put(1, n);
      assert Located(n);
    }

    /** An interior node is taken out and inserted anew. */
    method Requeue(n: SNode)
      requires Valid() && n in known && n.heapLoc > 0
      modifies this`lastEntry, this`nodes, this`keys, heap, n`timeStamp, known`heapLoc
      ensures Valid() && n in nodes && n.timeStamp == 1
      ensures forall m :: m in nodes <==> m in old(nodes) || m == n
      ensures old(Ordered(keys)) ==> (Ordered(keys) <==> FillsWell(old(keys), old(n.heapLoc)))
    {
      ghost var k, loc := keys, n.heapLoc;
      assert Located(n);
      Take(n);
      Put(1, n);
      assert Located(n);
      if Ordered(k) && !FillsWell(k, loc) {
        StaysBroken(k, loc, keys);
      }
    }

    /** The first node becomes due at once. */
    method Advance(n: SNode)
      requires Valid() && n in known && n.heapLoc == 0
      modifies this`keys, n`timeStamp
      ensures Valid() && n.timeStamp == 1 && n in nodes
      ensures old(Ordered(keys)) && (forall i | 0 <= i < |old(keys)| :: 1 <= old(keys)[i]) ==> Ordered(keys)
    {
      assert Located(n);
      n.timeStamp := 1;
      keys := keys[0 := 1];
      forall i | 0 <= i < |nodes| ensures Placed(i, null) {
        assert old(Placed(i, null));
      }
      forall m | m in known ensures Located(m) {
        assert old(Located(m));
      }
    }

    /** The time of the first node, or 0 when there is none; no node is due earlier when the heap is in order. */
    method GetNextProcTime() returns (ts: int)
      requires Valid()
      ensures keys == [] ==> ts == 0
      ensures keys != [] && Ordered(keys) ==> ts in keys && forall i | 0 <= i < |keys| :: ts <= keys[i]
    {
      if lastEntry == -1 {
        return 0;
      }
      assert Placed(0, null);
      if Ordered(keys) {
        forall i | 0 <= i < |keys| ensures keys[0] <= keys[i] {
          RootIsLeast(keys, i);
        }
      }
      return heap[0].timeStamp;
    }

    /**
     pop: takes the first node off when its time has come.  What the socket then makes of it
     is a parameter: next is the time it wants to be served again, if that is positive.
     */
    method Pop(now: int, next: int) returns (n: SNode?)
      requires Valid() && lastEntry < heap.Length
      modifies this`lastEntry, this`nodes, this`keys, heap, known`heapLoc, known`timeStamp
      ensures Valid() && (n == null <==> old(keys) == [] || now < old(keys)[0])
      ensures n == null ==> nodes == old(nodes) && keys == old(keys)
      ensures n != null ==> n == old(nodes)[0] && forall m :: m in nodes <==> m in old(nodes) && (m != n || next > 0)
      ensures old(Ordered(keys)) ==> Ordered(keys)
    {
      if lastEntry == -1 {
        return null;
      }
      assert Placed(0, null);
      if now < heap[0].timeStamp {
        return null;
      }
      n := heap[0];
      Take(n);
      if next > 0 {
        Put(next, n);
      }
    }
  }
}
