/**
 Sets of absolute numbers stored as intervals.  A map sends the first number of an
 interval to its last one; both loss lists keep such a map as their ghost state.
 */
module Intervals {

  ghost predicate Between(a: int, x: int, b: int) {
    a <= x <= b
  }

  ghost function Range(a: int, b: int): set<int> {
    set x | a <= x <= b && Between(a, x, b)
  }

  ghost predicate InNode(nodes: map<int, int>, a: int, x: int) {
    a in nodes && a <= x <= nodes[a]
  }

  /** The numbers in the intervals. */
  ghost function Cover(nodes: map<int, int>): set<int> {
    set a, x | a in nodes && a <= x <= nodes[a] && InNode(nodes, a, x) :: x
  }

  /** Intervals are not empty. */
  ghost predicate Filled(nodes: map<int, int>) {
    forall a | a in nodes :: a <= nodes[a]
  }

  ghost predicate Disjoint(nodes: map<int, int>) {
    forall k {:trigger Parted(k)} | Parted(k) :: forall a, b | a in nodes && b in nodes && a < b :: nodes[a] < b
  }

  /** Asserting Parted of some number brings what Disjoint says of all pairs into a proof. */
  ghost predicate Parted(k: int) {
    true
  }

  lemma {:induction false} RangeSize(a: int, b: int)
    requires a <= b + 1
    ensures |Range(a, b)| == b - a + 1
    decreases b - a + 1
  {
    if a <= b {
      assert Range(a, b) == Range(a, b - 1) + {b};
      RangeSize(a, b - 1);
    } else {
      assert Range(a, b) == {};
    }
  }

  lemma InCover(nodes: map<int, int>, x: int)
    ensures x in Cover(nodes) <==> exists a :: InNode(nodes, a, x)
  {
  }

  /** Writing an interval at a free first number, or lengthening one, adds its numbers. */
  lemma CoverPut(nodes: map<int, int>, a: int, b: int)
    requires a in nodes ==> nodes[a] <= b
    ensures Cover(nodes[a := b]) == Cover(nodes) + Range(a, b)
  {
    var after := nodes[a := b];
    forall x ensures x in Cover(after) <==> x in Cover(nodes) + Range(a, b) {
      InCover(nodes, x);
      InCover(after, x);
      if n :| InNode(nodes, n, x) {
        assert InNode(after, n, x);
      }
      if x in Range(a, b) {
        assert InNode(after, a, x);
      }
      if n :| InNode(after, n, x) {
        assert n == a || InNode(nodes, n, x);
      }
    }
  }

  lemma CoverDrop(nodes: map<int, int>, a: int)
    requires Disjoint(nodes) && a in nodes
    ensures Cover(nodes - {a}) == Cover(nodes) - Range(a, nodes[a])
    ensures Range(a, nodes[a]) <= Cover(nodes)
  {
    assert Parted(0);
    var after := nodes - {a};
    forall x ensures x in Cover(after) <==> x in Cover(nodes) - Range(a, nodes[a]) {
      InCover(nodes, x);
      InCover(after, x);
      if n :| InNode(nodes, n, x) {
        assert n == a || InNode(after, n, x);
      }
      if n :| InNode(after, n, x) {
        assert InNode(nodes, n, x);
      }
    }
    forall x | x in Range(a, nodes[a]) ensures x in Cover(nodes) {
      InCover(nodes, x);
      assert InNode(nodes, a, x);
    }
  }

  lemma DisjointDrop(nodes: map<int, int>, a: int)
    requires Disjoint(nodes)
    ensures Disjoint(nodes - {a})
  {
  }

  lemma CoverEmpty(nodes: map<int, int>)
    requires Filled(nodes)
    ensures Cover(nodes) == {} <==> nodes == map[]
  {
    if a :| a in nodes {
      Ends(nodes, a);
    } else {
      assert forall a :: a !in nodes;
      assert nodes == map[];
    }
  }

  lemma Ends(nodes: map<int, int>, a: int)
    requires Filled(nodes) && a in nodes
    ensures a in Cover(nodes) && nodes[a] in Cover(nodes)
  {
    InCover(nodes, a);
    InCover(nodes, nodes[a]);
    assert InNode(nodes, a, a) && InNode(nodes, a, nodes[a]);
  }

  /** Taking the first number off an interval. */
  lemma CoverShift(nodes: map<int, int>, a: int)
    requires Disjoint(nodes) && a in nodes && a < nodes[a]
    ensures Cover(nodes[a + 1 := nodes[a]] - {a}) == Cover(nodes) - {a}
    ensures a in Cover(nodes)
  {
    assert Parted(0);
    assert a + 1 !in nodes;
    TakeFirst(Cover(nodes), a, nodes[a]) by {
      CoverDrop(nodes, a);
    }
    CoverMove(nodes, a, nodes[a]);
  }

  lemma CoverMove(nodes: map<int, int>, a: int, b: int)
    requires Disjoint(nodes) && a in nodes && a + 1 !in nodes && b == nodes[a]
    ensures Cover(nodes[a + 1 := b] - {a}) == Cover(nodes) - Range(a, b) + Range(a + 1, b)
  {
    CoverDrop(nodes, a);
    CoverPut(nodes - {a}, a + 1, b);
    assert nodes[a + 1 := b] - {a} == (nodes - {a})[a + 1 := b];
  }

  lemma TakeFirst(s: set<int>, a: int, b: int)
    requires a <= b && Range(a, b) <= s
    ensures s - Range(a, b) + Range(a + 1, b) == s - {a}
    ensures a in s
  {
    assert a in Range(a, b);
  }

  lemma LeastCovered(nodes: map<int, int>, a: int)
    requires Filled(nodes) && a in nodes && forall b | b in nodes :: a <= b
    ensures a in Cover(nodes) && forall x | x in Cover(nodes) :: a <= x
  {
    Ends(nodes, a);
    forall x | x in Cover(nodes) ensures a <= x {
      InCover(nodes, x);
    }
  }

  /** Dropping an interval takes its size off the size of the set. */
  lemma CoverDropSize(nodes: map<int, int>, a: int)
    requires Disjoint(nodes) && a in nodes && a <= nodes[a]
    ensures |Cover(nodes - {a})| == |Cover(nodes)| - (nodes[a] - a + 1)
  {
    CoverDrop(nodes, a);
    RangeSize(a, nodes[a]);
  }

  ghost function Max(a: int, b: int): int {
    if a < b then b else a
  }

  /** Intervals other than that of a are disjoint, and those before a end before it. */
  ghost predicate DisjointBut(nodes: map<int, int>, a: int) {
    && Disjoint(nodes - {a})
    && forall b | b in nodes && b < a :: nodes[b] < a
  }

  /** The numbers of two touching intervals, written as one. */
  lemma CoverMerge(nodes: map<int, int>, a: int, c: int)
    requires Filled(nodes) && a in nodes && c in nodes && a < c <= nodes[a] + 1
    ensures Cover((nodes - {c})[a := Max(nodes[a], nodes[c])]) == Cover(nodes)
  {
    var after := (nodes - {c})[a := Max(nodes[a], nodes[c])];
    forall x ensures x in Cover(after) <==> x in Cover(nodes) {
      InCover(nodes, x);
      InCover(after, x);
      if n :| InNode(nodes, n, x) {
        assert InNode(after, if n == c then a else n, x);
      }
      if n :| InNode(after, n, x) {
        assert InNode(nodes, n, x) || InNode(nodes, a, x) || InNode(nodes, c, x);
      }
    }
  }

  lemma MergeDisjoint(nodes: map<int, int>, a: int, c: int, b: int)
    requires Filled(nodes) && a in nodes && c in nodes && a < c && DisjointBut(nodes, a)
    ensures DisjointBut((nodes - {c})[a := b], a)
    ensures |Cover((nodes - {c})[a := b] - {a})| == |Cover(nodes - {a})| - (nodes[c] - c + 1)
  {
    var rest, after := nodes - {a}, (nodes - {c})[a := b];
    assert after - {a} == rest - {c};
    DisjointDrop(rest, c);
    CoverDropSize(rest, c);
  }

  /** All numbers of the intervals lie closer together than limit. */
  ghost predicate Compact(nodes: map<int, int>, limit: int) {
    forall k {:trigger Spread(k)} | Spread(k) :: forall a, b | a in nodes && b in nodes :: nodes[b] - a < limit
  }

  /** Asserting Spread of some number brings what Compact says of all pairs into a proof. */
  ghost predicate Spread(k: int) {
    true
  }

  /** a..b can join a set without spreading it to limit or more. */
  ghost predicate Fits(s: set<int>, a: int, b: int, limit: int) {
    b - a < limit && forall x | x in s :: b - x < limit && x - a < limit
  }

  lemma CompactPut(nodes: map<int, int>, p: int, a: int, b: int, limit: int)
    requires Filled(nodes) && Compact(nodes, limit) && Fits(Cover(nodes), a, b, limit)
    requires p == a || p in nodes
    ensures Compact(nodes[p := b], limit)
  {
    assert Spread(0);
    var after := nodes[p := b];
    forall c, d | c in after && d in after ensures after[d] - c < limit {
      if c in nodes {
        Ends(nodes, c);
      }
      if d in nodes {
        Ends(nodes, d);
      }
    }
  }

  /** Lengthening the interval that already holds a, up to b. */
  lemma CoverExtend(nodes: map<int, int>, p: int, a: int, b: int)
    requires p in nodes && p <= a <= nodes[p] <= b
    ensures Cover(nodes[p := b]) == Cover(nodes) + Range(a, b)
  {
    CoverPut(nodes, p, b);
    forall x | x in Range(p, b) ensures x in Cover(nodes) + Range(a, b) {
      if x < a {
        InCover(nodes, x);
        assert InNode(nodes, p, x);
      }
    }
    assert Range(a, b) <= Range(p, b);
  }

  lemma CoverHas(nodes: map<int, int>, p: int, a: int, b: int)
    requires p in nodes && p <= a && b <= nodes[p]
    ensures Cover(nodes) + Range(a, b) == Cover(nodes)
  {
    forall x | x in Range(a, b) ensures x in Cover(nodes) {
      InCover(nodes, x);
      assert InNode(nodes, p, x);
    }
  }

  /** Lengthening leaves only the lengthened interval out of place. */
  lemma ExtendDisjointBut(nodes: map<int, int>, p: int, b: int)
    requires Filled(nodes) && Disjoint(nodes) && p in nodes
    ensures DisjointBut(nodes[p := b], p)
    ensures |Cover(nodes[p := b] - {p})| == |Cover(nodes)| - (nodes[p] - p + 1)
  {
    assert Parted(0);
    DisjointDrop(nodes, p);
    CoverDropSize(nodes, p);
    assert nodes[p := b] - {p} == nodes - {p};
  }

  lemma AddDisjointBut(nodes: map<int, int>, a: int, b: int)
    requires Disjoint(nodes) && a !in nodes && forall c | c in nodes && c < a :: nodes[c] < a
    ensures DisjointBut(nodes[a := b], a)
    ensures |Cover(nodes[a := b] - {a})| == |Cover(nodes)|
  {
    assert nodes[a := b] - {a} == nodes;
  }

  lemma Settle(nodes: map<int, int>, a: int)
    requires Filled(nodes) && a in nodes && DisjointBut(nodes, a)
    requires forall b | b in nodes && a < b :: nodes[a] < b
    ensures Disjoint(nodes)
    ensures |Cover(nodes)| == |Cover(nodes - {a})| + nodes[a] - a + 1
  {
    assert Parted(0);
    forall b, c | b in nodes && c in nodes && b < c ensures nodes[b] < c {
      if b != a && c != a {
        assert b in nodes - {a} && c in nodes - {a};
      }
    }
    CoverDropSize(nodes, a);
  }

  lemma JoinedSize(nodes: map<int, int>, a: int, b: int)
    requires nodes == map[] && a <= b
    ensures Cover(nodes[a := b]) == Range(a, b) && |Cover(nodes[a := b])| == b - a + 1
  {
    CoverPut(nodes, a, b);
    assert Cover(nodes) == {};
    RangeSize(a, b);
  }

  ghost function Above(s: set<int>, n: int): set<int> {
    set x | x in s && x > n
  }

  lemma AboveDrop(s: set<int>, a: int, b: int, n: int)
    requires b <= n
    ensures Above(s - Range(a, b), n) == Above(s, n)
  {
  }

  ghost function CutNodes(nodes: map<int, int>, p: int, s: int): map<int, int>
    requires p in nodes
  {
    nodes[s + 1 := nodes[p]][p := s]
  }

  /** Cutting an interval in two keeps the set. */
  lemma CutKeeps(nodes: map<int, int>, p: int, s: int)
    requires Filled(nodes) && Disjoint(nodes) && p in nodes && p <= s < nodes[p]
    ensures Filled(CutNodes(nodes, p, s)) && Disjoint(CutNodes(nodes, p, s))
    ensures Cover(CutNodes(nodes, p, s)) == Cover(nodes)
  {
    assert Parted(0);
    var after := CutNodes(nodes, p, s);
    forall x ensures x in Cover(after) <==> x in Cover(nodes) {
      InCover(nodes, x);
      InCover(after, x);
      if n :| InNode(nodes, n, x) {
        assert InNode(after, if n == p && x > s then s + 1 else n, x);
      }
      if n :| InNode(after, n, x) {
        assert InNode(nodes, if n == s + 1 then p else n, x);
      }
    }
  }

  /** Dropping an interval that ends by n does not touch the numbers above n. */
  lemma DroppedBelow(nodes: map<int, int>, a: int, n: int)
    requires Filled(nodes) && Disjoint(nodes) && a in nodes && nodes[a] <= n
    ensures Disjoint(nodes - {a})
    ensures |Cover(nodes - {a})| == |Cover(nodes)| - (nodes[a] - a + 1)
    ensures Above(Cover(nodes - {a}), n) == Above(Cover(nodes), n)
  {
    DisjointDrop(nodes, a);
    CoverDrop(nodes, a);
    CoverDropSize(nodes, a);
    AboveDrop(Cover(nodes), a, nodes[a], n);
  }

  lemma AllAbove(nodes: map<int, int>, n: int)
    requires forall c | c in nodes :: n < c
    ensures Above(Cover(nodes), n) == Cover(nodes)
  {
    forall x | x in Cover(nodes) ensures x > n {
      InCover(nodes, x);
    }
  }

  lemma Smaller(nodes: map<int, int>, a: int)
    requires a in nodes
    ensures |nodes - {a}| == |nodes| - 1
  {
    assert (nodes - {a}).Keys == nodes.Keys - {a};
    assert |nodes.Keys| == |nodes| && |(nodes - {a}).Keys| == |nodes - {a}|;
  }

  lemma CoverContinue(nodes: map<int, int>, p: int, b: int)
    requires p in nodes && p <= nodes[p] < b
    ensures Cover(nodes[p := b]) == Cover(nodes) + Range(nodes[p] + 1, b)
  {
    CoverPut(nodes, p, b);
    forall x | x in Range(p, b) ensures x in Cover(nodes) + Range(nodes[p] + 1, b) {
      if x <= nodes[p] {
        InCover(nodes, x);
        assert InNode(nodes, p, x);
      }
    }
    assert Range(nodes[p] + 1, b) <= Range(p, b);
  }

  /** Lengthening the last interval. */
  lemma ContinueSets(nodes: map<int, int>, p: int, b: int)
    requires Filled(nodes) && Disjoint(nodes) && p in nodes && nodes[p] < b && forall c | c in nodes :: c <= p
    ensures Disjoint(nodes[p := b])
    ensures |Cover(nodes[p := b])| == |Cover(nodes)| + b - nodes[p]
    ensures Cover(nodes[p := b]) == Cover(nodes) + Range(nodes[p] + 1, b)
  {
    ExtendDisjointBut(nodes, p, b);
    Settle(nodes[p := b], p);
    CoverContinue(nodes, p, b);
  }

  /** A new interval behind all others. */
  lemma AppendSets(nodes: map<int, int>, a: int, b: int)
    requires Filled(nodes) && Disjoint(nodes) && a <= b && forall c | c in nodes :: nodes[c] < a
    ensures Disjoint(nodes[a := b])
    ensures |Cover(nodes[a := b])| == |Cover(nodes)| + b - a + 1
    ensures Cover(nodes[a := b]) == Cover(nodes) + Range(a, b)
  {
    assert a !in nodes;
    AddDisjointBut(nodes, a, b);
    Settle(nodes[a := b], a);
    CoverPut(nodes, a, b);
  }

  /** Taking one number out of an interval, at its end or from its inside. */
  ghost function WithoutNodes(nodes: map<int, int>, p: int, s: int): map<int, int>
    requires p in nodes
  {
    (if s < nodes[p] then nodes[s + 1 := nodes[p]] else nodes)[p := s - 1]
  }

  lemma WithoutDisjoint(nodes: map<int, int>, p: int, s: int)
    requires Filled(nodes) && Disjoint(nodes) && p in nodes && p < s <= nodes[p]
    ensures Disjoint(WithoutNodes(nodes, p, s)) && Filled(WithoutNodes(nodes, p, s))
    ensures s < nodes[p] ==> s + 1 !in nodes
    ensures forall n, x | InNode(nodes, n, x) && n != p :: x != s
  {
    assert Parted(0);
  }

  lemma WithoutSets(nodes: map<int, int>, p: int, s: int)
    requires Filled(nodes) && Disjoint(nodes) && p in nodes && p < s <= nodes[p]
    ensures Disjoint(WithoutNodes(nodes, p, s)) && Filled(WithoutNodes(nodes, p, s))
    ensures s in Cover(nodes) && Cover(WithoutNodes(nodes, p, s)) == Cover(nodes) - {s}
  {
    WithoutDisjoint(nodes, p, s);
    var after := WithoutNodes(nodes, p, s);
    forall x ensures x in Cover(after) <==> x in Cover(nodes) - {s} {
      InCover(nodes, x);
      InCover(after, x);
      if n :| InNode(nodes, n, x) {
        assert x == s || InNode(after, if n == p && x > s then s + 1 else n, x);
      }
      if n :| InNode(after, n, x) {
        assert InNode(nodes, if n == s + 1 && s < nodes[p] then p else n, x);
      }
    }
    InCover(nodes, s);
    assert InNode(nodes, p, s);
  }

  lemma NotCovered(nodes: map<int, int>, p: int, s: int)
    requires Filled(nodes) && Disjoint(nodes) && p in nodes && nodes[p] < s
    requires forall c | c in nodes :: c <= p || s < c
    ensures s !in Cover(nodes)
  {
    assert Parted(0);
    InCover(nodes, s);
  }

  lemma ShiftDisjoint(nodes: map<int, int>, a: int)
    requires Disjoint(nodes) && a in nodes && a < nodes[a]
    ensures Disjoint(nodes[a + 1 := nodes[a]] - {a})
  {
  }

  ghost function Min(a: int, b: int): int {
    if a < b then a else b
  }

  lemma LeastExists(s: set<int>)
    ensures s == {} || exists n :: n in s && forall x | x in s :: n <= x
  {
    if x :| x in s {
      var rest := s - {x};
      if rest == {} {
        assert s == {x};
      } else {
        LeastExists(rest);
        var n :| n in rest && forall y | y in rest :: n <= y;
        var m := if n < x then n else x;
        forall y | y in s ensures m <= y {
          assert y == x || y in rest;
        }
        assert m in s;
      }
    } else {
      assert forall x :: x !in s;
      assert s == {};
    }
  }

  ghost function Least(s: set<int>): (n: int)
    requires s != {}
    ensures n in s && forall x | x in s :: n <= x
  {
    LeastExists(s);
    var n :| n in s && forall x | x in s :: n <= x;
    n
  }
}
