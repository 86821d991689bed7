/** CRcvUList: the sockets that receive, in the order of their last timer check. */
module ReceiveTimers {

  class RNode {
    var timeStamp: int
    var prev: RNode?
    var next: RNode?
    var onList: bool

    constructor ()
      ensures prev == null && next == null && !onList
    {
      timeStamp, prev, next, onList := 0, null, null, false;
    }
  }

  /** Time never runs backwards. */
  class Clock {
    var time: int

    method Read() returns (t: int)
      modifies this
      ensures t == time >= old(time)
    {
      t :| t >= time;
      time := t;
    }
  }

  ghost predicate Sorted(s: seq<int>) {
    forall i, j | 0 <= i < j < |s| :: s[i] <= s[j]
  }

  ghost function Without<T>(s: seq<T>, k: int): seq<T>
    requires 0 <= k < |s|
  {
    s[..k] + s[k + 1..]
  }

  /** Moving a time to the end, when it has become the latest, keeps the order. */
  lemma MovedLast(ts: seq<int>, k: int, t: int)
    requires 0 <= k < |ts|
    ensures
      var s := Without(ts, k) + [t];
      Sorted(ts) && (forall i | 0 <= i < |ts| :: ts[i] <= t) ==> Sorted(s) && forall i | 0 <= i < |s| :: s[i] <= t
  {
  }

  class RcvUList {
    var first: RNode?
    var last: RNode?
    // The nodes from the first to the last, and their times.
    ghost var nodes: seq<RNode>
    ghost var times: seq<int>

    ghost predicate Linked(i: int)
      requires 0 <= i < |nodes| == |times|
      reads this, nodes
    {
      && nodes[i].timeStamp == times[i] && nodes[i].onList
      && nodes[i].prev == (if i == 0 then null else nodes[i - 1])
      && nodes[i].next == (if i + 1 == |nodes| then null else nodes[i + 1])
    }

    ghost predicate Valid()
      reads this, nodes
    {
      && |nodes| == |times|
      && (if nodes == [] then first == null && last == null else first == nodes[0] && last == nodes[|nodes| - 1])
      && (forall i {:trigger Linked(i)} | 0 <= i < |nodes| :: Linked(i))
      && (forall i, j {:trigger nodes[i], nodes[j]} | 0 <= i < j < |nodes| :: nodes[i] != nodes[j])
    }

    /** In order of time, none later than now. */
    ghost predicate InTime(now: int)
      reads this
    {
      Sorted(times) && forall i | 0 <= i < |times| :: times[i] <= now
    }

    constructor ()
      ensures Valid() && nodes == [] && times == []
    {
      first, last, nodes, times := null, null, [], [];
    }

    /** Links a node in behind the last one. */
    method LinkLast(n: RNode)
      requires Valid() && n !in nodes && n.onList
      modifies this, n`prev, n`next, nodes`next
      ensures Valid() && nodes == old(nodes) + [n] && times == old(times) + [n.timeStamp]
    {
      if first == null {
        n.prev := null;
        n.next := null;
        last := n;
        first := n;
      } else {
        n.prev := last;
        n.next := null;
        assert last in nodes;
        last.next := n;
        last := n;
      }
      ghost var ns := nodes;
      nodes, times := nodes + [n], times + [n.timeStamp];
      forall i | 0 <= i < |nodes| ensures Linked(i) {
        assert i < |ns| ==> old(Linked(i)) && ns[i] in ns;
      }
    }

    /** Unlinks the node at place k. */
    method Unlink(n: RNode, ghost k: int)
      requires Valid() && 0 <= k < |nodes| && nodes[k] == n
      modifies this, nodes`prev, nodes`next
      ensures Valid() && nodes == Without(old(nodes), k) && times == Without(old(times), k)
      ensures n !in nodes && forall m :: m in nodes <==> m in old(nodes) && m != n
    {
      assert Linked(k);
      WithoutMembers(nodes, k);
      if n.prev == null {
        UnlinkFirst(n);
      } else {
        UnlinkLater(n, k);
      }
    }

    method UnlinkFirst(n: RNode)
      requires Valid() && |nodes| > 0 && nodes[0] == n
      modifies this, nodes`prev
      ensures Valid() && nodes == Without(old(nodes), 0) && times == Without(old(times), 0)
    {
      assert Linked(0) && (1 < |nodes| ==> nodes[1] in nodes);
      first := n.next;
      if first == null {
        last := null;
      } else {
        first.prev := null;
      }
      nodes, times := Without(nodes, 0), Without(times, 0);
      forall i | 0 <= i < |nodes| ensures Linked(i) {
        assert old(Linked(i + 1));
      }
    }

    method UnlinkLater(n: RNode, ghost k: int)
      requires Valid() && 0 < k < |nodes| && nodes[k] == n
      modifies this, nodes`prev, nodes`next
      ensures Valid() && nodes == Without(old(nodes), k) && times == Without(old(times), k)
    {
      assert Linked(k) && nodes[k - 1] in nodes && (k + 1 < |nodes| ==> nodes[k + 1] in nodes);
      n.prev.next := n.next;
      if n.next == null {
        last := n.prev;
      } else {
        n.next.prev := n.prev;
      }
      nodes, times := Without(nodes, k), Without(times, k);
      forall i | 0 <= i < |nodes| ensures Linked(i) {
        assert old(Linked(if i < k then i else i + 1));
      }
    }

    lemma WithoutMembers(ns: seq<RNode>, k: int)
      requires 0 <= k < |ns| && forall i, j {:trigger ns[i], ns[j]} | 0 <= i < j < |ns| :: ns[i] != ns[j]
      ensures forall m :: m in Without(ns, k) <==> m in ns && m != ns[k]
    {
      var r := Without(ns, k);
      forall m ensures m in r <==> m in ns && m != ns[k] {
        if m in ns && m != ns[k] {
          var i :| 0 <= i < |ns| && ns[i] == m;
          assert r[if i < k then i else i - 1] == m;
        }
      }
    }

    /** Puts a new socket on the list. */
    method Insert(n: RNode, clock: Clock)
      requires Valid() && n !in nodes && n.onList
      modifies this, n`prev, n`next, n`timeStamp, nodes`next, clock
      ensures Valid() && nodes == old(nodes) + [n] && n.timeStamp == clock.time >= old(clock.time)
      ensures old(InTime(clock.time)) ==> InTime(clock.time)
    {
      var t := clock.Read();
      n.timeStamp := t;
      Retimed(n);
      LinkLast(n);
    }

    twostate lemma Retimed(n: RNode)
      requires old(Valid()) && n !in nodes && unchanged(this) && unchanged(nodes)
      ensures Valid()
    {
      forall i | 0 <= i < |nodes| ensures Linked(i) {
        assert old(Linked(i));
      }
    }

    /** Takes a socket off the list. */
    method Remove(n: RNode, ghost k: int)
      requires Valid() && (n.onList ==> 0 <= k < |nodes| && nodes[k] == n)
      modifies this, nodes`prev, nodes`next
      ensures Valid() && (!n.onList ==> nodes == old(nodes) && times == old(times))
      ensures n.onList ==> nodes == Without(old(nodes), k) && times == Without(old(times), k) && n !in nodes
      ensures forall now | old(InTime(now)) :: InTime(now)
    {
      if !n.onList {
        return;
      }
      assert n in nodes;
      Unlink(n, k);
      n.next := null;
      n.prev := null;
    }

    /** Sets the time of the node at place k. */
    method Touch(n: RNode, t: int, ghost k: int)
      requires Valid() && 0 <= k < |nodes| && nodes[k] == n
      modifies this`times, n`timeStamp
      ensures Valid() && times == old(times)[k := t] && n.timeStamp == t
    {
      n.timeStamp := t;
      times := times[k := t];
      forall i | 0 <= i < |nodes| ensures Linked(i) {
        assert old(Linked(i));
      }
    }

    /** A socket that was just checked goes to the end. */
    method Update(n: RNode, clock: Clock, ghost k: int)
      requires Valid() && (n.onList ==> 0 <= k < |nodes| && nodes[k] == n)
      modifies this, nodes`prev, nodes`next, n`timeStamp, clock
      ensures Valid() && clock.time >= old(clock.time)
      ensures !n.onList ==> nodes == old(nodes) && times == old(times) && n.timeStamp == old(n.timeStamp)
      ensures n.onList ==> nodes == Without(old(nodes), k) + [n] && times == Without(old(times), k) + [clock.time]
      ensures n.onList ==> n.timeStamp == clock.time
      ensures old(InTime(clock.time)) ==> InTime(clock.time)
    {
      if !n.onList {
        return;
      }
      assert n in nodes;
      var t := clock.Read();
      MovedLast(times, k, t);
      Touch(n, t, k);
      assert Linked(k);
      if n.next == null {
        return;
      }
      Unlink(n, k);
      LinkLast(n);
    }
  }

  /** How many times lie before c. */
  ghost function Stale(s: seq<int>, c: int): nat {
    if s == [] then 0 else (if s[0] < c then 1 else 0) + Stale(s[1..], c)
  }

  lemma {:induction false} StaleAppend(s: seq<int>, t: int, c: int)
    requires t >= c
    ensures Stale(s + [t], c) == Stale(s, c)
  {
    if s == [] {
      assert [t][1..] == [];
    } else {
      assert (s + [t])[1..] == s[1..] + [t];
      StaleAppend(s[1..], t, c);
    }
  }

  /** What the sweep does with a socket whose time was t0. */
  ghost predicate Swept(list: RcvUList, n: RNode, t0: int, limit: int, alive: set<RNode>)
    reads list, n
  {
    if t0 >= limit then n in list.nodes && n.timeStamp == t0
    else if n in alive then n in list.nodes && n.timeStamp >= limit
    else n !in list.nodes && !n.onList
  }

  ghost predicate Untouched(list: RcvUList, n: RNode, t0: int)
    reads list, n
  {
    n in list.nodes && n.timeStamp == t0
  }

  /** The first socket is stale: it is checked and moves to the end, or it is dropped. */
  method SweepOne(list: RcvUList, limit: int, alive: set<RNode>, clock: Clock)
    requires list.Valid() && list.InTime(clock.time) && list.nodes != [] && list.times[0] < limit <= clock.time
    modifies list, list.nodes, clock
    ensures list.Valid() && list.InTime(clock.time) && clock.time >= old(clock.time)
    ensures Stale(list.times, limit) < old(Stale(list.times, limit))
    ensures Swept(list, old(list.nodes)[0], old(list.times)[0], limit, alive)
    ensures forall n | n in old(list.nodes) && n != old(list.nodes)[0] ::
              n in list.nodes && n.timeStamp == old(n.timeStamp)
    ensures forall n | n in list.nodes :: n in old(list.nodes)
  {
    var u := list.first;
    assert list.Linked(0) && u in list.nodes;
    if u in alive {
      CheckFirst(list, u, limit, clock);
    } else {
      DropFirst(list, u, limit);
    }
  }

  method CheckFirst(list: RcvUList, u: RNode, limit: int, clock: Clock)
    requires list.Valid() && list.InTime(clock.time) && list.nodes != [] && list.times[0] < limit <= clock.time
    requires u == list.nodes[0] && u.onList
    modifies list, list.nodes, clock
    ensures list.Valid() && list.InTime(clock.time) && clock.time >= old(clock.time)
    ensures Stale(list.times, limit) < old(Stale(list.times, limit))
    ensures u in list.nodes && u.timeStamp >= limit
    ensures forall n | n in old(list.nodes) && n != u :: n in list.nodes && n.timeStamp == old(n.timeStamp)
    ensures forall n | n in list.nodes :: n in old(list.nodes)
  {
    ghost var ts, ns := list.times, list.nodes;
    list.WithoutMembers(ns, 0);
    list.Update(u, clock, 0);
    StaleAppend(ts[1..], clock.time, limit);
    assert list.times == ts[1..] + [clock.time];
  }

  method DropFirst(list: RcvUList, u: RNode, ghost limit: int)
    requires list.Valid() && list.nodes != [] && list.times[0] < limit && u == list.nodes[0] && u.onList
    modifies list, list.nodes
    ensures list.Valid() && forall now | old(list.InTime(now)) :: list.InTime(now)
    ensures Stale(list.times, limit) < old(Stale(list.times, limit))
    ensures u !in list.nodes && !u.onList
    ensures forall n | n in old(list.nodes) && n != u :: n in list.nodes && n.timeStamp == old(n.timeStamp)
    ensures forall n | n in list.nodes :: n in old(list.nodes)
  {
    ghost var ts, ns := list.times, list.nodes;
    list.WithoutMembers(ns, 0);
    list.Remove(u, 0);
    assert list.times == ts[1..];
    u.onList := false;
  }

  /**
   The sweep of the worker: it ends, since every round leaves fewer stale sockets; then no
   socket on the list is stale, the live ones are all there and the dead stale ones are gone.
   */
  method Sweep(list: RcvUList, gap: int, alive: set<RNode>, clock: Clock) returns (limit: int)
    requires list.Valid() && list.InTime(clock.time) && gap > 0
    modifies list, list.nodes, clock
    ensures list.Valid() && list.InTime(clock.time) && limit >= old(clock.time) - gap
    ensures forall n | n in list.nodes :: n.timeStamp >= limit
    ensures forall n | n in old(list.nodes) :: Swept(list, n, old(n.timeStamp), limit, alive)
    ensures forall n | n in list.nodes :: n in old(list.nodes)
  {
    var currtime := clock.Read();
    limit := currtime - gap;
    var ul := list.first;
    while ul != null && ul.timeStamp < limit
      invariant list.Valid() && list.InTime(clock.time) && limit <= clock.time && ul == list.first
      invariant forall n | n in list.nodes :: n in old(list.nodes)
      invariant forall i | 0 <= i < |list.nodes| :: list.nodes[i] in old(list.nodes)
      invariant forall n | n in old(list.nodes) ::
        Untouched(list, n, old(n.timeStamp))
        || (old(n.timeStamp) < limit && Swept(list, n, old(n.timeStamp), limit, alive))
      decreases Stale(list.times, limit)
    {
      assert list.Linked(0);
      SweepOne(list, limit, alive, clock);
      ul := list.first;
    }
    forall n | n in list.nodes ensures n.timeStamp >= limit {
      ghost var i :| 0 <= i < |list.nodes| && list.nodes[i] == n;
      assert list.Linked(i) && list.Linked(0);
    }
  }
}
