/** CRcvBuffer: the ring of received packets, on units borrowed from a shared queue. */
module ReceiveBuffer {
  import opened Ring
  import opened Packets
  import opened Intervals
  import opened ReceiverSpec
  import Msg = MessageSpec

  /** flag: 0 free, 1 occupied, 2 read out of order and kept, 3 dropped. */
  class Unit {
    var flag: int
    var msgNo: int
    var data: Bytes

    constructor ()
      ensures flag == 0
    {
      flag, msgNo, data := 0, 0, [];
    }
  }

  /** The pool of units; its count is shared by the buffers that borrow from it. */
  class UnitQueue {
    var count: int
    ghost var units: set<Unit>

    ghost function Busy(): set<Unit>
      reads this, units
    {
      set u | u in units && u.flag != 0
    }

    ghost predicate Valid()
      reads this, units
    {
      count == |Busy()|
    }

    /** Marks a free unit as used. */
    method Take(u: Unit, flag: int)
      requires Valid() && u in units && u.flag == 0 && flag != 0
      modifies this`count, u`flag
      ensures Valid() && u.flag == flag
    {
      ghost var busy := Busy();
      u.flag := flag;
      count := count + 1;
      assert Busy() == busy + {u};
    }

    /** Gives a used unit back. */
    method Release(u: Unit)
      requires Valid() && u in units && u.flag != 0
      modifies this`count, u`flag
      ensures Valid() && u.flag == 0
    {
      ghost var busy := Busy();
      u.flag := 0;
      count := count - 1;
      assert Busy() == busy - {u};
    }
  }

  /** A used unit holds a block, and shows whether it was read out of order. */
  ghost predicate Mirrors(u: Unit, b: Block, seen: bool)
    reads u
  {
    u.flag == (if seen then 2 else 1) && u.msgNo == b.msgNo && u.data == b.data
  }

  /**
   The absolute numbers of the first packet not read, of the first not acknowledged and of
   the packet that belongs in slot 0, the units held, by number, the number of the unit in
   each slot, and the number of each unit.
   */
  datatype Ledger = Ledger(start: int, lastAck: int, origin: int, held: map<int, Unit>,
                           owner: seq<int>, number: map<Unit, int>)

  ghost function At(g: Ledger, n: int): int
    requires |g.owner| > 0
  {
    Slot(n - g.origin, |g.owner|)
  }

  ghost predicate Positions(startPos: int, lastAckPos: int, maxPos: int, g: Ledger) {
    && |g.owner| > 0
    && g.start <= g.lastAck <= g.lastAck + maxPos < g.start + |g.owner|
    && startPos == At(g, g.start) && lastAckPos == At(g, g.lastAck)
    && forall n | n in g.held :: g.start <= n < g.start + |g.owner| - 1 && n <= g.lastAck + maxPos
  }

  /** No unit is held under two numbers. */
  ghost predicate Numbered(g: Ledger, n: int)
    requires n in g.held
  {
    g.held[n] in g.number && g.number[g.held[n]] == n
  }

  ghost predicate Placed(slots: seq<Unit?>, g: Ledger, n: int)
    requires |slots| == |g.owner| > 0 && n in g.held
  {
    slots[At(g, n)] == g.held[n] && g.owner[At(g, n)] == n && Numbered(g, n)
  }

  ghost predicate Explained(slots: seq<Unit?>, g: Ledger, s: int)
    requires |slots| == |g.owner| > 0 && 0 <= s < |slots|
  {
    slots[s] == null || (g.owner[s] in g.held && At(g, g.owner[s]) == s)
  }

  /** The slots hold exactly the units held, each at its place. */
  ghost predicate Laid(slots: seq<Unit?>, g: Ledger) {
    && |slots| == |g.owner| > 0
    && (forall n {:trigger Placed(slots, g, n)} | n in g.held :: Placed(slots, g, n))
    && (forall s {:trigger Explained(slots, g, s)} | 0 <= s < |slots| :: Explained(slots, g, s))
  }

  lemma Apart(g: Ledger, a: int, b: int)
    requires |g.owner| > 0 && -|g.owner| < a - b < |g.owner|
    ensures At(g, a) == At(g, b) <==> a == b
  {
    SlotInjective(a - g.origin, b - g.origin, |g.owner|);
  }

  lemma StepTo(g: Ledger, n: int, d: int)
    requires |g.owner| > 0 && d >= 0
    ensures (At(g, n) + d) % |g.owner| == At(g, n + d)
  {
    SlotFrom(n - g.origin, d, |g.owner|);
    assert n - g.origin + d == n + d - g.origin;
  }

  /** The source's way to step: by one, and back to 0 at the end. */
  lemma NextSlot(g: Ledger, n: int)
    requires |g.owner| > 0
    ensures At(g, n + 1) == if At(g, n) + 1 == |g.owner| then 0 else At(g, n) + 1
  {
    SlotPlus(n - g.origin, 1, |g.owner|);
    assert n - g.origin + 1 == n + 1 - g.origin;
    var s := At(g, n) + 1;
    if s == |g.owner| {
      SlotPeriod(0, s);
      SlotSmall(0, s);
    } else {
      SlotSmall(s, |g.owner|);
    }
  }

  /** A slot less than one round from all held numbers is empty exactly when its number is not held. */
  lemma EmptySlot(slots: seq<Unit?>, g: Ledger, n: int)
    requires Laid(slots, g) && forall m | m in g.held :: -|g.owner| < n - m < |g.owner|
    ensures slots[At(g, n)] == null <==> n !in g.held
    ensures n in g.held ==> slots[At(g, n)] == g.held[n]
  {
    if n in g.held {
      assert Placed(slots, g, n);
    } else {
      assert Explained(slots, g, At(g, n));
      if slots[At(g, n)] != null {
        Apart(g, n, g.owner[At(g, n)]);
      }
    }
  }

  ghost function LedgerPut(g: Ledger, n: int, u: Unit): Ledger
    requires |g.owner| > 0
  {
    g.(held := g.held[n := u], owner := g.owner[At(g, n) := n], number := g.number[u := n])
  }

  lemma PutLaid(slots: seq<Unit?>, g: Ledger, n: int, u: Unit)
    requires Laid(slots, g) && n !in g.held && forall m | m in g.held :: -|g.owner| < n - m < |g.owner|
    requires forall m | m in g.held :: g.held[m] != u
    ensures Laid(slots[At(g, n) := u], LedgerPut(g, n, u))
  {
    var slots', g' := slots[At(g, n) := u], LedgerPut(g, n, u);
    forall m | m in g'.held ensures Placed(slots', g', m) {
      if m != n {
        assert Placed(slots, g, m);
        Apart(g, m, n);
      }
    }
    forall s | 0 <= s < |slots'| ensures Explained(slots', g', s) {
      assert Explained(slots, g, s);
    }
  }

  ghost function LedgerDrop(g: Ledger, n: int): Ledger {
    g.(held := g.held - {n})
  }

  lemma DropLaid(slots: seq<Unit?>, g: Ledger, n: int)
    requires Laid(slots, g) && n in g.held && forall m | m in g.held :: -|g.owner| < n - m < |g.owner|
    ensures Laid(slots[At(g, n) := null], LedgerDrop(g, n))
  {
    var slots', g' := slots[At(g, n) := null], LedgerDrop(g, n);
    assert Placed(slots, g, n);
    forall m | m in g'.held ensures Placed(slots', g', m) {
      assert Placed(slots, g, m);
      Apart(g, m, n);
    }
    forall s | 0 <= s < |slots'| ensures Explained(slots', g', s) {
      assert Explained(slots, g, s);
    }
  }

  lemma LaidMoves(slots: seq<Unit?>, g: Ledger, start: int, lastAck: int)
    requires Laid(slots, g)
    ensures Laid(slots, g.(start := start, lastAck := lastAck))
  {
    var g' := g.(start := start, lastAck := lastAck);
    forall m | m in g'.held ensures Placed(slots, g', m) {
      assert Placed(slots, g, m);
    }
    forall s | 0 <= s < |slots| ensures Explained(slots, g', s) {
      assert Explained(slots, g, s);
    }
  }

  class RcvBuffer {
    const size: int
    const slots: array<Unit?>
    const queue: UnitQueue
    var startPos: int
    var lastAckPos: int
    var maxPos: int
    var notch: int
    ghost var ledger: Ledger
    // What the units held contain, by number, and the numbers of those read out of order.
    ghost var store: map<int, Block>
    ghost var seen: set<int>

    /** p stands at the first packet not read. */
    ghost predicate Consistent(p: int)
      reads this, slots, ledger.held.Values, queue, queue.units
    {
      && slots.Length == |ledger.owner| == size
      && Positions(p, lastAckPos, maxPos, ledger)
      && Laid(slots[..], ledger)
      && Backed()
      && queue.Valid()
    }

    ghost predicate Backed()
      reads this, ledger.held.Values, queue
    {
      && ledger.held.Keys == store.Keys && seen <= store.Keys
      && forall n {:trigger ledger.held[n]} | n in ledger.held ::
           ledger.held[n] in queue.units && Mirrors(ledger.held[n], store[n], n in seen)
    }

    /** The buffer is well formed with p at the first packet; asserting Seen of some number brings in how. */
    ghost predicate Whole(p: int)
      reads this, slots, ledger.held.Values, queue, queue.units
    {
      && |ledger.owner| == size > 0 && ledger.start <= ledger.lastAck < ledger.start + size
      && forall k {:trigger Seen(k)} | Seen(k) :: Consistent(p)
    }

    ghost predicate Valid()
      reads this, slots, ledger.held.Values, queue, queue.units
    {
      Whole(startPos)
    }

    ghost predicate Seen(k: int) {
      true
    }

    ghost function View(): Msg.Buf
      reads this
    {
      Msg.Buf(store, seen, ledger.start, ledger.lastAck, ledger.lastAck + maxPos)
    }

    constructor (queue: UnitQueue, size: int, ghost isn: int)
      requires size > 0 && queue.Valid()
      ensures Valid() && notch == 0 && store == map[] && seen == {} && maxPos == 0
      ensures ledger.start == ledger.lastAck == isn && ledger.held == map[]
      ensures this.size == size && this.queue == queue && fresh(slots)
    {
      this.size, this.queue := size, queue;
      slots := new Unit?[size](_ => null);
      startPos, lastAckPos, maxPos, notch := 0, 0, 0, 0;
      ledger, store, seen := Ledger(isn, isn, isn, map[], seq(size, _ => 0), map[]), map[], {};
      new;
      SlotSmall(0, size);
    }

    method GetRcvDataSize() returns (n: int)
      requires Valid()
      ensures n == ledger.lastAck - ledger.start
    {
      assert Seen(0);
      RingDiff(ledger.start - ledger.origin, ledger.lastAck - ledger.start, size);
      assert ledger.start - ledger.origin + (ledger.lastAck - ledger.start) == ledger.lastAck - ledger.origin;
      if lastAckPos >= startPos {
        return lastAckPos - startPos;
      }
      return size + lastAckPos - startPos;
    }

    method GetAvailBufSize() returns (n: int)
      requires Valid()
      ensures n == size - (ledger.lastAck - ledger.start) - 1
    {
      var d := GetRcvDataSize();
      return size - d - 1;
    }

    method PositionOf(offset: int) returns (pos: int)
      requires size == |ledger.owner| > 0 && offset >= 0 && lastAckPos == At(ledger, ledger.lastAck)
      ensures pos == At(ledger, ledger.lastAck + offset)
    {
      StepTo(ledger, ledger.lastAck, offset);
      pos := (lastAckPos + offset) % size;
    }

    /** Stores a unit at a distance behind the acknowledged data, unless its place is taken. */
    method AddData(unit: Unit, offset: int) returns (r: int)
      requires Valid() && unit in queue.units && unit.flag == 0
      requires 0 <= offset < size - (ledger.lastAck - ledger.start) - 1
      modifies this`maxPos, this`ledger, this`store, slots, queue`count, unit`flag
      ensures Valid() && maxPos == if offset > old(maxPos) then offset else old(maxPos)
      ensures
        var n := ledger.lastAck + offset;
        if n in old(store) then r == -1 && ledger == old(ledger) && store == old(store) && unit.flag == 0
        else r == 0 && store == old(store)[n := Block(unit.msgNo, unit.data)] && unit.flag == 1
             && ledger == LedgerPut(old(ledger), n, unit)
      ensures r == 0 ==> View() == Msg.Stored(old(View()), old(ledger).lastAck + offset, Block(unit.msgNo, unit.data))
    {
      assert Seen(0);
      ghost var n := ledger.lastAck + offset;
      var pos := PositionOf(offset);
      EmptySlot(slots[..], ledger, n);
      if offset > maxPos {
        maxPos := offset;
      }
      if slots[pos] != null {
        return -1;
      }
      Put(unit, pos, n);
      return 0;
    }

    method Put(unit: Unit, pos: int, ghost n: int)
      requires Consistent(startPos) && unit in queue.units && unit.flag == 0
      requires pos == At(ledger, n) && ledger.start <= n < ledger.start + size - 1 && n <= ledger.lastAck + maxPos
      requires n !in ledger.held
      modifies this`ledger, this`store, slots, queue`count, unit`flag
      ensures Consistent(startPos) && ledger == LedgerPut(old(ledger), n, unit)
      ensures store == old(store)[n := Block(unit.msgNo, unit.data)]
      ensures unit.flag == 1
    {
      ghost var g := ledger;
      assert forall m | m in g.held :: g.held[m] != unit;
      PutLaid(slots[..], g, n, unit);
      slots[pos] := unit;
      queue.Take(unit, 1);
      ledger := LedgerPut(g, n, unit);
      store := store[n := Block(unit.msgNo, unit.data)];
    }

    /** Moves the acknowledged position on. */
    method AckData(len: int)
      requires Valid() && 0 <= len && ledger.lastAck + len < ledger.start + size
      modifies this`lastAckPos, this`maxPos, this`ledger
      ensures Valid() && ledger == old(ledger).(lastAck := old(ledger).lastAck + len)
      ensures maxPos == if old(maxPos) > len then old(maxPos) - len else 0
      ensures View() == Msg.AckedTo(old(View()), old(ledger).lastAck + len)
    {
      assert Seen(0);
      MoveAck(len);
    }

    method MoveAck(len: int)
      requires Consistent(startPos) && 0 <= len && ledger.lastAck + len < ledger.start + size
      modifies this`lastAckPos, this`maxPos, this`ledger
      ensures Consistent(startPos) && ledger == old(ledger).(lastAck := old(ledger).lastAck + len)
      ensures maxPos == if old(maxPos) > len then old(maxPos) - len else 0
    {
      lastAckPos := PositionOf(len);
      LaidMoves(slots[..], ledger, ledger.start, ledger.lastAck + len);
      ledger := ledger.(lastAck := ledger.lastAck + len);
      maxPos := maxPos - len;
      if maxPos < 0 {
        maxPos := 0;
      }
    }

    ghost function DropFirstOf(g: Ledger): Ledger {
      g.(held := g.held - {g.start}, start := g.start + 1)
    }

    lemma FirstDropped(p: int)
      requires Consistent(p) && ledger.start < ledger.lastAck && ledger.start in ledger.held
      ensures Laid(slots[..][p := null], DropFirstOf(ledger)) && slots[p] == ledger.held[ledger.start]
      ensures forall m | m in ledger.held && m != ledger.start :: ledger.held[m] != slots[p]
      ensures Positions(if p + 1 == size then 0 else p + 1, lastAckPos, maxPos, DropFirstOf(ledger))
    {
      var g := ledger;
      EmptySlot(slots[..], g, g.start);
      DropLaid(slots[..], g, g.start);
      LaidMoves(slots[..][p := null], LedgerDrop(g, g.start), g.start + 1, g.lastAck);
      NextSlot(g, g.start);
      forall m | m in g.held && m != g.start ensures g.held[m] != slots[p] {
        assert Placed(slots[..], g, m) && Placed(slots[..], g, g.start);
      }
    }

    /** Gives the first packet's unit back and steps to the next position. */
    method DropFirst(p: int) returns (p': int)
      requires Consistent(p) && ledger.start < ledger.lastAck && ledger.start in ledger.held
      modifies this`ledger, this`store, this`seen, slots, queue`count, ledger.held.Values`flag
      ensures Consistent(p') && ledger == DropFirstOf(old(ledger)) && store == old(store) - {old(ledger.start)}
      ensures seen == old(seen) - {old(ledger.start)}
    {
      ghost var g := ledger;
      FirstDropped(p);
      var tmp := slots[p];
      slots[p] := null;
      queue.Release(tmp);
      p' := p + 1;
      if p' == size {
        p' := 0;
      }
      ledger := DropFirstOf(g);
      store := store - {g.start};
      seen := seen - {g.start};
    }

    lemma AtLastAck(p: int)
      requires Whole(p)
      ensures p == lastAckPos <==> ledger.start == ledger.lastAck
    {
      assert Seen(0);
      Apart(ledger, ledger.start, ledger.lastAck);
    }

    /** Everything up to the acknowledged position is there to read. */
    ghost predicate InOrder()
      reads this
    {
      && ledger.start <= ledger.lastAck && AllStored(store, ledger.start, ledger.lastAck)
      && NotchFits(store, ledger.start, ledger.lastAck, notch)
    }

    /** One round of the copy loop: some bytes of the first packet, and the packet if that was its rest. */
    method ReadOne(p: int, rs: int) returns (piece: Bytes, p': int, rs': int)
      requires Whole(p) && InOrder() && ledger.start < ledger.lastAck && rs > 0
      modifies this`ledger, this`store, this`seen, this`notch, slots, queue`count, ledger.held.Values`flag
      ensures Whole(p') && ledger.lastAck == old(ledger).lastAck
      ensures forall u | u in ledger.held.Values :: u in old(ledger.held.Values)
      ensures
        var b, i := old(store[ledger.start]).data[old(notch)..], old(ledger).start;
        && piece == b[..Min(|b|, rs)] && rs' == rs - |piece|
        && (if rs >= |b| then ledger.start == i + 1 && notch == 0 && store == old(store) - {i}
            else ledger.start == i && notch == old(notch) + rs && store == old(store))
    {
      var emptied;
      piece, emptied := CopyFirst(p, rs);
      rs' := rs - |piece|;
      p' := FinishFirst(p, rs, emptied);
    }

    /** Copies from the first packet; emptied is whether its rest was wanted. */
    method CopyFirst(p: int, rs: int) returns (piece: Bytes, emptied: bool)
      requires Whole(p) && InOrder() && ledger.start < ledger.lastAck && rs > 0
      ensures
        var b := store[ledger.start].data[notch..];
        piece == b[..Min(|b|, rs)] && (emptied <==> rs >= |b|)
    {
      assert Seen(0);
      EmptySlot(slots[..], ledger, ledger.start);
      var unitsize := |slots[p].data| - notch;
      if unitsize > rs {
        unitsize := rs;
      }
      piece := slots[p].data[notch..notch + unitsize];
      emptied := rs > unitsize || rs == |slots[p].data| - notch;
    }

    method FinishFirst(p: int, rs: int, emptied: bool) returns (p': int)
      requires Whole(p) && ledger.start < ledger.lastAck && ledger.start in store
      modifies this`ledger, this`store, this`seen, this`notch, slots, queue`count, ledger.held.Values`flag
      ensures Whole(p') && ledger.lastAck == old(ledger).lastAck
      ensures forall u | u in ledger.held.Values :: u in old(ledger.held.Values)
      ensures
        var i := old(ledger).start;
        if emptied then ledger.start == i + 1 && notch == 0 && store == old(store) - {i}
        else ledger.start == old(ledger).start && notch == old(notch) + rs && store == old(store)
    {
      assert Seen(0);
      if emptied {
        p' := DropFirst(p);
        notch := 0;
      } else {
        p' := p;
        notch := notch + rs;
      }
    }

    ghost function From(store: map<int, Block>, i: int): map<int, Block> {
      map n | n in store && i <= n :: store[n]
    }

    ghost predicate Tracked(k: int) {
      true
    }

    /** Having copied out, with len bytes left to copy from i on, leads to the result t0. */
    ghost predicate OnTheWay(t0: Taken, out: Bytes, store: map<int, Block>, i: int, j: int, notch: int, len: int) {
      && i <= j && AllStored(store, i, j) && NotchFits(store, i, j, notch) && len >= 0
      && forall k {:trigger Tracked(k)} | Tracked(k) ::
           var t := Take(store, i, j, notch, len); t0 == Taken(out + t.out, t.start, t.notch)
    }

    /** One round of the copy loop stays on the way. */
    lemma RoundStays(t0: Taken, out: Bytes, store: map<int, Block>, i: int, j: int, notch: int, len: int, piece: Bytes)
      requires OnTheWay(t0, out, store, i, j, notch, len) && i < j && len > 0
      requires var b := store[i].data[notch..]; piece == b[..Min(|b|, len)]
      ensures len >= |store[i].data[notch..]| ==> OnTheWay(t0, out + piece, store, i + 1, j, 0, len - |piece|)
      ensures len < |store[i].data[notch..]| ==> OnTheWay(t0, out + piece, store, i, j, notch + len, len - |piece|)
    {
      assert Tracked(0);
      var b := store[i].data[notch..];
      if len >= |b| {
        var t := Take(store, i + 1, j, 0, len - |piece|);
        assert piece == b;
        assert out + (piece + t.out) == (out + piece) + t.out;
      } else {
        assert out + piece == out + piece + [];
      }
    }

    lemma FromSteps(store: map<int, Block>, i: int, after: map<int, Block>)
      requires after == From(store, i) - {i}
      ensures after == From(store, i + 1)
    {
    }

    ghost predicate Copying(p: int, out: Bytes, rs: int, t0: Taken, store0: map<int, Block>, i0: int)
      reads this, slots, ledger.held.Values, queue, queue.units
    {
      && Whole(p) && (p == lastAckPos <==> ledger.start == ledger.lastAck) && i0 <= ledger.start
      && OnTheWay(t0, out, store0, ledger.start, ledger.lastAck, notch, rs)
      && store == From(store0, ledger.start)
    }

    /** One round of the copy loop. */
    method CopyRound(p: int, out: Bytes, rs: int, ghost t0: Taken, ghost store0: map<int, Block>, ghost i0: int)
      returns (p': int, out': Bytes, rs': int)
      requires Copying(p, out, rs, t0, store0, i0) && p != lastAckPos && rs > 0
      modifies this`ledger, this`store, this`seen, this`notch, slots, queue`count, ledger.held.Values`flag
      ensures Copying(p', out', rs', t0, store0, i0) && ledger.lastAck == old(ledger).lastAck
      ensures forall u | u in ledger.held.Values :: u in old(ledger.held.Values)
      ensures ledger.lastAck - ledger.start + rs' < old(ledger.lastAck - ledger.start) + rs
    {
      ghost var i, notch0 := ledger.start, notch;
      var piece;
      piece, p', rs' := ReadOne(p, rs);
      RoundStays(t0, out, store0, i, ledger.lastAck, notch0, rs, piece);
      out' := out + piece;
      AtLastAck(p');
      if ledger.start > i {
        FromSteps(store0, i, store);
      }
    }

    /** Copies out up to len of the acknowledged bytes. */
    method ReadBuffer(len: int) returns (out: Bytes)
      requires Valid() && InOrder() && len >= 0
      modifies this`startPos, this`ledger, this`store, this`seen, this`notch
      modifies slots, queue`count, ledger.held.Values`flag
      ensures Valid() && InOrder() && ledger.lastAck == old(ledger).lastAck
      ensures
        var t := Take(old(store), old(ledger).start, old(ledger).lastAck, old(notch), len);
        out == t.out && ledger.start == t.start && notch == t.notch && store == From(old(store), t.start)
    {
      var p, rs := startPos, len;
      out := [];
      ghost var store0, g0, t0 := store, ledger, Take(store, ledger.start, ledger.lastAck, notch, len);
      AtLastAck(p);
      NothingBefore();
      while p != lastAckPos && rs > 0
        invariant Copying(p, out, rs, t0, store0, g0.start) && ledger.lastAck == g0.lastAck
        invariant forall u | u in ledger.held.Values :: u in old(ledger.held.Values)
        decreases ledger.lastAck - ledger.start + rs
      {
        p, out, rs := CopyRound(p, out, rs, t0, store0, g0.start);
      }
      CopyDone(p, out, rs, t0, store0, g0.start);
      SetStart(p);
    }

    /** The first position becomes what was kept in p. */
    method SetStart(p: int)
      requires Whole(p)
      modifies this`startPos
      ensures Valid() && startPos == p
    {
      assert Seen(0);
      startPos := p;
    }


    lemma CopyDone(p: int, out: Bytes, rs: int, t0: Taken, store0: map<int, Block>, i0: int)
      requires Copying(p, out, rs, t0, store0, i0) && (p == lastAckPos || rs == 0)
      ensures InOrder() && t0 == Taken(out, ledger.start, notch)
    {
      assert Tracked(0);
      assert out + [] == out;
    }

    lemma NothingBefore()
      requires Valid()
      ensures store == From(store, ledger.start)
    {
      assert Seen(0);
    }

    // Messages

    /** What the slot of number n shows. */
    lemma Cell(n: int)
      requires Valid() && ledger.start <= n < ledger.start + size
      ensures 0 <= At(ledger, n) < slots.Length
      ensures slots[At(ledger, n)] == null <==> n !in store
      ensures n in store ==> n < ledger.start + size - 1
      ensures n in store ==> slots[At(ledger, n)].flag == (if n in seen then 2 else 1)
      ensures n in store ==> slots[At(ledger, n)].msgNo == store[n].msgNo && slots[At(ledger, n)].data == store[n].data
      ensures ledger.lastAck <= ledger.lastAck + maxPos < ledger.start + size
      ensures startPos == At(ledger, ledger.start) && lastAckPos == At(ledger, ledger.lastAck)
    {
      assert Seen(0);
      EmptySlot(slots[..], ledger, n);
    }

    /** The same while the first position is still kept in p. */
    lemma HeldCell(p: int, n: int)
      requires Whole(p) && n in store
      ensures 0 <= At(ledger, n) < slots.Length && slots[At(ledger, n)] != null
      ensures slots[At(ledger, n)].data == store[n].data
    {
      assert Seen(0);
      assert Placed(slots[..], ledger, n);
    }

    method Step(i: int, ghost n: int) returns (i': int)
      requires Valid() && i == At(ledger, n)
      ensures i' == At(ledger, n + 1)
    {
      NextSlot(ledger, n);
      i' := i + 1;
      if i' == size {
        i' := 0;
      }
    }

    /** Whether a message that is not bad starts at the first position. */
    method LookAhead() returns (good: bool)
      requires Valid() && ledger.start < ledger.lastAck && ledger.start in store
      ensures good <==> Msg.GoodStart(View(), ledger.start)
    {
      Cell(ledger.start);
      Msg.MarksOf(store[ledger.start]);
      if slots[startPos].flag != 1 || Boundary(slots[startPos].msgNo) <= 1 {
        return false;
      }
      var i := startPos;
      ghost var n := ledger.start;
      Apart(ledger, n, ledger.lastAck);
      while i != lastAckPos
        invariant ledger.start <= n <= ledger.lastAck && i == At(ledger, n)
        invariant i == lastAckPos <==> n == ledger.lastAck
        invariant Msg.Whole(View(), ledger.start) <==> Msg.Whole(View(), n)
        decreases ledger.lastAck - n
      {
        Cell(n);
        if slots[i] == null || slots[i].flag != 1 {
          return false;
        }
        Msg.MarksOf(store[n]);
        if Boundary(slots[i].msgNo) == 1 || Boundary(slots[i].msgNo) == 3 {
          return true;
        }
        i := Step(i, n);
        n := n + 1;
        Apart(ledger, n, ledger.lastAck);
      }
      return true;
    }

    /** Steps over an empty first slot. */
    method StepOver()
      requires Valid() && ledger.start < ledger.lastAck && ledger.start !in store
      modifies this`startPos, this`ledger
      ensures Valid() && ledger == old(ledger).(start := old(ledger).start + 1)
      ensures store - {old(ledger).start} == store && seen - {old(ledger).start} == seen
    {
      assert Seen(0);
      LaidMoves(slots[..], ledger, ledger.start + 1, ledger.lastAck);
      startPos := Step(startPos, ledger.start);
      ledger := ledger.(start := ledger.start + 1);
    }

    method DropStart()
      requires Valid() && ledger.start < ledger.lastAck && ledger.start in store
      modifies this`startPos, this`ledger, this`store, this`seen, slots, queue`count, ledger.held.Values`flag
      ensures Valid() && ledger == DropFirstOf(old(ledger)) && store == old(store) - {old(ledger.start)}
      ensures seen == old(seen) - {old(ledger.start)}
    {
      assert Seen(0);
      startPos := DropFirst(startPos);
    }

    /** Leaves a good first message, or gives up the first position. */
    method SkipOne() returns (good: bool)
      requires Valid() && ledger.start < ledger.lastAck
      modifies this`startPos, this`ledger, this`store, this`seen, slots, queue`count, ledger.held.Values`flag
      ensures Valid() && maxPos == old(maxPos) && good == Msg.GoodStart(old(View()), old(ledger).start)
      ensures View() == if good then old(View()) else Msg.From(old(View()), old(ledger).start + 1)
      ensures forall u | u in ledger.held.Values :: u in old(ledger.held.Values)
    {
      ghost var v, i := View(), ledger.start;
      Cell(i);
      ViewFrom();
      Msg.FromNext(v, i + 1);
      if slots[startPos] == null {
        StepOver();
        return false;
      }
      good := LookAhead();
      if !good {
        DropStart();
      }
    }

    /** Gives up whatever cannot be the start of a message. */
    method SkipBad()
      requires Valid()
      modifies this`startPos, this`ledger, this`store, this`seen, slots, queue`count, ledger.held.Values`flag
      ensures Valid() && View() == Msg.Skipped(old(View())) && maxPos == old(maxPos)
      ensures forall u | u in ledger.held.Values :: u in old(ledger.held.Values)
    {
      ghost var v0 := View();
      ViewFrom();
      AtLastAck(startPos);
      while startPos != lastAckPos
        invariant Valid() && v0.start <= ledger.start && View() == Msg.From(v0, ledger.start)
        invariant startPos == lastAckPos <==> ledger.start == ledger.lastAck
        invariant maxPos == old(maxPos) && Msg.SkipTo(v0, v0.start) == Msg.SkipTo(v0, ledger.start)
        invariant forall u | u in ledger.held.Values :: u in old(ledger.held.Values)
        decreases ledger.lastAck - ledger.start
      {
        Msg.GoodFrom(v0, ledger.start);
        Msg.FromFrom(v0, ledger.start);
        var good := SkipOne();
        if good {
          break;
        }
        AtLastAck(startPos);
      }
    }

    lemma ViewFrom()
      requires Valid()
      ensures View() == Msg.From(View(), ledger.start)
    {
      assert Seen(0);
    }

    /** p is the slot of the place where a message may have started, or -1. */
    ghost predicate StandsFor(p: int, head: Option<int>)
      reads this
    {
      |ledger.owner| > 0 && (if head == None then p == -1 else p == At(ledger, head.value))
    }

    /** One round of the search: the slot q of number n, with the last head of a message before it. */
    method Look(q: int, p: int, ghost n: int, ghost head: Option<int>) returns (p': int, found: bool)
      requires Valid() && ledger.start <= n < ledger.start + size && q == At(ledger, n) && StandsFor(p, head)
      ensures StandsFor(p', Msg.HeadAt(View(), n, head))
      ensures found <==> Msg.Unread(View(), n) && Msg.Ends(store[n]) && Msg.HeadAt(View(), n, head) != None
    {
      Cell(n);
      p', found := p, false;
      if slots[q] != null && slots[q].flag == 1 {
        Msg.MarksOf(store[n]);
        var boundary := Boundary(slots[q].msgNo);
        if boundary == 3 {
          p', found := q, true;
        } else if boundary == 2 {
          p' := q;
        } else if boundary == 1 {
          found := p != -1;
        }
      } else {
        p' := -1;
      }
    }

    /** Whether the packet in q may be read before its turn. */
    method OutOfOrder(q: int, ghost n: int) returns (free: bool)
      requires Valid() && ledger.start <= n < ledger.start + size && q == At(ledger, n) && n in store
      ensures free <==> !Msg.Ordered(store[n])
    {
      Cell(n);
      Msg.MarksOf(store[n]);
      free := !OrderFlag(slots[q].msgNo);
    }

    /** An unfinished message has taken the whole buffer; scanMsg reports it although readMsg will copy nothing. */
    ghost predicate Oversized(h: Msg.Hit)
      reads this
    {
      h.Miss? && h.head != None && h.head.value + size == ledger.lastAck + maxPos + 2
    }

    lemma OversizedSlots(head: Option<int>, p: int, q: int)
      requires Valid() && StandsFor(p, head) && q == At(ledger, ledger.lastAck + maxPos + 1)
      requires head != None ==> ledger.start <= head.value <= ledger.lastAck + maxPos && head.value in store
      ensures p != -1 && (q + 1) % size == p <==> Oversized(Msg.Miss(head))
    {
      var e := ledger.lastAck + maxPos + 2;
      StepTo(ledger, e - 1, 1);
      if head != None {
        Cell(ledger.start);
        Cell(head.value);
        AroundOnce(e);
        if e - size != head.value {
          Apart(ledger, e - size, head.value);
        }
      }
    }

    lemma AroundOnce(n: int)
      requires |ledger.owner| == size > 0
      ensures At(ledger, n) == At(ledger, n - size)
    {
      SlotPeriod(n - size - ledger.origin, size);
    }

    /** Looks for the first message from the first position on. */
    method SearchMsg() returns (found: bool, p: int, q: int, passack: bool, ghost h: Msg.Hit)
      requires Valid()
      ensures h == Msg.Search(View(), ledger.start, None)
      ensures h.Hit? ==> found && q == At(ledger, h.q) && p == At(ledger, h.p)
      ensures h.Hit? ==> (passack <==> h.q >= ledger.lastAck)
      ensures h.Miss? ==> passack && (found ==> p == (q + 1) % size)
      ensures h.Miss? ==> (found <==> Oversized(h))
    {
      Cell(ledger.start);
      Apart(ledger, ledger.start, ledger.lastAck);
      p, q, passack, found := -1, startPos, startPos == lastAckPos, false;
      var size' := GetRcvDataSize();
      var i, n := 0, maxPos + size';
      ghost var m, head := ledger.start, None;
      while i <= n
        invariant m == ledger.start + i <= ledger.lastAck + maxPos + 1 && q == At(ledger, m) && StandsFor(p, head)
        invariant Msg.Search(View(), ledger.start, None) == Msg.Search(View(), m, head)
        invariant (passack <==> m >= ledger.lastAck) && !found
        invariant head != None ==> ledger.start <= head.value < m && head.value in store
      {
        p, found := Look(q, p, m, head);
        head := Msg.HeadAt(View(), m, head);
        if found {
          var free := OutOfOrder(q, m);
          if !passack || free {
            h := Msg.Hit(head.value, m);
            return;
          }
          found := false;
        }
        q := Step(q, m);
        m := m + 1;
        i := i + 1;
        if m <= ledger.lastAck {
          Apart(ledger, m, ledger.lastAck);
        }
        if q == lastAckPos {
          passack := true;
        }
      }
      h := Msg.Miss(head);
      OversizedSlots(head, p, q);
      if p != -1 && (q + 1) % size == p {
        found := true;
      }
    }

    /** Finds the slots of the next message; h says which packets those are. */
    method ScanMsg() returns (found: bool, p: int, q: int, passack: bool, ghost h: Msg.Hit)
      requires Valid()
      modifies this`startPos, this`ledger, this`store, this`seen, slots, queue`count, ledger.held.Values`flag
      ensures Valid() && View() == Msg.Skipped(old(View())) && h == Msg.Scan(old(View()))
      ensures forall u | u in ledger.held.Values :: u in old(ledger.held.Values)
      ensures h.Hit? ==> found && q == At(ledger, h.q) && p == At(ledger, h.p)
      ensures h.Hit? ==> (passack <==> h.q >= ledger.lastAck)
      ensures h.Miss? && found ==> passack && p == (q + 1) % size
      ensures h.Miss? ==> (found <==> !Msg.SeemsEmpty(old(View())) && Oversized(h))
    {
      AtLastAck(startPos);
      if startPos == lastAckPos && maxPos <= 0 {
        ViewFrom();
        Cell(ledger.start);
        return false, -1, -1, true, Msg.Miss(None);
      }
      Cell(ledger.start);
      SkipBad();
      found, p, q, passack, h := SearchMsg();
    }

    // The first bytes of what was copied so far, as many as are wanted.
    ghost function Prefix(all: Bytes, len: int): Bytes
      requires len >= 0
    {
      all[..Min(len, |all|)]
    }

    /** Copies what is wanted of one packet. */
    method CopyUnit(data: Bytes, out: Bytes, rs: int, ghost all: Bytes, ghost len: int) returns (out': Bytes, rs': int)
      requires len >= 0 && out == Prefix(all, len) && rs == len - |out|
      ensures out' == Prefix(all + data, len) && rs' == len - |out'|
    {
      var unitsize := |data|;
      if rs >= 0 && unitsize > rs {
        unitsize := rs;
      }
      out', rs' := out, rs;
      if unitsize > 0 {
        out' := out + data[..unitsize];
        rs' := rs - unitsize;
      }
    }

    /** Takes the first packet out; p' is the next slot. */
    method TakeUnit(p: int) returns (p': int)
      requires Whole(p) && ledger.start < ledger.lastAck && ledger.start in store && p == At(ledger, ledger.start)
      modifies this`ledger, this`store, this`seen, slots, queue`count, ledger.held.Values`flag
      ensures Whole(p') && View() == Msg.From(old(View()), old(ledger).start + 1)
      ensures p' == At(ledger, ledger.start) && ledger.start == old(ledger).start + 1
      ensures SamePlaces(old(ledger)) && forall u | u in ledger.held.Values :: u in old(ledger.held.Values)
    {
      assert Seen(0);
      ghost var v, i := View(), ledger.start;
      assert v == Msg.From(v, i);
      Msg.FromNext(v, i + 1);
      p' := DropFirst(p);
    }

    ghost predicate SamePlaces(g: Ledger)
      reads this
    {
      ledger.origin == g.origin && |ledger.owner| == |g.owner| && ledger.lastAck == g.lastAck
    }

    /** Marks the packet k as read. */
    method MarkUnit(p: int, ghost k: int)
      requires Valid() && k in store && p == At(ledger, k) && k !in seen
      modifies this`seen, ledger.held.Values`flag
      ensures Valid() && seen == old(seen) + {k}
    {
      assert Seen(0);
      assert Placed(slots[..], ledger, k);
      ghost var busy := queue.Busy();
      slots[p].flag := 2;
      seen := seen + {k};
      assert queue.Busy() == busy;
      forall n | n in ledger.held && n != k ensures ledger.held[n] != slots[p] {
        assert Placed(slots[..], ledger, n);
      }
    }

    /** Reading a message that starts at h0 has come to number k; v is the state before. */
    ghost predicate Progress(passack: bool, p: int, k: int, v: Msg.Buf, h0: int)
      reads this, slots, ledger.held.Values, queue, queue.units
    {
      && |ledger.owner| == size > 0 && p == At(ledger, k)
      && forall j {:trigger Tracked(j)} | Tracked(j) ::
           if passack then Valid() && View() == v.(seen := v.seen + Msg.Numbers(h0, k - 1))
           else Whole(p) && View() == Msg.From(v, k)
    }

    /** Takes the packet k out, or marks it as read when it is not acknowledged. */
    method ReadUnit(passack: bool, p: int, ghost k: int, ghost v: Msg.Buf, ghost h0: int) returns (p': int)
      requires Progress(passack, p, k, v, h0) && Msg.Unread(v, k) && h0 <= k && (!passack ==> k < v.lastAck)
      modifies this`ledger, this`store, this`seen, slots, queue`count, ledger.held.Values`flag
      ensures Progress(passack, p', k + 1, v, h0) && SamePlaces(old(ledger))
      ensures forall u | u in ledger.held.Values :: u in old(ledger.held.Values)
    {
      assert Tracked(0);
      if !passack {
        Msg.FromFrom(v, k);
        p' := TakeUnit(p);
      } else {
        Msg.NumbersNext(v.seen, h0, k);
        MarkUnit(p, k);
        p' := Step(p, k);
      }
    }

    lemma StopSlot(q: int, k: int, h: Msg.Hit)
      requires |ledger.owner| == size > 0 && h.Hit? && q == At(ledger, h.q) && h.q + 1 - size < k <= h.q + 1
      ensures At(ledger, k) == (q + 1) % size <==> k == h.q + 1
    {
      StepTo(ledger, h.q, 1);
      Apart(ledger, k, h.q + 1);
    }

    /** One round of the copy loop: the packet k, in slot p. */
    method ReadRound(passack: bool, p: int, out: Bytes, rs: int, ghost len: int, ghost k: int,
                     ghost v: Msg.Buf, ghost h0: int,
                     ghost isn: int, ghost hist: seq<Block>)
      returns (p': int, out': Bytes, rs': int)
      requires Progress(passack, p, k, v, h0) && Msg.Unread(v, k) && isn <= h0 <= k < isn + |hist|
      requires (!passack ==> k < v.lastAck) && v.store[k] == hist[k - isn]
      requires len >= 0 && out == Prefix(Join(hist, h0 - isn, k - isn), len) && rs == len - |out|
      modifies this`ledger, this`store, this`seen, slots, queue`count, ledger.held.Values`flag
      ensures Progress(passack, p', k + 1, v, h0) && SamePlaces(old(ledger))
      ensures forall u | u in ledger.held.Values :: u in old(ledger.held.Values)
      ensures out' == Prefix(Join(hist, h0 - isn, k + 1 - isn), len) && rs' == len - |out'|
    {
      assert Tracked(0);
      HeldCell(if passack then startPos else p, k);
      ghost var all := Join(hist, h0 - isn, k - isn);
      JoinSplit(hist, h0 - isn, k - isn, k + 1 - isn);
      assert Join(hist, k - isn, k + 1 - isn) == hist[k - isn].data + [] == hist[k - isn].data;
      out', rs' := CopyUnit(slots[p].data, out, rs, all, len);
      p' := ReadUnit(passack, p, k, v, h0);
    }

    /** What the scan has found: h in the state v, or nothing to copy. */
    ghost predicate Scanned(passack: bool, p: int, q: int, v: Msg.Buf, h: Msg.Hit, isn: int, hist: seq<Block>)
      reads this
    {
      if h.Miss? then passack && size > 0 && p == (q + 1) % size
      else
        && isn <= h.p <= h.q < isn + |hist| && v.start <= h.p && h.q < v.start + size - 1
        && (passack <==> h.q >= v.lastAck) && (!passack ==> h.p == v.start)
        && |ledger.owner| == size > 0 && p == At(ledger, h.p) && q == At(ledger, h.q)
        && forall n | h.p <= n <= h.q :: Msg.Unread(v, n) && v.store[n] == hist[n - isn]
    }

    /** Copies the message in the slots from p0 to q; p is the slot behind it. */
    method CopyMsg(passack: bool, p0: int, q: int, len: int, ghost h: Msg.Hit, ghost isn: int, ghost hist: seq<Block>)
      returns (out: Bytes)
      requires Valid() && len >= 0 && View() == Msg.From(View(), ledger.start)
      requires Scanned(passack, p0, q, View(), h, isn, hist) && (!passack ==> p0 == startPos)
      modifies this`ledger, this`store, this`seen, slots, queue`count, ledger.held.Values`flag
      ensures h.Miss? ==> Valid() && View() == old(View()) && out == []
      ensures h.Hit? ==>
        && Progress(passack, (q + 1) % size, h.q + 1, old(View()), h.p)
        && out == Prefix(Join(hist, h.p - isn, h.q + 1 - isn), len)
    {
      ghost var v, origin := View(), ledger;
      var p, rs := p0, len;
      out := [];
      ghost var k := if h.Hit? then h.p else 0;
      if h.Hit? {
        assert Tracked(0);
        StopSlot(q, k, h);
        assert v.seen + Msg.Numbers(h.p, h.p - 1) == v.seen;
      }
      while p != (q + 1) % size
        invariant h.Miss? ==> p == (q + 1) % size && Valid() && View() == v && out == []
        invariant h.Hit? ==> h.p <= k <= h.q + 1 && Progress(passack, p, k, v, h.p) && SamePlaces(origin)
        invariant h.Hit? ==> (p == (q + 1) % size <==> k == h.q + 1)
        invariant h.Hit? ==> out == Prefix(Join(hist, h.p - isn, k - isn), len) && rs == len - |out|
        invariant forall u | u in ledger.held.Values :: u in old(ledger.held.Values)
        decreases if h.Hit? then h.q + 1 - k else 0
      {
        p, out, rs := ReadRound(passack, p, out, rs, len, k, v, h.p, isn, hist);
        k := k + 1;
        StopSlot(q, k, h);
      }
    }

    /** Reads one message from a framed stream; what does not fit into len bytes is lost. */
    method ReadMsg(len: int, ghost isn: int, ghost hist: seq<Block>) returns (out: Bytes, ghost h: Msg.Hit)
      requires Valid() && len >= 0 && Msg.MsgInv(View(), isn, hist)
      modifies this`startPos, this`ledger, this`store, this`seen, slots, queue`count, ledger.held.Values`flag
      ensures Valid() && View() == Msg.ReadMsg(old(View())) && h == Msg.Scan(old(View()))
      ensures h.Miss? ==> out == []
      ensures h.Hit? ==> isn <= h.p <= h.q < isn + |hist| && out == Prefix(Join(hist, h.p - isn, h.q + 1 - isn), len)
    {
      var found, p, q, passack;
      found, p, q, passack, h := ScanForRead(isn, hist);
      if !found {
        return [], h;
      }
      ghost var v := View();
      out := CopyMsg(passack, p, q, len, h, isn, hist);
      FinishMsg(passack, q, v, h);
    }

    /** The first position moves behind a message that was taken out. */
    method FinishMsg(passack: bool, q: int, ghost v: Msg.Buf, ghost h: Msg.Hit)
      requires size > 0 && (h.Miss? ==> passack && Valid() && View() == v)
      requires h.Hit? ==> Progress(passack, (q + 1) % size, h.q + 1, v, h.p) && (passack <==> h.q >= v.lastAck)
      modifies this`startPos
      ensures Valid()
      ensures View() ==
        match h
        case Miss(_) => v
        case Hit(p, q) => if q < v.lastAck then Msg.From(v, q + 1) else v.(seen := v.seen + Msg.Numbers(p, q))
    {
      assert Tracked(0);
      if !passack {
        SetStart((q + 1) % size);
      }
    }

    method ScanForRead(ghost isn: int, ghost hist: seq<Block>)
      returns (found: bool, p: int, q: int, passack: bool, ghost h: Msg.Hit)
      requires Valid() && Msg.MsgInv(View(), isn, hist)
      modifies this`startPos, this`ledger, this`store, this`seen, slots, queue`count, ledger.held.Values`flag
      ensures Valid() && View() == Msg.Skipped(old(View())) == Msg.From(View(), ledger.start)
      ensures h == Msg.Scan(old(View()))
      ensures forall u | u in ledger.held.Values :: u in old(ledger.held.Values)
      ensures !found ==> h.Miss?
      ensures found ==> Scanned(passack, p, q, View(), h, isn, hist) && (!passack ==> p == startPos)
    {
      ghost var v0 := View();
      found, p, q, passack, h := ScanMsg();
      ghost var v := View();
      ViewFrom();
      Cell(v.start);
      if h.Hit? {
        Msg.HitFacts(v0, isn, hist);
        assert Msg.Unread(v, h.q);
        Cell(h.q);
      }
    }
  }
}
