/** Positions in a ring of fixed size. */
module Ring {

  /**
   Definitions that are costly to have in view are stated under Look; a proof that needs
   one asserts Look of some number.
   */
  ghost predicate Look(k: int) {
    true
  }

  ghost predicate IsRemainder(n: int, size: int, s: int)
    requires size > 0
  {
    0 <= s < size && forall k {:trigger Look(k)} | Look(k) :: s == n % size
  }

  /** n modulo size. */
  ghost function Slot(n: int, size: int): (s: int)
    requires size > 0
    ensures 0 <= s < size
  {
    assert IsRemainder(n, size, n % size);
    var s :| IsRemainder(n, size, s);
    s
  }

  lemma SlotIsMod(n: int, size: int)
    requires size > 0
    ensures Slot(n, size) == n % size
  {
    assert Look(0);
  }

  lemma SlotPeriod(n: int, size: int)
    requires size > 0
    ensures Slot(n + size, size) == Slot(n, size)
  {
    SlotIsMod(n, size);
    SlotIsMod(n + size, size);
    ModPeriod(n, size);
  }

  lemma SlotPlus(n: int, d: int, size: int)
    requires size > 0
    ensures Slot(Slot(n, size) + d, size) == Slot(n + d, size)
  {
    SlotIsMod(n, size);
    var q, x := n / size, Slot(n, size) + d;
    assert n + d == q * size + x;
    SlotIsMod(x, size);
    SlotIsMod(n + d, size);
    assert x == x / size * size + x % size;
    assert (q + x / size) * size == q * size + x / size * size;
    DivUnique(n + d, q + x / size, x % size, size);
  }

  lemma ModPeriod(n: int, size: int)
    requires size > 0
    ensures (n + size) % size == n % size
  {
    var r := n % size;
    assert n == n / size * size + r;
    assert (n / size + 1) * size == n / size * size + size;
    DivUnique(n + size, n / size + 1, r, size);
  }

  lemma DivUnique(x: int, q: int, r: int, size: int)
    requires 0 <= r < size && x == q * size + r
    ensures x % size == r
  {
    var q', r' := x / size, x % size;
    assert x == q' * size + r';
    assert (q - q') * size == q * size - q' * size;
    assert -size < (q - q') * size < size;
    SmallMultiple(q - q', size);
  }

  /** A multiple of size strictly between -size and size is zero. */
  lemma SmallMultiple(k: int, size: int)
    requires size > 0 && -size < k * size < size
    ensures k == 0
  {
    if k > 0 {
      MulMonotone(1, k, size);
    } else if k < 0 {
      MulMonotone(k, -1, size);
    }
  }

  lemma MulMonotone(i: int, j: int, size: int)
    requires size > 0 && i <= j
    ensures i * size <= j * size
  {
    assert (j - i) * size >= 0;
    assert (j - i) * size == j * size - i * size;
  }

  /** The step the lists take: from a known slot, by a signed offset. */
  lemma SlotFrom(n: int, d: int, size: int)
    requires size > 0 && -size <= d
    ensures (Slot(n, size) + d + size) % size == Slot(n + d, size)
    ensures d >= 0 ==> (Slot(n, size) + d) % size == Slot(n + d, size)
  {
    SlotPlus(n, d, size);
    SlotPeriod(Slot(n, size) + d, size);
    SlotIsMod(Slot(n, size) + d + size, size);
    if d >= 0 {
      SlotIsMod(Slot(n, size) + d, size);
    }
  }

  lemma SlotInjective(a: int, b: int, size: int)
    requires size > 0 && -size < a - b < size
    ensures Slot(a, size) == Slot(b, size) <==> a == b
  {
    SlotIsMod(a, size);
    SlotIsMod(b, size);
    if a % size == b % size {
      assert (a / size - b / size) * size == a / size * size - b / size * size == a - b;
      SmallMultiple(a / size - b / size, size);
    }
  }

  /** The distance between two slots less than one round apart. */
  lemma RingDiff(n: int, d: int, size: int)
    requires size > 0 && 0 <= d < size
    ensures d == if Slot(n + d, size) >= Slot(n, size) then Slot(n + d, size) - Slot(n, size)
                 else size + Slot(n + d, size) - Slot(n, size)
  {
    SlotPlus(n, d, size);
    var s := Slot(n, size);
    if s + d < size {
      SlotSmall(s + d, size);
    } else {
      SlotPeriod(s + d - size, size);
      SlotSmall(s + d - size, size);
    }
  }

  lemma SlotSmall(n: int, size: int)
    requires 0 <= n < size
    ensures Slot(n, size) == n
  {
    SlotIsMod(n, size);
    DivUnique(n, 0, n, size);
  }
}
