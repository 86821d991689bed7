/**
 The streaming part of MD5.  The compression of one block is a parameter; everything proved
 here holds whatever it computes.
 */
module Md5 {
  import opened Ring
  import opened Packets

  type Word = x: int | 0 <= x < 0x1_0000_0000

  datatype Digest = Digest(a: Word, b: Word, c: Word, d: Word)

  const BLOCK := 64
  const TWO32 := 0x1_0000_0000
  const TWO64 := 0x1_0000_0000_0000_0000
  const INIT := Digest(0x6745_2301, 0xEFCD_AB89, 0x98BA_DCFE, 0x1032_5476)

  /** The full blocks of the data, compressed one after the other. */
  ghost function Fold(process: (Digest, Bytes) -> Digest, d: Digest, data: Bytes): Digest
    decreases |data|
  {
    if |data| < BLOCK then d else Fold(process, process(d, data[..BLOCK]), data[BLOCK..])
  }

  /** How many bytes are left behind the full blocks of n bytes. */
  ghost function Over(n: nat): (r: int)
    ensures 0 <= r < BLOCK && r <= n
  {
    SlotIsMod(n, BLOCK);
    Slot(n, BLOCK)
  }

  lemma OverShort(n: nat, d: nat)
    requires Over(n) + d < BLOCK
    ensures Over(n + d) == Over(n) + d
  {
    SlotPlus(n, d, BLOCK);
    SlotSmall(Over(n) + d, BLOCK);
  }

  lemma OverFull(n: nat, d: nat)
    requires Over(n) + d == BLOCK
    ensures Over(n + d) == 0
  {
    SlotPlus(n, d, BLOCK);
    SlotPeriod(0, BLOCK);
    SlotSmall(0, BLOCK);
  }

  lemma OverBlock(n: nat)
    requires Over(n) == 0 && n > 0
    ensures n >= BLOCK && Over(n - BLOCK) == 0
  {
    if n < BLOCK {
      SlotSmall(n, BLOCK);
    } else {
      SlotPeriod(n - BLOCK, BLOCK);
    }
  }

  lemma OverBase(n: nat)
    ensures Over(n - Over(n)) == 0
  {
    SlotIsMod(n, BLOCK);
    SlotIsMod(n - Over(n), BLOCK);
  }

  /** What is left behind the full blocks. */
  ghost function Tail(data: Bytes): Bytes {
    data[|data| - Over(|data|)..]
  }

  lemma {:induction false} FoldAppend(process: (Digest, Bytes) -> Digest, d: Digest, x: Bytes, y: Bytes)
    requires Over(|x|) == 0
    ensures Fold(process, d, x + y) == Fold(process, Fold(process, d, x), y)
    decreases |x|
  {
    if x == [] {
      assert x + y == y;
    } else {
      OverBlock(|x|);
      assert (x + y)[..BLOCK] == x[..BLOCK] && (x + y)[BLOCK..] == x[BLOCK..] + y;
      FoldAppend(process, process(d, x[..BLOCK]), x[BLOCK..], y);
    }
  }

  /** Only the full blocks matter. */
  lemma FoldTail(process: (Digest, Bytes) -> Digest, d: Digest, x: Bytes, y: Bytes)
    ensures Fold(process, d, x + y) == Fold(process, Fold(process, d, x), Tail(x) + y)
  {
    var n := |x| - Over(|x|);
    OverBase(|x|);
    var h := x[..n];
    assert x == h + Tail(x) && x + y == h + (Tail(x) + y);
    FoldAppend(process, d, h, Tail(x) + y);
    FoldAppend(process, d, h, Tail(x));
  }

  // Padding, sections 3.1 and 3.2 of RFC 1321

  ghost function Zeros(n: int): Bytes {
    if n <= 0 then [] else seq(n, _ => 0)
  }

  /** A one bit, and zeros up to 56 bytes modulo 64. */
  ghost function Padding(len: int): Bytes
    requires len >= 0
  {
    [0x80] + Zeros((55 - len) % BLOCK)
  }

  /** The byte i places up from the low-order one. */
  function Byte(n: int, i: nat): byte
    requires n >= 0
  {
    if i == 0 then (n % 256) as byte else Byte(n / 256, i - 1)
  }

  /** Four bytes, low-order byte first. */
  ghost function Le32(w: Word): Bytes {
    [Byte(w, 0), Byte(w, 1), Byte(w, 2), Byte(w, 3)]
  }

  /** Eight bytes, low-order word first. */
  ghost function Le64(n: int): Bytes
    requires 0 <= n < TWO64
  {
    Le32(n % TWO32) + Le32(n / TWO32)
  }

  /** The low-order 64 bits of the length in bits. */
  ghost function LengthField(len: int): Bytes
    requires len >= 0
  {
    Le64(Slot(8 * len, TWO64))
  }

  ghost function Padded(m: Bytes): Bytes {
    m + Padding(|m|) + LengthField(|m|)
  }

  lemma ModShift(x: int, y: int, k: int)
    requires x == y - BLOCK * k
    ensures x % BLOCK == y % BLOCK
  {
  }

  /** The low-order word of the counter tells how full the buffer is. */
  lemma OffsetOf(c0: Word, c1: Word, len: int, q: int)
    requires 8 * len == TWO64 * q + TWO32 * c1 + c0
    ensures c0 / 8 % BLOCK == len % BLOCK
  {
    var x := len - 0x2000_0000_0000_0000 * q - 0x2000_0000 * c1;
    assert c0 == 8 * x;
    assert c0 / 8 == x;
    ModShift(x, len, 0x80_0000_0000_0000 * q + 0x80_0000 * c1);
  }

  lemma SameShift(x: int, y: int)
    requires x % BLOCK == y % BLOCK
    ensures (55 - x) % BLOCK == (55 - y) % BLOCK
  {
    var k := x / BLOCK - y / BLOCK;
    assert 55 - y == 55 - x + BLOCK * k;
  }

  lemma PadLength(len: int)
    requires len >= 0
    ensures (len + 9 + (55 - len) % BLOCK) % BLOCK == 0
  {
  }

  /** The padded message is whole blocks, no longer than needed. */
  lemma PaddedWhole(m: Bytes)
    ensures |Padded(m)| % BLOCK == 0 && |m| + 9 <= |Padded(m)| < |m| + 9 + BLOCK
    ensures Padded(m)[..|m|] == m && Padded(m)[|m|] == 0x80
    ensures forall i | |m| < i < |Padded(m)| - 8 :: Padded(m)[i] == 0
  {
    PadLength(|m|);
    var z, f := Zeros((55 - |m|) % BLOCK), LengthField(|m|);
    assert |f| == 8 && |Padded(m)| == |m| + 1 + |z| + 8;
    assert forall i | 0 <= i < |z| :: Padded(m)[|m| + 1 + i] == z[i];
  }

  /** Four bytes read as a word. */
  ghost function Value(f: Bytes): int
    requires |f| == 4
  {
    f[0] as int + 0x100 * f[1] as int + 0x1_0000 * f[2] as int + 0x100_0000 * f[3] as int
  }

  lemma WordBytes(w: Word)
    ensures Value(Le32(w)) == w
  {
    assert Byte(w, 1) as int == w / 256 % 256;
    assert Byte(w, 2) as int == Byte(w / 256, 1) as int == w / 256 / 256 % 256;
    assert Byte(w, 3) as int == Byte(w / 256, 2) as int == Byte(w / 256 / 256, 1) as int == w / 256 / 256 / 256 % 256;
  }

  lemma Halves(x: Bytes, y: Bytes)
    requires |x| == |y| == 4
    ensures (x + y)[..4] == x && (x + y)[4..] == y
  {
  }

  lemma Le64RoundTrip(n: int)
    requires 0 <= n < TWO64
    ensures |Le64(n)| == 8 && Value(Le64(n)[..4]) + TWO32 * Value(Le64(n)[4..]) == n
  {
    Halves(Le32(n % TWO32), Le32(n / TWO32));
    WordBytes(n % TWO32);
    WordBytes(n / TWO32);
  }

  /** The field tells the length of the message. */
  lemma LengthRoundTrip(len: int)
    requires 0 <= 8 * len < TWO64
    ensures |LengthField(len)| == 8
    ensures Value(LengthField(len)[..4]) + TWO32 * Value(LengthField(len)[4..]) == 8 * len
  {
    SlotSmall(8 * len, TWO64);
    Le64RoundTrip(8 * len);
  }

  /** The digest of a message in one go. */
  ghost function Hash(process: (Digest, Bytes) -> Digest, m: Bytes): Bytes {
    var d := Fold(process, INIT, Padded(m));
    Le32(d.a) + Le32(d.b) + Le32(d.c) + Le32(d.d)
  }

  /** The initial words, as section 3.3 of RFC 1321 lists their bytes. */
  lemma InitBytes()
    ensures Le32(INIT.a) == [0x01, 0x23, 0x45, 0x67] && Le32(INIT.b) == [0x89, 0xAB, 0xCD, 0xEF]
    ensures Le32(INIT.c) == [0xFE, 0xDC, 0xBA, 0x98] && Le32(INIT.d) == [0x76, 0x54, 0x32, 0x10]
  {
    BytesOf(INIT.a, 0x01, 0x23, 0x45, 0x67);
    BytesOf(INIT.b, 0x89, 0xAB, 0xCD, 0xEF);
    BytesOf(INIT.c, 0xFE, 0xDC, 0xBA, 0x98);
    BytesOf(INIT.d, 0x76, 0x54, 0x32, 0x10);
  }

  /** Four bytes have one value, and a word has no other bytes. */
  lemma BytesOf(w: Word, b0: byte, b1: byte, b2: byte, b3: byte)
    requires w == Value([b0, b1, b2, b3])
    ensures Le32(w) == [b0, b1, b2, b3]
  {
    WordBytes(w);
    SameBytes(Le32(w), [b0, b1, b2, b3]);
  }

  lemma SameBytes(x: Bytes, y: Bytes)
    requires |x| == |y| == 4 && Value(x) == Value(y)
    ensures x == y
  {
    SameDigits(x[0] as int, x[1] as int, x[2] as int, x[3] as int, y[0] as int, y[1] as int, y[2] as int, y[3] as int);
  }

  lemma SameDigits(a: int, b: int, c: int, d: int, e: int, f: int, g: int, h: int)
    requires 0 <= a < 256 && 0 <= b < 256 && 0 <= c < 256 && 0 <= e < 256 && 0 <= f < 256 && 0 <= g < 256
    requires a + 0x100 * b + 0x1_0000 * c + 0x100_0000 * d == e + 0x100 * f + 0x1_0000 * g + 0x100_0000 * h
    ensures a == e && b == f && c == g && d == h
  {
    LowDigit(a, b + 0x100 * c + 0x1_0000 * d, e, f + 0x100 * g + 0x1_0000 * h);
    LowDigit(b, c + 0x100 * d, f, g + 0x100 * h);
    LowDigit(c, d, g, h);
  }

  lemma LowDigit(a: int, x: int, b: int, y: int)
    requires 0 <= a < 256 && 0 <= b < 256 && a + 0x100 * x == b + 0x100 * y
    ensures a == b && x == y
  {
  }

  lemma Quarters(a: Bytes, b: Bytes, c: Bytes, d: Bytes)
    requires |a| == |b| == |c| == |d| == 4
    ensures
      var h := a + b + c + d;
      h[..4] == a && h[4..8] == b && h[8..12] == c && h[12..] == d
  {
  }

  /** The digest is the four words of the state after the padded message, each with its low-order byte first. */
  lemma HashReads(process: (Digest, Bytes) -> Digest, m: Bytes)
    ensures
      var h, d := Hash(process, m), Fold(process, INIT, Padded(m));
      && |h| == 16 && Value(h[..4]) == d.a && Value(h[4..8]) == d.b && Value(h[8..12]) == d.c && Value(h[12..]) == d.d
  {
    var d := Fold(process, INIT, Padded(m));
    Quarters(Le32(d.a), Le32(d.b), Le32(d.c), Le32(d.d));
    WordBytes(d.a);
    WordBytes(d.b);
    WordBytes(d.c);
    WordBytes(d.d);
  }

  /** The state after k + 1 blocks is the state after k, with block k compressed into it. */
  lemma FoldNext(process: (Digest, Bytes) -> Digest, d: Digest, data: Bytes, k: nat)
    requires (k + 1) * BLOCK <= |data|
    ensures k * BLOCK <= (k + 1) * BLOCK
    ensures Fold(process, d, data[..(k + 1) * BLOCK])
            == process(Fold(process, d, data[..k * BLOCK]), data[k * BLOCK..(k + 1) * BLOCK])
  {
    var x, b := data[..k * BLOCK], data[k * BLOCK..(k + 1) * BLOCK];
    assert data[..(k + 1) * BLOCK] == x + b;
    SlotIsMod(|x|, BLOCK);
    FoldAppend(process, d, x, b);
    assert b[..BLOCK] == b && b[BLOCK..] == [];
  }

  lemma Mod32(x: int)
    requires 0 <= x < 2 * TWO32
    ensures x % TWO32 == if x < TWO32 then x else x - TWO32
  {
  }

  /** A number of bytes in bits, as a low-order word and what is above it. */
  lemma BitWords(nbytes: int)
    requires 0 < nbytes < 0x8000_0000
    ensures 8 * nbytes == TWO32 * (nbytes / 0x2000_0000) + nbytes * 8 % TWO32 && 0 <= nbytes / 0x2000_0000 < 4
  {
  }

  /** Two words count up like one number of 64 bits. */
  lemma CarryStep(c0: Word, c1: Word, q: int, l: int)
    requires 0 <= q < 4 && 0 <= l < TWO32
    ensures
      var h, c := (c1 + q) % TWO32, (c0 + l) % TWO32;
      c + TWO32 * (if c < l then (h + 1) % TWO32 else h) == Slot(c0 + TWO32 * c1 + TWO32 * q + l, TWO64)
  {
    var t, h := c0 + TWO32 * c1 + TWO32 * q + l, (c1 + q) % TWO32;
    Mod32(c1 + q);
    Mod32(c0 + l);
    Mod32(h + 1);
    if t < TWO64 {
      SlotSmall(t, TWO64);
    } else {
      SlotPeriod(t - TWO64, TWO64);
      SlotSmall(t - TWO64, TWO64);
    }
  }

  lemma DropLonger(m: Bytes, d: Bytes, n: nat)
    requires n <= |m|
    ensures (m + d)[n..] == m[n..] + d
  {
  }

  /** Adding less than completes a block. */
  lemma TailShort(process: (Digest, Bytes) -> Digest, m: Bytes, d: Bytes)
    requires Over(|m|) + |d| < BLOCK
    ensures Over(|m + d|) == Over(|m|) + |d| && Tail(m + d) == Tail(m) + d
    ensures Fold(process, INIT, m + d) == Fold(process, INIT, m)
  {
    TailGrows(m, d);
    FoldShort(process, m, d);
  }

  lemma TailGrows(m: Bytes, d: Bytes)
    requires Over(|m|) + |d| < BLOCK
    ensures Over(|m + d|) == Over(|m|) + |d| && Tail(m + d) == Tail(m) + d
  {
    OverShort(|m|, |d|);
    DropLonger(m, d, |m| - Over(|m|));
  }

  lemma FoldShort(process: (Digest, Bytes) -> Digest, m: Bytes, d: Bytes)
    requires Over(|m|) + |d| < BLOCK
    ensures Fold(process, INIT, m + d) == Fold(process, INIT, m)
  {
    FoldTail(process, INIT, m, d);
    FoldNothing(process, Fold(process, INIT, m), Tail(m) + d);
  }

  lemma FoldNothing(process: (Digest, Bytes) -> Digest, d: Digest, data: Bytes)
    requires |data| < BLOCK
    ensures Fold(process, d, data) == d
  {
  }

  /** Completing a block. */
  lemma BlockDone(process: (Digest, Bytes) -> Digest, m: Bytes, d: Bytes)
    requires Over(|m|) + |d| == BLOCK
    ensures Over(|m + d|) == 0
    ensures Fold(process, INIT, m + d) == process(Fold(process, INIT, m), Tail(m) + d)
  {
    OverFull(|m|, |d|);
    FoldTail(process, INIT, m, d);
    var b := Tail(m) + d;
    assert |b| == BLOCK && b[..BLOCK] == b && b[BLOCK..] == [];
  }

  // The sum of offset and nbytes is computed in a 32-bit int

  const INT_MAX := 0x7FFF_FFFF

  function Int32(x: int): int
    requires 0 <= x < TWO32
  {
    if x <= INT_MAX then x else x - TWO32
  }

  /** How much the program copies behind the offset bytes of the buffer. */
  function CopyLength(offset: int, nbytes: int): int
    requires 0 < offset < BLOCK && 0 < nbytes <= INT_MAX
  {
    if Int32(offset + nbytes) > BLOCK then BLOCK - offset else nbytes
  }

  /** It stays within the buffer exactly when the sum does not overflow, and then it is all that fits. */
  lemma CopyStays(offset: int, nbytes: int)
    requires 0 < offset < BLOCK && 0 < nbytes <= INT_MAX
    ensures offset + CopyLength(offset, nbytes) <= BLOCK <==> offset + nbytes <= INT_MAX
    ensures offset + nbytes <= INT_MAX ==>
              CopyLength(offset, nbytes) == if nbytes < BLOCK - offset then nbytes else BLOCK - offset
  {
  }

  /** Behind one byte, 2^31 - 1 more would be copied past the end of the buffer. */
  lemma CopyOverruns()
    ensures CopyLength(1, INT_MAX) == INT_MAX > BLOCK - 1
  {
  }

  /** Parts whose sums do not overflow, appended one after the other to len bytes. */
  ghost predicate AllFit(len: nat, parts: seq<Bytes>)
    decreases |parts|
  {
    parts != [] ==> Over(len) + |parts[0]| <= INT_MAX && AllFit(len + |parts[0]|, parts[1..])
  }

  /** Parts of up to 2^31 - 64 bytes always fit. */
  lemma {:induction false} ShortPartsFit(len: nat, parts: seq<Bytes>)
    requires forall p | p in parts :: |p| <= INT_MAX - BLOCK + 1
    ensures AllFit(len, parts)
    decreases |parts|
  {
    if parts != [] {
      ShortPartsFit(len + |parts[0]|, parts[1..]);
    }
  }

  class State {
    const process: (Digest, Bytes) -> Digest
    const buf: array<byte>
    var count0: Word
    var count1: Word
    var abcd: Digest
    // Everything appended so far.
    ghost var message: Bytes

    ghost predicate Valid()
      reads this, buf
    {
      && buf.Length == BLOCK
      && Counted(|message|)
      && abcd == Fold(process, INIT, message)
      && buf[..Over(|message|)] == Tail(message)
    }

    /** The counter holds the length in bits, modulo 2^64. */
    ghost predicate Counted(len: int)
      reads this
    {
      len >= 0 && count0 + TWO32 * count1 == Slot(8 * len, TWO64)
    }

    constructor (process: (Digest, Bytes) -> Digest)
      ensures Valid() && message == [] && this.process == process && fresh(buf)
    {
      this.process := process;
      buf := new byte[BLOCK](_ => 0);
      count0, count1, abcd, message := 0, 0, INIT, [];
      SlotSmall(0, TWO64);
    }

    /** Adds a number of bytes to the length. */
    method Count(nbytes: int, ghost len: int)
      requires Counted(len) && 0 < nbytes < 0x8000_0000
      modifies this`count0, this`count1
      ensures Counted(len + nbytes)
    {
      BitWords(nbytes);
      CarryStep(count0, count1, nbytes / 0x2000_0000, nbytes * 8 % TWO32);
      SlotPlus(8 * len, 8 * nbytes, TWO64);
      assert 8 * len + 8 * nbytes == 8 * (len + nbytes);
      var nbits := nbytes * 8 % TWO32;
      count1 := (count1 + nbytes / 0x2000_0000) % TWO32;
      count0 := (count0 + nbits) % TWO32;
      if count0 < nbits {
        count1 := (count1 + 1) % TWO32;
      }
    }

    /** memcpy into the buffer. */
    method Keep(at: int, data: Bytes)
      requires 0 <= at && at + |data| <= buf.Length
      modifies buf
      ensures buf[..at + |data|] == old(buf[..at]) + data
    {
      for i := 0 to |data|
        invariant buf[..at + i] == old(buf[..at]) + data[..i]
      {
        buf[at + i] := data[i];
      }
    }

    lemma Offset(len: int)
      requires Counted(len)
      ensures count0 / 8 % BLOCK == Over(len)
    {
      SlotIsMod(8 * len, TWO64);
      OffsetOf(count0, count1, len, 8 * len / TWO64);
      SlotIsMod(len, BLOCK);
    }

    method Append(data: Bytes)
      requires Valid() && Over(|message|) + |data| <= INT_MAX
      modifies this`count0, this`count1, this`abcd, this`message, buf
      ensures Valid() && message == old(message) + data
    {
      Offset(|message|);
      var nbytes, left, p := |data|, |data|, 0;
      var offset := count0 / 8 % BLOCK;
      if nbytes <= 0 {
        return;
      }
      Count(nbytes, |message|);
      ghost var m := message;
      message := message + data;
      Grown(|m|, nbytes);
      if offset != 0 {
        var done;
        p, done := Complete(data, offset, m);
        if done {
          return;
        }
        left := left - p;
      } else {
        assert m + data[..0] == m;
      }
      p, left := FullBlocks(data, p, left, m);
      LastPart(data, p, left, m);
    }

    lemma Grown(len: int, nbytes: int)
      requires Counted(len + nbytes) && |message| == len + nbytes
      ensures Counted(|message|)
    {
    }

    /** Completes the block in the buffer, if there is enough for that. */
    method Complete(data: Bytes, offset: int, ghost m: Bytes) returns (p: int, done: bool)
      requires buf.Length == BLOCK && 0 < offset == Over(|m|) && buf[..offset] == Tail(m) && data != []
      requires abcd == Fold(process, INIT, m) && offset + |data| <= INT_MAX
      modifies this`abcd, buf
      ensures done ==> abcd == Fold(process, INIT, m + data) && buf[..Over(|m + data|)] == Tail(m + data)
      ensures !done ==> 0 <= p <= |data| && Over(|m + data[..p]|) == 0 && abcd == Fold(process, INIT, m + data[..p])
    {
      CopyStays(offset, |data|);
      var copy := CopyLength(offset, |data|);
      Keep(offset, data[..copy]);
      if offset + copy < BLOCK {
        assert data[..copy] == data;
        TailShort(process, m, data);
        return copy, true;
      }
      assert buf[..] == buf[..BLOCK] == Tail(m) + data[..copy];
      BlockDone(process, m, data[..copy]);
      abcd := process(abcd, buf[..]);
      return copy, false;
    }

    /** What is left over goes to the buffer. */
    method LastPart(data: Bytes, p: int, left: int, ghost m: Bytes)
      requires buf.Length == BLOCK && 0 <= p && 0 <= left < BLOCK && p + left == |data| && Over(|m + data[..p]|) == 0
      modifies buf
      ensures Fold(process, INIT, m + data) == Fold(process, INIT, m + data[..p])
      ensures buf[..Over(|m + data|)] == Tail(m + data)
    {
      assert data == data[..p] + data[p..] && m + data == (m + data[..p]) + data[p..];
      TailShort(process, m + data[..p], data[p..]);
      if left > 0 {
        Keep(0, data[p..]);
      }
    }

    /** The full blocks from position p on. */
    method FullBlocks(data: Bytes, p0: int, left0: int, ghost m: Bytes) returns (p: int, left: int)
      requires 0 <= p0 && 0 <= left0 && p0 + left0 == |data| && Over(|m + data[..p0]|) == 0
      requires abcd == Fold(process, INIT, m + data[..p0])
      modifies this`abcd
      ensures 0 <= p && 0 <= left < BLOCK && p + left == |data| && Over(|m + data[..p]|) == 0
      ensures abcd == Fold(process, INIT, m + data[..p])
    {
      p, left := p0, left0;
      while left >= BLOCK
        invariant 0 <= p && 0 <= left && p + left == |data| && Over(|m + data[..p]|) == 0
        invariant abcd == Fold(process, INIT, m + data[..p])
      {
        ghost var d := data[p..p + BLOCK];
        assert data[..p + BLOCK] == data[..p] + d && m + data[..p + BLOCK] == (m + data[..p]) + d;
        BlockDone(process, m + data[..p], d);
        assert Tail(m + data[..p]) + d == d;
        abcd := process(abcd, data[p..p + BLOCK]);
        p := p + BLOCK;
        left := left - BLOCK;
      }
    }

    /** The counter, low-order byte first. */
    method LengthBytes() returns (data: Bytes)
      requires Counted(|message|)
      ensures data == LengthField(|message|)
    {
      data := [];
      for i := 0 to 8
        invariant |data| == i
        invariant forall j | 0 <= j < i :: data[j] == Byte(if j < 4 then count0 else count1, if j < 4 then j else j - 4)
      {
        data := data + [Byte(if i / 4 == 0 then count0 else count1, i % 4)];
      }
      WordsOf(count0, count1);
    }

    /** Pads and adds the length; the digest is that of the whole message. */
    method Finish() returns (digest: Bytes)
      requires Valid()
      modifies this`count0, this`count1, this`abcd, this`message, buf
      ensures digest == Hash(process, old(message))
    {
      ghost var m := message;
      var data := LengthBytes();
      var n := (55 - count0 / 8) % BLOCK + 1;
      PadCount(|m|);
      var pad := [0x80] + seq(BLOCK - 1, _ => 0);
      assert pad[..n] == Padding(|m|);
      Append(pad[..n]);
      Append(data);
      PaddedWhole(m);
      digest := DigestBytes();
    }

    /** The digest, low-order byte of each word first. */
    method DigestBytes() returns (digest: Bytes)
      ensures digest == Le32(abcd.a) + Le32(abcd.b) + Le32(abcd.c) + Le32(abcd.d)
    {
      digest := [];
      for i := 0 to 16
        invariant |digest| == i
        invariant forall j | 0 <= j < i :: digest[j] == Byte(PartOf(abcd, j / 4), j % 4)
      {
        digest := digest + [Byte(PartOf(abcd, i / 4), i % 4)];
      }
    }

    lemma PadCount(len: int)
      requires Counted(len)
      ensures (55 - count0 / 8) % BLOCK == (55 - len) % BLOCK
    {
      Offset(len);
      SlotIsMod(len, BLOCK);
      SameShift(count0 / 8, len);
    }
  }

  function PartOf(d: Digest, i: int): Word {
    if i == 0 then d.a else if i == 1 then d.b else if i == 2 then d.c else d.d
  }

  lemma WordsOf(c0: Word, c1: Word)
    ensures 0 <= c0 + TWO32 * c1 < TWO64 && Le64(c0 + TWO32 * c1) == Le32(c0) + Le32(c1)
  {
    var n := c0 + TWO32 * c1;
    assert n % TWO32 == c0 && n / TWO32 == c1;
  }

  lemma FlattenNext(parts: seq<Bytes>, i: int, done: Bytes)
    requires 0 <= i < |parts|
    ensures done + Flatten(parts[i..]) == (done + parts[i]) + Flatten(parts[i + 1..])
  {
    assert parts[i..][1..] == parts[i + 1..];
  }

  /** However a message is split, appending the parts gives the digest of the whole. */
  method HashParts(process: (Digest, Bytes) -> Digest, parts: seq<Bytes>) returns (digest: Bytes)
    requires AllFit(0, parts)
    ensures digest == Hash(process, Flatten(parts))
  {
    var state := AppendAll(process, parts);
    digest := state.Finish();
  }

  method AppendAll(process: (Digest, Bytes) -> Digest, parts: seq<Bytes>) returns (state: State)
    requires AllFit(0, parts)
    ensures fresh(state) && fresh(state.buf) && state.Valid() && state.process == process
    ensures state.message == Flatten(parts)
  {
    state := new State(process);
    DueFirst(parts);
    for i := 0 to |parts|
      invariant state.Valid() && state.process == process && fresh(state) && fresh(state.buf)
      invariant IsDue(state.message, parts, i)
    {
      DueNext(state.message, parts, i);
      state.Append(parts[i]);
    }
    DueLast(state.message, parts);
  }

  /** The parts from i on are still to come behind done; asserting Due of some number brings in what that says. */
  ghost predicate IsDue(done: Bytes, parts: seq<Bytes>, i: int) {
    && 0 <= i <= |parts|
    && forall k {:trigger Due(k)} | Due(k) ::
         done + Flatten(parts[i..]) == Flatten(parts) && AllFit(|done|, parts[i..])
  }

  ghost predicate Due(k: int) {
    true
  }

  lemma DueFirst(parts: seq<Bytes>)
    requires AllFit(0, parts)
    ensures IsDue([], parts, 0)
  {
    assert parts[0..] == parts && [] + Flatten(parts) == Flatten(parts);
  }

  lemma DueNext(done: Bytes, parts: seq<Bytes>, i: int)
    requires IsDue(done, parts, i) && i < |parts|
    ensures Over(|done|) + |parts[i]| <= INT_MAX && IsDue(done + parts[i], parts, i + 1)
  {
    assert Due(0);
    assert parts[i..][1..] == parts[i + 1..];
    FlattenNext(parts, i, done);
  }

  lemma DueLast(done: Bytes, parts: seq<Bytes>)
    requires IsDue(done, parts, |parts|)
    ensures done == Flatten(parts)
  {
    assert Due(0);
    assert parts[|parts|..] == [] && done + [] == done;
  }
}
