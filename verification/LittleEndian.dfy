/** Numbers of 16, 32 and 64 bits as they lie in memory, the lowest byte first. */
module LittleEndian {
  import opened StringMoves

  const LIMIT: int := 0x1_0000_0000

  function Read16(m: Bytes, at: int): (v: int)
    requires 0 <= at && at + 2 <= |m|
    ensures 0 <= v < 0x1_0000
  {
    m[at] as int + 0x100 * m[at + 1] as int
  }

  function Read32(m: Bytes, at: int): (v: int)
    requires 0 <= at && at + 4 <= |m|
    ensures 0 <= v < LIMIT
  {
    Read16(m, at) + 0x1_0000 * Read16(m, at + 2)
  }

  function Read64(m: Bytes, at: int): (v: int)
    requires 0 <= at && at + 8 <= |m|
    ensures 0 <= v < LIMIT * LIMIT
  {
    Read32(m, at) + LIMIT * Read32(m, at + 4)
  }

  /** The number that n bytes stand for, the lowest first. */
  function Little(m: Bytes, at: int, n: nat): (v: nat)
    decreases n
  {
    if n == 0 || !(0 <= at < |m|) then 0 else m[at] as int + 0x100 * Little(m, at + 1, n - 1)
  }

  lemma Little1(m: Bytes, at: int)
    requires 0 <= at < |m|
    ensures Little(m, at, 1) == m[at] as int
  {
  }

  lemma Little2(m: Bytes, at: int)
    requires 0 <= at && at + 2 <= |m|
    ensures Little(m, at, 2) == Read16(m, at)
  {
    assert Little(m, at + 1, 1) == m[at + 1] as int;
  }

  /** Two bytes, and the bytes behind them. */
  lemma LittleTwo(m: Bytes, at: int, n: nat)
    requires 0 <= at && at + 2 <= |m|
    ensures Little(m, at, n + 2) == Read16(m, at) + 0x1_0000 * Little(m, at + 2, n)
  {
    assert Little(m, at + 1, n + 1) == m[at + 1] as int + 0x100 * Little(m, at + 2, n);
  }

  lemma Little4(m: Bytes, at: int)
    requires 0 <= at && at + 4 <= |m|
    ensures Little(m, at, 4) == Read32(m, at)
  {
    hide Read16, Little;
    LittleTwo(m, at, 2);
    Little2(m, at + 2);
  }

  lemma Little8(m: Bytes, at: int)
    requires 0 <= at && at + 8 <= |m|
    ensures Little(m, at, 8) == Read64(m, at)
  {
    hide Read16, Little;
    LittleTwo(m, at, 6);
    LittleTwo(m, at + 2, 4);
    LittleTwo(m, at + 4, 2);
    Little2(m, at + 6);
  }

  /** b is at least as long as a and agrees with it on [lo, hi). */
  predicate Same(a: Bytes, b: Bytes, lo: int, hi: int) {
    |a| <= |b| && forall p :: 0 <= p < |a| && lo <= p < hi ==> a[p] == b[p]
  }

  lemma SameReads(a: Bytes, b: Bytes, at: int)
    requires 0 <= at
    ensures at + 2 <= |a| && Same(a, b, at, at + 2) ==> Read16(a, at) == Read16(b, at)
    ensures at + 4 <= |a| && Same(a, b, at, at + 4) ==> Read32(a, at) == Read32(b, at)
    ensures at + 8 <= |a| && Same(a, b, at, at + 8) ==> Read64(a, at) == Read64(b, at)
  {
  }

  lemma SubSlice(a: Bytes, s: int, b: Bytes, d: int, n: int, i: int, j: int)
    requires 0 <= s && s + n <= |a| && 0 <= d && d + n <= |b| && 0 <= i <= j <= n
    requires b[d..d + n] == a[s..s + n]
    ensures b[d + i..d + j] == a[s + i..s + j]
  {
    var x, y := b[d + i..d + j], a[s + i..s + j];
    forall k | 0 <= k < j - i
      ensures x[k] == y[k]
    {
      assert b[d..d + n][i + k] == a[s..s + n][i + k];
    }
  }

  lemma SliceRead(a: Bytes, s: int, b: Bytes, d: int)
    requires 0 <= s && s + 4 <= |a| && 0 <= d && d + 4 <= |b| && b[d..d + 4] == a[s..s + 4]
    ensures Read32(b, d) == Read32(a, s)
  {
    assert b[d..d + 4] == [b[d], b[d + 1], b[d + 2], b[d + 3]];
    assert a[s..s + 4] == [a[s], a[s + 1], a[s + 2], a[s + 3]];
  }

  /** Four bits with value v. */
  function Nibble(v: int): (b: Byte)
    requires 0 <= v < 0x10
    ensures b < 0x10 && b as int == v
  {
    var b3 := v >= 8;
    var r2 := if b3 then v - 8 else v;
    var b2 := r2 >= 4;
    var r1 := if b2 then r2 - 4 else r2;
    var b1 := r1 >= 2;
    var r0 := if b1 then r1 - 2 else r1;
    (if b3 then 8 else 0) | (if b2 then 4 else 0) | (if b1 then 2 else 0) | (if r0 == 1 then 1 else 0)
  }

  lemma NibblesJoin(h: Byte, l: Byte)
    requires h < 0x10 && l < 0x10
    ensures ((h << 4) | l) as int == 0x10 * (h as int) + l as int
  {
  }

  function ByteOf(v: int): (b: Byte)
    requires 0 <= v < 0x100
    ensures b as int == v
  {
    NibblesJoin(Nibble(v / 0x10), Nibble(v % 0x10));
    (Nibble(v / 0x10) << 4) | Nibble(v % 0x10)
  }

  function SpelledHalf(v: int): (b: Bytes)
    requires 0 <= v < 0x1_0000
    ensures |b| == 2 && Read16(b, 0) == v
  {
    [ByteOf(v % 0x100), ByteOf(v / 0x100)]
  }

  function Spelled(v: int): (b: Bytes)
    requires 0 <= v < LIMIT
    ensures |b| == 4 && Read32(b, 0) == v
  {
    hide ByteOf;
    SpelledHalf(v % 0x1_0000) + SpelledHalf(v / 0x1_0000)
  }

  function Write32(m: Bytes, at: int, v: int): (w: Bytes)
    requires 0 <= at && at + 4 <= |m| && 0 <= v < LIMIT
    ensures |w| == |m| && Read32(w, at) == v
    ensures forall i :: 0 <= i < |m| && !(at <= i < at + 4) ==> w[i] == m[i]
  {
    m[..at] + Spelled(v) + m[at + 4..]
  }

  lemma SpelledRead(m: Bytes, at: int)
    requires 0 <= at && at + 4 <= |m|
    ensures Spelled(Read32(m, at)) == m[at..at + 4]
  {
    hide ByteOf, SpelledHalf, Read16;
    HalfSpelled(m, at);
    HalfSpelled(m, at + 2);
    Halves(Read16(m, at), Read16(m, at + 2));
    assert m[at..at + 4] == m[at..at + 2] + m[at + 2..at + 4];
  }

  lemma Halves(low: int, high: int)
    requires 0 <= low < 0x1_0000
    ensures (low + 0x1_0000 * high) % 0x1_0000 == low && (low + 0x1_0000 * high) / 0x1_0000 == high
  {
  }

  /** Writing what is there changes nothing. */
  lemma WrittenAgain(m: Bytes, at: int)
    requires 0 <= at && at + 4 <= |m|
    ensures Write32(m, at, Read32(m, at)) == m
  {
    hide Read32, Spelled;
    SpelledRead(m, at);
  }

  lemma HalfSpelled(m: Bytes, at: int)
    requires 0 <= at && at + 2 <= |m|
    ensures SpelledHalf(Read16(m, at)) == m[at..at + 2]
  {
    hide ByteOf;
    var low, high := m[at], m[at + 1];
    assert Read16(m, at) == low as int + 0x100 * high as int;
    BytesSpelled(low, high);
    assert m[at..at + 2] == [low, high];
  }

  lemma BytesSpelled(low: Byte, high: Byte)
    ensures var v := low as int + 0x100 * high as int;
            0 <= v < 0x1_0000 && ByteOf(v % 0x100) == low && ByteOf(v / 0x100) == high
  {
    hide ByteOf;
    ByteBack(low);
    ByteBack(high);
    Digits(low as int, high as int);
  }

  lemma Digits(low: int, high: int)
    requires 0 <= low < 0x100
    ensures (low + 0x100 * high) % 0x100 == low && (low + 0x100 * high) / 0x100 == high
  {
  }

  lemma SameByte(a: Byte, b: Byte)
    ensures a as int == b as int ==> a == b
  {
  }

  lemma ByteBack(b: Byte)
    ensures 0 <= b as int < 0x100 && ByteOf(b as int) == b
  {
    hide ByteOf;
    SameByte(ByteOf(b as int), b);
  }

  lemma SameWithin(a: Bytes, b: Bytes, lo: int, hi: int, i: int, j: int)
    requires Same(a, b, lo, hi) && lo <= i && j <= hi
    ensures Same(a, b, i, j)
  {
  }

  lemma SameTwice(a: Bytes, b: Bytes, c: Bytes, lo: int, hi: int)
    requires Same(a, b, lo, hi) && Same(b, c, lo, hi)
    ensures Same(a, c, lo, hi)
  {
  }
}
