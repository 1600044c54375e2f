/** memset: the word-at-a-time version of libnuke against the byte-at-a-time version of the loader. */
module StringFills {
  import opened StringMoves

  /** What a fill is meant to do. */
  function Filled(m: Bytes, dest: int, v: Byte, n: nat): Bytes
    requires 0 <= dest && dest + n <= |m|
  {
    m[..dest] + seq(n, i => v) + m[dest + n..]
  }

  /** k bytes set to v, one after the other. */
  function FillUp(m: Bytes, d: int, v: Byte, k: nat): Outcome
    decreases k
  {
    if k == 0 then Done(m)
    else if !(0 <= d < |m|) then Fault
    else FillUp(m[d := v], d + 1, v, k - 1)
  }

  /** A 64-bit word by its bytes, the lowest first, which is also how it lies in memory. */
  datatype Word = Word(b0: Byte, b1: Byte, b2: Byte, b3: Byte, b4: Byte, b5: Byte, b6: Byte, b7: Byte) {
    function InMemory(): (w: Bytes)
      ensures |w| == 8
    {
      [b0, b1, b2, b3, b4, b5, b6, b7]
    }
  }

  /** What the high bytes of the signed char v become when it is widened to 64 bits. */
  function Sign(v: Byte): Byte {
    if v < 0x80 then 0 else 0xFF
  }

  /** The word moves up by one byte, and the fill byte comes in below, widened with its sign. */
  function Round(vb: Word, v: Byte): Word {
    var s := Sign(v);
    Word(v, vb.b0 | s, vb.b1 | s, vb.b2 | s, vb.b3 | s, vb.b4 | s, vb.b5 | s, vb.b6 | s)
  }

  /** vb after k rounds of its loop. */
  function Spread(v: Byte, k: nat): Word {
    if k == 0 then Word(0, 0, 0, 0, 0, 0, 0, 0) else Round(Spread(v, k - 1), v)
  }

  /** The word repeats the byte only if sign extension does no harm. */
  lemma WordRepeats(v: Byte)
    ensures Spread(v, 8) == var w := if v < 0x80 then v else 0xFF; Word(v, w, w, w, w, w, w, w)
  {
    SpreadPattern(v, 8);
  }

  lemma RoundShifts(vb: Word, v: Byte)
    ensures v < 0x80 ==> Round(vb, v) == Word(v, vb.b0, vb.b1, vb.b2, vb.b3, vb.b4, vb.b5, vb.b6)
    ensures v >= 0x80 ==> Round(vb, v) == Word(v, 0xFF, 0xFF, 0xFF, 0xFF, 0xFF, 0xFF, 0xFF)
  {
  }

  /** After k rounds: k copies of v below zeros, or all ones above the lowest byte from the first round on. */
  function Pattern(v: Byte, k: nat): Word {
    if v >= 0x80 then Word(v, 0xFF, 0xFF, 0xFF, 0xFF, 0xFF, 0xFF, 0xFF)
    else Word(v, if k > 1 then v else 0, if k > 2 then v else 0, if k > 3 then v else 0,
              if k > 4 then v else 0, if k > 5 then v else 0, if k > 6 then v else 0, if k > 7 then v else 0)
  }

  lemma {:induction false} SpreadPattern(v: Byte, k: nat)
    requires 1 <= k
    ensures Spread(v, k) == Pattern(v, k)
    decreases k
  {
    hide Round;
    RoundShifts(Spread(v, k - 1), v);
    if k == 1 {
      assert Spread(v, 0) == Word(0, 0, 0, 0, 0, 0, 0, 0);
    } else {
      SpreadPattern(v, k - 1);
    }
  }

  function StoreFill(m: Bytes, d: int, w: Bytes): Bytes
    requires |w| == 8 && 0 <= d && d + 8 <= |m|
  {
    m[..d] + w + m[d + 8..]
  }

  /** k words stored, one after the other. */
  function FillWords(m: Bytes, d: int, w: Bytes, k: nat): Outcome
    requires |w| == 8
    decreases k
  {
    if k == 0 then Done(m)
    else if !(0 <= d && d + 8 <= |m|) then Fault
    else FillWords(StoreFill(m, d, w), d + 8, w, k - 1)
  }

  function Phases(m: Bytes, d: int, v: Byte, a: nat, w: nat, b: nat): Outcome {
    match FillUp(m, d, v, a)
    case Fault => Fault
    case Done(m1) =>
      match FillWords(m1, d + a, Spread(v, 8).InMemory(), w)
      case Fault => Fault
      case Done(m2) => FillUp(m2, d + a + 8 * w, v, b)
  }

  /** memset of libnuke, phase by phase; v is the low byte of its argument. */
  function WordMemset(m: Bytes, dest: int, v: Byte, n: nat): Outcome
    requires 0 <= dest && n < WRAP
  {
    var a := (n % 8 + dest) % 8;
    Phases(m, dest, v, a, n / 8, Counted(n % 8, a))
  }

  /** The calls for which memset does what it is meant to. */
  predicate Fillable(dest: int, v: Byte, n: nat)
    requires 0 <= dest
  {
    (n % 8 + dest) % 8 <= n % 8 && (n < 8 || v < 0x80 || v == 0xFF)
  }

  lemma FilledAt(m: Bytes, dest: int, v: Byte, n: nat, i: int)
    requires 0 <= dest && dest + n <= |m| && 0 <= i < |m|
    ensures |Filled(m, dest, v, n)| == |m|
    ensures Filled(m, dest, v, n)[i] == if dest <= i < dest + n then v else m[i]
  {
  }

  lemma FilledTwice(m: Bytes, d: int, v: Byte, j: nat, k: nat)
    requires 0 <= d && d + j + k <= |m|
    ensures |Filled(m, d, v, j)| == |m|
    ensures Filled(Filled(m, d, v, j), d + j, v, k) == Filled(m, d, v, j + k)
  {
    var a := Filled(m, d, v, j);
    var b, c := Filled(a, d + j, v, k), Filled(m, d, v, j + k);
    forall i | 0 <= i < |m|
      ensures b[i] == c[i]
    {
      FilledAt(a, d + j, v, k, i);
      FilledAt(m, d, v, j + k, i);
      FilledAt(m, d, v, j, i);
    }
  }

  lemma {:induction false} FillUpFills(m: Bytes, d: int, v: Byte, k: nat)
    requires 0 <= d && d + k <= |m|
    ensures FillUp(m, d, v, k) == Done(Filled(m, d, v, k))
    decreases k
  {
    if k == 0 {
      assert Filled(m, d, v, 0) == m;
    } else {
      assert m[d := v] == Filled(m, d, v, 1);
      FillUpFills(m[d := v], d + 1, v, k - 1);
      FilledTwice(m, d, v, 1, k - 1);
    }
  }

  lemma {:induction false} FillWordsFills(m: Bytes, d: int, v: Byte, w: Bytes, k: nat)
    requires 0 <= d && d + 8 * k <= |m| && |w| == 8 && forall i :: 0 <= i < 8 ==> w[i] == v
    ensures FillWords(m, d, w, k) == Done(Filled(m, d, v, 8 * k))
    decreases k
  {
    if k == 0 {
      assert Filled(m, d, v, 0) == m;
    } else {
      assert w == seq(8, i => v);
      assert StoreFill(m, d, w) == Filled(m, d, v, 8);
      FilledTwice(m, d, v, 8, 8 * (k - 1));
      FillWordsFills(Filled(m, d, v, 8), d + 8, v, w, k - 1);
    }
  }

  lemma FillableFills(m: Bytes, dest: int, v: Byte, n: nat)
    requires 0 <= dest && dest + n <= |m| && n < WRAP && Fillable(dest, v, n)
    ensures WordMemset(m, dest, v, n) == Done(Filled(m, dest, v, n))
  {
    hide Filled, Spread;
    var a := (n % 8 + dest) % 8;
    var w, b := n / 8, n % 8 - a;
    var word := Spread(v, 8).InMemory();
    WordRepeats(v);
    FillUpFills(m, dest, v, a);
    FilledTwice(m, dest, v, a, 8 * w);
    var m1 := Filled(m, dest, v, a);
    if w > 0 {
      FillWordsFills(m1, dest + a, v, word, w);
    } else {
      FilledNothing(m1, dest + a, v);
    }
    FilledTwice(m, dest, v, a + 8 * w, b);
    FillUpFills(Filled(m, dest, v, a + 8 * w), dest + a + 8 * w, v, b);
  }

  lemma FilledNothing(m: Bytes, d: int, v: Byte)
    requires 0 <= d <= |m|
    ensures Filled(m, d, v, 0) == m
  {
  }

  /** Bytes written upwards from d leave the lower ones alone. */
  lemma {:induction false} FillUpEnds(m: Bytes, d: int, v: Byte, k: nat)
    ensures var r := FillUp(m, d, v, k);
            r.Done? ==> |r.bytes| == |m| && (k > 0 ==> d + k <= |m|) && forall p :: 0 <= p < |m| && p < d ==>
                r.bytes[p] == m[p]
    ensures k > |m| ==> FillUp(m, d, v, k) == Fault
    decreases k
  {
    if k > 0 && 0 <= d < |m| {
      FillUpEnds(m[d := v], d + 1, v, k - 1);
    }
  }

  lemma {:induction false} FillWordsEnds(m: Bytes, d: int, w: Bytes, k: nat)
    requires |w| == 8
    ensures var r := FillWords(m, d, w, k);
            r.Done? ==> |r.bytes| == |m| && (forall p :: 0 <= p < |m| && p < d ==> r.bytes[p] == m[p])
                        && (k > 0 ==> 0 <= d && d + 8 <= |m| && forall i :: 0 <= i < 8 ==> r.bytes[d + i] == w[i])
    decreases k
  {
    if k > 0 && 0 <= d && d + 8 <= |m| {
      FillWordsEnds(StoreFill(m, d, w), d + 8, w, k - 1);
    }
  }

  /** memset keeps its promise on every content of memory exactly for the calls that are fillable. */
  lemma MemsetExactly(m: Bytes, dest: int, v: Byte, n: nat)
    requires 0 <= dest && dest + n <= |m| <= MEMORY_LIMIT
    ensures WordMemset(m, dest, v, n) == Done(Filled(m, dest, v, n)) <==> Fillable(dest, v, n)
  {
    hide Spread, FillUp, FillWords, Filled;
    if Fillable(dest, v, n) {
      FillableFills(m, dest, v, n);
    } else {
      var a := (n % 8 + dest) % 8;
      var w, b := n / 8, Counted(n % 8, a);
      var word := Spread(v, 8).InMemory();
      WordRepeats(v);
      FillUpEnds(m, dest, v, a);
      if FillUp(m, dest, v, a).Done? {
        var m1 := FillUp(m, dest, v, a).bytes;
        FillWordsEnds(m1, dest + a, word, w);
        if FillWords(m1, dest + a, word, w).Done? {
          var m2 := FillWords(m1, dest + a, word, w).bytes;
          FillUpEnds(m2, dest + a + 8 * w, v, b);
          if w > 0 {
            FilledAt(m, dest, v, n, dest + a + 1);
            assert m2[dest + a + 1] == word[1];
          }
        }
      }
    }
  }

  /** Eight bytes filled with 0x80: only the lowest comes out right. */
  lemma HighByteSpreads(m: Bytes)
    requires |m| == 8
    ensures WordMemset(m, 0, 0x80, 8) == Done([0x80, 0xFF, 0xFF, 0xFF, 0xFF, 0xFF, 0xFF, 0xFF])
  {
    hide Spread;
    WordRepeats(0x80);
    var word := Spread(0x80, 8).InMemory();
    assert StoreFill(m, 0, word) == word;
    assert FillWords(m, 0, word, 1) == Done(word);
  }

  /** The alignment loop. */
  method AlignFill(mem: array<Byte>, dest: int, v: Byte, count: nat) returns (fault: bool, b: nat)
    requires 0 <= dest && count < WRAP
    modifies mem
    ensures var a := (count + dest) % 8;
            var r := FillUp(old(mem[..]), dest, v, a);
            (fault <==> r == Fault) && (!fault ==> r == Done(mem[..]) && b == Counted(count, a))
  {
    var d := dest;
    b := count;
    ghost var a := (count + dest) % 8;
    while (b + dest) % 8 != 0
      invariant (b + dest) % 8 <= a && b == Counted(count, a - (b + dest) % 8)
      invariant FillUp(mem[..], d, v, (b + dest) % 8) == FillUp(old(mem[..]), dest, v, a)
      decreases (b + dest) % 8
    {
      if !(0 <= d < mem.Length) {
        return true, b;
      }
      ghost var m := mem[..];
      mem[d] := v;
      assert mem[..] == m[d := v];
      CounterStep(count, dest, b);
      b := if b == 0 then WRAP - 1 else b - 1;
      d := d + 1;
    }
    fault := false;
  }

  /** while(b--) */
  method FillLoop(mem: array<Byte>, to: int, v: Byte, count: nat) returns (fault: bool)
    modifies mem
    ensures var r := FillUp(old(mem[..]), to, v, count);
            (fault <==> r == Fault) && (!fault ==> r == Done(mem[..]))
  {
    var d, b: nat := to, count;
    while b > 0
      invariant FillUp(mem[..], d, v, b) == FillUp(old(mem[..]), to, v, count)
    {
      if !(0 <= d < mem.Length) {
        return true;
      }
      ghost var m := mem[..];
      mem[d] := v;
      assert mem[..] == m[d := v];
      d, b := d + 1, b - 1;
    }
    fault := false;
  }

  /** while(n--), by words. */
  method WordFillLoop(mem: array<Byte>, to: int, w: Bytes, words: nat) returns (fault: bool)
    requires |w| == 8
    modifies mem
    ensures var r := FillWords(old(mem[..]), to, w, words);
            (fault <==> r == Fault) && (!fault ==> r == Done(mem[..]))
  {
    var d, n: nat := to, words;
    while n > 0
      invariant FillWords(mem[..], d, w, n) == FillWords(old(mem[..]), to, w, words)
    {
      if !(0 <= d && d + 8 <= mem.Length) {
        return true;
      }
      ghost var m := mem[..];
      forall i | 0 <= i < 8 {
        mem[d + i] := w[i];
      }
      assert mem[..] == StoreFill(m, d, w);
      d, n := d + 8, n - 1;
    }
    fault := false;
  }

  /** The function of string.cpp, in place. */
  method Memset(mem: array<Byte>, dest: int, v: Byte, n: nat) returns (fault: bool)
    requires 0 <= dest && n < WRAP
    modifies mem
    ensures fault <==> WordMemset(old(mem[..]), dest, v, n) == Fault
    ensures !fault ==> WordMemset(old(mem[..]), dest, v, n) == Done(mem[..])
  {
    hide FillUp, FillWords;
    var b;
    fault, b := AlignFill(mem, dest, v, n % 8);
    if fault {
      return;
    }
    var aligned := (n % 8 + dest) % 8;
    var vb := Word(0, 0, 0, 0, 0, 0, 0, 0);
    var i := 0;
    while i < 8
      invariant 0 <= i <= 8 && vb == Spread(v, i)
    {
      vb := Round(vb, v);
      i := i + 1;
    }
    fault := WordFillLoop(mem, dest + aligned, vb.InMemory(), n / 8);
    if fault {
      return;
    }
    fault := FillLoop(mem, dest + aligned + 8 * (n / 8), v, b);
  }

  /** memset of the loader: byte by byte. */
  method ByteMemset(mem: array<Byte>, dest: int, v: Byte, n: nat)
    requires 0 <= dest && dest + n <= mem.Length
    modifies mem
    ensures mem[..] == Filled(old(mem[..]), dest, v, n)
  {
    FillUpFills(mem[..], dest, v, n);
    var d, k: nat := dest, n;
    while k > 0
      invariant d == dest + n - k && k <= n
      invariant FillUp(mem[..], d, v, k) == FillUp(old(mem[..]), dest, v, n)
    {
      ghost var m := mem[..];
      mem[d] := v;
      assert mem[..] == m[d := v];
      d, k := d + 1, k - 1;
    }
  }
}
