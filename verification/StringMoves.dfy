/** memmove: the word-at-a-time version of libnuke against the byte-at-a-time version of the loader. */
module StringMoves {

  type Byte = bv8
  type Bytes = seq<Byte>

  datatype Outcome = Fault | Done(bytes: Bytes)

  /** The address space wraps here; memory that exists lies well below. */
  const WRAP: int := 0x1_0000_0000_0000_0000
  const MEMORY_LIMIT: int := 0x7FFF_FFFF_FFFF_FFF0

  /** What a move is meant to do: the n bytes at src, as they were, now also stand at dest; nothing else changes. */
  function Moved(m: Bytes, dest: int, src: int, n: nat): Bytes
    requires 0 <= dest && 0 <= src && dest + n <= |m| && src + n <= |m|
  {
    m[..dest] + m[src..src + n] + m[dest + n..]
  }

  /** k bytes copied one by one, upwards; a fault when either pointer leaves memory. */
  function CopyUp(m: Bytes, d: int, s: int, k: nat): Outcome
    decreases k
  {
    if k == 0 then Done(m)
    else if !(0 <= d < |m| && 0 <= s < |m|) then Fault
    else CopyUp(m[d := m[s]], d + 1, s + 1, k - 1)
  }

  /** k bytes copied one by one, downwards. */
  function CopyDown(m: Bytes, d: int, s: int, k: nat): Outcome
    decreases k
  {
    if k == 0 then Done(m)
    else if !(0 <= d < |m| && 0 <= s < |m|) then Fault
    else CopyDown(m[d := m[s]], d - 1, s - 1, k - 1)
  }

  /** One word of eight bytes, read as a whole before it is written. */
  function StoreWord(m: Bytes, d: int, s: int): Bytes
    requires 0 <= d && 0 <= s && d + 8 <= |m| && s + 8 <= |m|
  {
    Moved(m, d, s, 8)
  }

  /** k words copied one by one, upwards. */
  function WordsUp(m: Bytes, d: int, s: int, k: nat): Outcome
    decreases k
  {
    if k == 0 then Done(m)
    else if !(0 <= d && 0 <= s && d + 8 <= |m| && s + 8 <= |m|) then Fault
    else WordsUp(StoreWord(m, d, s), d + 8, s + 8, k - 1)
  }

  /** k words copied one by one, downwards. */
  function WordsDown(m: Bytes, d: int, s: int, k: nat): Outcome
    decreases k
  {
    if k == 0 then Done(m)
    else if !(0 <= d && 0 <= s && d + 8 <= |m| && s + 8 <= |m|) then Fault
    else WordsDown(StoreWord(m, d, s), d - 8, s - 8, k - 1)
  }

  /** Too close for whole words: the distance is at most eight bytes either way. */
  predicate Close(dest: int, src: int) {
    -8 <= dest - src <= 8
  }

  /** The counter b on entry to the alignment loop, and the number of words. */
  function ByteCount(dest: int, src: int, n: nat): nat {
    if Close(dest, src) then n else n % 8
  }

  function WordCount(dest: int, src: int, n: nat): nat {
    if Close(dest, src) then 0 else n / 8
  }

  /** The number of rounds of the alignment loop; it looks at the counter, not at the pointer. */
  function AlignCount(dest: int, src: int, n: nat): nat
    requires 0 <= dest
  {
    (ByteCount(dest, src, n) + dest) % 8
  }

  /** What the alignment loop leaves of the counter, an unsigned 64-bit number. */
  function TailCount(dest: int, src: int, n: nat): nat
    requires 0 <= dest
  {
    var rest := ByteCount(dest, src, n) - AlignCount(dest, src, n);
    if rest < 0 then rest + WRAP else rest
  }

  /** Upwards: a bytes to align, w words, b bytes that are left. */
  function PhasesUp(m: Bytes, d: int, s: int, a: nat, w: nat, b: nat): Outcome {
    match CopyUp(m, d, s, a)
    case Fault => Fault
    case Done(m1) =>
      match WordsUp(m1, d + a, s + a, w)
      case Fault => Fault
      case Done(m2) => CopyUp(m2, d + a + 8 * w, s + a + 8 * w, b)
  }

  function PhasesDown(m: Bytes, d: int, s: int, a: nat, w: nat, b: nat): Outcome {
    match CopyDown(m, d, s, a)
    case Fault => Fault
    case Done(m1) =>
      match WordsDown(m1, d - a, s - a, w)
      case Fault => Fault
      case Done(m2) => CopyDown(m2, d - a - 8 * w, s - a - 8 * w, b)
  }

  /** memmove of libnuke, phase by phase. */
  function WordMemmove(m: Bytes, dest: int, src: int, n: nat): Outcome
    requires 0 <= dest && 0 <= src
  {
    var a, w, b := AlignCount(dest, src, n), WordCount(dest, src, n), TailCount(dest, src, n);
    if dest <= src then PhasesUp(m, dest, src, a, w, b)
    else PhasesDown(m, dest + n - 1, src + n - 1, a, w, b)
  }

  /** The calls for which memmove does what it is meant to: the alignment loop does not run the counter below
      zero, and no word is moved backwards. */
  predicate Handled(dest: int, src: int, n: nat)
    requires 0 <= dest
  {
    AlignCount(dest, src, n) <= ByteCount(dest, src, n) && !(dest - src > 8 && n >= 8)
  }

  lemma MovedAt(m: Bytes, dest: int, src: int, n: nat, i: int)
    requires 0 <= dest && 0 <= src && dest + n <= |m| && src + n <= |m| && 0 <= i < |m|
    ensures |Moved(m, dest, src, n)| == |m|
    ensures Moved(m, dest, src, n)[i] == if dest <= i < dest + n then m[src + (i - dest)] else m[i]
  {
  }

  /** Two moves in a row, upwards, are one. */
  lemma MovedUpTwice(m: Bytes, d: int, s: int, j: nat, k: nat)
    requires 0 <= d <= s && s + j + k <= |m|
    ensures Moved(Moved(m, d, s, j), d + j, s + j, k) == Moved(m, d, s, j + k)
  {
    var a := Moved(m, d, s, j);
    var b := Moved(a, d + j, s + j, k);
    var c := Moved(m, d, s, j + k);
    forall i | 0 <= i < |m|
      ensures b[i] == c[i]
    {
      MovedAt(a, d + j, s + j, k, i);
      MovedAt(m, d, s, j + k, i);
      MovedAt(m, d, s, j, i);
      if d + j <= i < d + j + k {
        MovedAt(m, d, s, j, s + (i - d));
      }
    }
  }

  /** Two moves in a row, downwards, are one: first the upper k bytes, then the lower j. */
  lemma MovedDownTwice(m: Bytes, d: int, s: int, j: nat, k: nat)
    requires 0 <= s <= d && d + j + k <= |m|
    ensures Moved(Moved(m, d + j, s + j, k), d, s, j) == Moved(m, d, s, j + k)
  {
    var a := Moved(m, d + j, s + j, k);
    var b := Moved(a, d, s, j);
    var c := Moved(m, d, s, j + k);
    forall i | 0 <= i < |m|
      ensures b[i] == c[i]
    {
      MovedAt(a, d, s, j, i);
      MovedAt(m, d, s, j + k, i);
      MovedAt(m, d + j, s + j, k, i);
      if d <= i < d + j {
        MovedAt(m, d + j, s + j, k, s + (i - d));
      }
    }
  }

  lemma MovedOne(m: Bytes, d: int, s: int)
    requires 0 <= d < |m| && 0 <= s < |m|
    ensures m[d := m[s]] == Moved(m, d, s, 1)
  {
  }

  lemma MovedNone(m: Bytes, d: int, s: int)
    requires 0 <= d <= |m| && 0 <= s <= |m|
    ensures Moved(m, d, s, 0) == m
  {
  }

  lemma {:induction false} CopyUpMoves(m: Bytes, d: int, s: int, k: nat)
    requires 0 <= d <= s && s + k <= |m|
    ensures CopyUp(m, d, s, k) == Done(Moved(m, d, s, k))
    decreases k
  {
    hide Moved;
    if k == 0 {
      MovedNone(m, d, s);
    } else {
      MovedOne(m, d, s);
      CopyUpMoves(m[d := m[s]], d + 1, s + 1, k - 1);
      MovedUpTwice(m, d, s, 1, k - 1);
    }
  }

  lemma {:induction false} CopyDownMoves(m: Bytes, d: int, s: int, k: nat)
    requires -1 <= s - k && s <= d && d < |m|
    ensures CopyDown(m, d, s, k) == Done(Moved(m, d - k + 1, s - k + 1, k))
    decreases k
  {
    hide Moved;
    if k == 0 {
      MovedNone(m, d + 1, s + 1);
    } else {
      MovedOne(m, d, s);
      CopyDownMoves(m[d := m[s]], d - 1, s - 1, k - 1);
      MovedDownTwice(m, d - k + 1, s - k + 1, k - 1, 1);
    }
  }

  lemma {:induction false} WordsUpMoves(m: Bytes, d: int, s: int, k: nat)
    requires 0 <= d <= s && s + 8 * k <= |m|
    ensures WordsUp(m, d, s, k) == Done(Moved(m, d, s, 8 * k))
    decreases k
  {
    hide Moved;
    if k == 0 {
      MovedNone(m, d, s);
    } else {
      MovedLength(m, d, s, 8);
      WordsUpMoves(StoreWord(m, d, s), d + 8, s + 8, k - 1);
      MovedUpTwice(m, d, s, 8, 8 * (k - 1));
    }
  }

  /** Upwards: aligned bytes, words and the bytes that are left make one move. */
  lemma PhasesUpMove(m: Bytes, d: int, s: int, a: nat, w: nat, b: nat)
    requires 0 <= d <= s && s + a + 8 * w + b <= |m|
    ensures PhasesUp(m, d, s, a, w, b) == Done(Moved(m, d, s, a + 8 * w + b))
  {
    hide Moved, CopyUp, WordsUp;
    CopyUpMoves(m, d, s, a);
    MovedLength(m, d, s, a);
    WordsUpMoves(Moved(m, d, s, a), d + a, s + a, w);
    MovedUpTwice(m, d, s, a, 8 * w);
    MovedLength(m, d, s, a + 8 * w);
    CopyUpMoves(Moved(m, d, s, a + 8 * w), d + a + 8 * w, s + a + 8 * w, b);
    MovedUpTwice(m, d, s, a + 8 * w, b);
  }

  /** Downwards, without words. */
  lemma PhasesDownMove(m: Bytes, d: int, s: int, a: nat, b: nat)
    requires 0 <= s <= d && d + a + b <= |m|
    ensures PhasesDown(m, d + a + b - 1, s + a + b - 1, a, 0, b) == Done(Moved(m, d, s, a + b))
  {
    hide Moved, CopyDown;
    CopyDownMoves(m, d + a + b - 1, s + a + b - 1, a);
    MovedLength(m, d + b, s + b, a);
    CopyDownMoves(Moved(m, d + b, s + b, a), d + b - 1, s + b - 1, b);
    MovedDownTwice(m, d, s, b, a);
  }

  /** A call that is handled moves exactly the bytes it is meant to move, whatever the overlap. */
  lemma HandledMoves(m: Bytes, dest: int, src: int, n: nat)
    requires 0 <= dest && 0 <= src && dest + n <= |m| && src + n <= |m| && Handled(dest, src, n)
    ensures WordMemmove(m, dest, src, n) == Done(Moved(m, dest, src, n))
  {
    hide Moved, PhasesUp, PhasesDown;
    var a, w, b := AlignCount(dest, src, n), WordCount(dest, src, n), TailCount(dest, src, n);
    assert a + 8 * w + b == n;
    if dest <= src {
      PhasesUpMove(m, dest, src, a, w, b);
    } else {
      PhasesDownMove(m, dest, src, a, b);
    }
  }

  lemma MovedLength(m: Bytes, dest: int, src: int, n: nat)
    requires 0 <= dest && 0 <= src && dest + n <= |m| && src + n <= |m|
    ensures |Moved(m, dest, src, n)| == |m|
  {
  }

  /** k rounds that all succeed stay inside memory. */
  lemma {:induction false} CopyUpEnds(m: Bytes, d: int, s: int, k: nat)
    ensures CopyUp(m, d, s, k).Done? ==> |CopyUp(m, d, s, k).bytes| == |m| && (k > 0 ==> 0 <= d && d + k <= |m|)
    decreases k
  {
    if k > 0 && 0 <= d < |m| && 0 <= s < |m| {
      CopyUpEnds(m[d := m[s]], d + 1, s + 1, k - 1);
    }
  }

  lemma {:induction false} CopyDownEnds(m: Bytes, d: int, s: int, k: nat)
    ensures var r := CopyDown(m, d, s, k);
            r.Done? ==>
              && |r.bytes| == |m| && (k > 0 ==> d < |m| && -1 <= d - k)
              && forall p :: 0 <= p < |m| && (p <= d - k || d < p) ==> r.bytes[p] == m[p]
    decreases k
  {
    if k > 0 && 0 <= d < |m| && 0 <= s < |m| {
      CopyDownEnds(m[d := m[s]], d - 1, s - 1, k - 1);
    }
  }

  lemma {:induction false} WordsUpEnds(m: Bytes, d: int, s: int, k: nat)
    ensures WordsUp(m, d, s, k).Done? ==> |WordsUp(m, d, s, k).bytes| == |m|
    decreases k
  {
    if k > 0 && 0 <= d && 0 <= s && d + 8 <= |m| && s + 8 <= |m| {
      MovedLength(m, d, s, 8);
      WordsUpEnds(StoreWord(m, d, s), d + 8, s + 8, k - 1);
    }
  }

  /** Words stored downwards from d leave everything below the last of them alone. */
  lemma {:induction false} WordsDownEnds(m: Bytes, d: int, s: int, k: nat)
    ensures var r := WordsDown(m, d, s, k);
            r.Done? ==>
              && |r.bytes| == |m|
              && forall p :: 0 <= p < |m| && p < d - 8 * (k - 1) ==> r.bytes[p] == m[p]
    decreases k
  {
    if k > 0 && 0 <= d && 0 <= s && d + 8 <= |m| && s + 8 <= |m| {
      MovedLength(m, d, s, 8);
      WordsDownEnds(StoreWord(m, d, s), d - 8, s - 8, k - 1);
      forall p | 0 <= p < |m| && p < d
        ensures StoreWord(m, d, s)[p] == m[p]
      {
        MovedAt(m, d, s, 8, p);
      }
    }
  }

  lemma PhasesUpEnds(m: Bytes, d: int, s: int, a: nat, w: nat, b: nat)
    requires b > |m|
    ensures PhasesUp(m, d, s, a, w, b) == Fault
  {
    hide CopyUp, WordsUp;
    CopyUpEnds(m, d, s, a);
    if CopyUp(m, d, s, a).Done? {
      var m1 := CopyUp(m, d, s, a).bytes;
      WordsUpEnds(m1, d + a, s + a, w);
      if WordsUp(m1, d + a, s + a, w).Done? {
        CopyUpEnds(WordsUp(m1, d + a, s + a, w).bytes, d + a + 8 * w, s + a + 8 * w, b);
      }
    }
  }

  /** Downwards, the bytes between the last word and the first of the bytes that are left stay as they were. */
  lemma PhasesDownEnds(m: Bytes, d: int, s: int, a: nat, w: nat, b: nat)
    ensures b > |m| ==> PhasesDown(m, d, s, a, w, b) == Fault
    ensures PhasesDown(m, d, s, a, w, b).Done? ==>
              var r := PhasesDown(m, d, s, a, w, b).bytes;
              |r| == |m| && forall p :: 0 <= p < |m| && d - a - 8 * w < p < d - a - 8 * (w - 1) && p <= d - a ==>
                  r[p] == m[p]
  {
    hide CopyDown, WordsDown;
    CopyDownEnds(m, d, s, a);
    if CopyDown(m, d, s, a).Done? {
      var m1 := CopyDown(m, d, s, a).bytes;
      WordsDownEnds(m1, d - a, s - a, w);
      if WordsDown(m1, d - a, s - a, w).Done? {
        CopyDownEnds(WordsDown(m1, d - a, s - a, w).bytes, d - a - 8 * w, s - a - 8 * w, b);
      }
    }
  }

  /** A counter that has run below zero makes the last loop leave memory. */
  lemma UnderflowFaults(m: Bytes, dest: int, src: int, n: nat)
    requires 0 <= dest && 0 <= src && |m| <= MEMORY_LIMIT
    requires AlignCount(dest, src, n) > ByteCount(dest, src, n)
    ensures WordMemmove(m, dest, src, n) == Fault
  {
    hide PhasesUp, PhasesDown;
    var a, w, b := AlignCount(dest, src, n), WordCount(dest, src, n), TailCount(dest, src, n);
    assert b > |m|;
    if dest <= src {
      PhasesUpEnds(m, dest, src, a, w, b);
    } else {
      PhasesDownEnds(m, dest + n - 1, src + n - 1, a, w, b);
    }
  }

  /** The lowest byte that the backward word loop forgets: it begins seven bytes too high. */
  function Forgotten(dest: int, src: int, n: nat): int
    requires 0 <= dest
  {
    dest + ByteCount(dest, src, n) - AlignCount(dest, src, n)
  }

  /** Words moved backwards leave the byte at Forgotten as it was. */
  lemma BackwardWordsForget(m: Bytes, dest: int, src: int, n: nat)
    requires 0 <= src && dest - src > 8 && n >= 8 && dest + n <= |m|
    requires AlignCount(dest, src, n) <= ByteCount(dest, src, n)
    ensures dest <= Forgotten(dest, src, n) < dest + n
    ensures WordMemmove(m, dest, src, n).Done? ==>
              var r := WordMemmove(m, dest, src, n).bytes;
              |r| == |m| && r[Forgotten(dest, src, n)] == m[Forgotten(dest, src, n)]
  {
    hide PhasesUp, PhasesDown;
    var a, w, b := AlignCount(dest, src, n), WordCount(dest, src, n), TailCount(dest, src, n);
    assert a + 8 * w + b == n && w >= 1 && Forgotten(dest, src, n) == dest + b;
    PhasesDownEnds(m, dest + n - 1, src + n - 1, a, w, b);
  }

  /** memmove keeps its promise on every content of memory exactly for the calls that are handled. */
  lemma MemmoveExactly(length: nat, dest: int, src: int, n: nat)
    requires 0 <= dest && 0 <= src && dest + n <= length && src + n <= length && length <= MEMORY_LIMIT
    ensures (forall m: Bytes | |m| == length :: WordMemmove(m, dest, src, n) == Done(Moved(m, dest, src, n)))
            <==> Handled(dest, src, n)
  {
    hide WordMemmove, Moved;
    if Handled(dest, src, n) {
      forall m: Bytes | |m| == length
        ensures WordMemmove(m, dest, src, n) == Done(Moved(m, dest, src, n))
      {
        HandledMoves(m, dest, src, n);
      }
    } else {
      var m := Marked(length, dest, src, n);
      if AlignCount(dest, src, n) > ByteCount(dest, src, n) {
        UnderflowFaults(m, dest, src, n);
      } else {
        BackwardWordsForget(m, dest, src, n);
        var p := Forgotten(dest, src, n);
        MovedAt(m, dest, src, n, p);
      }
      assert WordMemmove(m, dest, src, n) != Done(Moved(m, dest, src, n));
    }
  }

  /** Memory full of zeros but for the forgotten byte. */
  function Marked(length: nat, dest: int, src: int, n: nat): (m: Bytes)
    requires 0 <= dest
    ensures |m| == length
    ensures forall i :: 0 <= i < length ==> m[i] == if i == Forgotten(dest, src, n) then 1 else 0
  {
    seq(length, i => if i == Forgotten(dest, src, n) then 1 else 0)
  }

  /** Nothing to move, and yet the run leaves memory: the counter goes below zero on the way to an aligned address. */
  lemma NothingFaults(m: Bytes)
    requires |m| <= MEMORY_LIMIT
    ensures WordMemmove(m, 1, 1, 0) == Fault
  {
    UnderflowFaults(m, 1, 1, 0);
  }

  /** One word moved backwards ends up seven bytes too high: bytes 7 to 14 are moved instead of bytes 0 to 7. */
  lemma WordTooHigh(m: Bytes)
    requires |m| == 32
    ensures WordMemmove(m, 16, 0, 8) == Done(Moved(m, 23, 7, 8))
    ensures m[0] != m[16] ==> Moved(m, 23, 7, 8) != Moved(m, 16, 0, 8)
  {
    hide Moved, WordsDown, CopyDown;
    MovedAt(m, 23, 7, 8, 16);
    MovedAt(m, 16, 0, 8, 16);
    OneWordDown(m, 23, 7);
    NoBytesDown(m, 23, 7);
    NoBytesDown(Moved(m, 23, 7, 8), 15, -1);
    assert AlignCount(16, 0, 8) == 0 && WordCount(16, 0, 8) == 1 && TailCount(16, 0, 8) == 0;
  }

  lemma OneWordDown(m: Bytes, d: int, s: int)
    requires 0 <= d && 0 <= s && d + 8 <= |m| && s + 8 <= |m|
    ensures WordsDown(m, d, s, 1) == Done(Moved(m, d, s, 8))
  {
    assert WordsDown(StoreWord(m, d, s), d - 8, s - 8, 0) == Done(StoreWord(m, d, s));
  }

  lemma NoBytesDown(m: Bytes, d: int, s: int)
    ensures CopyDown(m, d, s, 0) == Done(m)
  {
  }

  /** The counter after k rounds, which wraps. */
  function Counted(b: nat, k: nat): nat
    requires b < WRAP && k < 8
  {
    if b < k then b - k + WRAP else b - k
  }

  /** One round of an alignment loop: the counter goes down by one, round the end if need be. */
  lemma CounterStep(count: nat, dest: int, b: nat)
    requires 0 <= dest && count < WRAP && (b + dest) % 8 != 0
    requires var a := (count + dest) % 8; (b + dest) % 8 <= a && b == Counted(count, a - (b + dest) % 8)
    ensures var a := (count + dest) % 8;
            var c := if b == 0 then WRAP - 1 else b - 1;
            (c + dest) % 8 == (b + dest) % 8 - 1 && c == Counted(count, a - (c + dest) % 8)
  {
    if b == 0 {
      assert WRAP - 1 + dest == 8 * 0x2000_0000_0000_0000 + (dest - 1);
    }
  }

  /** The alignment loop, upwards. */
  method AlignUp(mem: array<Byte>, dest: int, to: int, from: int, count: nat) returns (fault: bool, b: nat)
    requires 0 <= dest && count < WRAP
    modifies mem
    ensures var a := (count + dest) % 8;
            var r := CopyUp(old(mem[..]), to, from, a);
            (fault <==> r == Fault) && (!fault ==> r == Done(mem[..]) && b == Counted(count, a))
  {
    var d, s := to, from;
    b := count;
    ghost var a := (count + dest) % 8;
    ghost var want := CopyUp(mem[..], to, from, a);
    while (b + dest) % 8 != 0
      invariant (b + dest) % 8 <= a && b == Counted(count, a - (b + dest) % 8)
      invariant CopyUp(mem[..], d, s, (b + dest) % 8) == want
      decreases (b + dest) % 8
    {
      if !(0 <= d < mem.Length && 0 <= s < mem.Length) {
        return true, b;
      }
      ghost var m := mem[..];
      mem[d] := mem[s];
      assert mem[..] == m[d := m[s]];
      CounterStep(count, dest, b);
      b := if b == 0 then WRAP - 1 else b - 1;
      d, s := d + 1, s + 1;
    }
    fault := false;
  }

  /** while(b--), upwards. */
  method CopyLoopUp(mem: array<Byte>, to: int, from: int, count: nat) returns (fault: bool)
    modifies mem
    ensures var r := CopyUp(old(mem[..]), to, from, count);
            (fault <==> r == Fault) && (!fault ==> r == Done(mem[..]))
  {
    var d, s, b: nat := to, from, count;
    while b > 0
      invariant CopyUp(mem[..], d, s, b) == CopyUp(old(mem[..]), to, from, count)
    {
      if !(0 <= d < mem.Length && 0 <= s < mem.Length) {
        return true;
      }
      ghost var m := mem[..];
      mem[d] := mem[s];
      assert mem[..] == m[d := m[s]];
      d, s, b := d + 1, s + 1, b - 1;
    }
    fault := false;
  }

  /** while(n--), upwards, by words. */
  method WordLoopUp(mem: array<Byte>, to: int, from: int, words: nat) returns (fault: bool)
    modifies mem
    ensures var r := WordsUp(old(mem[..]), to, from, words);
            (fault <==> r == Fault) && (!fault ==> r == Done(mem[..]))
  {
    var d, s, n: nat := to, from, words;
    while n > 0
      invariant WordsUp(mem[..], d, s, n) == WordsUp(old(mem[..]), to, from, words)
    {
      if !(0 <= d && 0 <= s && d + 8 <= mem.Length && s + 8 <= mem.Length) {
        return true;
      }
      CopyWord(mem, d, s);
      d, s, n := d + 8, s + 8, n - 1;
    }
    fault := false;
  }

  /** The three loops of the branch that works upwards. */
  method MoveUp(mem: array<Byte>, dest: int, to: int, from: int, count: nat, words: nat) returns (fault: bool)
    requires 0 <= dest && count < WRAP
    modifies mem
    ensures var a := (count + dest) % 8;
            var r := PhasesUp(old(mem[..]), to, from, a, words, Counted(count, a));
            (fault <==> r == Fault) && (!fault ==> r == Done(mem[..]))
  {
    hide CopyUp, WordsUp;
    ghost var a := (count + dest) % 8;
    var b;
    fault, b := AlignUp(mem, dest, to, from, count);
    if fault {
      return;
    }
    var moved := (count + dest) % 8;
    fault := WordLoopUp(mem, to + moved, from + moved, words);
    if fault {
      return;
    }
    fault := CopyLoopUp(mem, to + moved + 8 * words, from + moved + 8 * words, b);
  }

  /** The alignment loop, downwards. */
  method AlignDown(mem: array<Byte>, dest: int, to: int, from: int, count: nat) returns (fault: bool, b: nat)
    requires 0 <= dest && count < WRAP
    modifies mem
    ensures var a := (count + dest) % 8;
            var r := CopyDown(old(mem[..]), to, from, a);
            (fault <==> r == Fault) && (!fault ==> r == Done(mem[..]) && b == Counted(count, a))
  {
    var d, s := to, from;
    b := count;
    ghost var a := (count + dest) % 8;
    ghost var want := CopyDown(mem[..], to, from, a);
    while (b + dest) % 8 != 0
      invariant (b + dest) % 8 <= a && b == Counted(count, a - (b + dest) % 8)
      invariant CopyDown(mem[..], d, s, (b + dest) % 8) == want
      decreases (b + dest) % 8
    {
      if !(0 <= d < mem.Length && 0 <= s < mem.Length) {
        return true, b;
      }
      ghost var m := mem[..];
      mem[d] := mem[s];
      assert mem[..] == m[d := m[s]];
      CounterStep(count, dest, b);
      b := if b == 0 then WRAP - 1 else b - 1;
      d, s := d - 1, s - 1;
    }
    fault := false;
  }

  /** while(b--), downwards. */
  method CopyLoopDown(mem: array<Byte>, to: int, from: int, count: nat) returns (fault: bool)
    modifies mem
    ensures var r := CopyDown(old(mem[..]), to, from, count);
            (fault <==> r == Fault) && (!fault ==> r == Done(mem[..]))
  {
    var d, s, b: nat := to, from, count;
    while b > 0
      invariant CopyDown(mem[..], d, s, b) == CopyDown(old(mem[..]), to, from, count)
    {
      if !(0 <= d < mem.Length && 0 <= s < mem.Length) {
        return true;
      }
      ghost var m := mem[..];
      mem[d] := mem[s];
      assert mem[..] == m[d := m[s]];
      d, s, b := d - 1, s - 1, b - 1;
    }
    fault := false;
  }

  /** while(n--), downwards, by words. */
  method WordLoopDown(mem: array<Byte>, to: int, from: int, words: nat) returns (fault: bool)
    modifies mem
    ensures var r := WordsDown(old(mem[..]), to, from, words);
            (fault <==> r == Fault) && (!fault ==> r == Done(mem[..]))
  {
    var d, s, n: nat := to, from, words;
    while n > 0
      invariant WordsDown(mem[..], d, s, n) == WordsDown(old(mem[..]), to, from, words)
    {
      if !(0 <= d && 0 <= s && d + 8 <= mem.Length && s + 8 <= mem.Length) {
        return true;
      }
      CopyWord(mem, d, s);
      d, s, n := d - 8, s - 8, n - 1;
    }
    fault := false;
  }

  /** The three loops of the branch that works downwards. */
  method MoveDown(mem: array<Byte>, dest: int, to: int, from: int, count: nat, words: nat) returns (fault: bool)
    requires 0 <= dest && count < WRAP
    modifies mem
    ensures var a := (count + dest) % 8;
            var r := PhasesDown(old(mem[..]), to, from, a, words, Counted(count, a));
            (fault <==> r == Fault) && (!fault ==> r == Done(mem[..]))
  {
    hide CopyDown, WordsDown;
    ghost var a := (count + dest) % 8;
    var b;
    fault, b := AlignDown(mem, dest, to, from, count);
    if fault {
      return;
    }
    var moved := (count + dest) % 8;
    fault := WordLoopDown(mem, to - moved, from - moved, words);
    if fault {
      return;
    }
    fault := CopyLoopDown(mem, to - moved - 8 * words, from - moved - 8 * words, b);
  }

  /** A load and a store of eight bytes. */
  method CopyWord(mem: array<Byte>, d: int, s: int)
    requires 0 <= d && 0 <= s && d + 8 <= mem.Length && s + 8 <= mem.Length
    modifies mem
    ensures mem[..] == StoreWord(old(mem[..]), d, s)
  {
    var word := mem[s..s + 8];
    forall i | 0 <= i < 8 {
      mem[d + i] := word[i];
    }
    assert mem[..] == old(mem[..])[..d] + word + old(mem[..])[d + 8..];
  }

  /** The function of string.cpp, in place.  `fault` reports the access outside memory that ends the run. */
  method Memmove(mem: array<Byte>, dest: int, src: int, n: nat) returns (fault: bool)
    requires 0 <= dest && 0 <= src && n < WRAP
    modifies mem
    ensures fault <==> WordMemmove(old(mem[..]), dest, src, n) == Fault
    ensures !fault ==> WordMemmove(old(mem[..]), dest, src, n) == Done(mem[..])
  {
    var b: nat, w: nat := n, n;
    if dest - src < -8 || dest - src > 8 {
      b := b % 8;
      w := (w - b) / 8;
    } else {
      w := 0;
    }
    if dest <= src {
      fault := MoveUp(mem, dest, dest, src, b, w);
    } else {
      fault := MoveDown(mem, dest, dest + n - 1, src + n - 1, b, w);
    }
  }

  /** memmove of the loader: byte by byte, from the end that the overlap does not reach first. */
  method ByteMemmove(mem: array<Byte>, dest: int, src: int, n: nat)
    requires 0 <= dest && 0 <= src && dest + n <= mem.Length && src + n <= mem.Length
    modifies mem
    ensures mem[..] == Moved(old(mem[..]), dest, src, n)
  {
    ghost var m := mem[..];
    var d, s, k: nat := dest, src, n;
    if d < s {
      CopyUpMoves(m, d, s, k);
      while k > 0
        invariant d == dest + n - k && s == src + n - k && k <= n
        invariant CopyUp(mem[..], d, s, k) == Done(Moved(m, dest, src, n))
      {
        ghost var now := mem[..];
        mem[d] := mem[s];
        assert mem[..] == now[d := now[s]];
        d, s, k := d + 1, s + 1, k - 1;
      }
    } else if d > s {
      s, d := s + n - 1, d + n - 1;
      CopyDownMoves(m, d, s, k);
      while k > 0
        invariant d == dest + k - 1 && s == src + k - 1 && k <= n
        invariant CopyDown(mem[..], d, s, k) == Done(Moved(m, dest, src, n))
      {
        ghost var now := mem[..];
        mem[d] := mem[s];
        assert mem[..] == now[d := now[s]];
        d, s, k := d - 1, s - 1, k - 1;
      }
    } else {
      MovedOntoItself(m, d, n);
    }
  }

  lemma MovedOntoItself(m: Bytes, d: int, n: nat)
    requires 0 <= d && d + n <= |m|
    ensures Moved(m, d, d, n) == m
  {
  }
}
