/** The loader's copy of the kernel's loadable segments to where the kernel is linked to run. */
module ElfLoader {
  import opened Options
  import opened StringMoves
  import Fills = StringFills
  import opened LittleEndian

  const PT_LOAD := 1

  /** What a program header says to a loader whose pointers and sizes have 32 bits.  `from` is an address. */
  datatype Segment = Segment(load: bool, target: int, memsz: int, from: int, filesz: int) {
    /** The number of bytes that are written.  A file size beyond the memory size is not checked for. */
    function Extent(): int {
      if filesz > memsz then filesz else memsz
    }

    /** Source and target lie inside a memory of the given length. */
    predicate Fits(length: int) {
      load ==>
        && 0 <= memsz && 0 <= filesz
        && 0 <= target && target + Extent() <= length && 0 <= from && from + filesz <= length
    }

    predicate Covers(p: int) {
      load && target <= p < target + Extent()
    }

    function Byte(m: Bytes, p: int): Byte
      requires Fits(|m|) && Covers(p)
    {
      if p < target + filesz then m[from + (p - target)] else 0
    }
  }

  predicate HasHeader(m: Bytes, start: int) {
    0 <= start && start + 64 <= |m|
  }

  /** The magic number, 64 bits, little endian, x86-64, executable. */
  predicate IsKernel(m: Bytes, start: int)
    requires HasHeader(m, start)
  {
    && m[start] == 0x7F && m[start + 1] == 0x45 && m[start + 2] == 0x4C && m[start + 3] == 0x46
    && m[start + 4] == 2 && m[start + 5] == 1 && Read16(m, start + 18) == 62 && Read16(m, start + 16) == 2
  }

  function HeaderCount(m: Bytes, start: int): int
    requires HasHeader(m, start)
  {
    Read16(m, start + 56)
  }

  function HeaderTable(m: Bytes, start: int): int
    requires HasHeader(m, start)
  {
    (start + Read64(m, start + 32) % LIMIT) % LIMIT
  }

  function SegmentAt(m: Bytes, start: int, at: int): Segment
    requires 0 <= at && at + 56 <= |m|
  {
    Segment(Read32(m, at) == PT_LOAD, Read64(m, at + 16) % LIMIT, Read64(m, at + 40) % LIMIT,
            (start + Read64(m, at + 8) % LIMIT) % LIMIT, Read64(m, at + 32) % LIMIT)
  }

  /** The headers lie inside the module [start, end). */
  predicate HasSegments(m: Bytes, start: int, end: int) {
    HasHeader(m, start) && start + 64 <= end <= |m|
    && start <= HeaderTable(m, start) && HeaderTable(m, start) + 56 * HeaderCount(m, start) <= end
  }

  function Segments(m: Bytes, start: int, end: int): (s: seq<Segment>)
    requires HasSegments(m, start, end)
    ensures |s| == HeaderCount(m, start)
    ensures forall k :: 0 <= k < |s| ==> s[k] == SegmentAt(m, start, HeaderTable(m, start) + 56 * k)
  {
    seq(HeaderCount(m, start), k requires 0 <= k < HeaderCount(m, start) =>
      SegmentAt(m, start, HeaderTable(m, start) + 56 * k))
  }

  /** The segments read from the module and write to memory outside it, no two of them to the same byte. */
  ghost predicate Loadable(m: Bytes, start: int, end: int) {
    && HasSegments(m, start, end)
    && var s := Segments(m, start, end);
    && (forall k :: 0 <= k < |s| && s[k].load ==>
          && s[k].Fits(|m|) && start <= s[k].from && s[k].from + s[k].filesz <= end
          && (s[k].target + s[k].Extent() <= start || end <= s[k].target))
    && (forall j, k, p :: 0 <= j < k < |s| && s[j].Covers(p) ==> !s[k].Covers(p))
  }

  predicate Free(s: seq<Segment>, p: int) {
    forall k :: 0 <= k < |s| ==> !s[k].Covers(p)
  }

  /** Each segment's file bytes are followed by zeros up to its memory size; all other bytes are as before. */
  ghost predicate Loaded(before: Bytes, after: Bytes, s: seq<Segment>)
    requires forall k :: 0 <= k < |s| ==> s[k].Fits(|before|)
  {
    && |after| == |before|
    && (forall k, p :: 0 <= k < |s| && 0 <= p < |after| && s[k].Covers(p) ==> after[p] == s[k].Byte(before, p))
    && (forall p :: 0 <= p < |after| && Free(s, p) ==> after[p] == before[p])
  }

  lemma SameSegment(a: Bytes, b: Bytes, start: int, end: int, at: int)
    requires Same(a, b, start, end) && 0 <= start <= at && at + 56 <= end <= |a|
    ensures SegmentAt(a, start, at) == SegmentAt(b, start, at)
  {
    hide Read16, Read32, Read64;
    SameReads(a, b, at);
    SameReads(a, b, at + 8);
    SameReads(a, b, at + 16);
    SameReads(a, b, at + 32);
    SameReads(a, b, at + 40);
  }

  lemma SameHeader(a: Bytes, b: Bytes, start: int, end: int)
    requires Same(a, b, start, end) && HasHeader(a, start) && start + 64 <= end
    ensures HeaderTable(a, start) == HeaderTable(b, start) && HeaderCount(a, start) == HeaderCount(b, start)
  {
    hide Read16, Read32, Read64;
    SameReads(a, b, start + 32);
    SameReads(a, b, start + 56);
  }

  /** Headers are read again in every round: they can be, because the module stays as it is. */
  lemma ModuleKept(before: Bytes, after: Bytes, start: int, end: int, k: nat)
    requires Loadable(before, start, end) && k <= |Segments(before, start, end)|
    requires Loaded(before, after, Segments(before, start, end)[..k])
    ensures Same(before, after, start, end)
    ensures HasSegments(after, start, end) && Segments(after, start, end) == Segments(before, start, end)
    ensures HeaderTable(after, start) == HeaderTable(before, start)
  {
    hide SegmentAt, HeaderTable, HeaderCount;
    var s := Segments(before, start, end);
    forall p | start <= p < end
      ensures after[p] == before[p]
    {
      forall j | 0 <= j < k
        ensures !s[..k][j].Covers(p)
      {
        assert s[..k][j] == s[j];
      }
    }
    SameHeader(before, after, start, end);
    forall j | 0 <= j < |s|
      ensures SegmentAt(after, start, HeaderTable(after, start) + 56 * j) == s[j]
    {
      SameSegment(before, after, start, end, HeaderTable(before, start) + 56 * j);
    }
  }

  /** One more segment: memset, then memmove.  Neither touches what an earlier segment has written. */
  lemma LoadedStep(before: Bytes, m: Bytes, start: int, end: int, k: nat)
    requires Loadable(before, start, end) && k < |Segments(before, start, end)|
    requires Loaded(before, m, Segments(before, start, end)[..k])
    ensures var s := Segments(before, start, end);
            Loaded(before, if s[k].load then Put(m, s[k]) else m, s[..k + 1])
  {
    hide Fills.Filled, Moved, SegmentAt, HeaderTable, HeaderCount, Put;
    var s := Segments(before, start, end);
    ModuleKept(before, m, start, end, k);
    if s[k].load {
      PutBytes(m, s[k]);
      forall p | s[k].Covers(p)
        ensures Put(m, s[k])[p] == s[k].Byte(before, p)
      {
        if p < s[k].target + s[k].filesz {
          assert start <= s[k].from + (p - s[k].target) < end;
        }
      }
    }
    var after := if s[k].load then Put(m, s[k]) else m;
    forall j, p | 0 <= j < k + 1 && 0 <= p < |m| && s[..k + 1][j].Covers(p)
      ensures after[p] == s[j].Byte(before, p)
    {
      if j < k {
        assert s[..k][j].Covers(p) && !s[k].Covers(p);
      }
    }
    forall p | 0 <= p < |m| && Free(s[..k + 1], p)
      ensures after[p] == before[p]
    {
      assert !s[..k + 1][k].Covers(p);
      assert forall j :: 0 <= j < k ==> s[..k][j] == s[..k + 1][j];
    }
  }

  /** The effect of one loadable segment. */
  function Put(m: Bytes, s: Segment): (w: Bytes)
    requires s.load && s.Fits(|m|)
    ensures |w| == |m|
  {
    Moved(Fills.Filled(m, s.target, 0, s.memsz), s.target, s.from, s.filesz)
  }

  lemma PutBytes(m: Bytes, s: Segment)
    requires s.load && s.Fits(|m|)
    requires s.from + s.filesz <= s.target || s.target + s.Extent() <= s.from
    ensures forall p :: 0 <= p < |m| ==> Put(m, s)[p] == if s.Covers(p) then s.Byte(m, p) else m[p]
  {
    hide Moved, Fills.Filled;
    var zeroed := Fills.Filled(m, s.target, 0, s.memsz);
    forall p | 0 <= p < |m|
      ensures Put(m, s)[p] == if s.Covers(p) then s.Byte(m, p) else m[p]
    {
      Fills.FilledAt(m, s.target, 0, s.memsz, p);
      MovedAt(zeroed, s.target, s.from, s.filesz, p);
      if s.target <= p < s.target + s.filesz {
        Fills.FilledAt(m, s.target, 0, s.memsz, s.from + (p - s.target));
      }
    }
  }

  /** A second load finds the same segments and changes nothing. */
  lemma LoadedAgain(before: Bytes, a: Bytes, b: Bytes, start: int, end: int)
    requires Loadable(before, start, end) && Loaded(before, a, Segments(before, start, end))
    requires HasSegments(a, start, end) && forall k :: 0 <= k < |Segments(a, start, end)| ==>
               Segments(a, start, end)[k].Fits(|a|)
    requires Loaded(a, b, Segments(a, start, end))
    ensures b == a
  {
    hide SegmentAt, HeaderTable, HeaderCount;
    var s := Segments(before, start, end);
    assert s[..|s|] == s;
    ModuleKept(before, a, start, end, |s|);
    forall k, p | 0 <= k < |s| && 0 <= p < |a| && s[k].Covers(p)
      ensures s[k].Byte(a, p) == s[k].Byte(before, p)
    {
    }
    assert Loaded(a, a, s);
    LoadedUnique(a, a, b, s, s);
  }

  /** The order in which the headers are listed does not matter. */
  lemma LoadedUnique(before: Bytes, a: Bytes, b: Bytes, s: seq<Segment>, t: seq<Segment>)
    requires forall k :: 0 <= k < |s| ==> s[k].Fits(|before|)
    requires forall k :: 0 <= k < |t| ==> t[k].Fits(|before|)
    requires Loaded(before, a, s) && Loaded(before, b, t)
    requires forall x: Segment :: x in s <==> x in t
    ensures a == b
  {
    forall p | 0 <= p < |a|
      ensures a[p] == b[p]
    {
      if !Free(t, p) {
        var k :| 0 <= k < |t| && t[k].Covers(p);
        assert t[k] in s;
      }
      if !Free(s, p) {
        var k :| 0 <= k < |s| && s[k].Covers(p);
        assert s[k] in t;
        var j :| 0 <= j < |t| && t[j] == s[k];
      }
    }
  }

  lemma LoadedNone(before: Bytes, start: int, end: int)
    requires Loadable(before, start, end)
    ensures Loaded(before, before, Segments(before, start, end)[..0])
  {
  }

  lemma SegmentsFit(m: Bytes, start: int, end: int)
    requires Loadable(m, start, end)
    ensures HasSegments(m, start, end) && forall k :: 0 <= k < |Segments(m, start, end)| ==>
              Segments(m, start, end)[k].Fits(|m|)
  {
  }

  lemma MovedNothing(m: Bytes, d: int, s: int)
    requires 0 <= d <= |m| && 0 <= s <= |m|
    ensures Moved(m, d, s, 0) == m
  {
  }

  /** An address or a size of 64 bits, of which 32 are used. */
  function Low(m: Bytes, at: int): int {
    Little(m, at, 8) % 0x1_0000_0000
  }

  /** Where program header j begins: the file header has their offset at 32, and they are 56 bytes long. */
  function HeaderPlace(m: Bytes, start: int, j: int): int {
    (start + Low(m, start + 32)) % 0x1_0000_0000 + 56 * j
  }

  /** What the program header at h, if its type is 1, means for byte p of memory.  The offset in the file is at 8, the
      address at 16, the size in the file at 32 and the size in memory at 40. */
  function Says(m: Bytes, start: int, h: int, p: int): Option<nat> {
    var target, from := Low(m, h + 16), (start + Low(m, h + 8)) % 0x1_0000_0000;
    if Little(m, h, 4) != 1 then None
    else if target <= p < target + Low(m, h + 32) then Some(Little(m, from + (p - target), 1))
    else if target <= p < target + Low(m, h + 40) then Some(0)
    else None
  }

  predicate Silent(m: Bytes, start: int, p: int) {
    forall j :: 0 <= j < Little(m, start + 56, 2) ==> Says(m, start, HeaderPlace(m, start, j), p) == None
  }

  /** Each byte of memory holds what a program header says, and what it held before if none says anything; there are as
      many headers as the number at 56 says. */
  ghost predicate Image(before: Bytes, after: Bytes, start: int) {
    && |after| == |before|
    && (forall j, p :: 0 <= j < Little(before, start + 56, 2) && 0 <= p < |after|
                       && Says(before, start, HeaderPlace(before, start, j), p).Some? ==>
          after[p] as int == Says(before, start, HeaderPlace(before, start, j), p).value)
    && forall p :: 0 <= p < |after| && Silent(before, start, p) ==> after[p] == before[p]
  }

  /** The magic number, class 2, data 1, type 2, machine 62. */
  predicate Executable(m: Bytes, start: int) {
    && Little(m, start, 4) == 0x464C_457F && Little(m, start + 4, 1) == 2 && Little(m, start + 5, 1) == 1
    && Little(m, start + 16, 2) == 2 && Little(m, start + 18, 2) == 62
  }

  lemma FourDigits(a: int, b: int, c: int, d: int)
    requires 0 <= a < 0x100 && 0 <= b < 0x100 && 0 <= c < 0x100 && 0 <= d < 0x100
    ensures a + 0x100 * b + 0x1_0000 * (c + 0x100 * d) == 0x464C_457F <==>
              a == 0x7F && b == 0x45 && c == 0x4C && d == 0x46
  {
  }

  lemma FourBytes(m: Bytes, at: int)
    requires 0 <= at && at + 4 <= |m|
    ensures Read32(m, at) == 0x464C_457F <==>
              m[at] as int == 0x7F && m[at + 1] as int == 0x45 && m[at + 2] as int == 0x4C && m[at + 3] as int == 0x46
  {
    hide ByteOf;
    ByteBack(m[at]);
    ByteBack(m[at + 1]);
    ByteBack(m[at + 2]);
    ByteBack(m[at + 3]);
    FourDigits(m[at] as int, m[at + 1] as int, m[at + 2] as int, m[at + 3] as int);
  }

  lemma SameValue(b: Byte)
    ensures b == 0x7F <==> b as int == 0x7F
    ensures b == 0x45 <==> b as int == 0x45
    ensures b == 0x4C <==> b as int == 0x4C
    ensures b == 0x46 <==> b as int == 0x46
    ensures b == 2 <==> b as int == 2
    ensures b == 1 <==> b as int == 1
  {
  }

  lemma KernelBytes(m: Bytes, start: int)
    requires HasHeader(m, start)
    ensures IsKernel(m, start) <==> Executable(m, start)
  {
    hide Read16, Read32, Little;
    Little4(m, start);
    FourBytes(m, start);
    SameValue(m[start]);
    SameValue(m[start + 1]);
    SameValue(m[start + 2]);
    SameValue(m[start + 3]);
    SameValue(m[start + 4]);
    SameValue(m[start + 5]);
    Little1(m, start + 4);
    Little1(m, start + 5);
    Little2(m, start + 16);
    Little2(m, start + 18);
  }

  lemma HeaderBytes(m: Bytes, start: int, end: int)
    requires HasSegments(m, start, end)
    ensures HeaderCount(m, start) == Little(m, start + 56, 2) >= 0
    ensures forall j :: 0 <= j < HeaderCount(m, start) ==>
              HeaderPlace(m, start, j) == HeaderTable(m, start) + 56 * j
              && 0 <= HeaderPlace(m, start, j) && HeaderPlace(m, start, j) + 56 <= |m|
  {
    hide Read16, Read64, Little;
    Little2(m, start + 56);
    Little8(m, start + 32);
  }

  /** What a header says is what its segment means. */
  lemma SegmentSays(m: Bytes, start: int, h: int, p: int)
    requires 0 <= h && h + 56 <= |m|
    ensures SegmentAt(m, start, h).Fits(|m|) ==>
              var s := SegmentAt(m, start, h);
              && (Says(m, start, h, p).Some? <==> s.Covers(p))
              && (s.Covers(p) ==> Says(m, start, h, p) == Some(s.Byte(m, p) as int))
  {
    hide Read32, Read64, Little;
    Little4(m, h);
    Little8(m, h + 8);
    Little8(m, h + 16);
    Little8(m, h + 32);
    Little8(m, h + 40);
    var from := SegmentAt(m, start, h).from + (p - SegmentAt(m, start, h).target);
    if 0 <= from < |m| {
      Little1(m, from);
    }
  }

  /** The image, in bytes and numbers. */
  lemma LoadedImage(before: Bytes, after: Bytes, start: int, end: int)
    requires Loadable(before, start, end) && Loaded(before, after, Segments(before, start, end))
    ensures Image(before, after, start)
  {
    hide SegmentAt, HeaderTable, HeaderCount, HeaderPlace, Says, Little, Segments;
    HeaderBytes(before, start, end);
    var s := Segments(before, start, end);
    forall j, p | 0 <= j < |s|
      ensures Says(before, start, HeaderPlace(before, start, j), p).Some? <==> s[j].Covers(p)
      ensures s[j].Covers(p) ==>
                Says(before, start, HeaderPlace(before, start, j), p) == Some(s[j].Byte(before, p) as int)
    {
      SegmentSays(before, start, HeaderPlace(before, start, j), p);
    }
  }

  /** Everything after the search for the kernel's module: the checks of the file header and the loop over the program
      headers.  False stands for the reboot. */
  method Load(mem: array<Byte>, start: int, ghost end: int) returns (ok: bool)
    requires HasHeader(mem[..], start)
    requires IsKernel(mem[..], start) ==> Loadable(mem[..], start, end)
    modifies mem
    ensures ok <==> Executable(old(mem[..]), start)
    ensures !ok ==> mem[..] == old(mem[..])
    ensures ok ==> Loaded(old(mem[..]), mem[..], Segments(old(mem[..]), start, end))
    ensures ok ==> Image(old(mem[..]), mem[..], start)
  {
    hide Fills.Filled, Moved, SegmentAt, HeaderTable, HeaderCount, Segments, Loaded, Loadable, IsKernel;
    hide Executable, Image;
    KernelBytes(mem[..], start);
    ok := IsKernel(mem[..], start);
    if !ok {
      return;
    }
    ghost var before := mem[..];
    SegmentsFit(before, start, end);
    ghost var s := Segments(before, start, end);
    var table := HeaderTable(mem[..], start);
    var i := 0;
    LoadedNone(before, start, end);
    while i < HeaderCount(mem[..], start)
      invariant 0 <= i <= |s|
      invariant Loaded(before, mem[..], s[..i])
      invariant HasSegments(mem[..], start, end) && Segments(mem[..], start, end) == s
      invariant HeaderTable(mem[..], start) == table
      decreases |s| - i
    {
      ghost var was := mem[..];
      LoadedStep(before, was, start, end, i);
      var ph := SegmentAt(mem[..], start, table + 56 * i);
      assert ph == s[i] && s[i].Fits(|before|);
      if ph.load {
        Fills.ByteMemset(mem, ph.target, 0, ph.memsz);
        if ph.filesz != 0 {
          ByteMemmove(mem, ph.target, ph.from, ph.filesz);
        } else {
          MovedNothing(mem[..], ph.target, ph.from);
        }
      }
      assert mem[..] == if s[i].load then Put(was, s[i]) else was;
      i := i + 1;
      ModuleKept(before, mem[..], start, end, i);
    }
    assert s[..i] == s;
    LoadedImage(before, mem[..], start, end);
  }
}
