/** The boot information as a reader sees it, and the kernel's walk over the memory map
    (Multiboot Specification 0.6.96, section 3.3). */
module BootInformation {
  import opened Options
  import opened StringMoves
  import opened LittleEndian
  import Pool = MemoryPool

  const HEADER := 98

  /** Offsets in the structure. */
  const CMDLINE := 16
  const COUNT := 20
  const MODULES := 24
  const LENGTH := 44
  const MAP := 48
  const SIZE := 94

  /** A zero byte ends the string at p. */
  ghost predicate Terminated(m: Bytes, p: int) {
    0 <= p && exists e :: p <= e < |m| && m[e] == 0
  }

  /** strlen of the loader counts the zero byte. */
  ghost function StrLen(m: Bytes, p: int): (n: int)
    requires Terminated(m, p)
    ensures 1 <= n && p + n <= |m| && m[p + n - 1] == 0 && forall i :: p <= i < p + n - 1 ==> m[i] != 0
    decreases |m| - p
  {
    if m[p] == 0 then 1 else 1 + StrLen(m, p + 1)
  }

  ghost function CString(m: Bytes, p: int): Bytes
    requires Terminated(m, p)
  {
    m[p..p + StrLen(m, p)]
  }

  lemma SameString(m: Bytes, p: int, w: Bytes, d: int)
    requires Terminated(m, p) && 0 <= d && d + StrLen(m, p) <= |w|
    requires w[d..d + StrLen(m, p)] == CString(m, p)
    ensures Terminated(w, d) && CString(w, d) == CString(m, p)
  {
    var n := StrLen(m, p);
    forall i | d <= i < d + n
      ensures w[i] == m[i - d + p]
    {
      assert w[d..d + n][i - d] == m[p..p + n][i - d];
    }
    assert w[d + n - 1] == 0;
  }

  method Strlen(mem: array<Byte>, p: int) returns (l: int)
    requires Terminated(mem[..], p)
    ensures l == StrLen(mem[..], p)
  {
    l := 1;
    var s := p;
    while mem[s] != 0
      invariant p <= s && l == s - p + 1
      invariant Terminated(mem[..], s) && StrLen(mem[..], p) == s - p + StrLen(mem[..], s)
      decreases mem.Length - s
    {
      s, l := s + 1, l + 1;
    }
  }

  predicate HasCmdline(m: Bytes, at: int)
    requires 0 <= at < |m|
  {
    m[at] & 0x04 != 0
  }

  predicate HasModules(m: Bytes, at: int)
    requires 0 <= at < |m|
  {
    m[at] & 0x08 != 0
  }

  predicate HasMap(m: Bytes, at: int)
    requires 0 <= at < |m|
  {
    m[at] & 0x40 != 0
  }

  /** The walk from s up to e stays in memory. */
  predicate MapFits(m: Bytes, s: int, e: int)
    decreases e - s
  {
    0 <= s && (s < e ==> s + 4 <= |m| && s + Read32(m, s) + 4 <= |m| && MapFits(m, s + Read32(m, s) + 4, e))
  }

  function MapEnd(m: Bytes, s: int, e: int): (r: int)
    requires MapFits(m, s, e)
    ensures s <= r && e <= r && (s < e ==> r <= |m|) && (s >= e ==> r == s)
    decreases e - s
  {
    if s < e then MapEnd(m, s + Read32(m, s) + 4, e) else s
  }

  function Entries(m: Bytes, s: int, e: int): seq<Bytes>
    requires MapFits(m, s, e)
    decreases e - s
  {
    if s < e then [m[s..s + Read32(m, s) + 4]] + Entries(m, s + Read32(m, s) + 4, e) else []
  }

  lemma {:induction false} SameEntries(m: Bytes, s: int, e: int, w: Bytes, d: int)
    requires MapFits(m, s, e) && MapEnd(m, s, e) <= |m|
    requires 0 <= d && d + (MapEnd(m, s, e) - s) <= |w| && w[d..d + (MapEnd(m, s, e) - s)] == m[s..MapEnd(m, s, e)]
    ensures MapFits(w, d, d + (e - s)) && Entries(w, d, d + (e - s)) == Entries(m, s, e)
    ensures MapEnd(w, d, d + (e - s)) - d == MapEnd(m, s, e) - s
    decreases e - s
  {
    hide Read32;
    if s < e {
      var n, t := Read32(m, s) + 4, MapEnd(m, s, e);
      SubSlice(m, s, w, d, t - s, 0, 4);
      SliceRead(m, s, w, d);
      SubSlice(m, s, w, d, t - s, 0, n);
      SubSlice(m, s, w, d, t - s, n, t - s);
      SameEntries(m, s + n, e, w, d + n);
    }
  }

  datatype Module = Module(start: int, end: int, name: Bytes, reserved: int)

  /** What the boot information says to its reader. */
  datatype Information =
    Information(memory: Bytes, cmdline: Option<Bytes>, modules: Option<seq<Module>>, map_: Option<seq<Bytes>>)

  /** The record of module k; its name is a pointer at offset 8. */
  function Record(m: Bytes, at: int, k: int): int
    requires 0 <= at && at + HEADER <= |m|
  {
    Read32(m, at + MODULES) + 16 * k
  }

  /** The pointers to the names of all modules. */
  function Names(m: Bytes, at: int): (q: seq<int>)
    requires 0 <= at && at + HEADER <= |m| && Record(m, at, Read32(m, at + COUNT)) <= |m|
    ensures |q| == Read32(m, at + COUNT)
    ensures forall k :: 0 <= k < |q| ==> q[k] == Read32(m, Record(m, at, k) + 8)
  {
    seq(Read32(m, at + COUNT), k requires 0 <= k < Read32(m, at + COUNT) => Read32(m, Record(m, at, k) + 8))
  }

  ghost predicate AllTerminated(m: Bytes, q: seq<int>) {
    forall k :: 0 <= k < |q| ==> Terminated(m, q[k])
  }

  ghost predicate ReadableModules(m: Bytes, at: int)
    requires 0 <= at && at + HEADER <= |m|
  {
    Record(m, at, Read32(m, at + COUNT)) <= |m| && AllTerminated(m, Names(m, at))
  }

  predicate ReadableMap(m: Bytes, at: int)
    requires 0 <= at && at + HEADER <= |m|
  {
    var s, e := Read32(m, at + MAP), Read32(m, at + MAP) + Read32(m, at + LENGTH);
    MapFits(m, s, e) && MapEnd(m, s, e) <= |m| && e < LIMIT
  }

  function MapOf(m: Bytes, at: int): seq<Bytes>
    requires 0 <= at && at + HEADER <= |m| && ReadableMap(m, at)
  {
    Entries(m, Read32(m, at + MAP), Read32(m, at + MAP) + Read32(m, at + LENGTH))
  }

  ghost predicate Readable(m: Bytes, at: int) {
    && 0 <= at && at + HEADER <= |m|
    && (HasCmdline(m, at) ==> Terminated(m, Read32(m, at + CMDLINE)))
    && (HasModules(m, at) ==> ReadableModules(m, at))
    && (HasMap(m, at) ==> ReadableMap(m, at))
  }

  ghost function ModuleAt(m: Bytes, at: int, k: int): Module
    requires 0 <= at && at + HEADER <= |m| && ReadableModules(m, at) && 0 <= k < Read32(m, at + COUNT)
  {
    var r := Record(m, at, k);
    Module(Read32(m, r), Read32(m, r + 4), CString(m, Names(m, at)[k]), Read32(m, r + 12))
  }

  ghost function View(m: Bytes, at: int): Information
    requires Readable(m, at)
  {
    Information(
      m[at + 4..at + 16],
      if HasCmdline(m, at) then Some(CString(m, Read32(m, at + CMDLINE))) else None,
      if HasModules(m, at)
      then Some(seq(Read32(m, at + COUNT), k requires 0 <= k < Read32(m, at + COUNT) => ModuleAt(m, at, k)))
      else None,
      if HasMap(m, at)
      then Some(MapOf(m, at))
      else None)
  }

  /** Where the structure has what, in bytes: bits 2, 3 and 6 of its first byte say what there is, the command line is
      at 16, the number of modules at 20, their records at 24, the length of the memory map at 44 and its address at
      48. */
  lemma ViewBytes(m: Bytes, at: int)
    requires Readable(m, at)
    ensures var v := View(m, at);
            && (v.cmdline.Some? <==> m[at] & 0x04 != 0) && (v.modules.Some? <==> m[at] & 0x08 != 0)
            && (v.map_.Some? <==> m[at] & 0x40 != 0)
            && (v.cmdline.Some? ==>
                  Terminated(m, Little(m, at + 16, 4)) && v.cmdline.value == CString(m, Little(m, at + 16, 4)))
            && (v.modules.Some? ==> |v.modules.value| == Little(m, at + 20, 4))
            && (v.map_.Some? ==>
                  var s := Little(m, at + 48, 4);
                  && MapFits(m, s, s + Little(m, at + 44, 4))
                  && v.map_.value == Entries(m, s, s + Little(m, at + 44, 4)))
  {
    hide Read32, Little, CString, Entries, MapFits, MapEnd;
    Little4(m, at + 16);
    Little4(m, at + 20);
    Little4(m, at + 44);
    Little4(m, at + 48);
  }

  /** The record of module k is 16 bytes long and holds four numbers; the third is the address of the name. */
  lemma ModuleBytes(m: Bytes, at: int, k: int)
    requires Readable(m, at) && m[at] & 0x08 != 0 && 0 <= k < Little(m, at + 20, 4)
    ensures var r := Little(m, at + 24, 4) + 16 * k;
            && Terminated(m, Little(m, r + 8, 4)) && View(m, at).modules.Some? && k < |View(m, at).modules.value|
            && View(m, at).modules.value[k] ==
                 Module(Little(m, r, 4), Little(m, r + 4, 4), CString(m, Little(m, r + 8, 4)), Little(m, r + 12, 4))
  {
    hide Read32, Little, CString, MapFits, MapEnd;
    Little4(m, at + 20);
    Little4(m, at + 24);
    var r := Record(m, at, k);
    Little4(m, r);
    Little4(m, r + 4);
    Little4(m, r + 8);
    Little4(m, r + 12);
  }

  /** One entry of the memory map; type 1 is available memory.  Specified entries have at least these 24 bytes. */
  function Region(b: Bytes): Pool.Region
    requires |b| >= 24
  {
    Pool.Region(Read64(b, 4), Read64(b, 12), Read32(b, 20) == 1)
  }

  predicate Whole(entries: seq<Bytes>) {
    forall k :: 0 <= k < |entries| ==> |entries[k]| >= 24
  }

  function Regions(entries: seq<Bytes>): seq<Pool.Region>
    requires Whole(entries)
  {
    seq(|entries|, k requires 0 <= k < |entries| => Region(entries[k]))
  }

  /** The fields that the kernel reads at address s, whatever the size of the entry there. */
  function RegionAt(m: Bytes, s: int): Pool.Region
    requires 0 <= s && s + 24 <= |m|
  {
    Pool.Region(Read64(m, s + 4), Read64(m, s + 12), Read32(m, s + 20) == 1)
  }

  /** The walk from s up to e finds all fields of its entries in memory. */
  predicate FieldsFit(m: Bytes, s: int, e: int)
    requires MapFits(m, s, e)
    decreases e - s
  {
    s < e ==> s + 24 <= |m| && FieldsFit(m, s + Read32(m, s) + 4, e)
  }

  /** What a walk over memory that stands still comes by; in an entry that is too short to hold the fields, they are
      read from the bytes behind it. */
  function Visited(m: Bytes, s: int, e: int): seq<Pool.Region>
    requires MapFits(m, s, e) && FieldsFit(m, s, e)
    decreases e - s
  {
    if s < e then [RegionAt(m, s)] + Visited(m, s + Read32(m, s) + 4, e) else []
  }

  /** The size of an entry, which does not count itself, is in its first four bytes; the address is at 4, the length at
      12 and the type at 20.  Type 1 is available memory. */
  lemma FirstVisited(m: Bytes, s: int, e: int)
    requires MapFits(m, s, e) && FieldsFit(m, s, e) && s < e
    ensures MapFits(m, s + Little(m, s, 4) + 4, e) && FieldsFit(m, s + Little(m, s, 4) + 4, e)
    ensures Visited(m, s, e) ==
            [Pool.Region(Little(m, s + 4, 8), Little(m, s + 12, 8), Little(m, s + 20, 4) == 1)]
            + Visited(m, s + Little(m, s, 4) + 4, e)
  {
    hide Read32, Read64, Little;
    Little4(m, s);
    Little8(m, s + 4);
    Little8(m, s + 12);
    Little4(m, s + 20);
  }

  /** Entries of the specified size are read as they are. */
  lemma {:induction false} VisitedRegions(m: Bytes, s: int, e: int)
    requires MapFits(m, s, e) && Whole(Entries(m, s, e))
    ensures FieldsFit(m, s, e) && Visited(m, s, e) == Regions(Entries(m, s, e))
    decreases e - s
  {
    hide Read32, Read64, Region, RegionAt;
    if s < e {
      var n := Read32(m, s) + 4;
      var rest := Entries(m, s + n, e);
      assert Entries(m, s, e) == [m[s..s + n]] + rest;
      forall k | 0 <= k < |rest|
        ensures |rest[k]| >= 24
      {
        assert Entries(m, s, e)[k + 1] == rest[k];
      }
      assert |Entries(m, s, e)[0]| >= 24;
      VisitedRegions(m, s + n, e);
      RegionRead(m, s, n);
    }
  }

  lemma RegionRead(m: Bytes, s: int, n: int)
    requires 0 <= s && 24 <= n && s + n <= |m|
    ensures RegionAt(m, s) == Region(m[s..s + n])
  {
    hide Read32, Read64;
    SliceWord(m, s, n, 4);
    SliceWord(m, s, n, 12);
    SliceWord(m, s, n, 16);
  }

  lemma SliceWord(m: Bytes, s: int, n: int, i: int)
    requires 0 <= s && 0 <= i && i + 8 <= n && s + n <= |m|
    ensures Read64(m[s..s + n], i) == Read64(m, s + i)
    ensures Read32(m[s..s + n], i + 4) == Read32(m, s + i + 4)
  {
  }
}
