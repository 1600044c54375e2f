/** The loader's copy of the boot information, which the kernel reads (Multiboot Specification 0.6.96, section 3.3). */
module Backup {
  import opened StringMoves
  import opened LittleEndian
  import opened BootInformation
  import Fills = StringFills

  /** Where the copy begins. */
  const ARENA := 0x28_0000

  /** Memory with the contents of the copy, a, in place. */
  function Placed(m: Bytes, a: Bytes): Bytes
    requires ARENA + |a| <= |m|
  {
    m[..ARENA] + a + m[ARENA + |a|..]
  }

  lemma PlacedAt(m: Bytes, a: Bytes)
    requires ARENA + |a| <= |m|
    ensures |Placed(m, a)| == |m|
    ensures forall i :: 0 <= i < |m| ==> Placed(m, a)[i] == if ARENA <= i < ARENA + |a| then a[i - ARENA] else m[i]
  {
  }

  lemma PlacedSlice(m: Bytes, a: Bytes, i: int, j: int)
    requires ARENA + |a| <= |m| && 0 <= i <= j <= |a|
    ensures Placed(m, a)[ARENA + i..ARENA + j] == a[i..j]
  {
    PlacedAt(m, a);
  }

  lemma PlacedRead(m: Bytes, a: Bytes, at: int)
    requires ARENA + |a| <= |m| && 0 <= at && at + 4 <= |a|
    ensures Read32(Placed(m, a), ARENA + at) == Read32(a, at)
  {
    PlacedAt(m, a);
    assert forall i :: 0 <= i < |a| ==> Placed(m, a)[ARENA + i] == a[i];
  }

  /** Bytes from outside are appended. */
  lemma PlacedMove(m: Bytes, a: Bytes, p: int, n: int)
    requires 0 <= p && 0 <= n && p + n <= |m| && ARENA + |a| + n <= |m|
    requires p + n <= ARENA || ARENA + |a| <= p
    ensures Moved(Placed(m, a), ARENA + |a|, p, n) == Placed(m, a + m[p..p + n])
  {
    PlacedAt(m, a);
    PlacedAt(m, a + m[p..p + n]);
    assert Placed(m, a)[p..p + n] == m[p..p + n];
  }

  lemma PlacedWrite(m: Bytes, a: Bytes, at: int, v: int)
    requires ARENA + |a| <= |m| && 0 <= at && at + 4 <= |a| && 0 <= v < LIMIT
    ensures Write32(Placed(m, a), ARENA + at, v) == Placed(m, Write32(a, at, v))
  {
  }

  lemma PlacedByte(m: Bytes, a: Bytes, at: int, v: Byte)
    requires ARENA + |a| <= |m| && 0 <= at < |a|
    ensures |Placed(m, a)| == |m| && Placed(m, a)[ARENA + at := v] == Placed(m, a[at := v])
  {
  }

  lemma PlacedFill(m: Bytes, a: Bytes, at: int, n: nat)
    requires ARENA + |a| <= |m| && 0 <= at && at + n <= |a|
    ensures Fills.Filled(Placed(m, a), ARENA + at, 0, n) == Placed(m, Fills.Filled(a, at, 0, n))
  {
  }

  ghost function CmdlineSize(m: Bytes, at: int): (n: int)
    requires Readable(m, at)
    ensures 0 <= n
  {
    if HasCmdline(m, at) then StrLen(m, Read32(m, at + CMDLINE)) else 0
  }

  /** The room that the first k of these strings take. */
  ghost function Sizes(m: Bytes, q: seq<int>, k: int): (n: int)
    requires AllTerminated(m, q) && 0 <= k <= |q|
    ensures k <= n
    decreases k
  {
    if k == 0 then 0 else Sizes(m, q, k - 1) + StrLen(m, q[k - 1])
  }

  lemma {:induction false} SizesGrow(m: Bytes, q: seq<int>, k: int, j: int)
    requires AllTerminated(m, q) && 0 <= k <= j <= |q|
    ensures Sizes(m, q, k) <= Sizes(m, q, j)
    ensures k < j ==> Sizes(m, q, k) + StrLen(m, q[k]) <= Sizes(m, q, j)
    decreases j
  {
    hide StrLen, Terminated, AllTerminated;
    if k < j {
      SizesGrow(m, q, k, j - 1);
    }
  }

  lemma SizesStep(m: Bytes, q: seq<int>, k: int)
    requires AllTerminated(m, q) && 0 < k <= |q|
    ensures Sizes(m, q, k) == Sizes(m, q, k - 1) + StrLen(m, q[k - 1])
  {
  }

  ghost function ModulesSize(m: Bytes, at: int): (n: int)
    requires Readable(m, at)
    ensures 0 <= n
  {
    if HasModules(m, at) then 16 * |Names(m, at)| + Sizes(m, Names(m, at), |Names(m, at)|) else 0
  }

  ghost function MapSize(m: Bytes, at: int): (n: int)
    requires Readable(m, at)
    ensures 0 <= n
  {
    if HasMap(m, at)
    then MapEnd(m, Read32(m, at + MAP), Read32(m, at + MAP) + Read32(m, at + LENGTH)) - Read32(m, at + MAP)
    else 0
  }

  ghost function Total(m: Bytes, at: int): int
    requires Readable(m, at)
  {
    HEADER + CmdlineSize(m, at) + ModulesSize(m, at) + MapSize(m, at)
  }

  predicate Outside(p: int, n: int, room: int) {
    p + n <= ARENA || ARENA + room <= p
  }

  ghost predicate AllOutside(m: Bytes, q: seq<int>, room: int)
    requires AllTerminated(m, q)
  {
    forall k :: 0 <= k < |q| ==> Outside(q[k], StrLen(m, q[k]), room)
  }

  /** The copy fits into memory, and nothing it is made from lies where it is going to be. */
  ghost predicate Ready(m: Bytes, at: int) {
    && Readable(m, at) && ARENA + Total(m, at) <= |m| < LIMIT && Outside(at, HEADER, Total(m, at))
    && (HasCmdline(m, at) ==> Outside(Read32(m, at + CMDLINE), StrLen(m, Read32(m, at + CMDLINE)), Total(m, at)))
    && (HasModules(m, at) ==>
          && Outside(Read32(m, at + MODULES), 16 * |Names(m, at)|, Total(m, at))
          && AllOutside(m, Names(m, at), Total(m, at)))
    && (HasMap(m, at) ==> Outside(Read32(m, at + MAP), MapSize(m, at), Total(m, at)))
  }

  /** x is appended, the pointer at offset `at` comes to name it, and the size is kept up to date. */
  function Attached(a: Bytes, x: Bytes, at: int): (r: Bytes)
    requires HEADER <= |a| && (0 <= at <= SIZE - 4 || HEADER <= at <= |a| - 4) && ARENA + |a| + |x| < LIMIT
    ensures |r| == |a| + |x|
  {
    Write32(Write32(a + x, at, ARENA + |a|), SIZE, |a| + |x|)
  }

  lemma AttachedBytes(a: Bytes, x: Bytes, at: int)
    requires HEADER <= |a| && (0 <= at <= SIZE - 4 || HEADER <= at <= |a| - 4) && ARENA + |a| + |x| < LIMIT
    ensures var r := Attached(a, x, at);
            && Read32(r, SIZE) == |r| && Read32(r, at) == ARENA + |a| && r[|a|..] == x
            && forall i :: 0 <= i < |a| && !(at <= i < at + 4) && !(SIZE <= i < SIZE + 4) ==> r[i] == a[i]
  {
    hide Read32, Write32;
    var b := Write32(a + x, at, ARENA + |a|);
    var r := Write32(b, SIZE, |a| + |x|);
    SameReads(b, r, at);
    assert r[|a|..] == (a + x)[|a|..];
  }

  function Begun(m: Bytes, at: int): (a: Bytes)
    requires 0 <= at && at + HEADER <= |m|
    ensures |a| == HEADER && Read32(a, SIZE) == HEADER && Same(m[at..at + HEADER], a, 0, SIZE)
  {
    Write32(m[at..at + HEADER], SIZE, HEADER)
  }

  ghost function WithCmdline(m: Bytes, at: int): (b: Bytes)
    requires Ready(m, at)
    ensures |b| == HEADER + CmdlineSize(m, at)
  {
    if HasCmdline(m, at) then Attached(Begun(m, at), CString(m, Read32(m, at + CMDLINE)), CMDLINE) else Begun(m, at)
  }

  /** The table of modules. */
  function Table(m: Bytes, at: int): (t: Bytes)
    requires 0 <= at && at + HEADER <= |m| && Record(m, at, Read32(m, at + COUNT)) <= |m|
    ensures |t| == 16 * |Names(m, at)|
  {
    m[Read32(m, at + MODULES)..Record(m, at, Read32(m, at + COUNT))]
  }

  /** Room for a table at offset t and the strings q after it. */
  ghost predicate HasRoom(m: Bytes, q: seq<int>, b: Bytes, t: int) {
    AllTerminated(m, q) && HEADER <= t && t + 16 * |q| == |b| && ARENA + |b| + Sizes(m, q, |q|) < LIMIT
  }

  /** The first k strings are appended, and the table at offset t comes to name them. */
  ghost function WithNames(m: Bytes, q: seq<int>, b: Bytes, t: int, k: int): (r: Bytes)
    requires HasRoom(m, q, b, t) && 0 <= k <= |q|
    ensures |r| == |b| + Sizes(m, q, k)
    decreases k
  {
    SizesGrow(m, q, k, |q|);
    if k == 0 then b else Attached(WithNames(m, q, b, t, k - 1), CString(m, q[k - 1]), t + 16 * (k - 1) + 8)
  }

  ghost function WithModules(m: Bytes, at: int, a: Bytes): (b: Bytes)
    requires Ready(m, at) && |a| == HEADER + CmdlineSize(m, at)
    ensures |b| == |a| + ModulesSize(m, at)
  {
    if HasModules(m, at)
    then WithNames(m, Names(m, at), Attached(a, Table(m, at), MODULES), |a|, |Names(m, at)|)
    else a
  }

  /** The record at offset r is as before but for its pointer. */
  predicate RecordKept(a: Bytes, b: Bytes, r: int) {
    Same(a, b, r, r + 8) && Same(a, b, r + 12, r + 16)
  }

  /** String j is in its place in r, and the table names it. */
  ghost predicate Named(m: Bytes, q: seq<int>, b: Bytes, t: int, j: int, r: Bytes)
    requires HasRoom(m, q, b, t) && 0 <= j < |q|
  {
    SizesGrow(m, q, j, |q|);
    && |b| + Sizes(m, q, j + 1) <= |r|
    && Read32(r, t + 16 * j + 8) == ARENA + |b| + Sizes(m, q, j)
    && r[|b| + Sizes(m, q, j)..|b| + Sizes(m, q, j + 1)] == CString(m, q[j])
  }

  /** What k names do to the copy. */
  ghost predicate AllNamed(m: Bytes, q: seq<int>, b: Bytes, t: int, k: int, r: Bytes)
    requires HasRoom(m, q, b, t) && 0 <= k <= |q|
  {
    && |r| == |b| + Sizes(m, q, k) && Read32(r, SIZE) == |r|
    && Same(b, r, 0, SIZE) && Same(b, r, HEADER, t)
    && (forall j :: 0 <= j < |q| ==> RecordKept(b, r, t + 16 * j))
    && (forall j :: 0 <= j < k ==> Named(m, q, b, t, j, r))
    && (forall j :: k <= j < |q| ==> Same(b, r, t + 16 * j + 8, t + 16 * j + 12))
  }

  lemma {:induction false} NamesLaid(m: Bytes, q: seq<int>, b: Bytes, t: int, k: int)
    requires HasRoom(m, q, b, t) && 0 <= k <= |q| && Read32(b, SIZE) == |b|
    ensures AllNamed(m, q, b, t, k, WithNames(m, q, b, t, k))
    decreases k
  {
    hide Read32, HasRoom, StrLen, AllTerminated, Terminated, Attached, CString, AllNamed;
    if k > 0 {
      NamesLaid(m, q, b, t, k - 1);
      NamedStep(m, q, b, t, k, WithNames(m, q, b, t, k - 1));
    } else {
      NamesNone(m, q, b, t);
    }
  }

  lemma NamesNone(m: Bytes, q: seq<int>, b: Bytes, t: int)
    requires HasRoom(m, q, b, t) && Read32(b, SIZE) == |b|
    ensures AllNamed(m, q, b, t, 0, b)
  {
    hide Read32;
  }

  /** What an attachment leaves alone. */
  lemma AttachedSame(a: Bytes, x: Bytes, at: int, lo: int, hi: int)
    requires HEADER <= |a| && (0 <= at <= SIZE - 4 || HEADER <= at <= |a| - 4) && ARENA + |a| + |x| < LIMIT
    requires 0 <= lo && hi <= |a| && (hi <= at || at + 4 <= lo) && (hi <= SIZE || SIZE + 4 <= lo)
    ensures Same(a, Attached(a, x, at), lo, hi)
  {
    hide Attached, Read32;
    AttachedBytes(a, x, at);
  }

  /** A string that is in its place stays there. */
  lemma NamedLater(m: Bytes, q: seq<int>, b: Bytes, t: int, j: int, r: Bytes, k: int, n: Bytes)
    requires HasRoom(m, q, b, t) && 0 <= j < k < |q| && |r| == |b| + Sizes(m, q, k) && |r| <= |n|
    requires Same(r, n, HEADER, t + 16 * k + 8) && Same(r, n, |b|, |r|)
    requires Named(m, q, b, t, j, r)
    ensures Named(m, q, b, t, j, n)
  {
    hide Read32, StrLen, AllTerminated, Terminated, CString, Same, Sizes;
    SizesGrow(m, q, j, j + 1);
    SizesGrow(m, q, j + 1, k);
    SizesGrow(m, q, j, |q|);
    PartsKept(r, n, t + 16 * k + 8, t + 16 * j + 8, |b|, |b| + Sizes(m, q, j), |b| + Sizes(m, q, j + 1));
  }

  /** A number and a stretch of text in the parts that stay the same. */
  lemma PartsKept(r: Bytes, n: Bytes, hi: int, at: int, lo: int, i: int, j: int)
    requires |r| <= |n| && Same(r, n, HEADER, hi) && Same(r, n, lo, |r|)
    requires HEADER <= at && at + 4 <= hi && at + 4 <= |r| && 0 <= lo <= i <= j <= |r|
    ensures Read32(n, at) == Read32(r, at) && n[i..j] == r[i..j]
  {
    hide Read32, Same;
    SameWithin(r, n, HEADER, hi, at, at + 4);
    SameReads(r, n, at);
    SameWithin(r, n, lo, |r|, i, j);
    SameSlice(r, n, i, j);
  }

  lemma NamedStep(m: Bytes, q: seq<int>, b: Bytes, t: int, k: int, r: Bytes)
    requires HasRoom(m, q, b, t) && 0 < k <= |q| && AllNamed(m, q, b, t, k - 1, r)
    ensures ARENA + |r| + StrLen(m, q[k - 1]) < LIMIT
    ensures AllNamed(m, q, b, t, k, Attached(r, CString(m, q[k - 1]), t + 16 * (k - 1) + 8))
  {
    hide Read32, Attached, Named, Terminated, CString, Same, RecordKept, Sizes, StrLen;
    SizesGrow(m, q, k, |q|);
    SizesStep(m, q, k);
    var at, x := t + 16 * (k - 1) + 8, CString(m, q[k - 1]);
    CStringLength(m, q[k - 1]);
    AttachedBytes(r, x, at);
    var n := Attached(r, x, at);
    AttachedSame(r, x, at, HEADER, at);
    AttachedSame(r, x, at, |b|, |r|);
    NamedNow(m, q, b, t, k - 1, n);
    StepKeeps(b, r, x, t, k, |q|);
    forall j | 0 <= j < k - 1
      ensures Named(m, q, b, t, j, n)
    {
      assert Named(m, q, b, t, j, r);
      NamedLater(m, q, b, t, j, r, k - 1, n);
    }
  }

  /** What lies before the names, in a table of c records. */
  lemma StepKeeps(b: Bytes, r: Bytes, x: Bytes, t: int, k: int, c: int)
    requires HEADER <= t && t + 16 * c == |b| <= |r| && 0 < k <= c && ARENA + |r| + |x| < LIMIT
    requires Same(b, r, 0, SIZE) && Same(b, r, HEADER, t) && forall j :: 0 <= j < c ==> RecordKept(b, r, t + 16 * j)
    requires forall j :: k - 1 <= j < c ==> Same(b, r, t + 16 * j + 8, t + 16 * j + 12)
    ensures var n := Attached(r, x, t + 16 * (k - 1) + 8);
            && Same(b, n, 0, SIZE) && Same(b, n, HEADER, t)
            && (forall j :: 0 <= j < c ==> RecordKept(b, n, t + 16 * j))
            && (forall j :: k <= j < c ==> Same(b, n, t + 16 * j + 8, t + 16 * j + 12))
  {
    hide Attached, Same, RecordKept;
    var at := t + 16 * (k - 1) + 8;
    var n := Attached(r, x, at);
    AttachedSame(r, x, at, 0, SIZE);
    SameTwice(b, r, n, 0, SIZE);
    AttachedSame(r, x, at, HEADER, t);
    SameTwice(b, r, n, HEADER, t);
    forall j | 0 <= j < c
      ensures RecordKept(b, n, t + 16 * j)
      ensures k <= j ==> Same(b, n, t + 16 * j + 8, t + 16 * j + 12)
    {
      RecordLater(b, r, x, at, t + 16 * j);
    }
  }

  /** A record is not touched, but for the pointer that is set. */
  lemma RecordLater(b: Bytes, r: Bytes, x: Bytes, at: int, s: int)
    requires HEADER <= |b| <= |r| && HEADER <= at <= |r| - 4 && ARENA + |r| + |x| < LIMIT
    requires HEADER <= s && s + 16 <= |r| && (at <= s - 8 || at == s + 8 || s + 16 <= at) && RecordKept(b, r, s)
    ensures var n := Attached(r, x, at);
            RecordKept(b, n, s) && (at != s + 8 && Same(b, r, s + 8, s + 12) ==> Same(b, n, s + 8, s + 12))
  {
    hide Attached, Same;
    var n := Attached(r, x, at);
    AttachedSame(r, x, at, s, s + 8);
    AttachedSame(r, x, at, s + 12, s + 16);
    SameTwice(b, r, n, s, s + 8);
    SameTwice(b, r, n, s + 12, s + 16);
    if at != s + 8 && Same(b, r, s + 8, s + 12) {
      AttachedSame(r, x, at, s + 8, s + 12);
      SameTwice(b, r, n, s + 8, s + 12);
    }
  }

  lemma CStringLength(m: Bytes, p: int)
    requires Terminated(m, p)
    ensures |CString(m, p)| == StrLen(m, p)
  {
  }

  lemma NamedNow(m: Bytes, q: seq<int>, b: Bytes, t: int, j: int, n: Bytes)
    requires HasRoom(m, q, b, t) && 0 <= j < |q| && |n| == |b| + Sizes(m, q, j + 1)
    requires Read32(n, t + 16 * j + 8) == ARENA + |b| + Sizes(m, q, j)
    requires n[|b| + Sizes(m, q, j)..] == CString(m, q[j])
    ensures Named(m, q, b, t, j, n)
  {
    hide Read32;
    SizesGrow(m, q, j, |q|);
  }

  predicate IsSet(b: Byte, mask: Byte) {
    b & mask != 0
  }

  function Without(b: Byte, mask: Byte): Byte {
    b & !mask
  }

  lemma NothingToClear(b: Byte, mask: Byte)
    ensures !IsSet(b, mask) ==> Without(b, mask) == b
  {
    if b & mask == 0 {
      assert b & !mask == b;
    }
  }

  /** A flag that is not supported is cleared, and so is the field that goes with it. */
  function Dropped(a: Bytes, byte: int, mask: Byte, field: int, n: nat): (b: Bytes)
    requires 0 <= byte <= 1 && 2 <= field && field + n <= |a|
    ensures |b| == |a| && b[byte] == Without(a[byte], mask)
    ensures forall i :: 0 <= i < |a| && i != byte && !(field <= i < field + n) ==> b[i] == a[i]
  {
    NothingToClear(a[byte], mask);
    if IsSet(a[byte], mask) then Fills.Filled(a[byte := Without(a[byte], mask)], field, 0, n) else a
  }

  /** The symbol tables. */
  function WithoutSymbols(a: Bytes): (b: Bytes)
    requires HEADER <= |a|
    ensures |b| == |a|
  {
    Dropped(a, 0, 0x30, 28, 16)
  }

  function MapBytes(m: Bytes, at: int): (b: Bytes)
    requires 0 <= at && at + HEADER <= |m| && ReadableMap(m, at)
  {
    m[Read32(m, at + MAP)..MapEnd(m, Read32(m, at + MAP), Read32(m, at + MAP) + Read32(m, at + LENGTH))]
  }

  ghost function WithMap(m: Bytes, at: int, a: Bytes): (b: Bytes)
    requires Ready(m, at) && |a| == HEADER + CmdlineSize(m, at) + ModulesSize(m, at)
    ensures |b| == Total(m, at)
  {
    if HasMap(m, at) then Attached(a, MapBytes(m, at), MAP) else a
  }

  /** Drives, configuration table, APM table and VBE. */
  function WithoutRest(a: Bytes): (b: Bytes)
    requires HEADER <= |a|
    ensures |b| == |a|
  {
    Dropped(Dropped(Dropped(Dropped(a, 0, 0x80, 52, 8), 1, 0x01, 60, 4), 1, 0x04, 68, 4), 1, 0x08, 72, 22)
  }

  /** The whole copy. */
  ghost function Copy(m: Bytes, at: int): (f: Bytes)
    requires Ready(m, at)
    ensures |f| == Total(m, at)
  {
    WithoutRest(WithMap(m, at, WithoutSymbols(WithModules(m, at, WithCmdline(m, at)))))
  }

  /** The record at r is that at s of the source, but it points to p, and there is the name. */
  predicate ModuleIn(m: Bytes, s: int, f: Bytes, r: int, p: int, name: Bytes) {
    && 0 <= s && s + 16 <= |m| && 0 <= r && r + 16 <= |f| && 0 <= p && p + |name| <= |f|
    && f[r..r + 8] == m[s..s + 8] && f[r + 12..r + 16] == m[s + 12..s + 16]
    && Read32(f, r + 8) == ARENA + p && f[p..p + |name|] == name
  }

  /** Command line, module table, names and memory map lie one behind the other. */
  ghost predicate Layout(m: Bytes, at: int, f: Bytes)
    requires Readable(m, at)
  {
    var t := HEADER + CmdlineSize(m, at);
    var s := t + ModulesSize(m, at);
    && |f| == Total(m, at) && Read32(f, SIZE) == |f|
    && f[0] == m[at] & 0x4F && f[1] == m[at + 1] & 0xF2 && f[2..16] == m[at + 2..at + 16]
    && Read32(f, COUNT) == Read32(m, at + COUNT) && Read32(f, LENGTH) == Read32(m, at + LENGTH)
    && (HasCmdline(m, at) ==>
          Read32(f, CMDLINE) == ARENA + HEADER && f[HEADER..t] == CString(m, Read32(m, at + CMDLINE)))
    && (HasModules(m, at) ==>
          var q := Names(m, at);
          && Read32(f, MODULES) == ARENA + t
          && forall k :: 0 <= k < |q| ==>
               ModuleIn(m, Record(m, at, k), f, t + 16 * k, t + 16 * |q| + Sizes(m, q, k), CString(m, q[k])))
    && (HasMap(m, at) ==> Read32(f, MAP) == ARENA + s && f[s..] == MapBytes(m, at))
  }

  /** The layout in numbers: the copy begins at 0x280000, its parts follow at its byte 98, the size is at 94, and the
      pointers to the parts are at 16, 24 and 48. */
  lemma LayoutBytes(m: Bytes, at: int, f: Bytes)
    requires Readable(m, at) && Layout(m, at, f)
    ensures Little(f, 94, 4) == |f| && Little(f, 20, 4) == Little(m, at + 20, 4)
    ensures m[at] & 0x04 != 0 ==> Little(f, 16, 4) == 0x28_0062
    ensures m[at] & 0x08 != 0 ==> Little(f, 24, 4) == 0x28_0062 + CmdlineSize(m, at)
    ensures m[at] & 0x40 != 0 ==> Little(f, 48, 4) == 0x28_0062 + CmdlineSize(m, at) + ModulesSize(m, at)
  {
    hide Read32, Little, CmdlineSize, ModulesSize, MapSize, MapBytes, Readable;
    LayoutFits(m, at);
    Little4(f, 94);
    Little4(f, 16);
    Little4(f, 20);
    Little4(f, 24);
    Little4(f, 48);
    Little4(m, at + 20);
  }

  lemma LayoutFits(m: Bytes, at: int)
    requires Readable(m, at)
    ensures 0 <= at && at + 98 <= |m| && 98 <= Total(m, at)
  {
    hide Read32;
  }

  lemma CmdlineLaid(m: Bytes, at: int)
    requires Ready(m, at)
    ensures var a, b := Begun(m, at), WithCmdline(m, at);
            && Read32(b, SIZE) == |b| && Same(a, b, 0, CMDLINE) && Same(a, b, CMDLINE + 4, SIZE)
            && (HasCmdline(m, at) ==>
                  Read32(b, CMDLINE) == ARENA + HEADER && b[HEADER..] == CString(m, Read32(m, at + CMDLINE)))
  {
    hide Read32, Attached, Begun;
    if HasCmdline(m, at) {
      AttachedBytes(Begun(m, at), CString(m, Read32(m, at + CMDLINE)), CMDLINE);
    }
  }

  lemma ModulesLaid(m: Bytes, at: int, a: Bytes)
    requires Ready(m, at) && |a| == HEADER + CmdlineSize(m, at) && Read32(a, SIZE) == |a|
    ensures var c := WithModules(m, at, a);
            && Read32(c, SIZE) == |c|
            && Same(a, c, 0, MODULES) && Same(a, c, MODULES + 4, SIZE) && Same(a, c, HEADER, |a|)
            && (HasModules(m, at) ==>
                  var q, b := Names(m, at), Attached(a, Table(m, at), MODULES);
                  && Read32(c, MODULES) == ARENA + |a| && b[|a|..] == Table(m, at)
                  && HasRoom(m, q, b, |a|) && AllNamed(m, q, b, |a|, |q|, c))
  {
    hide Read32, Attached, WithNames, Names, Table, Named, RecordKept;
    if HasModules(m, at) {
      var q := Names(m, at);
      AttachedBytes(a, Table(m, at), MODULES);
      var b := Attached(a, Table(m, at), MODULES);
      NamesLaid(m, q, b, |a|, |q|);
      SameReads(b, WithNames(m, q, b, |a|, |q|), MODULES);
    }
  }

  lemma MapLaid(m: Bytes, at: int, a: Bytes)
    requires Ready(m, at) && |a| == HEADER + CmdlineSize(m, at) + ModulesSize(m, at) && Read32(a, SIZE) == |a|
    ensures var b := WithMap(m, at, a);
            && Read32(b, SIZE) == |b|
            && Same(a, b, 0, MAP) && Same(a, b, MAP + 4, SIZE) && Same(a, b, HEADER, |a|)
            && (HasMap(m, at) ==> Read32(b, MAP) == ARENA + |a| && b[|a|..] == MapBytes(m, at))
  {
    hide Read32, Attached, CmdlineSize, ModulesSize;
    if HasMap(m, at) {
      AttachedBytes(a, MapBytes(m, at), MAP);
    }
  }

  lemma RestLaid(a: Bytes)
    requires HEADER <= |a|
    ensures var b := WithoutRest(a);
            && b[0] == a[0] & 0x7F && b[1] == a[1] & 0xF2
            && Same(a, b, 2, 52) && Same(a, b, SIZE, |a|)
  {
    hide Dropped;
    var b := Dropped(a, 0, 0x80, 52, 8);
    var c := Dropped(b, 1, 0x01, 60, 4);
    var d := Dropped(c, 1, 0x04, 68, 4);
    assert WithoutRest(a)[1] == ((a[1] & !0x01) & !0x04) & !0x08;
  }

  lemma SymbolsLaid(a: Bytes)
    requires HEADER <= |a|
    ensures var b := WithoutSymbols(a);
            b[0] == a[0] & 0xCF && Same(a, b, 1, 28) && Same(a, b, 44, |a|)
  {
    hide Dropped;
  }

  /** What the stages leave as it is. */
  predicate Stages(a: Bytes, b: Bytes, c: Bytes, d: Bytes, e: Bytes, f: Bytes) {
    && HEADER == |a| && HEADER <= |b| <= |c| == |d| <= |e| == |f|
    && Same(a, b, 0, CMDLINE) && Same(a, b, CMDLINE + 4, SIZE)
    && Same(b, c, 0, MODULES) && Same(b, c, MODULES + 4, SIZE) && Same(b, c, HEADER, |b|)
    && d[0] == c[0] & 0xCF && Same(c, d, 1, 28) && Same(c, d, 44, |c|)
    && Same(d, e, 0, MAP) && Same(d, e, MAP + 4, SIZE) && Same(d, e, HEADER, |d|)
    && f[0] == e[0] & 0x7F && f[1] == e[1] & 0xF2 && Same(e, f, 2, 52) && Same(e, f, SIZE, |e|)
  }

  lemma StagesKeep(a: Bytes, b: Bytes, c: Bytes, d: Bytes, e: Bytes, f: Bytes)
    requires Stages(a, b, c, d, e, f)
    ensures f[0] == a[0] & 0x4F && f[1] == a[1] & 0xF2
    ensures Same(a, f, 2, CMDLINE) && Same(a, f, COUNT, MODULES) && Same(a, f, LENGTH, MAP)
    ensures Same(b, f, CMDLINE, COUNT) && Same(b, f, HEADER, |b|)
    ensures Same(c, f, MODULES, 28) && Same(c, f, HEADER, |c|)
    ensures Same(e, f, MAP, 52) && Same(e, f, HEADER, |e|)
  {
    assert ((a[0] & 0xCF) & 0x7F) == a[0] & 0x4F;
  }

  lemma SameSlice(a: Bytes, b: Bytes, i: int, j: int)
    requires 0 <= i <= j <= |a| && Same(a, b, i, j)
    ensures b[i..j] == a[i..j]
  {
  }

  /** Record k, when the names are in their places. */
  lemma ModuleLaid(m: Bytes, at: int, a: Bytes, c: Bytes, f: Bytes, k: int)
    requires Readable(m, at) && HasModules(m, at) && 0 <= k < |Names(m, at)| && HEADER <= |a|
    requires ARENA + |a| + |Table(m, at)| < LIMIT && Same(c, f, HEADER, |c|)
    requires var q, b := Names(m, at), Attached(a, Table(m, at), MODULES);
             && b[|a|..] == Table(m, at) && HasRoom(m, q, b, |a|) && AllNamed(m, q, b, |a|, |q|, c)
    ensures var q := Names(m, at);
            ModuleIn(m, Record(m, at, k), f, |a| + 16 * k, |a| + 16 * |q| + Sizes(m, q, k), CString(m, q[k]))
  {
    hide Read32, Attached, Record, Names, HasModules, Named, RecordKept, Same, Table, StrLen, Terminated, CString;
    hide Sizes;
    var q, b := Names(m, at), Attached(a, Table(m, at), MODULES);
    assert Named(m, q, b, |a|, k, c) && RecordKept(b, c, |a| + 16 * k);
    NameLaid(m, q, b, |a|, c, f, k);
    RecordLaid(m, at, b, |a|, c, f, k);
  }

  lemma NameLaid(m: Bytes, q: seq<int>, b: Bytes, t: int, c: Bytes, f: Bytes, k: int)
    requires HasRoom(m, q, b, t) && 0 <= k < |q| && Same(c, f, HEADER, |c|) && Named(m, q, b, t, k, c)
    ensures var p := |b| + Sizes(m, q, k);
            && HEADER <= p && p + |CString(m, q[k])| <= |f|
            && Read32(f, t + 16 * k + 8) == ARENA + p && f[p..p + |CString(m, q[k])|] == CString(m, q[k])
  {
    hide Read32, StrLen, Terminated, CString;
    CStringLength(m, q[k]);
    SameReads(c, f, t + 16 * k + 8);
    SameSlice(c, f, |b| + Sizes(m, q, k), |b| + Sizes(m, q, k + 1));
  }

  lemma RecordLaid(m: Bytes, at: int, b: Bytes, t: int, c: Bytes, f: Bytes, k: int)
    requires 0 <= at && at + HEADER <= |m| && Record(m, at, Read32(m, at + COUNT)) <= |m|
    requires HEADER <= t <= |b| && b[t..] == Table(m, at) && 0 <= k < |Names(m, at)|
    requires RecordKept(b, c, t + 16 * k) && Same(c, f, HEADER, |c|)
    ensures var s, r := Record(m, at, k), t + 16 * k;
            && 0 <= s && s + 16 <= |m| && r + 16 <= |f|
            && f[r..r + 8] == m[s..s + 8] && f[r + 12..r + 16] == m[s + 12..s + 16]
  {
    hide Read32;
    var r := t + 16 * k;
    TableRecord(m, at, b, t, k);
    SameSlice(b, c, r, r + 8);
    SameSlice(b, c, r + 12, r + 16);
    SameSlice(c, f, r, r + 8);
    SameSlice(c, f, r + 12, r + 16);
  }

  lemma TableRecord(m: Bytes, at: int, b: Bytes, t: int, k: int)
    requires 0 <= at && at + HEADER <= |m| && Record(m, at, Read32(m, at + COUNT)) <= |m|
    requires 0 <= t <= |b| && b[t..] == Table(m, at) && 0 <= k < |Names(m, at)|
    ensures t + 16 * k + 16 <= |b|
    ensures var s := Record(m, at, k);
            b[t + 16 * k..t + 16 * k + 8] == m[s..s + 8] && b[t + 16 * k + 12..t + 16 * k + 16] == m[s + 12..s + 16]
  {
    hide Read32;
    var s, n := Record(m, at, 0), |Table(m, at)|;
    assert b[t..t + n] == m[s..s + n];
    SubSlice(m, s, b, t, n, 16 * k, 16 * k + 8);
    SubSlice(m, s, b, t, n, 16 * k + 12, 16 * k + 16);
  }

  lemma HeaderKept(m: Bytes, at: int, a: Bytes, f: Bytes)
    requires 0 <= at && at + HEADER <= |m| && |a| == HEADER && Same(m[at..at + HEADER], a, 0, SIZE)
    requires |f| >= HEADER && f[0] == a[0] & 0x4F && f[1] == a[1] & 0xF2
    requires Same(a, f, 2, CMDLINE) && Same(a, f, COUNT, MODULES) && Same(a, f, LENGTH, MAP)
    ensures f[0] == m[at] & 0x4F && f[1] == m[at + 1] & 0xF2 && f[2..16] == m[at + 2..at + 16]
    ensures Read32(f, COUNT) == Read32(m, at + COUNT) && Read32(f, LENGTH) == Read32(m, at + LENGTH)
  {
    hide Read32;
    var h := m[at..at + HEADER];
    SameReads(h, a, COUNT);
    SameReads(a, f, COUNT);
    SameReads(h, a, LENGTH);
    SameReads(a, f, LENGTH);
    SubSlice(m, at, h, 0, HEADER, COUNT, MODULES);
    SubSlice(m, at, h, 0, HEADER, LENGTH, MAP);
    SliceRead(m, at + COUNT, h, COUNT);
    SliceRead(m, at + LENGTH, h, LENGTH);
    SubSlice(m, at, h, 0, HEADER, 2, 16);
    SameSlice(h, a, 2, 16);
    SameSlice(a, f, 2, 16);
    assert h[0] == m[at] && h[1] == m[at + 1] && a[0] == h[0] && a[1] == h[1];
  }

  /** The copy has this layout, whatever the information is. */
  lemma CopyLaid(m: Bytes, at: int)
    requires Ready(m, at)
    ensures Layout(m, at, Copy(m, at))
  {
    hide Read32, WithCmdline, WithModules, WithoutSymbols, WithMap, WithoutRest, MapBytes, Begun, HasCmdline;
    hide HasModules, HasMap;
    hide Attached, AllNamed, CString, HasRoom, Table, Names, Same, Write32, StrLen, Sizes, ModuleIn, Record;
    var a := Begun(m, at);
    var b := WithCmdline(m, at);
    var c := WithModules(m, at, b);
    var d := WithoutSymbols(c);
    var e := WithMap(m, at, d);
    var f := WithoutRest(e);
    assert f == Copy(m, at);
    CmdlineLaid(m, at);
    ModulesLaid(m, at, b);
    SymbolsLaid(c);
    KeepsSize(c, d, 44);
    MapLaid(m, at, d);
    RestLaid(e);
    KeepsSize(e, f, SIZE);
    StagesKeep(a, b, c, d, e, f);
    HeaderKept(m, at, a, f);
    SameReads(b, f, CMDLINE);
    SameReads(c, f, MODULES);
    SameReads(e, f, MAP);
    SameSlice(b, f, HEADER, |b|);
    SameSlice(e, f, |d|, |e|);
    if HasModules(m, at) {
      AllModulesLaid(m, at, b, c, f);
    }
  }

  lemma AllModulesLaid(m: Bytes, at: int, a: Bytes, c: Bytes, f: Bytes)
    requires Readable(m, at) && HasModules(m, at) && HEADER <= |a|
    requires ARENA + |a| + |Table(m, at)| < LIMIT && Same(c, f, HEADER, |c|)
    requires var q, b := Names(m, at), Attached(a, Table(m, at), MODULES);
             && b[|a|..] == Table(m, at) && HasRoom(m, q, b, |a|) && AllNamed(m, q, b, |a|, |q|, c)
    ensures var q := Names(m, at);
            forall k :: 0 <= k < |q| ==>
              ModuleIn(m, Record(m, at, k), f, |a| + 16 * k, |a| + 16 * |q| + Sizes(m, q, k), CString(m, q[k]))
  {
    hide Read32, Attached, Record, Names, HasModules, AllNamed, Same, Table, StrLen, Terminated, CString, Sizes;
    hide ModuleIn, HasRoom;
    forall k | 0 <= k < |Names(m, at)|
      ensures var q := Names(m, at);
              ModuleIn(m, Record(m, at, k), f, |a| + 16 * k, |a| + 16 * |q| + Sizes(m, q, k), CString(m, q[k]))
    {
      ModuleLaid(m, at, a, c, f, k);
    }
  }

  lemma KeepsSize(a: Bytes, b: Bytes, from: int)
    requires HEADER <= |a| == |b| && from <= SIZE && Same(a, b, from, |a|)
    ensures Read32(b, SIZE) == Read32(a, SIZE)
  {
    SameReads(a, b, SIZE);
  }

  /** The command line of the copy. */
  lemma CmdlineReads(m: Bytes, at: int, f: Bytes)
    requires Ready(m, at) && Layout(m, at, f) && HasCmdline(m, at)
    ensures var w := Placed(m, f);
            && |w| == |m| && Terminated(w, Read32(w, ARENA + CMDLINE))
            && CString(w, Read32(w, ARENA + CMDLINE)) == CString(m, Read32(m, at + CMDLINE))
  {
    hide Read32, ModuleIn, HasModules, HasMap;
    var p := Read32(m, at + CMDLINE);
    CStringLength(m, p);
    PlacedRead(m, f, CMDLINE);
    PlacedSlice(m, f, HEADER, HEADER + StrLen(m, p));
    SameString(m, p, Placed(m, f), ARENA + HEADER);
  }

  /** Record k of the copy's table. */
  lemma RecordReads(m: Bytes, s: int, f: Bytes, r: int, p: int, q: int)
    requires Terminated(m, q) && ModuleIn(m, s, f, r, p, CString(m, q)) && ARENA + |f| <= |m|
    ensures var w := Placed(m, f);
            && |w| == |m| && Read32(w, ARENA + r + 8) == ARENA + p && Terminated(w, ARENA + p)
            && CString(w, ARENA + p) == CString(m, q) && Read32(w, ARENA + r) == Read32(m, s)
            && Read32(w, ARENA + r + 4) == Read32(m, s + 4) && Read32(w, ARENA + r + 12) == Read32(m, s + 12)
  {
    hide Read32, Placed;
    var w := Placed(m, f);
    PlacedAt(m, f);
    CStringLength(m, q);
    PlacedSlice(m, f, p, p + StrLen(m, q));
    SameString(m, q, w, ARENA + p);
    PlacedRead(m, f, r);
    PlacedRead(m, f, r + 4);
    PlacedRead(m, f, r + 8);
    PlacedRead(m, f, r + 12);
    SubSlice(m, s, f, r, 8, 0, 4);
    SubSlice(m, s, f, r, 8, 4, 8);
    SliceRead(m, s, f, r);
    SliceRead(m, s + 4, f, r + 4);
    SliceRead(m, s + 12, f, r + 12);
  }

  lemma TableReads(m: Bytes, at: int, f: Bytes)
    requires Ready(m, at) && Layout(m, at, f) && HasModules(m, at)
    ensures 0 <= at && at + HEADER <= |m| && HEADER <= |f| && ARENA + |f| <= |m| && ReadableModules(m, at)
    ensures var w := Placed(m, f);
            && |w| == |m| && Read32(w, ARENA + COUNT) == Read32(m, at + COUNT) == |Names(m, at)|
            && Record(w, ARENA, 0) == ARENA + HEADER + CmdlineSize(m, at)
            && Record(w, ARENA, |Names(m, at)|) <= |m|
  {
    hide Read32, Placed, HasCmdline, HasMap, ModuleIn, StrLen;
    PlacedAt(m, f);
    PlacedRead(m, f, COUNT);
    PlacedRead(m, f, MODULES);
  }

  lemma ModuleReads(m: Bytes, at: int, f: Bytes, k: int)
    requires Ready(m, at) && Layout(m, at, f) && HasModules(m, at) && 0 <= k < |Names(m, at)|
    requires |Placed(m, f)| == |m| && Record(Placed(m, f), ARENA, 0) == ARENA + HEADER + CmdlineSize(m, at)
    requires Read32(Placed(m, f), ARENA + COUNT) == |Names(m, at)|
    requires Record(Placed(m, f), ARENA, |Names(m, at)|) <= |m|
    ensures var w, q := Placed(m, f), Names(m, at);
            var s, r := Record(m, at, k), Record(w, ARENA, k);
            && Terminated(w, Names(w, ARENA)[k]) && CString(w, Names(w, ARENA)[k]) == CString(m, q[k])
            && Read32(w, r) == Read32(m, s) && Read32(w, r + 4) == Read32(m, s + 4)
               && Read32(w, r + 12) == Read32(m, s + 12)
  {
    hide Read32, Placed, HasCmdline, HasMap, ModuleIn, StrLen, Terminated, CString, Sizes;
    var t, q := HEADER + CmdlineSize(m, at), Names(m, at);
    RecordReads(m, Record(m, at, k), f, t + 16 * k, t + 16 * |q| + Sizes(m, q, k), q[k]);
  }

  lemma ModulesRead(m: Bytes, at: int, f: Bytes)
    requires Ready(m, at) && Layout(m, at, f) && HasModules(m, at)
    ensures var w := Placed(m, f);
            && |w| == |m| && ReadableModules(w, ARENA) && Read32(w, ARENA + COUNT) == Read32(m, at + COUNT)
            && forall k :: 0 <= k < Read32(m, at + COUNT) ==> ModuleAt(w, ARENA, k) == ModuleAt(m, at, k)
  {
    hide Read32, Placed, Layout, Ready, Names, Terminated, CString, Total, Record, HasModules;
    TableReads(m, at, f);
    forall k | 0 <= k < |Names(m, at)|
      ensures Terminated(Placed(m, f), Names(Placed(m, f), ARENA)[k])
    {
      ModuleReads(m, at, f, k);
    }
    assert ReadableModules(Placed(m, f), ARENA);
    forall k | 0 <= k < |Names(m, at)|
      ensures ModuleAt(Placed(m, f), ARENA, k) == ModuleAt(m, at, k)
    {
      ModuleReads(m, at, f, k);
    }
  }

  lemma MapLies(m: Bytes, at: int, f: Bytes)
    requires Ready(m, at) && Layout(m, at, f) && HasMap(m, at)
    ensures 0 <= at && at + HEADER <= |m| && ARENA + |f| <= |m| < LIMIT && ReadableMap(m, at)
    ensures |f| == Total(m, at) && Read32(f, LENGTH) == Read32(m, at + LENGTH)
    ensures var t := |f| - |MapBytes(m, at)|;
            HEADER <= t && Read32(f, MAP) == ARENA + t && f[t..] == MapBytes(m, at)
  {
    hide Read32, HasCmdline, HasModules, ModuleIn, StrLen, Sizes, Names, CString, Terminated;
  }

  lemma MapReads(m: Bytes, at: int, f: Bytes)
    requires 0 <= at && at + HEADER <= |m| && HEADER <= |f| && ARENA + |f| <= |m| < LIMIT && ReadableMap(m, at)
    requires Read32(f, LENGTH) == Read32(m, at + LENGTH)
    requires var t := |f| - |MapBytes(m, at)|;
             HEADER <= t && Read32(f, MAP) == ARENA + t && f[t..] == MapBytes(m, at)
    ensures var w := Placed(m, f);
            |w| == |m| && ReadableMap(w, ARENA) && MapOf(w, ARENA) == MapOf(m, at)
  {
    hide Read32, Placed, MapEnd, MapFits, Entries;
    var w, s := Placed(m, f), Read32(m, at + MAP);
    var t := |f| - |MapBytes(m, at)|;
    PlacedAt(m, f);
    PlacedRead(m, f, MAP);
    PlacedRead(m, f, LENGTH);
    PlacedSlice(m, f, t, |f|);
    SameEntries(m, s, s + Read32(m, at + LENGTH), w, ARENA + t);
  }

  lemma FlagsRead(m: Bytes, at: int, f: Bytes)
    requires Ready(m, at) && Layout(m, at, f)
    ensures Readable(m, at) && 0 <= at && at + HEADER <= |m| && HEADER <= |f| == Total(m, at) && ARENA + |f| <= |m|
    ensures var w := Placed(m, f);
            && |w| == |m| && w[ARENA + 4..ARENA + 16] == m[at + 4..at + 16]
            && HasCmdline(w, ARENA) == HasCmdline(m, at) && HasModules(w, ARENA) == HasModules(m, at)
            && HasMap(w, ARENA) == HasMap(m, at)
  {
    hide Read32, Placed, ModuleIn, StrLen, Sizes, Names, CString, Terminated, ReadableMap, ReadableModules;
    hide CmdlineSize, ModulesSize, MapSize;
    PlacedAt(m, f);
    PlacedSlice(m, f, 4, 16);
    SubSlice(m, at + 2, f, 2, 14, 2, 14);
    assert Placed(m, f)[ARENA] == f[0];
  }

  /** Whoever reads the copy learns what the original says. */
  lemma CopyReads(m: Bytes, at: int)
    requires Ready(m, at)
    ensures var w := Placed(m, Copy(m, at));
            && |w| == |m| && Readable(w, ARENA) && View(w, ARENA) == View(m, at)
            && forall i :: 0 <= i < |m| && !(ARENA <= i < ARENA + Total(m, at)) ==> w[i] == m[i]
  {
    hide Read32, Copy, Placed, Ready, Layout, Total, ReadableModules, ReadableMap, MapOf, CString, ModuleAt, Terminated;
    hide HasCmdline, HasModules, HasMap;
    var f := Copy(m, at);
    CopyLaid(m, at);
    FlagsRead(m, at, f);
    PlacedAt(m, f);
    if HasCmdline(m, at) {
      CmdlineReads(m, at, f);
    }
    if HasModules(m, at) {
      ModulesRead(m, at, f);
    }
    if HasMap(m, at) {
      MapLies(m, at, f);
      MapReads(m, at, f);
    }
    if HasModules(m, at) {
      assert View(Placed(m, f), ARENA).modules.value == View(m, at).modules.value;
    }
  }

  /** A string outside the copy is still there. */
  lemma StringOutside(m: Bytes, a: Bytes, p: int)
    requires Terminated(m, p) && ARENA + |a| <= |m| && Outside(p, StrLen(m, p), |a|)
    ensures Terminated(Placed(m, a), p) && StrLen(Placed(m, a), p) == StrLen(m, p)
  {
    PlacedAt(m, a);
    var w, n := Placed(m, a), StrLen(m, p);
    assert w[p..p + n] == m[p..p + n];
    SameString(m, p, w, p);
    CStringLength(m, p);
    CStringLength(w, p);
  }

  /** memcpy to the end of the copy. */
  method Append(mem: array<Byte>, p: int, n: nat, ghost m: Bytes, ghost a: Bytes)
    requires HEADER <= |a| && ARENA + |a| + n <= |m| && mem[..] == Placed(m, a) && Read32(a, SIZE) == |a|
    requires 0 <= p && p + n <= |m| && Outside(p, n, |a|)
    modifies mem
    ensures mem[..] == Placed(m, a + m[p..p + n])
  {
    hide Read32, Placed, Moved;
    PlacedAt(m, a);
    PlacedRead(m, a, SIZE);
    PlacedMove(m, a, p, n);
    ByteMemmove(mem, ARENA + Read32(mem[..], ARENA + SIZE), p, n);
  }

  /** A field of the copy is written. */
  method Put(mem: array<Byte>, field: int, v: int, ghost m: Bytes, ghost a: Bytes)
    requires ARENA <= field && field + 4 <= ARENA + |a| <= |m| && mem[..] == Placed(m, a) && 0 <= v < LIMIT
    modifies mem
    ensures mem[..] == Placed(m, Write32(a, field - ARENA, v))
  {
    PlacedAt(m, a);
    PlacedWrite(m, a, field - ARENA, v);
    var b := Spelled(v);
    mem[field], mem[field + 1], mem[field + 2], mem[field + 3] := b[0], b[1], b[2], b[3];
    assert mem[..] == Write32(old(mem[..]), field, v);
  }

  /** The string that `field` points to is appended, and the field comes to point to the new one. */
  method TakeString(mem: array<Byte>, field: int, ghost m: Bytes, ghost a: Bytes)
    requires HEADER <= |a| && ARENA + |a| <= |m| < LIMIT && mem[..] == Placed(m, a) && Read32(a, SIZE) == |a|
    requires 0 <= field - ARENA <= SIZE - 4 || HEADER <= field - ARENA <= |a| - 4
    requires var p := Read32(a, field - ARENA);
             Terminated(m, p) && Outside(p, StrLen(m, p), |a|) && ARENA + |a| + StrLen(m, p) <= |m|
    modifies mem
    ensures var p := Read32(a, field - ARENA);
            |CString(m, p)| == StrLen(m, p) && mem[..] == Placed(m, Attached(a, CString(m, p), field - ARENA))
  {
    hide Read32, Placed, Write32, Outside, Terminated, StrLen, CString;
    PlacedAt(m, a);
    PlacedRead(m, a, field - ARENA);
    PlacedRead(m, a, SIZE);
    var p := Read32(mem[..], field);
    StringOutside(m, a, p);
    var l := Strlen(mem, p);
    var size := Read32(mem[..], ARENA + SIZE);
    StringBounds(m, p);
    Append(mem, p, l, m, a);
    Repoint(mem, field, size, m, a, p);
  }

  /** The field comes to point to the string behind the copy, which is counted in. */
  method Repoint(mem: array<Byte>, field: int, size: int, ghost m: Bytes, ghost a: Bytes, ghost p: int)
    requires HEADER <= |a| == size && ARENA + |a| <= |m| < LIMIT
    requires 0 <= field - ARENA <= SIZE - 4 || HEADER <= field - ARENA <= |a| - 4
    requires Terminated(m, p) && ARENA + |a| + StrLen(m, p) <= |m| && mem[..] == Placed(m, a + CString(m, p))
    modifies mem
    ensures |CString(m, p)| == StrLen(m, p) && mem[..] == Placed(m, Attached(a, CString(m, p), field - ARENA))
  {
    hide Read32, Placed, Write32, Terminated, StrLen, CString;
    ghost var b := a + CString(m, p);
    StringAppended(m, a, p, field - ARENA);
    Put(mem, field, ARENA + size, m, b);
    ghost var c := Write32(b, field - ARENA, ARENA + size);
    PlacedAt(m, c);
    PlacedRead(m, c, field - ARENA);
    var l := Strlen(mem, Read32(mem[..], field));
    Put(mem, ARENA + SIZE, size + l, m, c);
  }

  lemma StringBounds(m: Bytes, p: int)
    requires Terminated(m, p)
    ensures 0 <= p && p + StrLen(m, p) <= |m| && CString(m, p) == m[p..p + StrLen(m, p)]
  {
  }

  /** The string can be read at its new place. */
  lemma StringAppended(m: Bytes, a: Bytes, p: int, at: int)
    requires Terminated(m, p) && HEADER <= |a| && ARENA + |a| + StrLen(m, p) <= |m| < LIMIT
    requires 0 <= at && at + 4 <= |a|
    ensures |CString(m, p)| == StrLen(m, p)
    ensures var w := Placed(m, Write32(a + CString(m, p), at, ARENA + |a|));
            Terminated(w, ARENA + |a|) && StrLen(w, ARENA + |a|) == StrLen(m, p)
  {
    hide Read32, Write32, Placed;
    CStringLength(m, p);
    var c := Write32(a + CString(m, p), at, ARENA + |a|);
    assert c[|a|..|a| + StrLen(m, p)] == CString(m, p);
    PlacedAt(m, c);
    PlacedSlice(m, c, |a|, |a| + StrLen(m, p));
    SameString(m, p, Placed(m, c), ARENA + |a|);
    CStringLength(Placed(m, c), ARENA + |a|);
  }

  lemma BegunPlaced(m: Bytes, at: int)
    requires 0 <= at && at + HEADER <= |m| && ARENA + HEADER <= |m| && Outside(at, HEADER, HEADER)
    ensures Moved(m, ARENA, at, HEADER) == Placed(m, m[at..at + HEADER])
  {
  }

  method CopyHeader(mem: array<Byte>, info: int, ghost m: Bytes)
    requires mem[..] == m && Ready(m, info)
    modifies mem
    ensures mem[..] == Placed(m, Begun(m, info))
  {
    BegunPlaced(m, info);
    ByteMemmove(mem, ARENA, info, HEADER);
    Put(mem, ARENA + SIZE, HEADER, m, m[info..info + HEADER]);
  }

  method CopyCmdline(mem: array<Byte>, ghost info: int, ghost m: Bytes)
    requires Ready(m, info) && mem[..] == Placed(m, Begun(m, info))
    modifies mem
    ensures mem[..] == Placed(m, WithCmdline(m, info))
  {
    hide Read32, Placed, Begun, Attached, CString, StrLen, Terminated, ReadableModules, ReadableMap, AllOutside;
    ghost var a := Begun(m, info);
    PlacedAt(m, a);
    HeaderField(m, info, a, CMDLINE);
    if HasCmdline(mem[..], ARENA) {
      TakeString(mem, ARENA + CMDLINE, m, a);
    }
  }

  lemma HeaderField(m: Bytes, at: int, a: Bytes, field: int)
    requires 0 <= at && at + HEADER <= |m| && HEADER <= |a| && 0 <= field <= SIZE - 4
    requires Same(m[at..at + HEADER], a, field, field + 4)
    ensures Read32(a, field) == Read32(m, at + field)
  {
    hide Read32;
    var h := m[at..at + HEADER];
    SameReads(h, a, field);
    SubSlice(m, at, h, 0, HEADER, field, field + 4);
    SliceRead(m, at + field, h, field);
  }

  /** The header is as it came when the modules are looked at. */
  lemma BeforeModules(m: Bytes, at: int)
    requires Ready(m, at)
    ensures var a := WithCmdline(m, at);
            && Read32(a, SIZE) == |a| && a[0] == m[at]
            && Read32(a, COUNT) == Read32(m, at + COUNT) && Read32(a, MODULES) == Read32(m, at + MODULES)
  {
    hide Read32, WithCmdline;
    var a := WithCmdline(m, at);
    CmdlineLaid(m, at);
    assert Same(m[at..at + HEADER], Begun(m, at), 0, SIZE);
    HeaderField(m, at, a, COUNT);
    HeaderField(m, at, a, MODULES);
  }

  method CopyModules(mem: array<Byte>, ghost info: int, ghost m: Bytes)
    requires Ready(m, info) && mem[..] == Placed(m, WithCmdline(m, info))
    modifies mem
    ensures mem[..] == Placed(m, WithModules(m, info, WithCmdline(m, info)))
  {
    hide Read32, Placed, WithCmdline;
    ghost var a := WithCmdline(m, info);
    PlacedAt(m, a);
    BeforeModules(m, info);
    if HasModules(mem[..], ARENA) {
      CopyTable(mem, info, m, a);
      TablePointing(m, info, a);
      CopyNames(mem, m, Names(m, info), Attached(a, Table(m, info), MODULES), |a|);
    }
  }

  lemma TableRoom(m: Bytes, at: int)
    requires Ready(m, at) && HasModules(m, at)
    ensures 0 <= at && at + HEADER <= |m| && |m| < LIMIT && ReadableModules(m, at)
    ensures var q, n := Names(m, at), HEADER + CmdlineSize(m, at);
            && ARENA + n + 16 * |q| + Sizes(m, q, |q|) <= |m|
            && Outside(Read32(m, at + MODULES), 16 * |q|, n)
            && AllOutside(m, q, n + 16 * |q| + Sizes(m, q, |q|))
  {
    hide Read32, StrLen, Sizes, Names, Terminated;
  }

  method CopyTable(mem: array<Byte>, ghost info: int, ghost m: Bytes, ghost a: Bytes)
    requires Ready(m, info) && HasModules(m, info) && |a| == HEADER + CmdlineSize(m, info) && mem[..] == Placed(m, a)
    requires Read32(a, SIZE) == |a| && Read32(a, COUNT) == Read32(m, info + COUNT)
             && Read32(a, MODULES) == Read32(m, info + MODULES)
    modifies mem
    ensures mem[..] == Placed(m, Attached(a, Table(m, info), MODULES))
  {
    hide Read32, Write32, Placed, Ready, Sizes;
    TableRoom(m, info);
    PlacedAt(m, a);
    PlacedRead(m, a, COUNT);
    PlacedRead(m, a, MODULES);
    PlacedRead(m, a, SIZE);
    var p, n, size := Read32(mem[..], ARENA + MODULES), 16 * Read32(mem[..], ARENA + COUNT),
      Read32(mem[..], ARENA + SIZE);
    Append(mem, p, n, m, a);
    Put(mem, ARENA + MODULES, ARENA + size, m, a + Table(m, info));
    Put(mem, ARENA + SIZE, size + n, m, Write32(a + Table(m, info), MODULES, ARENA + |a|));
  }

  /** The table at offset t of b points to the strings q, which lie outside and for which there is room. */
  ghost predicate Pointing(m: Bytes, q: seq<int>, b: Bytes, t: int) {
    && HasRoom(m, q, b, t) && ARENA + |b| + Sizes(m, q, |q|) <= |m| < LIMIT
    && AllOutside(m, q, |b| + Sizes(m, q, |q|))
    && Read32(b, SIZE) == |b| && Read32(b, MODULES) == ARENA + t && Read32(b, COUNT) == |q|
    && forall k :: 0 <= k < |q| ==> Read32(b, t + 16 * k + 8) == q[k]
  }

  /** The fields that the loop reads after k rounds. */
  lemma NamesLeft(m: Bytes, q: seq<int>, b: Bytes, t: int, k: int)
    requires Pointing(m, q, b, t) && 0 <= k <= |q|
    ensures HasRoom(m, q, b, t) && |m| < LIMIT && HEADER <= t
    ensures var r := WithNames(m, q, b, t, k);
            && HEADER <= |b| <= |r| && ARENA + |r| <= |m|
            && Read32(r, SIZE) == |r| && Read32(r, MODULES) == ARENA + t && Read32(r, COUNT) == |q|
  {
    hide Read32, RecordKept, Named, WithNames, StrLen, Terminated, AllOutside;
    NamesLaid(m, q, b, t, k);
    var r := WithNames(m, q, b, t, k);
    SameReads(b, r, COUNT);
    SameReads(b, r, MODULES);
    SizesGrow(m, q, k, |q|);
  }

  /** The next string. */
  lemma NextName(m: Bytes, q: seq<int>, b: Bytes, t: int, k: int)
    requires Pointing(m, q, b, t) && HasRoom(m, q, b, t) && 0 <= k < |q|
    ensures var r := WithNames(m, q, b, t, k);
            && t + 16 * k + 12 <= |r| && Read32(r, t + 16 * k + 8) == q[k] && Terminated(m, q[k])
            && ARENA + |r| + StrLen(m, q[k]) <= |m| && Outside(q[k], StrLen(m, q[k]), |r|)
  {
    hide Read32, RecordKept, Named, WithNames, StrLen, Terminated;
    NamesLaid(m, q, b, t, k);
    NextRoom(m, q, b, t, k);
    SameReads(b, WithNames(m, q, b, t, k), t + 16 * k + 8);
  }

  lemma NextRoom(m: Bytes, q: seq<int>, b: Bytes, t: int, k: int)
    requires Pointing(m, q, b, t) && HasRoom(m, q, b, t) && 0 <= k < |q|
    ensures Terminated(m, q[k])
    ensures var n := |b| + Sizes(m, q, k);
            ARENA + n + StrLen(m, q[k]) <= |m| && Outside(q[k], StrLen(m, q[k]), n)
  {
    hide Read32, StrLen, Terminated, Sizes;
    SizesGrow(m, q, k, |q|);
    assert Outside(q[k], StrLen(m, q[k]), |b| + Sizes(m, q, |q|));
  }

  lemma TablePointer(m: Bytes, at: int, b: Bytes, t: int, k: int)
    requires 0 <= at && at + HEADER <= |m| && Record(m, at, Read32(m, at + COUNT)) <= |m|
    requires 0 <= t <= |b| && b[t..] == Table(m, at) && 0 <= k < |Names(m, at)|
    ensures t + 16 * k + 16 <= |b| && Read32(b, t + 16 * k + 8) == Names(m, at)[k]
  {
    hide Read32;
    var s, n := Record(m, at, 0), |Table(m, at)|;
    assert b[t..t + n] == m[s..s + n];
    SubSlice(m, s, b, t, n, 16 * k + 8, 16 * k + 12);
    SliceRead(m, s + 16 * k + 8, b, t + 16 * k + 8);
  }

  /** One round of the loop over the modules. */
  method CopyName(mem: array<Byte>, mods: nat, ghost m: Bytes, ghost q: seq<int>, ghost b: Bytes, ghost t: int)
    requires Pointing(m, q, b, t) && HasRoom(m, q, b, t) && mods < |q|
    requires ARENA + |WithNames(m, q, b, t, mods)| <= |m| && mem[..] == Placed(m, WithNames(m, q, b, t, mods))
    modifies mem
    ensures ARENA + |WithNames(m, q, b, t, mods + 1)| <= |m| && mem[..] == Placed(m, WithNames(m, q, b, t, mods + 1))
  {
    hide Read32, Placed, AllOutside, Pointing, StrLen, Attached, HasRoom, Outside, Terminated, AllTerminated, CString;
    hide WithNames;
    ghost var r := WithNames(m, q, b, t, mods);
    NamesLeft(m, q, b, t, mods);
    NextName(m, q, b, t, mods);
    NamesLeft(m, q, b, t, mods + 1);
    CStringLength(m, q[mods]);
    WithNamesStep(m, q, b, t, mods);
    PlacedAt(m, r);
    PlacedRead(m, r, MODULES);
    TakeString(mem, Read32(mem[..], ARENA + MODULES) + 16 * mods + 8, m, r);
  }

  lemma WithNamesStep(m: Bytes, q: seq<int>, b: Bytes, t: int, k: nat)
    requires HasRoom(m, q, b, t) && k < |q| && ARENA + |WithNames(m, q, b, t, k)| + |CString(m, q[k])| < LIMIT
    ensures WithNames(m, q, b, t, k + 1) == Attached(WithNames(m, q, b, t, k), CString(m, q[k]), t + 16 * k + 8)
  {
    hide Attached, StrLen, Sizes, CString;
  }

  method CopyNames(mem: array<Byte>, ghost m: Bytes, ghost q: seq<int>, ghost b: Bytes, ghost t: int)
    requires Pointing(m, q, b, t) && mem[..] == Placed(m, b)
    modifies mem
    ensures mem[..] == Placed(m, WithNames(m, q, b, t, |q|))
  {
    hide Read32, Placed, Pointing, HasRoom, WithNames;
    var mods := 0;
    NoNames(m, q, b, t);
    CountLeft(m, q, b, t, mods);
    while mods < Read32(mem[..], ARENA + COUNT)
      invariant 0 <= mods <= |q| && ARENA + |WithNames(m, q, b, t, mods)| <= |m|
      invariant mem[..] == Placed(m, WithNames(m, q, b, t, mods)) && ARENA + COUNT + 4 <= mem.Length
      invariant Read32(mem[..], ARENA + COUNT) == |q|
      decreases |q| - mods
    {
      CopyName(mem, mods, m, q, b, t);
      mods := mods + 1;
      CountLeft(m, q, b, t, mods);
    }
  }

  lemma NoNames(m: Bytes, q: seq<int>, b: Bytes, t: int)
    requires Pointing(m, q, b, t)
    ensures HasRoom(m, q, b, t) && WithNames(m, q, b, t, 0) == b
  {
  }

  /** The number of modules can still be read from the copy. */
  lemma CountLeft(m: Bytes, q: seq<int>, b: Bytes, t: int, k: int)
    requires Pointing(m, q, b, t) && HasRoom(m, q, b, t) && 0 <= k <= |q|
    ensures var r := WithNames(m, q, b, t, k);
            && ARENA + |r| <= |m| && |Placed(m, r)| == |m| && ARENA + COUNT + 4 <= |m|
            && Read32(Placed(m, r), ARENA + COUNT) == |q|
  {
    hide Read32, Placed, Pointing, HasRoom, WithNames;
    NamesLeft(m, q, b, t, k);
    PlacedAt(m, WithNames(m, q, b, t, k));
    PlacedRead(m, WithNames(m, q, b, t, k), COUNT);
  }

  /** The table has been copied; its pointers are still the old ones. */
  lemma TablePointing(m: Bytes, at: int, a: Bytes)
    requires Ready(m, at) && HasModules(m, at) && |a| == HEADER + CmdlineSize(m, at)
    requires Read32(a, COUNT) == Read32(m, at + COUNT)
    ensures ARENA + |a| + |Table(m, at)| < LIMIT
    ensures Pointing(m, Names(m, at), Attached(a, Table(m, at), MODULES), |a|)
  {
    hide Read32, Ready, Attached, Names, Table, StrLen, Sizes, Terminated, AllOutside;
    TableRoom(m, at);
    var q := Names(m, at);
    AttachedBytes(a, Table(m, at), MODULES);
    var b := Attached(a, Table(m, at), MODULES);
    SameReads(a, b, COUNT);
    forall k | 0 <= k < |q|
      ensures Read32(b, |a| + 16 * k + 8) == q[k]
    {
      TablePointer(m, at, b, |a|, k);
    }
  }

  /** A flag that is not supported, and its field. */
  method DropFlag(mem: array<Byte>, byte: int, mask: Byte, field: int, n: nat, ghost m: Bytes, ghost a: Bytes)
    requires 0 <= byte <= 1 && 2 <= field && field + n <= |a| && ARENA + |a| <= |m| && mem[..] == Placed(m, a)
    modifies mem
    ensures mem[..] == Placed(m, Dropped(a, byte, mask, field, n))
  {
    hide Placed, Fills.Filled, IsSet, Without;
    PlacedAt(m, a);
    assert mem[ARENA + byte] == a[byte];
    if IsSet(mem[ARENA + byte], mask) {
      PlacedByte(m, a, byte, Without(a[byte], mask));
      mem[ARENA + byte] := Without(mem[ARENA + byte], mask);
      PlacedFill(m, a[byte := Without(a[byte], mask)], field, n);
      Fills.ByteMemset(mem, ARENA + field, 0, n);
    }
  }

  /** The header is as it came when the memory map is looked at. */
  lemma BeforeMap(m: Bytes, at: int)
    requires Ready(m, at)
    ensures var a := WithoutSymbols(WithModules(m, at, WithCmdline(m, at)));
            && Read32(a, SIZE) == |a| && (a[0] & 0x40 != 0 <==> m[at] & 0x40 != 0)
            && Read32(a, MAP) == Read32(m, at + MAP) && Read32(a, LENGTH) == Read32(m, at + LENGTH)
  {
    hide Read32, WithCmdline, WithModules, WithoutSymbols, Begun, Ready, HasModules, HasCmdline;
    var b := WithCmdline(m, at);
    var c := WithModules(m, at, b);
    var a := WithoutSymbols(c);
    CmdlineLaid(m, at);
    ModulesLaid(m, at, b);
    SymbolsLaid(c);
    KeepsSize(c, a, 44);
    BeginsSame(m, at);
    assert Same(m[at..at + HEADER], a, 44, 52);
    HeaderField(m, at, a, MAP);
    HeaderField(m, at, a, LENGTH);
    assert c[0] == b[0] == Begun(m, at)[0] == m[at];
  }

  lemma BeginsSame(m: Bytes, at: int)
    requires Ready(m, at)
    ensures 0 <= at && at + HEADER <= |m| && Same(m[at..at + HEADER], Begun(m, at), 0, SIZE)
  {
  }

  lemma AttachedNothing(a: Bytes)
    requires HEADER <= |a| && ARENA + |a| < LIMIT && Read32(a, SIZE) == |a|
    ensures Attached(a, [], MAP) == Write32(a, MAP, ARENA + |a|)
  {
    hide Read32, Write32;
    assert a + [] == a;
    var b := Write32(a, MAP, ARENA + |a|);
    SameReads(a, b, SIZE);
    WrittenAgain(b, SIZE);
  }

  lemma AttachedMore(a: Bytes, x: Bytes, y: Bytes)
    requires HEADER <= |a| && ARENA + |a| + |x| + |y| < LIMIT
    ensures Attached(a, x + y, MAP) == Write32(Attached(a, x, MAP) + y, SIZE, |a| + |x| + |y|)
  {
    hide Read32, Spelled;
    assert a + (x + y) == a + x + y;
  }

  /** What copying the memory map needs. */
  predicate MapReady(m: Bytes, at: int, a: Bytes) {
    && 0 <= at && at + HEADER <= |m| < LIMIT && ReadableMap(m, at)
    && HEADER <= |a| && ARENA + |a| + |MapBytes(m, at)| <= |m|
    && Outside(Read32(m, at + MAP), |MapBytes(m, at)|, |a| + |MapBytes(m, at)|)
    && Read32(a, SIZE) == |a| && Read32(a, MAP) == Read32(m, at + MAP) && Read32(a, LENGTH) == Read32(m, at + LENGTH)
  }

  lemma OutsideRead(m: Bytes, a: Bytes, p: int)
    requires ARENA + |a| <= |m| && 0 <= p && p + 4 <= |m| && Outside(p, 4, |a|)
    ensures Read32(Placed(m, a), p) == Read32(m, p)
  {
    PlacedAt(m, a);
    SameReads(m, Placed(m, a), p);
  }

  lemma MapMore(m: Bytes, a: Bytes, s: int, i: int, n: int)
    requires HEADER <= |a| && 0 <= s <= i && 0 <= n && i + n <= |m| && ARENA + |a| + (i + n - s) < LIMIT
    ensures Attached(a, m[s..i + n], MAP) == Write32(Attached(a, m[s..i], MAP) + m[i..i + n], SIZE, |a| + (i + n - s))
  {
    hide Read32, Write32, Attached;
    AttachedMore(a, m[s..i], m[i..i + n]);
    assert m[s..i + n] == m[s..i] + m[i..i + n];
  }

  method CopyMap(mem: array<Byte>, ghost info: int, ghost m: Bytes, ghost a: Bytes)
    requires MapReady(m, info, a) && mem[..] == Placed(m, a)
    modifies mem
    ensures mem[..] == Placed(m, Attached(a, MapBytes(m, info), MAP))
  {
    hide Read32, Write32, Placed, MapEnd, MapFits, Attached;
    PlacedAt(m, a);
    PlacedRead(m, a, MAP);
    PlacedRead(m, a, LENGTH);
    PlacedRead(m, a, SIZE);
    var s := Read32(mem[..], ARENA + MAP);
    var e := s + Read32(mem[..], ARENA + LENGTH);
    ghost var s0, end := s, MapEnd(m, s, e);
    Put(mem, ARENA + MAP, ARENA + Read32(mem[..], ARENA + SIZE), m, a);
    AttachedNothing(a);
    ghost var b := Write32(a, MAP, ARENA + |a|);
    assert m[s..s] == [];
    while s < e
      invariant s0 <= s <= end && MapFits(m, s, e) && MapEnd(m, s, e) == end
      invariant b == Attached(a, m[s0..s], MAP) && mem[..] == Placed(m, b)
      decreases e - s
    {
      MapNext(m, s, e);
      CopyEntry(mem, s, Read32(m, s) + 4, end, s0, m, a);
      OutsideRead(m, Attached(a, m[s0..s + Read32(m, s) + 4], MAP), s);
      s := s + Read32(mem[..], s) + 4;
      b := Attached(a, m[s0..s], MAP);
    }
  }

  lemma MapNext(m: Bytes, s: int, e: int)
    requires MapFits(m, s, e) && s < e
    ensures 0 <= s && s + Read32(m, s) + 4 <= |m| && MapFits(m, s + Read32(m, s) + 4, e)
    ensures s + Read32(m, s) + 4 <= MapEnd(m, s, e) == MapEnd(m, s + Read32(m, s) + 4, e)
  {
  }

  /** The entry at s is appended. */
  method CopyEntry(mem: array<Byte>, s: int, ghost n: nat, ghost end: int, ghost s0: int, ghost m: Bytes,
                   ghost a: Bytes)
    requires 0 <= s0 <= s && s + 4 <= s + n <= end <= |m| < LIMIT && n == Read32(m, s) + 4 && HEADER <= |a|
    requires ARENA + |a| + (end - s0) <= |m| && Outside(s0, end - s0, |a| + (end - s0))
    requires |Attached(a, m[s0..s], MAP)| == |a| + (s - s0) && |Attached(a, m[s0..s + n], MAP)| == |a| + (s + n - s0)
    requires mem[..] == Placed(m, Attached(a, m[s0..s], MAP))
    modifies mem
    ensures mem[..] == Placed(m, Attached(a, m[s0..s + n], MAP))
  {
    hide Read32, Write32, Placed, Attached;
    ghost var b := Attached(a, m[s0..s], MAP);
    AttachedBytes(a, m[s0..s], MAP);
    PlacedAt(m, b);
    OutsideRead(m, b, s);
    PlacedRead(m, b, SIZE);
    var size := Read32(mem[..], ARENA + SIZE);
    Append(mem, s, Read32(mem[..], s) + 4, m, b);
    OutsideRead(m, b + m[s..s + n], s);
    PlacedAt(m, b + m[s..s + n]);
    Put(mem, ARENA + SIZE, size + (Read32(mem[..], s) + 4), m, b + m[s..s + n]);
    MapMore(m, a, s0, s, n);
  }

  /** The kernel, walking the copied memory map, comes by the same regions. */
  lemma KernelSees(m: Bytes, at: int)
    requires Ready(m, at) && HasMap(m, at) && ReadableMap(m, at) && Whole(MapOf(m, at))
    ensures var w := Placed(m, Copy(m, at));
            && |w| == |m| && HasMap(w, ARENA) && ReadableMap(w, ARENA) && Whole(MapOf(w, ARENA))
            && Regions(MapOf(w, ARENA)) == Regions(MapOf(m, at))
  {
    hide Ready, Copy, Placed, HasMap, ReadableMap, MapOf, Whole, Regions;
    RoomForAll(m, at);
    CopyReads(m, at);
    var w := Placed(m, Copy(m, at));
    assert View(w, ARENA).map_ == View(m, at).map_;
  }

  /** The bytes [lo, hi) of the structure are zero, or those of the original. */
  predicate Field(m: Bytes, at: int, f: Bytes, lo: int, hi: int, cleared: bool)
    requires 0 <= at && at + HEADER <= |m| && HEADER <= |f| && 0 <= lo <= hi <= HEADER
  {
    forall i :: lo <= i < hi ==> f[i] == if cleared then 0 else m[at + i]
  }

  /** The fields that go with flags 4 or 5, 7, 8, 10 and 11; the boot loader's name stays. */
  predicate Fields(m: Bytes, at: int, f: Bytes)
    requires 0 <= at && at + HEADER <= |m| && HEADER <= |f|
  {
    && Field(m, at, f, 28, 44, m[at] & 0x30 != 0)
    && Field(m, at, f, 52, 60, m[at] & 0x80 != 0) && Field(m, at, f, 60, 64, m[at + 1] & 0x01 != 0)
    && Field(m, at, f, 64, 68, false)
    && Field(m, at, f, 68, 72, m[at + 1] & 0x04 != 0) && Field(m, at, f, 72, 94, m[at + 1] & 0x08 != 0)
  }

  lemma FieldDropped(a: Bytes, byte: int, mask: Byte, field: int, n: nat)
    requires 0 <= byte <= 1 && 2 <= field && field + n <= |a|
    ensures forall i :: field <= i < field + n ==>
              Dropped(a, byte, mask, field, n)[i] == if a[byte] & mask != 0 then 0 else a[i]
  {
  }

  lemma RestDropped(e: Bytes)
    requires HEADER <= |e|
    ensures var f := WithoutRest(e);
            && (forall i :: 52 <= i < 60 ==> f[i] == if e[0] & 0x80 != 0 then 0 else e[i])
            && (forall i :: 60 <= i < 64 ==> f[i] == if e[1] & 0x01 != 0 then 0 else e[i])
            && Same(e, f, 64, 68)
            && (forall i :: 68 <= i < 72 ==> f[i] == if e[1] & 0x04 != 0 then 0 else e[i])
            && (forall i :: 72 <= i < 94 ==> f[i] == if e[1] & 0x08 != 0 then 0 else e[i])
  {
    hide Dropped;
    var b := Dropped(e, 0, 0x80, 52, 8);
    var c := Dropped(b, 1, 0x01, 60, 4);
    var d := Dropped(c, 1, 0x04, 68, 4);
    FieldDropped(e, 0, 0x80, 52, 8);
    FieldDropped(b, 1, 0x01, 60, 4);
    FieldDropped(c, 1, 0x04, 68, 4);
    FieldDropped(d, 1, 0x08, 72, 22);
    assert b[1] == e[1] && c[1] == e[1] & !0x01 && d[1] == (e[1] & !0x01) & !0x04;
    assert c[1] & 0x04 == e[1] & 0x04;
    assert d[1] & 0x08 == e[1] & 0x08;
  }

  /** Unsupported fields are cleared exactly when their flag is set. */
  lemma CopyDrops(m: Bytes, at: int)
    requires Ready(m, at)
    ensures 0 <= at && at + HEADER <= |m| && HEADER <= |Copy(m, at)| && Fields(m, at, Copy(m, at))
  {
    hide Read32, WithCmdline, WithModules, WithMap, WithoutSymbols, WithoutRest, Begun, Ready, HasModules, HasCmdline;
    hide Dropped;
    BeginsSame(m, at);
    var a, b := Begun(m, at), WithCmdline(m, at);
    var c := WithModules(m, at, b);
    var d := WithoutSymbols(c);
    var e := WithMap(m, at, d);
    CmdlineLaid(m, at);
    ModulesLaid(m, at, b);
    SymbolsLaid(c);
    KeepsSize(c, d, 44);
    MapLaid(m, at, d);
    RestLaid(e);
    RestDropped(e);
    SymbolsDropped(c);
    StagesDrop(m[at..at + HEADER], a, b, c, d, e, WithoutRest(e));
  }

  lemma SymbolsDropped(c: Bytes)
    requires HEADER <= |c|
    ensures forall i :: 28 <= i < 44 ==> WithoutSymbols(c)[i] == if c[0] & 0x30 != 0 then 0 else c[i]
  {
    hide Dropped;
    FieldDropped(c, 0, 0x30, 28, 16);
  }

  lemma StagesDrop(h: Bytes, a: Bytes, b: Bytes, c: Bytes, d: Bytes, e: Bytes, f: Bytes)
    requires |h| == HEADER && Same(h, a, 0, SIZE) && Stages(a, b, c, d, e, f)
    ensures c[0] == h[0] && (e[0] & 0x80 != 0 <==> h[0] & 0x80 != 0) && e[1] == h[1]
    ensures Same(h, c, 28, 44) && Same(d, f, 28, 44) && Same(h, e, 52, 94)
  {
  }

  /** The stages, in the order of the loader. */
  method CopyAll(mem: array<Byte>, info: int)
    requires Ready(mem[..], info)
    modifies mem
    ensures mem[..] == Placed(old(mem[..]), Copy(old(mem[..]), info))
  {
    hide Read32, Placed, Ready, Total, Begun, WithCmdline, WithModules, Dropped;
    ghost var m := mem[..];
    RoomForAll(m, info);
    CopyHeader(mem, info, m);
    CopyCmdline(mem, info, m);
    CopyModules(mem, info, m);
    ghost var a := WithModules(m, info, WithCmdline(m, info));
    DropFlag(mem, 0, 0x30, 28, 16, m, a);
    BeforeMap(m, info);
    a := WithoutSymbols(a);
    PlacedAt(m, a);
    if HasMap(mem[..], ARENA) {
      MapIsReady(m, info, a);
      CopyMap(mem, info, m, a);
    }
    a := WithMap(m, info, a);
    DropFlag(mem, 0, 0x80, 52, 8, m, a);
    a := Dropped(a, 0, 0x80, 52, 8);
    DropFlag(mem, 1, 0x01, 60, 4, m, a);
    a := Dropped(a, 1, 0x01, 60, 4);
    DropFlag(mem, 1, 0x04, 68, 4, m, a);
    a := Dropped(a, 1, 0x04, 68, 4);
    DropFlag(mem, 1, 0x08, 72, 22, m, a);
  }

  /** The loader's backup of the boot information: the information in the copy is that of the original, piece after
      piece behind the structure, and nothing else in memory changes. */
  method Backup(mem: array<Byte>, info: int)
    requires Ready(mem[..], info)
    modifies mem
    ensures var m, w := old(mem[..]), mem[..];
            && Readable(w, ARENA) && View(w, ARENA) == View(m, info)
            && Layout(m, info, w[ARENA..ARENA + Total(m, info)])
            && Fields(m, info, w[ARENA..ARENA + Total(m, info)])
            && forall i :: 0 <= i < |m| && !(ARENA <= i < ARENA + Total(m, info)) ==> w[i] == m[i]
  {
    hide Read32, Placed, Ready, Layout, Fields, Readable, View, Total, Copy;
    ghost var m := mem[..];
    RoomForAll(m, info);
    CopyAll(mem, info);
    CopyLaid(m, info);
    CopyReads(m, info);
    CopyDrops(m, info);
    PlacedSlice(m, Copy(m, info), 0, Total(m, info));
    assert mem[..][ARENA..ARENA + Total(m, info)] == Copy(m, info);
  }

  lemma RoomForAll(m: Bytes, at: int)
    requires Ready(m, at)
    ensures Readable(m, at) && 0 <= at && at + HEADER <= |m| && ARENA + Total(m, at) <= |m| < LIMIT
    ensures HEADER + CmdlineSize(m, at) + ModulesSize(m, at) <= Total(m, at)
  {
    hide Read32;
  }

  lemma MapIsReady(m: Bytes, at: int, a: Bytes)
    requires Ready(m, at) && HasMap(m, at) && |a| == HEADER + CmdlineSize(m, at) + ModulesSize(m, at)
    requires Read32(a, SIZE) == |a| && Read32(a, MAP) == Read32(m, at + MAP)
             && Read32(a, LENGTH) == Read32(m, at + LENGTH)
    ensures MapReady(m, at, a) && WithMap(m, at, a) == Attached(a, MapBytes(m, at), MAP)
  {
    hide Read32, MapEnd, MapFits, CmdlineSize, ModulesSize, HasCmdline, HasModules;
  }
}
