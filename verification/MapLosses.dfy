/** Memory maps that the kernel does not find as the loader has left them. */
module MapLosses {
  import opened Options
  import opened Words
  import opened Translation
  import opened AddressSpaces
  import opened Frames
  import opened TableEdits
  import opened Boot
  import opened Runs
  import opened RunProperties
  import opened PoolCounts
  import opened PoolContents
  import opened MemoryPool
  import opened LittleEndian
  import opened MapWalk
  import opened MapFindings
  import Info = BootInformation

  /** The frames of [lo, hi) as they lie on the free stack, the last one on top. */
  function Downward(lo: Frame, hi: Frame): (d: seq<Frame>)
    ensures |d| == if lo < hi then hi - lo else 0
    ensures forall j :: 0 <= j < |d| ==> d[j] == hi - 1 - j
    decreases hi
  {
    if hi <= lo then [] else [hi - 1] + Downward(lo, hi - 1)
  }

  /** Pages below 256 MiB are pushed and nothing else. */
  lemma {:induction false} LowInterval(s: Spec, root: Frame, lo: Frame, hi: Frame)
    requires lo <= hi <= LOW
    ensures Outcome(s, IntervalOps(root, lo, hi)).Some?
    ensures var t := Outcome(s, IntervalOps(root, lo, hi)).value;
            t.at == s.at && t.where == s.where && t.tables == s.tables && t.free == Downward(lo, hi) + s.free
    decreases hi
  {
    hide Outcome, PageOps, Next, Needed, PageOf;
    if lo < hi {
      LowInterval(s, root, lo, hi - 1);
      var t := Outcome(s, IntervalOps(root, lo, hi - 1)).value;
      OutcomeAppend(s, IntervalOps(root, lo, hi - 1), PageOps(root, hi - 1));
      PageOutcome(t, root, hi - 1);
      FreeNext(t, hi - 1);
      assert [hi - 1] + (Downward(lo, hi - 1) + s.free) == Downward(lo, hi) + s.free;
    } else {
      OutcomeNone(s);
      assert Downward(lo, hi) + s.free == s.free;
    }
  }

  lemma FreeNext(s: Spec, f: Frame)
    ensures Next(s, Free(f)) == Some(s.(free := [f] + s.free, handed := s.handed - {f}))
  {
  }

  const ROOT: Frame := 0x201

  /** Boot tables at 0x201000, and the kernel below 0x180000. */
  predicate Placed1(l: Layout) {
    l.root == ROOT && l.startKernel <= l.endKernel < 0x18_0000
  }

  const R1 := Region(0x10_0000, 0x18_1000, true)
  const R2 := Region(0x1000_0000, 0x1000, true)

  lemma Pages1(l: Layout)
    requires Placed1(l)
    ensures Ranged(R1.address, R1.length) && Ranged(R2.address, R2.length)
    ensures First(l, R1.address, R1.length) == 0x20A && MemoryPool.Last(l, R1.address, R1.length) == 0x281
    ensures First(l, R2.address, R2.length) == 0x1_0000 && MemoryPool.Last(l, R2.address, R2.length) == 0x1_0001
  {
  }

  /** The state after the first entry. */
  ghost function State1(l: Layout, s: Spec): Spec
    requires Placed1(l)
  {
    Pages1(l);
    LowInterval(s, l.root, 0x20A, 0x281);
    Outcome(s, RangeOps(l, R1.address, R1.length)).value
  }

  /** The page of the second entry, and the table it needs. */
  lemma SecondPage()
    ensures PageOf(0x1_0000) == Page(0, 0, 128, 0)
  {
  }

  /** After the first two entries the frame that the map lies in has become the page table of the second. */
  lemma MapTaken(l: Layout, s: Spec)
    requires Placed1(l) && s.free == [] && s.at == BootSpec(ROOT, {}).at && s.where == BootSpec(ROOT, {}).where
    requires s.tables == BootSpec(ROOT, {}).tables
    ensures Outcome(s, RangeOps(l, R1.address, R1.length)) == Some(State1(l, s))
    ensures Outcome(State1(l, s), RangeOps(l, R2.address, R2.length)).Some?
    ensures var t := Outcome(State1(l, s), RangeOps(l, R2.address, R2.length)).value;
            && 0x280 in t.tables && t.where(Pt(ROOT, 0, 0, 128)) == Some(0x280)
            && (forall k: Table :: k.root == ROOT && t.where(k) == Some(0x280) ==> k == Pt(ROOT, 0, 0, 128))
            && (forall i: Index :: i != 0 ==> t.at(ROOT, Page(0, 0, 128, i)) == Unmapped)
  {
    hide Outcome, PageOps, PageOf, First, IntervalOps;
    Pages1(l);
    LowInterval(s, l.root, 0x20A, 0x281);
    var t1 := State1(l, s);
    assert t1.free[0] == 0x280;
    OneInterval(t1, ROOT, 0x1_0000);
    PageOutcome(t1, ROOT, 0x1_0000);
    SecondPage();
    var op := Map(ROOT, 0x1_0000, 0x1_0000);
    var u := Next(t1, op).value;
    forall i: Index | i != 0
      ensures u.at(ROOT, Page(0, 0, 128, i)) == Unmapped
    {
      NextAt(t1, op, ROOT, Page(0, 0, 128, i));
      assert t1.at(ROOT, Page(0, 0, 128, i)) == BootMapping(ROOT, Page(0, 0, 128, i));
    }
  }

  lemma OneInterval(s: Spec, root: Frame, f: Frame)
    requires f < TOP
    ensures Outcome(s, IntervalOps(root, f, f + 1)) == Outcome(s, PageOps(root, f))
  {
    hide PageOps, Outcome;
    assert IntervalOps(root, f, f) == [];
    assert [] + PageOps(root, f) == PageOps(root, f);
  }

  /** The frame 0x280 is a page table with nothing but its first entry. */
  ghost predicate Emptied1(t: Spec) {
    && 0x280 in t.tables && t.where(Pt(ROOT, 0, 0, 128)) == Some(0x280)
    && (forall k: Table :: k.root == ROOT && t.where(k) == Some(0x280) ==> k == Pt(ROOT, 0, 0, 128))
    && forall i: Index :: i != 0 ==> t.at(ROOT, Page(0, 0, 128, i)) == Unmapped
  }

  lemma ZeroByte(m: Memory, t: Spec, base: Word, a: int)
    requires Emptied1(t) && 0x28_0008 <= a < 0x28_1000
    ensures ByteAt(Shown(m, t, ROOT, base), a) == 0
  {
    hide Octet, EntryOf, Encoded;
    var s := WordOf(a);
    assert s.frame == 0x280 && s.index != 0;
    assert TableIn(t, ROOT, 0x280) == Pt(ROOT, 0, 0, 128);
    assert Shown(m, t, ROOT, base)[s] == ZERO;
    ZeroWord();
    EncodedEntry(0);
    NothingIn(a % 8);
  }

  /** Nothing is found in it. */
  lemma ZeroEntry(m: Memory, t: Spec, base: Word, p: int)
    requires Emptied1(t) && 0x28_0008 <= p && p + 24 <= 0x28_1000
    ensures Found(m, t, ROOT, base, p) == Region(0, 0, false) && Following(m, t, ROOT, base, p) == p + 4
  {
    hide Shown, Octet, Emptied1;
    var b := Image(Shown(m, t, ROOT, base));
    forall a | p <= a < p + 24
      ensures b[a] == 0
    {
      ZeroByte(m, t, base, a);
    }
    ZeroReads(b, p);
  }

  lemma ZeroReads(b: Bytes, p: int)
    requires 0 <= p && p + 24 <= |b| && forall a :: p <= a < p + 24 ==> b[a] == 0
    ensures Info.RegionAt(b, p) == Region(0, 0, false) && Read32(b, p) == 0
  {
    assert Read32(b, p) == 0 && Read32(b, p + 4) == 0 && Read32(b, p + 8) == 0 && Read32(b, p + 12) == 0;
    assert Read32(b, p + 16) == 0 && Read32(b, p + 20) == 0;
  }

  lemma {:induction false} ZeroWalk(l: Layout, m: Memory, t: Spec, base: Word, p: int, e: int)
    requires l.root == ROOT && Emptied1(t) && 0x28_0008 <= p && e + 24 <= 0x28_1000
    ensures forall k :: 0 <= k < |Seen(l, m, t, base, p, e)| ==> Seen(l, m, t, base, p, e)[k] == Region(0, 0, false)
    decreases e - p
  {
    hide Found, Following, Emptied1;
    if p < e {
      ZeroEntry(m, t, base, p);
      ZeroWalk(l, m, t, base, p + 4, e);
    }
  }

  /** The map of the loader: three entries in one page, above everything the kernel keeps. */
  ghost predicate Three(b: Bytes, start: int, r3: Region) {
    && |b| == END && 0x28_0008 <= start && start + 96 <= 0x28_1000
    && Info.RegionAt(b, start) == R1 && Read32(b, start) == 20
    && Info.RegionAt(b, start + 24) == R2 && Read32(b, start + 24) == 20
    && Info.RegionAt(b, start + 48) == r3 && Read32(b, start + 48) == 20
  }

  lemma ThreeVisited(b: Bytes, start: int, r3: Region)
    requires Three(b, start, r3)
    ensures Legible(b, start, start + 72) && Info.Visited(b, start, start + 72) == [R1, R2, r3]
  {
    hide Read32, Info.RegionAt;
    assert Legible(b, start + 72, start + 72) && Info.Visited(b, start + 72, start + 72) == [];
    assert Legible(b, start + 48, start + 72) && Info.Visited(b, start + 48, start + 72) == [r3];
    assert Legible(b, start + 24, start + 72) && Info.Visited(b, start + 24, start + 72) == [R2, r3];
  }

  /** As long as frame 0x280 is no table, nothing but its first word is overwritten. */
  lemma NotTaken(t: Spec)
    requires 0x280 !in t.tables
    ensures forall a :: 0x28_0008 <= a < 0x28_1000 ==> !Written(t, a)
  {
    forall a | 0x28_0008 <= a < 0x28_1000
      ensures !Written(t, a)
    {
      assert WordOf(a).frame == 0x280 && WordOf(a).index != 0;
    }
  }

  /** The first two entries are found as they are. */
  lemma TwoFound(l: Layout, m: Memory, s: Spec, base: Word, start: int, r3: Region)
    requires Placed1(l) && Three(Image(m), start, r3) && s.free == []
    requires s.tables == BootSpec(ROOT, {}).tables
    ensures Found(m, s, ROOT, base, start) == R1
    ensures Following(m, State1(l, s), ROOT, base, start) == start + 24
    ensures Found(m, State1(l, s), ROOT, base, start + 24) == R2
  {
    hide Outcome, IntervalOps, First, Info.RegionAt, Read32, Written, Found, Following, Image;
    Pages1(l);
    LowInterval(s, l.root, 0x20A, 0x281);
    var t1 := State1(l, s);
    NotTaken(s);
    NotTaken(t1);
    EntryAsWas(m, s, ROOT, base, start, 24);
    EntryAsWas(m, t1, ROOT, base, start, 24);
    EntryAsWas(m, t1, ROOT, base, start + 24, 24);
  }

  lemma SeenLost(l: Layout, m: Memory, s: Spec, base: Word, start: int, r3: Region) returns (rest: seq<Region>)
    requires Placed1(l) && Three(Image(m), start, r3) && s == Offered(l, [R1, R2, r3])
    ensures 0 <= start && start + 96 <= END
    ensures Seen(l, m, s, base, start, start + 72) == [R1, R2] + rest
    ensures forall k :: 0 <= k < |rest| ==> rest[k] == Region(0, 0, false)
    ensures Outcome(s, RangeOps(l, R1.address, R1.length)).Some?
    ensures Outcome(Outcome(s, RangeOps(l, R1.address, R1.length)).value, RangeOps(l, R2.address, R2.length)).Some?
  {
    hide Outcome, RangeOps, Found, Following, First, Emptied1, Three, Image, Contribution;
    MapTaken(l, s);
    TwoFound(l, m, s, base, start, r3);
    StartIn(Image(m), start, r3);
    var t1 := State1(l, s);
    var t2 := Outcome(t1, RangeOps(l, R2.address, R2.length)).value;
    Taken1(t2);
    ZeroEntry(m, t2, base, start + 24);
    ZeroWalk(l, m, t2, base, start + 28, start + 72);
    rest := Seen(l, m, t2, base, start + 28, start + 72);
    assert Seen(l, m, t1, base, start + 24, start + 72) == [R2] + rest;
    assert [R1] + ([R2] + rest) == [R1, R2] + rest;
  }

  /** What becomes of such a map. */
  ghost predicate Lost(l: Layout, s: Spec, seen: seq<Region>, r3: Region) {
    && |seen| >= 2 && seen[0] == R1 && seen[1] == R2
    && (forall k :: 2 <= k < |seen| ==> seen[k] == Region(0, 0, false))
    && Sensible(l, seen, s) && Outcome(s, MapOps(l, seen, |seen|)).Some?
    && forall f: Frame :: r3.available && Accepted(l, r3.address, r3.length, f) ==>
         f in s.handed && f in Outcome(s, MapOps(l, seen, |seen|)).value.handed
  }

  /** The second entry needs a page table, and the topmost free frame is the page that the map lies in: of the third
      entry the kernel finds nothing, and its frames are lost. */
  lemma MapLost(l: Layout, m: Memory, base: Word, start: int, r3: Region)
    requires Placed1(l) && Three(Image(m), start, r3) && Listed([R1, R2, r3]) && Disjoint([R1, R2, r3])
    ensures Legible(Image(m), start, start + 72) && Info.Visited(Image(m), start, start + 72) == [R1, R2, r3]
    ensures Lost(l, Offered(l, [R1, R2, r3]), Seen(l, m, Offered(l, [R1, R2, r3]), base, start, start + 72), r3)
  {
    hide Outcome, RangeOps, MapOps, Seen, Accepted, Contribution, Three, Image, Listed, Disjoint, Sensible;
    var s := Offered(l, [R1, R2, r3]);
    ThreeVisited(Image(m), start, r3);
    var rest := SeenLost(l, m, s, base, start, r3);
    SeenTwo(l, s, Seen(l, m, s, base, start, start + 72), rest, r3);
  }

  /** Entries that are not available change nothing. */
  lemma {:induction false} IdleEntries(l: Layout, s: Spec, seen: seq<Region>, map_: seq<Region>, k: nat)
    requires 2 <= k <= |seen| && 2 <= |map_| && seen[..2] == map_[..2] && Listed(seen) && Listed(map_)
    requires forall j :: 2 <= j < |seen| ==> !seen[j].available
    ensures Contribution(l, seen, k) == Contribution(l, map_, 2)
    ensures Outcome(s, MapOps(l, seen, k)) == Outcome(s, MapOps(l, map_, 2))
    decreases k
  {
    hide Outcome, RangeOps;
    if k == 2 {
      assert seen[0] == seen[..2][0] == map_[0] && seen[1] == seen[..2][1] == map_[1];
      NoEntries(l, seen, s);
      NoEntries(l, map_, s);
      ContributionStep(l, seen, 0);
      ContributionStep(l, seen, 1);
      ContributionStep(l, map_, 0);
      ContributionStep(l, map_, 1);
      MapStep(l, seen, 0, s);
      MapStep(l, seen, 1, s);
      MapStep(l, map_, 0, s);
      MapStep(l, map_, 1, s);
    } else {
      IdleEntries(l, s, seen, map_, k - 1);
      ContributionStep(l, seen, k - 1);
      MapStep(l, seen, k - 1, s);
    }
  }

  lemma SeenTwo(l: Layout, s: Spec, seen: seq<Region>, rest: seq<Region>, r3: Region)
    requires Placed1(l) && Listed([R1, R2, r3]) && Disjoint([R1, R2, r3])
    requires seen == [R1, R2] + rest && forall k :: 0 <= k < |rest| ==> rest[k] == Region(0, 0, false)
    requires s.handed == Contribution(l, [R1, R2, r3], 3)
    requires Outcome(s, RangeOps(l, R1.address, R1.length)).Some?
    requires Outcome(Outcome(s, RangeOps(l, R1.address, R1.length)).value, RangeOps(l, R2.address, R2.length)).Some?
    ensures Sensible(l, seen, s) && Outcome(s, MapOps(l, seen, |seen|)).Some?
    ensures forall f: Frame :: r3.available && Accepted(l, r3.address, r3.length, f) ==>
              f in s.handed && f in Outcome(s, MapOps(l, seen, |seen|)).value.handed
  {
    hide Outcome, RangeOps, Accepted, MapOps, Contribution, First;
    var map_ := [R1, R2, r3];
    forall j | 0 <= j < |seen|
      ensures seen[j] == if j < 2 then map_[j] else Region(0, 0, false)
    {
    }
    IdleEntries(l, s, seen, map_, |seen|);
    NoEntries(l, map_, s);
    MapStep(l, map_, 0, s);
    MapStep(l, map_, 1, s);
    ContributionStep(l, map_, 2);
    MapHanded(l, seen, |seen|, s);
    if r3.available {
      NewPages(l, map_, 2);
    }
  }

  lemma StartIn(b: Bytes, start: int, r3: Region)
    requires Three(b, start, r3)
    ensures 0x28_0008 <= start && start + 96 <= 0x28_1000
  {
  }

  lemma Taken1(t: Spec)
    requires 0x280 in t.tables && t.where(Pt(ROOT, 0, 0, 128)) == Some(0x280)
    requires forall k: Table :: k.root == ROOT && t.where(k) == Some(0x280) ==> k == Pt(ROOT, 0, 0, 128)
    requires forall i: Index :: i != 0 ==> t.at(ROOT, Page(0, 0, 128, i)) == Unmapped
    ensures Emptied1(t)
  {
  }

  const LONG := Region(0x10_0000, 0x18_2000, true)

  lemma PagesLong(l: Layout)
    requires Placed1(l)
    ensures Ranged(LONG.address, LONG.length)
    ensures First(l, LONG.address, LONG.length) == 0x20A && MemoryPool.Last(l, LONG.address, LONG.length) == 0x282
  {
  }

  lemma NumberStep(b: bv40, h: bv40, k: nat)
    requires k > 0 && Half(b) == h
    ensures Number(b, k) == 2 * Number(h, k - 1) + if Odd(b) then 1 else 0
  {
  }

  lemma Halves()
    ensures Half(0x280) == 0x140 && Half(0x140) == 0xA0 && Half(0xA0) == 0x50 && Half(0x50) == 0x28
    ensures Half(0x28) == 0x14 && Half(0x14) == 0xA && Half(0xA) == 5 && Half(5) == 2 && Half(2) == 1 && Half(1) == 0
    ensures !Odd(0x280) && !Odd(0x140) && !Odd(0xA0) && !Odd(0x50) && !Odd(0x28) && !Odd(0x14) && !Odd(0xA)
    ensures Odd(5) && !Odd(2) && Odd(1)
  {
  }

  lemma Number280()
    ensures FrameNumber(0x280) == 0x280
  {
    hide Half, Odd, Number;
    Halves();
    NoNumber(30);
    NumberStep(1, 0, 31);
    NumberStep(2, 1, 32);
    NumberStep(5, 2, 33);
    NumberStep(0xA, 5, 34);
    NumberStep(0x14, 0xA, 35);
    NumberStep(0x28, 0x14, 36);
    NumberStep(0x50, 0x28, 37);
    NumberStep(0xA0, 0x50, 38);
    NumberStep(0x140, 0xA0, 39);
    NumberStep(0x280, 0x140, 40);
  }

  lemma LinkBits()
    ensures Split(0x28_0000) == Bits(false, 0, 0, 0, false, 0, 0x280, 0)
    ensures forall i :: 0 <= i < 8 ==> Octet(0x28_0000, i) == if i == 2 then 0x28 else 0
  {
  }

  /** The address of frame 0x280, as a link. */
  lemma LinkWord()
    ensures Encoded(Pointer(0x280)) == 0x28_0000
  {
    hide Split, FrameNumber, Encoded, Octet;
    LinkBits();
    Number280();
    assert EntryOf(0x28_0000) == Pointer(0x280);
    EncodedEntry(0x28_0000);
  }

  /** A map that runs on from one page into the next: where the address of the second entry was, the kernel finds the
      link that it has just written, the address of the page before. */
  lemma LinkFound(l: Layout, m: Memory, base: Word, s: Spec, e: int)
    requires Placed1(l) && s.free == [] && s.tables == BootSpec(ROOT, {}).tables && 0x28_0FFC < e <= END - 24
    requires Info.RegionAt(Image(m), 0x28_0FE4) == LONG && Read32(Image(m), 0x28_0FE4) == 20
    ensures |Seen(l, m, s, base, 0x28_0FE4, e)| >= 2
    ensures Seen(l, m, s, base, 0x28_0FE4, e)[0] == LONG && Seen(l, m, s, base, 0x28_0FE4, e)[1].address == 0x28_0000
  {
    hide Outcome, IntervalOps, First, Info.RegionAt, Read32, Shown;
    PagesLong(l);
    LowInterval(s, l.root, 0x20A, 0x282);
    var t := Outcome(s, RangeOps(l, LONG.address, LONG.length)).value;
    forall a | 0x28_0FE4 <= a < 0x28_0FFC
      ensures !Written(s, a) && !Written(t, a)
    {
      assert WordOf(a).frame == 0x280 && WordOf(a).index != 0;
    }
    EntryAsWas(m, s, ROOT, base, 0x28_0FE4, 24);
    EntryAsWas(m, t, ROOT, base, 0x28_0FE4, 24);
    assert t.free[0] == 0x281 && t.free[1] == 0x280;
    LinkRead(m, t, base);
  }

  lemma LinkRead(m: Memory, t: Spec, base: Word)
    requires |t.free| > 1 && t.free[0] == 0x281 && t.free[1] == 0x280 && 0x281 !in t.tables
    requires forall j :: 0 < j < |t.free| ==> t.free[j] != 0x281
    ensures Found(m, t, ROOT, base, 0x28_0FFC).address == 0x28_0000
  {
    hide Image, Read64, Read32;
    var shown := Shown(m, t, ROOT, base);
    assert PositionOf(t.free, 0x281) == 0;
    assert shown[Slot(0x281, 0)] == Pointer(0x280);
    LinkBytes(shown);
  }

  lemma LinkBytes(m: Memory)
    requires m[Slot(0x281, 0)] == Pointer(0x280)
    ensures Read64(Image(m), 0x28_1000) == 0x28_0000
  {
    hide Octet, Encoded, Read32;
    LinkWord();
    LinkBits();
    var b := Image(m);
    forall a | 0x28_1000 <= a < 0x28_1008
      ensures b[a] == if a == 0x28_1002 then 0x28 else 0
    {
      assert WordOf(a) == Slot(0x281, 0);
    }
    TwoWords(b);
  }

  lemma TwoWords(b: Bytes)
    requires |b| == END && forall a :: 0x28_1000 <= a < 0x28_1008 ==> b[a] == if a == 0x28_1002 then 0x28 else 0
    ensures Read32(b, 0x28_1000) == 0x28_0000 && Read32(b, 0x28_1004) == 0
  {
  }
}
