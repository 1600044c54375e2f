/** The loop of the kernel's constructor over the memory map.  The map lies in the memory that the loop gives away, so
    what is read of it depends on what has been done with the entries before. */
module MapWalk {
  import opened Options
  import opened Words
  import opened Translation
  import opened Hardware
  import opened Frames
  import opened AddressSpaces
  import opened Paging
  import opened Runs
  import opened RunProperties
  import opened PoolCounts
  import opened PoolContents
  import opened MemoryPool
  import opened LittleEndian
  import Moves = StringMoves
  import Info = BootInformation

  type Byte = Moves.Byte
  type Bytes = Moves.Bytes

  /** Physical memory below 256 MiB, which is mapped onto itself while memory is collected. */
  const END: int := 0x1000_0000

  /** Byte i of a word in memory. */
  function Octet(w: bv64, i: nat): Byte
    requires i < 8
  {
    if i == 0 then (w & 0xFF) as Byte
    else if i == 1 then ((w >> 8) & 0xFF) as Byte
    else if i == 2 then ((w >> 16) & 0xFF) as Byte
    else if i == 3 then ((w >> 24) & 0xFF) as Byte
    else if i == 4 then ((w >> 32) & 0xFF) as Byte
    else if i == 5 then ((w >> 40) & 0xFF) as Byte
    else if i == 6 then ((w >> 48) & 0xFF) as Byte
    else ((w >> 56) & 0xFF) as Byte
  }

  /** The lowest byte comes first. */
  lemma OctetsJoin(w: bv64)
    ensures w ==
            ((Octet(w, 7) as bv64) << 56) | ((Octet(w, 6) as bv64) << 48) | ((Octet(w, 5) as bv64) << 40)
            | ((Octet(w, 4) as bv64) << 32) | ((Octet(w, 3) as bv64) << 24) | ((Octet(w, 2) as bv64) << 16)
            | ((Octet(w, 1) as bv64) << 8) | (Octet(w, 0) as bv64)
  {
  }

  function WordOf(a: int): Slot
    requires 0 <= a < END
  {
    Slot(a / 0x1000, a % 0x1000 / 8)
  }

  /** The byte at physical address a. */
  function ByteAt(m: Memory, a: int): Byte
    requires 0 <= a < END
  {
    Octet(Encoded(m[WordOf(a)]), a % 8)
  }

  /** Low memory, byte by byte. */
  ghost function Image(m: Memory): (b: Bytes)
    ensures |b| == END && forall a :: 0 <= a < END ==> b[a] == ByteAt(m, a)
  {
    seq(END, a requires 0 <= a < END => ByteAt(m, a))
  }

  /** Every page of low memory shows the frame of its own number. */
  ghost predicate LowIdentity(v: View) {
    forall f: Frame :: f < LOW ==> Settled(v.mem, v.tlb, v.cr3, PageOf(f), f)
  }

  lemma CollectingLow(v: View, free: seq<Frame>, pool: set<Frame>)
    requires Collecting(v, free, pool)
    ensures LowIdentity(v)
  {
    hide Walk, Locate, PageOf, IsTable;
    forall f: Frame | f < LOW
      ensures Settled(v.mem, v.tlb, v.cr3, PageOf(f), f)
    {
      assert Agrees(v.mem, v.tlb, v.cr3, PageOf(f));
    }
  }

  method LoadByte(machine: Machine, a: int) returns (b: Byte)
    requires 0 <= a < END && LowIdentity(machine.Now())
    ensures b == ByteAt(machine.mem, a)
  {
    hide Walk, Octet, Settled;
    var w := machine.Load(PageOf(a / 0x1000), a % 0x1000 / 8, a / 0x1000);
    b := Octet(Encoded(w), a % 8);
  }

  method Load32(machine: Machine, a: int) returns (v: int)
    requires 0 <= a && a + 4 <= END && LowIdentity(machine.Now())
    ensures v == Read32(Image(machine.mem), a)
  {
    hide ByteAt, LowIdentity;
    var b0 := LoadByte(machine, a);
    var b1 := LoadByte(machine, a + 1);
    var b2 := LoadByte(machine, a + 2);
    var b3 := LoadByte(machine, a + 3);
    v := b0 as int + 0x100 * b1 as int + 0x1_0000 * (b2 as int + 0x100 * b3 as int);
  }

  method Load64(machine: Machine, a: int) returns (v: int)
    requires 0 <= a && a + 8 <= END && LowIdentity(machine.Now())
    ensures v == Read64(Image(machine.mem), a)
  {
    hide Read32, LowIdentity;
    var low := Load32(machine, a);
    var high := Load32(machine, a + 4);
    v := low + LIMIT * high;
  }

  /** The table that is in frame f. */
  ghost function TableIn(t: Spec, root: Frame, f: Frame): Table {
    if exists k: Table :: k.root == root && t.where(k) == Some(f) then
      var k: Table :| k.root == root && t.where(k) == Some(f);
      k
    else Pml4(root)
  }

  ghost function PositionOf(free: seq<Frame>, f: Frame): (j: nat)
    requires f in free
    ensures j < |free| && free[j] == f
  {
    var j :| 0 <= j < |free| && free[j] == f;
    j
  }

  /** What has become of memory m once the specification has come to t: tables hold what Map puts into them, free
      frames begin with their link, and everything else is as it was. */
  ghost function Shown(m: Memory, t: Spec, root: Frame, base: Word): Memory {
    imap s: Slot ::
      if s.frame in t.tables && !(root <= s.frame < root + 6) then EntryIn(t, root, TableIn(t, root, s.frame), s.index)
      else if s.index == 0 && s.frame in t.free then Link(t.free, PositionOf(t.free, s.frame) + 1, base)
      else m[s]
  }

  /** That is what memory has become. */
  lemma ShownRight(m: Memory, v: View, t: Spec, stack: Word, base: Word, s: Slot)
    requires Gathered(m, v, t.free, Some(t)) && Chain(v.mem, stack, t.free, base) && v.spaces == {v.cr3}
    requires !(v.cr3 <= s.frame < v.cr3 + 6)
    ensures v.mem[s] == Shown(m, t, v.cr3, base)[s]
  {
    hide Walk, Locate, PageOf, EntryIn, IsTable;
    TablesLocated(v, t);
    if s.frame in t.tables {
      TableFound(v, t, s.frame);
      var k := TableIn(t, v.cr3, s.frame);
      assert v.mem[Slot(t.where(k).value, s.index)] == EntryIn(t, v.cr3, k, s.index);
    }
  }

  lemma TableFound(v: View, t: Spec, f: Frame)
    requires Refines(v, t.free, t) && v.spaces == {v.cr3} && f in t.tables
    ensures TableIn(t, v.cr3, f).root == v.cr3 && t.where(TableIn(t, v.cr3, f)) == Some(f)
  {
    hide Walk, Locate, PageOf;
    assert IsTable(v.mem, v.spaces, f);
    var k: Table :| k.root in v.spaces && Locate(v.mem, k) == Some(f);
    assert k.root == v.cr3 && t.where(k) == Some(f);
  }

  /** The map, with the fields of a last entry that is too short, lies in low memory and outside the boot tables. */
  predicate Outside(root: Frame, start: int, e: int) {
    0 <= start && e + 24 <= END && (e + 24 <= root * 0x1000 || (root + 6) * 0x1000 <= start)
  }

  /** The entry at p, as it is found when the specification has come to t. */
  ghost function Found(m: Memory, t: Spec, root: Frame, base: Word, p: int): Region
    requires 0 <= p && p + 24 <= END
  {
    Info.RegionAt(Image(Shown(m, t, root, base)), p)
  }

  /** Where the next entry is then taken to be. */
  ghost function Following(m: Memory, t: Spec, root: Frame, base: Word, p: int): (q: int)
    requires 0 <= p && p + 24 <= END
    ensures p < q
  {
    p + Read32(Image(Shown(m, t, root, base)), p) + 4
  }

  /** What the walk finds from p on: an entry is collected as soon as it is found, and only then is its size read, to
      find the next one.  The walk ends where the kernel halts. */
  ghost function Seen(l: Layout, m: Memory, t: Spec, base: Word, p: int, e: int): seq<Region>
    requires 0 <= p && e + 24 <= END
    decreases e - p
  {
    if p >= e then [] else
    var r := Found(m, t, l.root, base, p);
    if r.available && !Ranged(r.address, r.length) then [r] else
    var u := if r.available then Outcome(t, RangeOps(l, r.address, r.length)) else Some(t);
    if u.None? then [r] else [r] + Seen(l, m, u.value, base, Following(m, u.value, l.root, base, p), e)
  }

  /** Only the bytes of the map matter. */
  lemma {:induction false} SeenSame(l: Layout, m: Memory, n: Memory, t: Spec, base: Word, p: int, e: int)
    requires 0 <= p && e + 24 <= END
    requires forall a :: p <= a < e + 24 ==> m[WordOf(a)] == n[WordOf(a)]
    ensures Seen(l, m, t, base, p, e) == Seen(l, n, t, base, p, e)
    decreases e - p
  {
    hide Outcome, RangeOps, Found, Following;
    if p < e {
      var r := Found(m, t, l.root, base, p);
      EntrySame(m, n, t, l.root, base, p);
      if r.available ==> Ranged(r.address, r.length) {
        var u := if r.available then Outcome(t, RangeOps(l, r.address, r.length)) else Some(t);
        if u.Some? {
          EntrySame(m, n, u.value, l.root, base, p);
          SeenSame(l, m, n, u.value, base, Following(m, u.value, l.root, base, p), e);
        }
      }
    }
  }

  lemma EntrySame(m: Memory, n: Memory, t: Spec, root: Frame, base: Word, p: int)
    requires 0 <= p && p + 24 <= END && forall a :: p <= a < p + 24 ==> m[WordOf(a)] == n[WordOf(a)]
    ensures Found(m, t, root, base, p) == Found(n, t, root, base, p)
    ensures Following(m, t, root, base, p) == Following(n, t, root, base, p)
  {
    hide Octet, EntryIn, Read32, Read64;
    var x, y := Image(Shown(m, t, root, base)), Image(Shown(n, t, root, base));
    forall a | 0 <= a < END && p <= a < p + 24
      ensures x[a] == y[a]
    {
      assert Shown(m, t, root, base)[WordOf(a)] == Shown(n, t, root, base)[WordOf(a)];
    }
    SameRegion24(x, y, p, p, p + 24);
  }

  /** Memory and what should be there agree on every byte outside the boot tables. */
  lemma ImageRight(m: Memory, v: View, t: Spec, stack: Word, base: Word, p: int, e: int)
    requires Gathered(m, v, t.free, Some(t)) && Chain(v.mem, stack, t.free, base) && v.spaces == {v.cr3}
    requires Outside(v.cr3, p, e)
    ensures Same(Image(v.mem), Image(Shown(m, t, v.cr3, base)), p, e + 24)
  {
    hide Gathered, Chain, Shown, Octet;
    forall a | 0 <= a < END && p <= a < e + 24
      ensures ByteAt(v.mem, a) == ByteAt(Shown(m, t, v.cr3, base), a)
    {
      ShownRight(m, v, t, stack, base, WordOf(a));
    }
  }

  lemma SameRegion24(a: Bytes, b: Bytes, p: int, lo: int, hi: int)
    requires |a| == |b| == END && Same(a, b, lo, hi) && 0 <= p && lo <= p && p + 24 <= hi && hi <= END
    ensures Info.RegionAt(a, p) == Info.RegionAt(b, p) && Read32(a, p) == Read32(b, p)
  {
    hide Read32, Read64, Same;
    SameWithin(a, b, lo, hi, p, p + 4);
    SameWithin(a, b, lo, hi, p + 4, p + 12);
    SameWithin(a, b, lo, hi, p + 12, p + 20);
    SameWithin(a, b, lo, hi, p + 20, p + 24);
    SameReads(a, b, p);
    SameReads(a, b, p + 4);
    SameReads(a, b, p + 12);
    SameReads(a, b, p + 20);
  }

  /** The entry at p, as the kernel reads it before it is collected. */
  method ReadEntry(machine: Machine, p: int) returns (r: Region)
    requires 0 <= p && p + 24 <= END && LowIdentity(machine.Now())
    ensures r == Info.RegionAt(Image(machine.mem), p)
  {
    hide Read32, Read64, LowIdentity;
    var address := Load64(machine, p + 4);
    var length := Load64(machine, p + 12);
    var kind := Load32(machine, p + 20);
    r := Region(address, length, kind == 1);
  }

  /** The walk finds ranges of addresses that do not overlap and belong to nobody else. */
  predicate Sensible(l: Layout, seen: seq<Region>, s: Spec) {
    Listed(seen) && Disjoint(seen) && Contribution(l, seen, |seen|) <= s.handed
  }

  /** One more entry: what the walk finds next, and what that means for the calls made so far. */
  lemma SeenStep(l: Layout, m: Memory, s: Spec, base: Word, seen: seq<Region>, k: nat, t: Spec, p: int, e: int)
    requires 0 <= p < e && e + 24 <= END && k <= |seen| && Listed(seen)
    requires Outcome(s, MapOps(l, seen, k)) == Some(t) && seen[k..] == Seen(l, m, t, base, p, e)
    ensures k < |seen| && seen[k] == Found(m, t, l.root, base, p)
    ensures var r := seen[k];
            var u := if r.available then Outcome(t, RangeOps(l, r.address, r.length)) else Some(t);
            && Outcome(s, MapOps(l, seen, k + 1)) == u
            && (u.None? ==> |seen| == k + 1)
            && (u.Some? ==> seen[k + 1..] == Seen(l, m, u.value, base, Following(m, u.value, l.root, base, p), e))
  {
    hide Outcome, RangeOps, MapOps, Found, Following;
    var r := Found(m, t, l.root, base, p);
    assert seen[k] == seen[k..][0] == r;
    assert r.available ==> Ranged(r.address, r.length);
    MapStep(l, seen, k, s);
    assert seen[k + 1..] == seen[k..][1..];
  }

  lemma OutsideLow(root: Frame, start: int, e: int)
    requires Outside(root, start, e)
    ensures 0 <= start && e + 24 <= END
  {
  }

  /** What the kernel reads at p is what is to be found there. */
  lemma FoundRight(m: Memory, v: View, t: Spec, stack: Word, base: Word, free: seq<Frame>, l: Layout, start: int,
                   e: int, p: int)
    requires Gathered(m, v, free, Some(t)) && Chain(v.mem, stack, free, base) && v.spaces == {v.cr3}
    requires l.root == v.cr3 && Outside(l.root, start, e) && start <= p < e
    ensures Info.RegionAt(Image(v.mem), p) == Found(m, t, l.root, base, p)
    ensures p + Read32(Image(v.mem), p) + 4 == Following(m, t, l.root, base, p)
  {
    hide Chain, Read32, Shown, Contents;
    hide Walk, Locate, PageOf, Sound, IsTable;
    ImageRight(m, v, t, stack, base, start, e);
    SameRegion24(Image(v.mem), Image(Shown(m, t, v.cr3, base)), p, start, e + 24);
  }

  lemma GatheredSpec(m: Memory, v: View, free: seq<Frame>, s: Spec)
    requires Gathered(m, v, free, Some(s))
    ensures Accounted(s)
  {
  }

  /** The walk has come to p, with the entries seen[..k] behind it. */
  ghost predicate Walking(l: Layout, m: Memory, s: Spec, base: Word, seen: seq<Region>, k: nat, p: int, e: int, v: View,
                          free: seq<Frame>)
  {
    && k <= |seen| && Sensible(l, seen, s) && 0 <= p && e + 24 <= END
    && Collecting(v, free, Contribution(l, seen, k))
    && Outcome(s, MapOps(l, seen, k)).Some?
    && Gathered(m, v, free, Outcome(s, MapOps(l, seen, k)))
    && seen[k..] == Seen(l, m, Outcome(s, MapOps(l, seen, k)).value, base, p, e)
  }

  /** The first half of a round: the entry is read and, if it is available, collected. */
  method Take(memory: MemoryManager, paging: PagingManager, l: Layout, p: int, ghost start: int, ghost e: int,
              ghost m: Memory, ghost s: Spec, ghost seen: seq<Region>, ghost k: nat) returns (ok: bool)
    requires paging.Valid() && paging.memory == memory && paging.pageMapLevel4 == paging.machine.cr3
    requires paging.machine.spaces == {paging.machine.cr3}
    requires Placed(l, paging.machine.cr3, memory.stack.bottom) && Outside(l.root, start, e) && start <= p < e
    requires Walking(l, m, s, memory.stack.base, seen, k, p, e, paging.machine.Now(), memory.stack.free)
    modifies paging, paging.machine`mem, paging.machine`tlb, memory.stack
    ensures k < |seen|
    ensures ok <==> Outcome(s, MapOps(l, seen, k + 1)).Some?
    ensures ok ==> paging.Valid() && Collecting(paging.machine.Now(), memory.stack.free, Contribution(l, seen, k + 1))
    ensures ok ==> Gathered(m, paging.machine.Now(), memory.stack.free, Outcome(s, MapOps(l, seen, k + 1)))
  {
    hide Collecting, Collectable, Pushed, Sound, Chain, Distinct, RoundDown, Outcome, MapOps, Gathered, Disjoint;
    hide Enough, RangeOps, Contribution, Seen, Found, Following, Outside, LowIdentity, Image, Read32, Read64;
    hide Info.RegionAt, Ranged, First, PageOf, Walk, Locate;
    ghost var t, base := Outcome(s, MapOps(l, seen, k)).value, memory.stack.base;
    OutsideLow(l.root, start, e);
    SeenStep(l, m, s, base, seen, k, t, p, e);
    ContributionStep(l, seen, k);
    FoundRight(m, paging.machine.Now(), t, memory.stack.stack, base, memory.stack.free, l, start, e, p);
    CollectingLow(paging.machine.Now(), memory.stack.free, Contribution(l, seen, k));
    var r := ReadEntry(paging.machine, p);
    ok := true;
    if r.available {
      EntryCollectable(l, seen, k, s);
      ok := Initialize(memory, paging, l, r.address, r.length, Contribution(l, seen, k), m, t);
    }
  }

  /** One round of the loop. */
  method Round(memory: MemoryManager, paging: PagingManager, l: Layout, p: int, ghost start: int, ghost e: int,
               ghost m: Memory, ghost s: Spec, ghost seen: seq<Region>, ghost k: nat) returns (ok: bool, q: int)
    requires paging.Valid() && paging.memory == memory && paging.pageMapLevel4 == paging.machine.cr3
    requires paging.machine.spaces == {paging.machine.cr3}
    requires Placed(l, paging.machine.cr3, memory.stack.bottom) && Outside(l.root, start, e) && start <= p < e
    requires Walking(l, m, s, memory.stack.base, seen, k, p, e, paging.machine.Now(), memory.stack.free)
    modifies paging, paging.machine`mem, paging.machine`tlb, memory.stack
    ensures ok ==> paging.Valid() && p < q
    ensures ok ==> Walking(l, m, s, memory.stack.base, seen, k + 1, q, e, paging.machine.Now(), memory.stack.free)
    ensures !ok ==> Outcome(s, MapOps(l, seen, |seen|)).None?
  {
    hide Collecting, Sound, Chain, Distinct, Outcome, MapOps, Gathered, Disjoint, RangeOps, Contribution, Seen, Found;
    hide Following, Outside, LowIdentity, Image, Read32, Info.RegionAt, Ranged, Disjoint, PageOf, Walk, Locate;
    ghost var t, base := Outcome(s, MapOps(l, seen, k)).value, memory.stack.base;
    OutsideLow(l.root, start, e);
    SeenStep(l, m, s, base, seen, k, t, p, e);
    ok := Take(memory, paging, l, p, start, e, m, s, seen, k);
    q := p;
    if ok {
      ghost var u := Outcome(s, MapOps(l, seen, k + 1)).value;
      FoundRight(m, paging.machine.Now(), u, memory.stack.stack, base, memory.stack.free, l, start, e, p);
      CollectingLow(paging.machine.Now(), memory.stack.free, Contribution(l, seen, k + 1));
      var size := Load32(paging.machine, p);
      q := p + size + 4;
    }
  }

  /** Halts exactly when the calls for the entries found do, and never when those are supplied. */
  method CollectMap(memory: MemoryManager, paging: PagingManager, l: Layout, start: int, length: nat, ghost s: Spec)
    returns (ok: bool)
    requires paging.Valid() && paging.memory == memory && paging.pageMapLevel4 == paging.machine.cr3
    requires paging.machine.spaces == {paging.machine.cr3}
    requires Collecting(paging.machine.Now(), memory.stack.free, {})
    requires Placed(l, paging.machine.cr3, memory.stack.bottom) && Outside(l.root, start, start + length)
    requires Gathered(paging.machine.mem, paging.machine.Now(), memory.stack.free, Some(s)) && s.free == []
    requires Sensible(l, Seen(l, paging.machine.mem, s, memory.stack.base, start, start + length), s)
    modifies paging, paging.machine`mem, paging.machine`tlb, memory.stack
    ensures var seen := Seen(l, old(paging.machine.mem), s, memory.stack.base, start, start + length);
            && (ok <==> Outcome(s, MapOps(l, seen, |seen|)).Some?)
            && (Supplied(l, seen) ==> ok)
            && (ok ==> paging.Valid())
            && (ok ==> Collecting(paging.machine.Now(), memory.stack.free, Contribution(l, seen, |seen|)))
            && (ok ==> Gathered(old(paging.machine.mem), paging.machine.Now(), memory.stack.free,
                                Outcome(s, MapOps(l, seen, |seen|))))
            && (ok ==> forall f: Frame :: f in Contribution(l, seen, |seen|) ==>
                  (f in memory.stack.free <==> !IsTable(paging.machine.mem, paging.machine.spaces, f)))
            && (ok ==> forall f: Frame :: f in memory.stack.free ==> f in Contribution(l, seen, |seen|))
  {
    hide Collecting, Sound, Chain, Distinct, Outcome, MapOps, Gathered, Listed, Disjoint, Supplied, Contribution, Seen;
    hide Outside, Walking;
    ghost var m, base := paging.machine.mem, memory.stack.base;
    var p, e := start, start + length;
    OutsideLow(l.root, start, e);
    ghost var seen, k := Seen(l, m, s, base, p, e), 0;
    GatheredSpec(m, paging.machine.Now(), memory.stack.free, s);
    if Supplied(l, seen) {
      SuppliedSuffices(l, seen, |seen|, s);
    }
    WalkingNone(l, m, s, base, seen, p, e, paging.machine.Now(), memory.stack.free);
    ok := true;
    while p < e
      invariant start <= p
      invariant paging.Valid()
      invariant Walking(l, m, s, base, seen, k, p, e, paging.machine.Now(), memory.stack.free)
      decreases e - p
    {
      ok, p := Round(memory, paging, l, p, start, e, m, s, seen, k);
      if !ok {
        return;
      }
      k := k + 1;
    }
    WalkingAll(l, m, s, base, seen, k, p, e, paging.machine.Now(), memory.stack.free);
  }

  lemma WalkingNone(l: Layout, m: Memory, s: Spec, base: Word, seen: seq<Region>, p: int, e: int, v: View,
                    free: seq<Frame>)
    requires 0 <= p && e + 24 <= END && seen == Seen(l, m, s, base, p, e) && Sensible(l, seen, s)
    requires Collecting(v, free, {}) && Gathered(m, v, free, Some(s))
    ensures Walking(l, m, s, base, seen, 0, p, e, v, free)
  {
    hide Collecting, Gathered, Seen;
    NoEntries(l, seen, s);
    assert seen[0..] == seen;
  }

  lemma WalkingAll(l: Layout, m: Memory, s: Spec, base: Word, seen: seq<Region>, k: nat, p: int, e: int, v: View,
                   free: seq<Frame>)
    requires Walking(l, m, s, base, seen, k, p, e, v, free) && 0 <= e <= p && l.startKernel <= l.endKernel
    requires Accounted(s) && s.free == []
    ensures k == |seen| && Outcome(s, MapOps(l, seen, |seen|)).Some?
    ensures Collecting(v, free, Contribution(l, seen, |seen|))
    ensures Gathered(m, v, free, Outcome(s, MapOps(l, seen, |seen|)))
    ensures forall f :: f in Contribution(l, seen, |seen|) ==> (f in free <==> !IsTable(v.mem, v.spaces, f))
    ensures forall f :: f in free ==> f in Contribution(l, seen, |seen|)
  {
    hide Collecting, Outcome, MapOps, Contribution, Found, Following, Contents, IsTable, Refines, Accounted;
    AllCollected(l, seen, s, v, free);
  }
}
