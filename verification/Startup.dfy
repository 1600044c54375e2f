/** From power to any run: the loader's tables are built and put in force, the kernel walks its memory map and collects
    what that offers, and from then on address spaces are edited at will. */
module Startup {
  import opened Options
  import opened Words
  import opened Translation
  import opened Hardware
  import opened Frames
  import opened AddressSpaces
  import opened AccessRights
  import opened Paging
  import opened Boot
  import opened Runs
  import opened RunProperties
  import opened PoolCounts
  import opened PoolContents
  import opened MemoryPool
  import opened LittleEndian
  import opened MapWalk
  import opened MapFindings
  import opened MapShelter
  import Info = BootInformation
  import Backup

  /** paging_activate: CR3 is loaded, which empties the buffer. */
  method Activate(machine: Machine, root: Frame)
    modifies machine
    ensures machine.mem == old(machine.mem) && machine.cr3 == root && machine.spaces == {root}
    ensures Speculated(map[], machine.tlb, machine.mem, root)
  {
    machine.cr3, machine.spaces, machine.tlb := root, {root}, map[];
    machine.Speculate();
  }

  /** The frame where the global PagingManager is constructed before the kernel is. */
  const STATIC: Frame := 0x300

  predicate Static(w: Slot) {
    STATIC <= w.frame < STATIC + 4 && w.index == 511
  }

  /** The memory map as the loader has left it, if it can be read. */
  ghost function MapIn(m: Memory, start: int, e: int): seq<Region> {
    if Legible(Image(m), start, e) then Info.Visited(Image(m), start, e) else []
  }

  /** What the loader and the linker settle: where the boot tables go, where the kernel image with its memory manager
      lies, and where the memory map is, whose available entries do not overlap. */
  ghost predicate Loaded(m: Memory, l: Layout, address: int, bottom: Word, start: int, e: int) {
    && 0 <= address < 0x1_0000_0000 && l.root == RoundedUp(address) && l.root + 8 < LOW
    && (l.root + 6 <= STATIC || STATIC + 4 <= l.root)
    && (forall s: Slot :: l.root <= s.frame < l.root + 6 ==> m[s] == ZERO)
    && Placed(l, l.root, bottom) && Outside(l.root, start, e)
    && (forall a :: start <= a < e + 24 ==> !Static(WordOf(a)))
    && Legible(Image(m), start, e) && Listed(MapIn(m, start, e)) && Disjoint(MapIn(m, start, e))
  }

  /** The state before the map is walked. */
  ghost function Before(m: Memory, l: Layout, start: int, e: int): Spec
    requires l.root + 8 < LOW
  {
    Offered(l, MapIn(m, start, e))
  }

  /** What the kernel finds of the map. */
  ghost function SeenIn(m: Memory, l: Layout, base: Word, start: int, e: int): seq<Region> {
    if l.root + 8 < LOW && 0 <= start && e + 24 <= END then Seen(l, m, Before(m, l, start, e), base, start, e) else []
  }

  /** It finds ranges of addresses that do not overlap, out of those that the loader has put there. */
  ghost predicate Sighted(m: Memory, l: Layout, base: Word, start: int, e: int) {
    l.root + 8 < LOW && Sensible(l, SeenIn(m, l, base, start, e), Before(m, l, start, e))
  }

  /** The state after the map has been walked; None if the kernel halts. */
  ghost function Started(m: Memory, l: Layout, base: Word, start: int, e: int): Option<Spec> {
    var seen := SeenIn(m, l, base, start, e);
    if l.root + 8 < LOW && Listed(seen) then Outcome(Before(m, l, start, e), MapOps(l, seen, |seen|)) else None
  }

  /** The machine has come there, and what is neither table nor link is as the loader has left it, but for the words of
      the static constructors. */
  ghost predicate Arrived(m: Memory, l: Layout, base: Word, start: int, e: int, v: View, free: seq<Frame>) {
    var seen, t := SeenIn(m, l, base, start, e), Started(m, l, base, start, e);
    && v.cr3 == l.root && v.spaces == {l.root} && Realised(v, free, t)
    && forall w: Slot :: !Overwritten(l, seen, t.value, w) ==> v.mem[w] == m[w]
  }

  predicate Overwritten(l: Layout, seen: seq<Region>, t: Spec, w: Slot) {
    w.frame in t.tables || (w.index == 0 && w.frame in Contribution(l, seen, |seen|)) || Static(w)
  }

  /** The static constructors of the kernel: one PagingManager puts a path to a scratch page where nobody looks for
      one. */
  method ConstructStatics(machine: Machine, memory: MemoryManager, ghost root: Frame)
    requires memory.machine == machine && memory.Valid() && memory.stack.free == []
    requires machine.cr3 == root && machine.spaces == {root} && root + 8 < LOW && Booted(machine.mem, root)
    requires root + 6 <= STATIC || STATIC + 4 <= root
    requires Sound(machine.Now(), [])
    modifies machine`mem, machine`tlb
    ensures memory.Valid() && Sound(machine.Now(), []) && Booted(machine.mem, root)
    ensures forall w: Slot :: !Static(w) ==> machine.mem[w] == old(machine.mem)[w]
  {
    hide Walk, Locate, PageOf, Sound, Booted, IsTable, Settled;
    ghost var m := machine.mem;
    forall g: Frame | STATIC <= g < STATIC + 4
      ensures Owned(machine.Now(), g)
    {
      LowOwned(machine.Now(), root, g);
    }
    LayPath(machine, memory, STATIC);
    BareLaid(m, machine.mem, STATIC);
    StillBooted(m, machine.mem, root);
  }

  lemma LowOwned(v: View, root: Frame, g: Frame)
    requires v.cr3 == root && v.spaces == {root} && root + 8 < LOW && Booted(v.mem, root) && Sound(v, [])
    requires g < LOW && !(root <= g < root + 6)
    ensures Owned(v, g)
  {
    hide Walk, Locate, PageOf, Booted, IsTable, Forest;
    BootWalk(v.mem, root, PageOf(g));
    BootIdentity(root, g);
    BootTableFrames(v.mem, root, g);
    assert Agrees(v.mem, v.tlb, v.cr3, PageOf(g));
  }

  lemma StillBooted(a: Memory, b: Memory, root: Frame)
    requires root + 8 < LOW && Booted(a, root) && (root + 6 <= STATIC || STATIC + 4 <= root)
    requires forall w: Slot :: !Static(w) ==> b[w] == a[w]
    ensures Booted(b, root)
  {
  }

  /** Everything before the walk. */
  method Prepare(machine: Machine, l: Layout, address: int, bottom: Word, base: Word, ghost start: int, ghost e: int)
    returns (memory: MemoryManager, paging: PagingManager)
    requires Loaded(machine.mem, l, address, bottom, start, e)
    modifies machine
    ensures fresh(memory) && fresh(memory.stack) && fresh(paging) && memory.stack.bottom == bottom
    ensures memory.stack.base == base && memory.stack.free == [] && memory.machine == paging.machine == machine
    ensures paging.Valid() && paging.memory == memory && paging.pageMapLevel4 == l.root
    ensures machine.cr3 == l.root && machine.spaces == {l.root} && Booted(machine.mem, l.root)
    ensures forall w: Slot :: !(l.root <= w.frame < l.root + 6) && !Static(w) ==> machine.mem[w] == old(machine.mem)[w]
  {
    hide Sound, Walk, Locate, PageOf, Chain, Distinct, Booted, Image, Legible, Listed, Disjoint;
    var root := PagingInitialize(machine, address);
    ghost var m := machine.mem;
    Activate(machine, root);
    var stack := new MemoryStack(machine, bottom, base);
    memory := new MemoryManager(machine, stack);
    BootSound(m, root, machine.tlb);
    ConstructStatics(machine, memory, root);
    BootAttach(machine.mem, root, machine.tlb);
    paging := new PagingManager.Attach(machine, memory, root);
  }

  /** The kernel finds the boot tables fit for its own constructor. */
  lemma BootAttach(m: Memory, root: Frame, tlb: Tlb)
    requires root + 8 < LOW && Booted(m, root) && Sound(View(m, tlb, root, {root}), [])
    ensures PathLaid(m, root)
    ensures forall g: Frame :: root <= g < root + 4 ==> Identity(View(m, tlb, root, {root}), g)
  {
    hide Walk, Locate, PageOf, Forest;
    assert m[Slot(root + 0, 511)] == BootEntry(root, 0, 511) && m[Slot(root + 1, 511)] == BootEntry(root, 1, 511);
    assert m[Slot(root + 2, 511)] == BootEntry(root, 2, 511) && m[Slot(root + 3, 511)] == BootEntry(root, 3, 511);
    forall g: Frame | root <= g < root + 4
      ensures Identity(View(m, tlb, root, {root}), g)
    {
      BootWalk(m, root, PageOf(g));
      BootIdentity(root, g);
      assert Agrees(m, tlb, root, PageOf(g));
    }
  }

  /** False when the kernel halts while it collects memory. */
  method Start(machine: Machine, l: Layout, address: int, bottom: Word, base: Word, start: int, length: nat)
    returns (ok: bool, memory: MemoryManager, paging: PagingManager)
    requires Loaded(machine.mem, l, address, bottom, start, start + length)
    requires Sighted(machine.mem, l, base, start, start + length)
    modifies machine
    ensures fresh(memory) && fresh(memory.stack) && fresh(paging) && memory.stack.bottom == bottom
    ensures ok <==> Started(old(machine.mem), l, base, start, start + length).Some?
    ensures Supplies(old(machine.mem), l, base, start, start + length) ==> ok
    ensures ok ==> Together(machine, memory, map[l.root := paging])
    ensures ok ==>
              Arrived(old(machine.mem), l, base, start, start + length, machine.Now(), memory.stack.free)
  {
    hide Sound, Walk, Locate, PageOf, Chain, Distinct, Collecting, Gathered, Booted, Outcome, MapOps, Contribution;
    hide Supplied, Seen, Listed, Arrived, Outside, Loaded, Sighted, Placed, Sensible, Before, SeenIn;
    ghost var m := machine.mem;
    memory, paging := Prepare(machine, l, address, bottom, base, start, start + length);
    ghost var n := machine.mem;
    ghost var s := Walkable(m, machine.Now(), memory.stack.free, l, address, bottom, base, start, start + length);
    ok := CollectMap(memory, paging, l, start, length, s);
    if ok {
      WordsKept(m, n, l, base, start, start + length, machine.Now(), memory.stack.free);
    }
  }

  /** All that the walk may rely on. */
  lemma Walkable(m: Memory, v: View, free: seq<Frame>, l: Layout, address: int, bottom: Word, base: Word, start: int,
                 e: int) returns (s: Spec)
    requires Loaded(m, l, address, bottom, start, e) && Sighted(m, l, base, start, e)
    requires Booted(v.mem, l.root) && Sound(v, free) && free == [] && v.cr3 == l.root && v.spaces == {l.root}
    requires forall w: Slot :: !(l.root <= w.frame < l.root + 6) && !Static(w) ==> v.mem[w] == m[w]
    ensures l.root + 8 < LOW && s == Before(m, l, start, e) && s.free == []
    ensures Placed(l, l.root, bottom) && Outside(l.root, start, e) && 0 <= start && e + 24 <= END
    ensures Collecting(v, free, {}) && Gathered(v.mem, v, free, Some(s))
    ensures SeenIn(m, l, base, start, e) == Seen(l, v.mem, s, base, start, e)
    ensures Sensible(l, Seen(l, v.mem, s, base, start, e), s) && Listed(SeenIn(m, l, base, start, e))
    ensures var seen := SeenIn(m, l, base, start, e);
            && Started(m, l, base, start, e) == Outcome(s, MapOps(l, seen, |seen|))
            && (Supplies(m, l, base, start, e) <==> Supplied(l, seen))
  {
    hide Sound, Collecting, Gathered, Booted, Outcome, MapOps, Contribution, Offered, Supplied, Seen, Image, Legible;
    hide Walk, Locate, PageOf;
    s := Before(m, l, start, e);
    Ready(l, MapIn(m, start, e), v, free);
    MapKept(l, m, v.mem, s, base, start, e);
    SightedSeen(m, l, base, start, e);
  }

  /** What the kernel finds supplies the frames for its tables. */
  ghost predicate Supplies(m: Memory, l: Layout, base: Word, start: int, e: int) {
    var seen := SeenIn(m, l, base, start, e);
    Listed(seen) && Supplied(l, seen)
  }

  lemma SightedSeen(m: Memory, l: Layout, base: Word, start: int, e: int)
    requires Sighted(m, l, base, start, e) && Outside(l.root, start, e)
    ensures 0 <= start && e + 24 <= END && Listed(SeenIn(m, l, base, start, e))
    ensures SeenIn(m, l, base, start, e) == Seen(l, m, Before(m, l, start, e), base, start, e)
    ensures Sensible(l, SeenIn(m, l, base, start, e), Before(m, l, start, e))
  {
    hide Seen, Offered, Contribution;
  }

  lemma MapKept(l: Layout, m: Memory, n: Memory, s: Spec, base: Word, start: int, e: int)
    requires Outside(l.root, start, e) && forall a :: start <= a < e + 24 ==> !Static(WordOf(a))
    requires forall w: Slot :: !(l.root <= w.frame < l.root + 6) && !Static(w) ==> n[w] == m[w]
    ensures Seen(l, n, s, base, start, e) == Seen(l, m, s, base, start, e)
  {
    SeenSame(l, m, n, s, base, start, e);
  }

  /** The boot tables are where the walk can begin. */
  lemma Ready(l: Layout, map_: seq<Region>, v: View, free: seq<Frame>)
    requires l.root + 8 < LOW && Booted(v.mem, l.root) && Sound(v, free) && free == []
    requires v.cr3 == l.root && v.spaces == {l.root} && Listed(map_) && l.startKernel <= l.endKernel
    ensures Collecting(v, free, {}) && Gathered(v.mem, v, free, Some(Offered(l, map_))) && Offered(l, map_).free == []
  {
    hide Sound, Booted, Collecting, Refines, Accounted, Contribution;
    BootCollecting(v.mem, l.root, v.tlb);
    OfferedRefines(l, map_, v.mem, v.tlb);
  }

  lemma WordsKept(m: Memory, n: Memory, l: Layout, base: Word, start: int, e: int, v: View, free: seq<Frame>)
    requires Sighted(m, l, base, start, e) && v.cr3 == l.root && v.spaces == {l.root}
    requires Gathered(n, v, free, Started(m, l, base, start, e))
    requires var seen := SeenIn(m, l, base, start, e); forall f :: f in free ==> f in Contribution(l, seen, |seen|)
    requires forall w: Slot :: !(l.root <= w.frame < l.root + 6) && !Static(w) ==> n[w] == m[w]
    ensures Arrived(m, l, base, start, e, v, free)
  {
    hide Outcome, MapOps, Contribution, Walk, Locate, PageOf, Sound, IsTable, EntryIn, Seen, MapIn;
    var seen := SeenIn(m, l, base, start, e);
    MapTables(l, seen, |seen|, Before(m, l, start, e));
  }

  /** Frames never cease to be tables. */
  lemma {:induction false} TablesGrow(s: Spec, ops: seq<Op>)
    requires Outcome(s, ops).Some?
    ensures s.tables <= Outcome(s, ops).value.tables
    decreases |ops|
  {
    if ops != [] {
      TablesGrow(Next(s, ops[0]).value, ops[1..]);
    }
  }

  lemma MapTables(l: Layout, seen: seq<Region>, k: nat, s: Spec)
    requires k <= |seen| && Listed(seen) && Outcome(s, MapOps(l, seen, k)).Some?
    ensures s.tables <= Outcome(s, MapOps(l, seen, k)).value.tables
  {
    TablesGrow(s, MapOps(l, seen, k));
  }

  /** A map that is not disturbed is found as the loader has left it. */
  lemma UndisturbedStarts(m: Memory, l: Layout, base: Word, start: int, e: int)
    requires l.root + 8 < LOW && l.startKernel <= l.endKernel
    requires Outside(l.root, start, e) && Legible(Image(m), start, e)
    requires Listed(MapIn(m, start, e)) && Disjoint(MapIn(m, start, e))
    requires Undisturbed(l, Image(m), Before(m, l, start, e), start, e)
    ensures Sighted(m, l, base, start, e)
    ensures var map_ := MapIn(m, start, e);
            && Started(m, l, base, start, e) == Outcome(Offered(l, map_), MapOps(l, map_, |map_|))
            && (Started(m, l, base, start, e).Some? ==> SeenIn(m, l, base, start, e) == map_)
  {
    hide Outcome, MapOps, Seen, Undisturbed, Legible, Listed, Disjoint, Contribution;
    LegibleRange(Image(m), start, e);
    UndisturbedFinds(l, m, base, start, e);
  }

  lemma LegibleRange(b: Bytes, start: int, e: int)
    requires Legible(b, start, e)
    ensures 0 <= start && e + 24 <= END
  {
  }

  /** What the loader has copied is the map that it was given. */
  lemma CopiedMap(given: Bytes, at: int, m: Memory)
    requires Backup.Ready(given, at) && Info.HasMap(given, at) && Info.ReadableMap(given, at)
    requires Info.Whole(Info.MapOf(given, at)) && Image(m) == Backup.Placed(given, Backup.Copy(given, at))
    ensures var start := Read32(Image(m), Backup.ARENA + Info.MAP);
            var e := start + Read32(Image(m), Backup.ARENA + Info.LENGTH);
            e + 24 <= END ==>
              Legible(Image(m), start, e) && MapIn(m, start, e) == Info.Regions(Info.MapOf(given, at))
  {
    hide Backup.Ready, Backup.Copy, Backup.Placed, Info.MapFits, Info.Entries, Info.Regions, Info.Visited;
    hide Read32, Image;
    Backup.KernelSees(given, at);
    var start := Read32(Image(m), Backup.ARENA + Info.MAP);
    Info.VisitedRegions(Image(m), start, start + Read32(Image(m), Backup.ARENA + Info.LENGTH));
  }

  /** From the boot tables, every run: the kernel halts exactly when the specification says so, and otherwise the
      machine has come to what the specification has come to.  What is neither table nor link is as the loader has left
      it. */
  method StartAndRun(machine: Machine, l: Layout, address: int, bottom: Word, base: Word, start: int, length: nat,
                     ops: seq<Op>)
    returns (ok: bool, memory: MemoryManager, managers: map<Frame, PagingManager>)
    requires Loaded(machine.mem, l, address, bottom, start, start + length)
    requires Sighted(machine.mem, l, base, start, start + length)
    requires var s := Started(machine.mem, l, base, start, start + length);
             s.Some? ==> LegalRun(s.value, {l.root}, l.root, bottom, ops)
    modifies machine
    ensures var s := Started(old(machine.mem), l, base, start, start + length);
            && (ok <==> s.Some? && Outcome(s.value, ops).Some?)
            && (ok ==> Together(machine, memory, managers))
            && (ok ==> Realised(machine.Now(), memory.stack.free, Outcome(s.value, ops)))
            && (ok ==> forall w: Slot ::
                  !Overwritten(l, SeenIn(old(machine.mem), l, base, start, start + length), s.value, w)
                  && !Rewrites(Outcome(s.value, ops).value, ops, w) ==>
                    machine.mem[w] == old(machine.mem)[w])
            && (ok ==> forall r :: r in machine.spaces && r != l.root ==> Admits(machine.mem, r))
  {
    hide Refines, Accounted, Outcome, Contribution, Together, LegalRun, Started, SeenIn, Sighted, Loaded, Admits;
    managers := map[];
    var paging;
    ghost var m := machine.mem;
    ok, memory, paging := Start(machine, l, address, bottom, base, start, length);
    if ok {
      ghost var s := Started(m, l, base, start, start + length).value;
      ok, managers := Run(machine, memory, map[l.root := paging], ops, s);
    }
  }

  /** After any such run, the frames of the memory map and of the boot tables are each free, a table or handed out,
      in one of these places only, and there are no others. */
  lemma StartConserves(m: Memory, l: Layout, base: Word, start: int, e: int, bottom: Word, ops: seq<Op>)
    requires l.startKernel <= l.endKernel && Sighted(m, l, base, start, e) && Listed(MapIn(m, start, e))
    requires Started(m, l, base, start, e).Some?
    requires LegalRun(Started(m, l, base, start, e).value, {l.root}, l.root, bottom, ops)
    requires Outcome(Started(m, l, base, start, e).value, ops).Some?
    ensures var t := Outcome(Started(m, l, base, start, e).value, ops).value;
            var map_ := MapIn(m, start, e);
            && Accounted(t)
            && Holdings(t) == Contribution(l, map_, |map_|)
                              + {l.root, l.root + 1, l.root + 2, l.root + 3, l.root + 4, l.root + 5}
  {
    hide Accounted, Outcome, MapOps, Contribution, LegalRun, MapIn, Seen;
    var map_, seen := MapIn(m, start, e), SeenIn(m, l, base, start, e);
    OfferedApart(l, map_);
    MapHolds(l, seen, |seen|, Offered(l, map_));
    Conservation(Started(m, l, base, start, e).value, {l.root}, l.root, bottom, ops);
  }
}
