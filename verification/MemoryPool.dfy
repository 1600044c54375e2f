/** MemoryManager::Initialize of memory.cpp: the free memory of the machine is put on the free stack page by
    page while the boot tables are in force. */
module MemoryPool {
  import opened Options
  import opened Words
  import opened Translation
  import opened Hardware
  import opened Frames
  import opened AddressSpaces
  import opened TableEdits
  import opened Paging
  import opened Boot
  import opened Runs
  import opened RunProperties
  import opened PoolCounts
  import opened PoolContents

  /** Where the kernel image lies, and the root of the boot tables. */
  datatype Layout = Layout(startKernel: int, endKernel: int, root: Frame)

  function Tables(l: Layout): int {
    l.root * 0x1000
  }

  /** The test in front of the first loop: everything below, or everything above, kernel and boot tables. */
  predicate Clear(l: Layout, bs: int, be: int) {
    || (bs < l.startKernel && be < l.startKernel && bs < Tables(l) && be < Tables(l))
    || (bs > l.endKernel && be > l.endKernel && bs > Tables(l) + 0x8000 && be > Tables(l) + 0x8000)
  }

  /** The test inside the second loop. */
  predicate ClearPage(l: Layout, bs: int, be: int) {
    || (bs < l.startKernel && bs + 0x1000 < l.startKernel && bs < Tables(l) && be < Tables(l))
    || (bs > l.endKernel && bs + 0x1000 > l.endKernel && bs > Tables(l) + 0x8000 && be > Tables(l) + 0x8000)
  }

  function RoundUp(a: int): int {
    (a + 0xFFF) / 0x1000 * 0x1000
  }

  function RoundDown(a: int): int {
    a / 0x1000 * 0x1000
  }

  /** Page f is pushed by Initialize(address, length). */
  predicate Accepted(l: Layout, address: int, length: int, f: Frame) {
    var bs, be := RoundUp(address), RoundDown(address + length);
    bs <= f * 0x1000 && f * 0x1000 + 0x1000 <= be && (Clear(l, bs, be) || ClearPage(l, f * 0x1000, be))
  }

  /** Pushed pages lie inside the given range and overlap neither the kernel image nor the boot tables. */
  lemma AcceptedApart(l: Layout, address: int, length: int, f: Frame)
    requires l.startKernel <= l.endKernel && Accepted(l, address, length, f)
    ensures address <= f * 0x1000 && f * 0x1000 + 0x1000 <= address + length
    ensures f * 0x1000 + 0x1000 <= l.startKernel || l.endKernel <= f * 0x1000
    ensures f * 0x1000 + 0x1000 <= Tables(l) || Tables(l) + 0x8000 <= f * 0x1000
    ensures !(l.root <= f < l.root + 8)
  {
  }

  /** Page f lies in the range as a whole.  Either it ends below the kernel image and the range ends below the boot
      tables, or it begins behind the first byte after the image and the first byte after the tables. */
  predicate Offers(l: Layout, address: int, length: int, f: Frame) {
    && address <= f * 0x1000 && f * 0x1000 + 0x1000 <= address + length
    && (|| (f * 0x1000 + 0x1000 < l.startKernel && address + length < l.root * 0x1000)
        || (l.endKernel < f * 0x1000 && l.root * 0x1000 + 0x8000 < f * 0x1000))
  }

  /** Which pages are pushed, without the rounding and the two tests. */
  lemma AcceptedExactly(l: Layout, address: int, length: int, f: Frame)
    requires l.startKernel <= l.endKernel
    ensures Accepted(l, address, length, f) <==> Offers(l, address, length, f)
  {
  }

  /** A range that lies below kernel and tables, or above them, is given to the last whole page.  Pages between the
      kernel and the tables are never given. */
  lemma AcceptedWholly(l: Layout, address: int, length: int, f: Frame)
    requires l.startKernel <= l.endKernel
    ensures (address + length < l.startKernel && address + length < l.root * 0x1000)
            || (l.endKernel < address && l.root * 0x1000 + 0x8000 < address) ==>
              (Accepted(l, address, length, f) <==>
                 address <= f * 0x1000 && f * 0x1000 + 0x1000 <= address + length)
    ensures l.endKernel <= f * 0x1000 && f * 0x1000 + 0x1000 <= l.root * 0x1000 ==> !Accepted(l, address, length, f)
  {
    hide Accepted;
    AcceptedExactly(l, address, length, f);
  }

  /** The low memory of a PC, with the kernel at 1 MiB: 159 pages. */
  lemma LowMemoryGiven(f: Frame)
    ensures Accepted(Layout(0x10_0000, 0x18_0000, 0x201), 0, 0x9_FC00, f) <==> f <= 0x9E
  {
    hide Accepted;
    AcceptedExactly(Layout(0x10_0000, 0x18_0000, 0x201), 0, 0x9_FC00, f);
  }

  /** While memory is being collected: below 256 MiB every page shows the frame of its own number, above there
      are no 2 MiB leaves, and free frames and tables come from the pool or from the boot tables. */
  ghost predicate Collecting(v: View, free: seq<Frame>, pool: set<Frame>) {
    && Sound(v, free) && v.cr3 + 8 < LOW
    && (forall f: Frame :: f < LOW ==> Walk(v.mem, v.cr3, PageOf(f)) == Large(f))
    && (forall f: Frame :: LOW <= f < TOP ==> !Walk(v.mem, v.cr3, PageOf(f)).Large?)
    && (forall f :: f in free ==> f in pool)
    && (forall f :: f in pool ==> f < TOP)
    && (forall f: Frame :: IsTable(v.mem, v.spaces, f) ==> f in pool || v.cr3 <= f < v.cr3 + 8)
  }

  /** Below TOP a page number is determined by its four indices. */
  lemma PageNumber(f: Frame)
    requires f < TOP
    ensures var p := PageOf(f); f == p.i4 * 0x800_0000 + p.i3 * 0x4_0000 + p.i2 * 512 + p.i1
  {
    var a, b, c := f / 512, f / 512 / 512, f / 512 / 512 / 512;
    assert f / 0x4_0000 == b && f / 0x800_0000 == c;
    assert c < 512;
  }

  lemma PageNumbers(f: Frame, g: Frame)
    requires f < TOP && g < TOP
    ensures PageOf(f) == PageOf(g) ==> f == g
    ensures PageOf(f) != WINDOW
    ensures f < LOW <= g ==> !SameRegion(PageOf(f), PageOf(g))
  {
    PageNumber(f);
    PageNumber(g);
  }

  /** The two statements that both loops repeat, for the page that begins at f * 0x1000. */
  method Give(memory: MemoryManager, paging: PagingManager, f: Frame, ghost pool: set<Frame>, ghost m: Memory,
              ghost s: Spec)
    returns (ok: bool)
    requires paging.Valid() && paging.memory == memory && paging.pageMapLevel4 == paging.machine.cr3
    requires Collecting(paging.machine.Now(), memory.stack.free, pool)
    requires f < TOP && f !in pool && !(paging.machine.cr3 <= f < paging.machine.cr3 + 8)
    requires Pointer(f) != memory.stack.bottom
    requires Gathered(m, paging.machine.Now(), memory.stack.free, Some(s)) && f in s.handed
    modifies paging, paging.machine`mem, paging.machine`tlb, memory.stack
    ensures ok <==>
              || f < LOW
              || Missing(old(paging.machine.mem), paging.machine.cr3, PageOf(f)) <= |old(memory.stack.free)|
    ensures ok <==> Outcome(s, PageOps(paging.machine.cr3, f)).Some?
    ensures ok ==> paging.Valid()
    ensures ok ==> Collecting(paging.machine.Now(), memory.stack.free, pool + {f})
    ensures ok ==> Gathered(m, paging.machine.Now(), memory.stack.free, Outcome(s, PageOps(paging.machine.cr3, f)))
  {
    hide Sound, Walk, Locate, PageOf, Chain, Distinct, Collecting, Mapped, Missing, Sparing, Agrees, Refines;
    hide Accounted, Needed, Next, Outcome, Stored, Contents;
    ghost var a, free, root := paging.machine.Now(), memory.stack.free, paging.machine.cr3;
    PoolLegal(a, free, pool, f);
    PageOutcome(s, root, f);
    ActiveRoot(a, free, s);
    RefinesMap(a, free, s, root, PageOf(f), f);
    ghost var u := s;
    if f * 0x1000 >= 0x1000_0000 {
      ok := paging.Map(f, f);
      if !ok {
        return;
      }
      MapCollecting(a, paging.machine.Now(), free, pool, f);
      MapRefines(a, paging.machine.Now(), free, s, root, f, f);
      u := Next(s, Map(root, f, f)).value;
      ActiveRoot(paging.machine.Now(), memory.stack.free, u);
      MapContents(m, a, paging.machine.Now(), s, u, f);
    }
    ghost var b, rest, link := paging.machine.Now(), memory.stack.free, memory.stack.stack;
    CollectingPage(b, rest, pool, f);
    memory.PFree(f);
    SoundGiven(b, paging.machine.Now(), rest, f, link);
    GivenCollecting(b, paging.machine.Now(), rest, pool, f);
    FreeRefines(b, paging.machine.Now(), rest, u, f, link);
    ActiveRoot(b, rest, u);
    TablesLocated(b, u);
    FreeContents(m, b.mem, paging.machine.mem, u, Next(u, Free(f)).value, root, f, link);
    ok := true;
  }

  /** The machine has come to the state that the specification has come to. */
  ghost predicate Realised(v: View, free: seq<Frame>, t: Option<Spec>) {
    t.Some? && Refines(v, free, t.value) && Accounted(t.value)
  }

  /** ... and memory holds what it should. */
  ghost predicate Gathered(m: Memory, v: View, free: seq<Frame>, t: Option<Spec>) {
    Realised(v, free, t) && Contents(m, v.mem, t.value, v.cr3)
  }

  lemma ActiveRoot(v: View, free: seq<Frame>, s: Spec)
    requires Refines(v, free, s)
    ensures v.cr3 in v.spaces && s.free == free
  {
  }

  /** Mapping a page of the range onto its own number is always allowed. */
  lemma PoolLegal(v: View, free: seq<Frame>, pool: set<Frame>, f: Frame)
    requires Collecting(v, free, pool) && f < TOP && f !in pool && !(v.cr3 <= f < v.cr3 + 8)
    ensures PageOf(f) != WINDOW
    ensures LOW <= f ==> Sparing(v, free, PageOf(f), f)
    ensures Missing(v.mem, v.cr3, PageOf(f)) <= 3
  {
    hide Walk, Locate, PageOf;
    PageNumbers(f, f);
    forall g | (g in free || g == v.cr3 + 3) && PageOf(g) == PageOf(f)
      ensures g == f
    {
      PageNumbers(f, g);
    }
  }

  lemma MapCollecting(a: View, b: View, free: seq<Frame>, pool: set<Frame>, f: Frame)
    requires Collecting(a, free, pool) && LOW <= f < TOP && f !in pool && !(a.cr3 <= f < a.cr3 + 8)
    requires b.cr3 == a.cr3 && b.spaces == a.spaces
    requires Mapped(a, b, a.cr3, PageOf(f), f, free) && Sound(b, free[Missing(a.mem, a.cr3, PageOf(f))..])
    ensures Collecting(b, free[Missing(a.mem, a.cr3, PageOf(f))..], pool)
    ensures Walk(b.mem, b.cr3, PageOf(f)) == Small(f)
  {
    hide Sound, Walk, Locate, PageOf, Missing;
    var k := Missing(a.mem, a.cr3, PageOf(f));
    assert free == free[..k] + free[k..];
    SoundActive(a, free);
    PageNumbers(f, f);
    forall g: Frame | g < TOP
      ensures g < LOW ==> Walk(b.mem, b.cr3, PageOf(g)) == Large(g)
      ensures LOW <= g ==> !Walk(b.mem, b.cr3, PageOf(g)).Large?
    {
      PageNumbers(g, f);
    }
  }

  lemma SoundActive(v: View, free: seq<Frame>)
    requires Sound(v, free)
    ensures v.cr3 in v.spaces
  {
  }

  /** A page about to be pushed is reached at its own address and holds nothing. */
  lemma CollectingPage(v: View, free: seq<Frame>, pool: set<Frame>, f: Frame)
    requires Collecting(v, free, pool) && f < TOP && f !in pool && !(v.cr3 <= f < v.cr3 + 8)
    requires f < LOW || Walk(v.mem, v.cr3, PageOf(f)) == Small(f)
    ensures Identity(v, f) && f !in free && !IsTable(v.mem, v.spaces, f)
  {
    hide Walk, Locate, PageOf;
    PageNumbers(f, f);
    assert Agrees(v.mem, v.tlb, v.cr3, PageOf(f));
  }

  lemma GivenCollecting(a: View, b: View, free: seq<Frame>, pool: set<Frame>, f: Frame)
    requires Collecting(a, free, pool) && f < TOP && f !in pool && !IsTable(a.mem, a.spaces, f)
    requires Sound(b, [f] + free) && b.cr3 == a.cr3 && b.spaces == a.spaces
    requires forall g: Frame :: IsTable(b.mem, b.spaces, g) <==> IsTable(a.mem, a.spaces, g)
    requires forall r: Frame, p | r in a.spaces :: Walk(b.mem, r, p) == Walk(a.mem, r, p)
    ensures Collecting(b, [f] + free, pool + {f})
  {
    hide Sound, Walk, Locate, PageOf;
    SoundActive(a, free);
  }

  /** The frames of [bs, be) that have been pushed once the loop has come to page b. */
  function Pushed(l: Layout, address: int, length: int, b: int): set<Frame> {
    set f: Frame | 0 <= f < TOP && f * 0x1000 < b && Accepted(l, address, length, f)
  }

  lemma PushedStep(l: Layout, address: int, length: int, b: int)
    requires 0 <= b && b % 0x1000 == 0 && b / 0x1000 < TOP
    ensures Pushed(l, address, length, b + 0x1000) ==
            Pushed(l, address, length, b) + (if Accepted(l, address, length, b / 0x1000) then {b / 0x1000} else {})
    ensures b / 0x1000 !in Pushed(l, address, length, b)
  {
    hide Accepted;
    var f: Frame := b / 0x1000;
    assert b == f * 0x1000;
    forall g: Frame | g < TOP
      ensures g * 0x1000 < b + 0x1000 <==> g * 0x1000 < b || g == f
    {
    }
  }

  /** Where the kernel image, the boot tables and the memory manager itself lie. */
  predicate Placed(l: Layout, cr3: Frame, bottom: Word) {
    && l.root == cr3 && l.startKernel <= l.endKernel
    && l.startKernel < bottom.frame * 0x1000 + 0x1000 && bottom.frame * 0x1000 < l.endKernel
  }

  /** A range of addresses whose page numbers do not repeat. */
  predicate Ranged(address: int, length: int) {
    0 <= address && 0 <= length && address + length <= TOP * 0x1000
  }

  /** The first page that is pushed, as the two tests have it, and the first one after that that is not. */
  function RawFirst(l: Layout, address: int, length: int): int {
    var bs, be := RoundUp(address), RoundDown(address + length);
    var top := if l.endKernel < Tables(l) + 0x8000 then Tables(l) + 0x8000 else l.endKernel;
    if Clear(l, bs, be) || be < Tables(l) || top < bs then bs / 0x1000 else top / 0x1000 + 1
  }

  function RawLast(l: Layout, address: int, length: int): int {
    var bs, be := RoundUp(address), RoundDown(address + length);
    if Clear(l, bs, be) || be >= Tables(l) || be < l.startKernel then be / 0x1000 else (l.startKernel - 1) / 0x1000
  }

  function First(l: Layout, address: int, length: int): (f: Frame)
    requires Ranged(address, length)
    ensures f <= TOP
  {
    if 0 <= RawFirst(l, address, length) < RawLast(l, address, length) then RawFirst(l, address, length) else 0
  }

  function Last(l: Layout, address: int, length: int): (f: Frame)
    requires Ranged(address, length)
    ensures First(l, address, length) <= f <= TOP
  {
    if 0 <= RawFirst(l, address, length) < RawLast(l, address, length) then RawLast(l, address, length) else 0
  }

  /** Pushed pages have no gap. */
  lemma AcceptedInterval(l: Layout, address: int, length: int, f: Frame)
    requires Ranged(address, length)
    ensures Accepted(l, address, length, f) <==> First(l, address, length) <= f < Last(l, address, length)
  {
  }

  /** The part of [First, Last) below page f. */
  function Upto(l: Layout, address: int, length: int, f: int): (g: Frame)
    requires Ranged(address, length)
    ensures First(l, address, length) <= g <= Last(l, address, length)
  {
    var lo, hi := First(l, address, length), Last(l, address, length);
    if f < lo then lo else if hi < f then hi else f
  }

  /** The calls for a whole range. */
  function RangeOps(l: Layout, address: int, length: int): seq<Op>
    requires Ranged(address, length)
  {
    IntervalOps(l.root, First(l, address, length), Last(l, address, length))
  }

  /** The pages below address b have been dealt with. */
  ghost predicate Collected(l: Layout, pool: set<Frame>, m: Memory, s: Spec, address: int, length: int, b: int, v: View,
                            free: seq<Frame>)
    requires Ranged(address, length)
  {
    && Collecting(v, free, pool + Pushed(l, address, length, b))
    && var given := IntervalOps(l.root, First(l, address, length), Upto(l, address, length, b / 0x1000));
       Gathered(m, v, free, Outcome(s, given))
  }

  /** What a call of Initialize may rely on: its pages have not been pushed before and belong to nobody else. */
  ghost predicate Collectable(l: Layout, pool: set<Frame>, s: Spec, address: int, length: int) {
    && Ranged(address, length)
    && forall f: Frame :: Accepted(l, address, length, f) ==> f !in pool && f in s.handed
  }

  /** One round of either loop. */
  method Visit(memory: MemoryManager, paging: PagingManager, l: Layout, address: int, length: int, bs: int,
               accept: bool, ghost pool: set<Frame>, ghost m: Memory, ghost s: Spec) returns (ok: bool)
    requires paging.Valid() && paging.memory == memory && paging.pageMapLevel4 == paging.machine.cr3
    requires Placed(l, paging.machine.cr3, memory.stack.bottom) && Collectable(l, pool, s, address, length)
    requires RoundUp(address) <= bs && bs % 0x1000 == 0 && bs + 0x1000 <= RoundDown(address + length)
    requires accept <==>
               || Clear(l, RoundUp(address), RoundDown(address + length))
               || ClearPage(l, bs, RoundDown(address + length))
    requires Collected(l, pool, m, s, address, length, bs, paging.machine.Now(), memory.stack.free)
    modifies paging, paging.machine`mem, paging.machine`tlb, memory.stack
    ensures ok ==> paging.Valid()
    ensures ok ==> Collected(l, pool, m, s, address, length, bs + 0x1000, paging.machine.Now(), memory.stack.free)
    ensures !ok ==> Outcome(s, RangeOps(l, address, length)).None?
  {
    hide Sound, Chain, Distinct, Pushed, Accepted, Clear, ClearPage, Collecting, RoundUp, RoundDown, Gathered;
    hide Outcome, First, Last;
    AcceptedNow(l, address, length, bs, memory.stack.bottom, pool, s);
    UptoStep(l, address, length, bs / 0x1000, s);
    if accept {
      ghost var before, f := pool + Pushed(l, address, length, bs), bs / 0x1000;
      ghost var t := Outcome(s, IntervalOps(l.root, First(l, address, length), Upto(l, address, length, f)));
      StillHanded(l, address, length, m, s, f, paging.machine.Now(), memory.stack.free);
      ok := Give(memory, paging, bs / 0x1000, before, m, t.value);
      assert before + {bs / 0x1000} == pool + Pushed(l, address, length, bs + 0x1000);
    } else {
      assert pool + Pushed(l, address, length, bs) == pool + Pushed(l, address, length, bs + 0x1000);
      ok := true;
    }
  }

  /** What one more page means for the calls made so far. */
  lemma UptoStep(l: Layout, address: int, length: int, f: int, s: Spec)
    requires Ranged(address, length) && 0 <= f < TOP
    ensures var ops := IntervalOps(l.root, First(l, address, length), Upto(l, address, length, f));
            var more := IntervalOps(l.root, First(l, address, length), Upto(l, address, length, f + 1));
            if Accepted(l, address, length, f) then
              && more == ops + PageOps(l.root, f)
              && (Outcome(s, ops).Some? ==> Outcome(s, more) == Outcome(Outcome(s, ops).value, PageOps(l.root, f)))
              && (Outcome(s, more).None? ==> Outcome(s, RangeOps(l, address, length)).None?)
            else more == ops
  {
    hide Accepted, Outcome, PageOps;
    AcceptedInterval(l, address, length, f);
    var lo, hi := First(l, address, length), Last(l, address, length);
    if Accepted(l, address, length, f) {
      OutcomeAppend(s, IntervalOps(l.root, lo, f), PageOps(l.root, f));
      IntervalExactly(s, l.root, lo, f + 1);
      IntervalExactly(s, l.root, lo, hi);
    }
  }

  /** A page that has not been given yet is still accounted for as handed out. */
  lemma StillHanded(l: Layout, address: int, length: int, m: Memory, s: Spec, f: Frame, v: View, free: seq<Frame>)
    requires Ranged(address, length) && Accepted(l, address, length, f) && f in s.handed
    requires Gathered(m, v, free,
                      Outcome(s, IntervalOps(l.root, First(l, address, length), Upto(l, address, length, f))))
    ensures var t := Outcome(s, IntervalOps(l.root, First(l, address, length), Upto(l, address, length, f)));
            t.Some? && Gathered(m, v, free, t) && f in t.value.handed
  {
    hide Accepted, Refines, Accounted, Contents, Outcome, IntervalOps, Needed, PageOf;
    AcceptedInterval(l, address, length, f);
    IntervalExactly(s, l.root, First(l, address, length), f);
  }

  /** Halts (false) exactly when the frames at hand are not enough for the tables of the first page that has to be
      mapped and its neighbour. */
  method Initialize(memory: MemoryManager, paging: PagingManager, l: Layout, address: int, length: int,
                    ghost pool: set<Frame>, ghost m: Memory, ghost s: Spec) returns (ok: bool)
    requires paging.Valid() && paging.memory == memory && paging.pageMapLevel4 == paging.machine.cr3
    requires Collecting(paging.machine.Now(), memory.stack.free, pool)
    requires Placed(l, paging.machine.cr3, memory.stack.bottom) && Collectable(l, pool, s, address, length)
    requires Gathered(m, paging.machine.Now(), memory.stack.free, Some(s))
    modifies paging, paging.machine`mem, paging.machine`tlb, memory.stack
    ensures ok <==> Enough(s, l.root, First(l, address, length), Last(l, address, length))
    ensures ok <==> Outcome(s, RangeOps(l, address, length)).Some?
    ensures ok ==> paging.Valid()
    ensures ok ==> Collecting(paging.machine.Now(), memory.stack.free,
                              pool + Pushed(l, address, length, RoundDown(address + length)))
    ensures ok ==> Gathered(m, paging.machine.Now(), memory.stack.free, Outcome(s, RangeOps(l, address, length)))
    ensures ok ==> Given(l, address, length, s.handed, paging.machine.Now(), memory.stack.free)
  {
    hide Sound, Chain, Distinct, Clear, ClearPage, Collecting, Pushed, Accepted, RoundUp, RoundDown, Collected, Enough;
    hide Outcome, First, Last, IntervalOps, Gathered, Given;
    var bs, be := RoundUp(address), RoundDown(address + length);
    ghost var a, was := paging.machine.Now(), memory.stack.free;
    IntervalExactly(s, l.root, First(l, address, length), Last(l, address, length));
    CollectedNone(l, pool, m, s, address, length, paging.machine.Now(), memory.stack.free);
    if Clear(l, bs, be) {
      while bs < be && be - bs >= 0x1000
        invariant RoundUp(address) <= bs && bs % 0x1000 == 0
        invariant paging.Valid()
        invariant Collected(l, pool, m, s, address, length, bs, paging.machine.Now(), memory.stack.free)
        decreases be - bs
      {
        ok := Visit(memory, paging, l, address, length, bs, true, pool, m, s);
        if !ok {
          return;
        }
        bs := bs + 0x1000;
      }
    } else {
      while bs < be && be - bs >= 0x1000
        invariant RoundUp(address) <= bs && bs % 0x1000 == 0
        invariant paging.Valid()
        invariant Collected(l, pool, m, s, address, length, bs, paging.machine.Now(), memory.stack.free)
        decreases be - bs
      {
        ok := Visit(memory, paging, l, address, length, bs, ClearPage(l, bs, be), pool, m, s);
        if !ok {
          return;
        }
        bs := bs + 0x1000;
      }
    }
    CollectedAll(l, pool, m, s, address, length, bs, paging.machine.Now(), memory.stack.free);
    GivenExactly(l, address, length, pool, m, s, a, was, paging.machine.Now(), memory.stack.free);
    ok := true;
  }

  /** Of the frames that had been handed out, exactly the offered ones are free or tables now. */
  ghost predicate Given(l: Layout, address: int, length: int, handed: set<Frame>, v: View, free: seq<Frame>) {
    forall f: Frame :: f in handed ==>
      (f in free || IsTable(v.mem, v.spaces, f) <==> Offers(l, address, length, f))
  }

  lemma GivenExactly(l: Layout, address: int, length: int, pool: set<Frame>, m: Memory, s: Spec, a: View,
                     was: seq<Frame>, b: View, free: seq<Frame>)
    requires Collectable(l, pool, s, address, length) && l.startKernel <= l.endKernel
    requires Gathered(m, a, was, Some(s)) && Gathered(m, b, free, Outcome(s, RangeOps(l, address, length)))
    ensures Given(l, address, length, s.handed, b, free)
  {
    hide Accepted, Outcome, RangeOps, Contents, Offers, Sound, Walk, Locate, IsTable, Pushed;
    var t := Outcome(s, RangeOps(l, address, length)).value;
    RangeHanded(l, address, length, s);
    RangeHolds(l, address, length, s);
    forall f: Frame
      ensures f in Pushed(l, address, length, RoundDown(address + length)) <==> Offers(l, address, length, f)
    {
      PushedAccepted(l, address, length, f);
      AcceptedExactly(l, address, length, f);
    }
  }

  lemma PushedNone(l: Layout, address: int, length: int)
    ensures RoundUp(address) % 0x1000 == 0 && Pushed(l, address, length, RoundUp(address)) == {}
  {
    hide Clear, ClearPage;
  }

  lemma CollectedNone(l: Layout, pool: set<Frame>, m: Memory, s: Spec, address: int, length: int, v: View,
                      free: seq<Frame>)
    requires Collecting(v, free, pool) && Ranged(address, length) && Gathered(m, v, free, Some(s))
    ensures RoundUp(address) % 0x1000 == 0 && Collected(l, pool, m, s, address, length, RoundUp(address), v, free)
  {
    hide Collecting, Gathered, PageOf, Pushed, First, Last, Outcome, Upto;
    PushedNone(l, address, length);
    assert pool + {} == pool;
    FirstFits(l, address, length);
    NothingGiven(s, l.root, First(l, address, length));
  }

  lemma FirstFits(l: Layout, address: int, length: int)
    requires Ranged(address, length)
    ensures Upto(l, address, length, RoundUp(address) / 0x1000) == First(l, address, length)
    ensures Upto(l, address, length, RoundDown(address + length) / 0x1000) == Last(l, address, length)
  {
  }

  lemma CollectedAll(l: Layout, pool: set<Frame>, m: Memory, s: Spec, address: int, length: int, b: int, v: View,
                     free: seq<Frame>)
    requires Ranged(address, length) && Collected(l, pool, m, s, address, length, b, v, free)
    requires RoundUp(address) <= b && b % 0x1000 == 0 && b + 0x1000 > RoundDown(address + length)
    ensures Collecting(v, free, pool + Pushed(l, address, length, RoundDown(address + length)))
    ensures Outcome(s, RangeOps(l, address, length)).Some?
    ensures Gathered(m, v, free, Outcome(s, RangeOps(l, address, length)))
  {
    hide Collecting, Refines, Accounted, Contents, Outcome, First, Last;
    assert Pushed(l, address, length, b) == Pushed(l, address, length, RoundDown(address + length));
    LastFits(l, address, length, b);
  }

  lemma LastFits(l: Layout, address: int, length: int, b: int)
    requires Ranged(address, length) && RoundUp(address) <= b && b % 0x1000 == 0
             && b + 0x1000 > RoundDown(address + length)
    ensures Upto(l, address, length, b / 0x1000) == Last(l, address, length)
  {
  }

  /** The page the loop has come to, seen from both tests. */
  lemma AcceptedNow(l: Layout, address: int, length: int, b: int, bottom: Word, pool: set<Frame>, s: Spec)
    requires Placed(l, l.root, bottom) && Collectable(l, pool, s, address, length)
    requires RoundUp(address) <= b && b % 0x1000 == 0 && b + 0x1000 <= RoundDown(address + length)
    ensures 0 <= b && b / 0x1000 < TOP
    ensures var bs, be := RoundUp(address), RoundDown(address + length);
            var f: Frame := b / 0x1000;
            && (Accepted(l, address, length, f) <==> Clear(l, bs, be) || ClearPage(l, b, be))
            && (Accepted(l, address, length, f) ==> f !in pool + Pushed(l, address, length, b) && f in s.handed)
            && (Accepted(l, address, length, f) ==> !(l.root <= f < l.root + 8) && Pointer(f) != bottom)
            && Pushed(l, address, length, b + 0x1000) ==
                 Pushed(l, address, length, b) + if Accepted(l, address, length, f) then {f} else {}
  {
    hide Pushed;
    var f: Frame := b / 0x1000;
    assert b == f * 0x1000;
    PushedStep(l, address, length, b);
    if Accepted(l, address, length, f) {
      AcceptedApart(l, address, length, f);
    }
  }

  /** The boot tables are a state in which collecting can start. */
  lemma BootCollecting(m: Memory, root: Frame, tlb: Tlb)
    requires root + 8 < LOW && Booted(m, root) && Sound(View(m, tlb, root, {root}), [])
    ensures Collecting(View(m, tlb, root, {root}), [], {})
  {
    hide Walk, Locate, Booted, PageOf, Sound, IsTable;
    forall f: Frame
      ensures f < LOW ==> Walk(m, root, PageOf(f)) == Large(f)
      ensures LOW <= f < TOP ==> !Walk(m, root, PageOf(f)).Large?
      ensures IsTable(m, {root}, f) ==> root <= f < root + 8
    {
      BootWalk(m, root, PageOf(f));
      BootIdentity(root, f);
      BootTableFrames(m, root, f);
      if LOW <= f < TOP {
        PageNumbers(f, f);
      }
    }
  }

  /** An entry of the memory map, after its bytes have been read. */
  datatype Region = Region(address: int, length: int, available: bool)

  /** What the regions before entry k have contributed. */
  function Contribution(l: Layout, map_: seq<Region>, k: nat): set<Frame>
    requires k <= |map_|
  {
    if k == 0 then {} else
    var r := map_[k - 1];
    Contribution(l, map_, k - 1)
    + (if r.available then Pushed(l, r.address, r.length, RoundDown(r.address + r.length)) else {})
  }

  /** Every available entry is a range of addresses. */
  predicate Listed(map_: seq<Region>) {
    forall k :: 0 <= k < |map_| && map_[k].available ==> Ranged(map_[k].address, map_[k].length)
  }

  /** Available entries do not overlap. */
  predicate Disjoint(map_: seq<Region>) {
    forall j, k :: 0 <= j < k < |map_| && map_[j].available && map_[k].available ==>
      map_[j].address + map_[j].length <= map_[k].address || map_[k].address + map_[k].length <= map_[j].address
  }

  /** The calls for the entries before entry k. */
  function MapOps(l: Layout, map_: seq<Region>, k: nat): seq<Op>
    requires k <= |map_| && Listed(map_)
  {
    if k == 0 then [] else
    MapOps(l, map_, k - 1)
    + (if map_[k - 1].available then RangeOps(l, map_[k - 1].address, map_[k - 1].length) else [])
  }

  lemma {:induction false} ContributionFrom(l: Layout, map_: seq<Region>, k: nat, f: Frame)
    requires k <= |map_| && Listed(map_)
    ensures f in Contribution(l, map_, k) <==>
            exists j :: 0 <= j < k && map_[j].available && Accepted(l, map_[j].address, map_[j].length, f)
    decreases k
  {
    hide Accepted;
    if k > 0 {
      ContributionFrom(l, map_, k - 1, f);
      if map_[k - 1].available {
        PushedAccepted(l, map_[k - 1].address, map_[k - 1].length, f);
      }
    }
  }

  lemma PushedAccepted(l: Layout, address: int, length: int, f: Frame)
    requires Ranged(address, length)
    ensures f in Pushed(l, address, length, RoundDown(address + length)) <==> Accepted(l, address, length, f)
  {
  }

  /** Entries that do not overlap contribute different pages. */
  lemma NewPages(l: Layout, map_: seq<Region>, k: nat)
    requires k < |map_| && map_[k].available && Listed(map_) && Disjoint(map_) && l.startKernel <= l.endKernel
    ensures forall f: Frame :: Accepted(l, map_[k].address, map_[k].length, f) ==>
              f !in Contribution(l, map_, k) && f in Contribution(l, map_, |map_|)
  {
    hide Accepted;
    forall f: Frame | Accepted(l, map_[k].address, map_[k].length, f)
      ensures f !in Contribution(l, map_, k) && f in Contribution(l, map_, |map_|)
    {
      ContributionFrom(l, map_, k, f);
      ContributionFrom(l, map_, |map_|, f);
      AcceptedApart(l, map_[k].address, map_[k].length, f);
      if f in Contribution(l, map_, k) {
        var j :| 0 <= j < k && map_[j].available && Accepted(l, map_[j].address, map_[j].length, f);
        AcceptedApart(l, map_[j].address, map_[j].length, f);
      }
    }
  }

  /** One more entry. */
  lemma MapStep(l: Layout, map_: seq<Region>, k: nat, s: Spec)
    requires k < |map_| && Listed(map_)
    ensures Outcome(s, MapOps(l, map_, k + 1)) ==
            match Outcome(s, MapOps(l, map_, k))
            case None => None
            case Some(t) =>
              if map_[k].available then Outcome(t, RangeOps(l, map_[k].address, map_[k].length)) else Some(t)
  {
    hide Outcome, RangeOps;
    OutcomeAppend(s, MapOps(l, map_, k),
                  if map_[k].available then RangeOps(l, map_[k].address, map_[k].length) else []);
    forall t: Spec
      ensures Outcome(t, []) == Some(t)
    {
      OutcomeNone(t);
    }
  }

  lemma OutcomeNone(t: Spec)
    ensures Outcome(t, []) == Some(t)
  {
  }

  lemma {:induction false} MapHalts(l: Layout, map_: seq<Region>, k: nat, n: nat, s: Spec)
    requires k <= n <= |map_| && Listed(map_) && Outcome(s, MapOps(l, map_, k)).None?
    ensures Outcome(s, MapOps(l, map_, n)).None?
    decreases n
  {
    hide Outcome;
    if k < n {
      MapHalts(l, map_, k, n - 1, s);
      MapStep(l, map_, n - 1, s);
    }
  }

  /** What is still accounted for as handed out after k entries. */
  lemma {:induction false} MapHanded(l: Layout, map_: seq<Region>, k: nat, s: Spec)
    requires k <= |map_| && Listed(map_) && Outcome(s, MapOps(l, map_, k)).Some?
    ensures forall h: Frame :: h in Outcome(s, MapOps(l, map_, k)).value.handed <==>
              h in s.handed && h !in Contribution(l, map_, k)
    decreases k
  {
    hide Outcome, RangeOps;
    if k > 0 {
      MapStep(l, map_, k - 1, s);
      MapHanded(l, map_, k - 1, s);
      var r := map_[k - 1];
      if r.available {
        RangeHanded(l, r.address, r.length, Outcome(s, MapOps(l, map_, k - 1)).value);
      }
    } else {
      OutcomeNone(s);
    }
  }

  lemma RangeHanded(l: Layout, address: int, length: int, s: Spec)
    requires Ranged(address, length) && Outcome(s, RangeOps(l, address, length)).Some?
    ensures forall h: Frame :: h in Outcome(s, RangeOps(l, address, length)).value.handed <==>
              h in s.handed && h !in Pushed(l, address, length, RoundDown(address + length))
  {
    hide Outcome, Accepted, Pushed, First, Last, Needed, PageOf, IntervalOps;
    IntervalExactly(s, l.root, First(l, address, length), Last(l, address, length));
    var pushed := Pushed(l, address, length, RoundDown(address + length));
    forall h: Frame
      ensures h in pushed <==>
              First(l, address, length) <= h < Last(l, address, length)
    {
      PushedAccepted(l, address, length, h);
      AcceptedInterval(l, address, length, h);
    }
  }

  /** How many pages below 256 MiB the entries before entry k contribute, and how many of them reach beyond. */
  function LowPages(l: Layout, map_: seq<Region>, k: nat): int
    requires k <= |map_| && Listed(map_)
  {
    if k == 0 then 0 else
    var r := map_[k - 1];
    LowPages(l, map_, k - 1)
    + (if r.available then Lows(First(l, r.address, r.length), Last(l, r.address, r.length)) else 0)
  }

  predicate Reaches256(l: Layout, r: Region)
    requires r.available ==> Ranged(r.address, r.length)
  {
    r.available && HasHigh(First(l, r.address, r.length), Last(l, r.address, r.length))
  }

  function HighEntries(l: Layout, map_: seq<Region>, k: nat): nat
    requires k <= |map_| && Listed(map_)
  {
    if k == 0 then 0 else HighEntries(l, map_, k - 1) + if Reaches256(l, map_[k - 1]) then 1 else 0
  }

  /** Wherever an entry reaches beyond 256 MiB, the pages below that have come first are five, and four more for each
      entry before it that did so too.  In particular, a memory map without high memory is supplied. */
  predicate Supplied(l: Layout, map_: seq<Region>)
    requires Listed(map_)
  {
    forall k :: 0 <= k < |map_| && Reaches256(l, map_[k]) ==>
      LowPages(l, map_, k + 1) >= 5 + 4 * HighEntries(l, map_, k)
  }

  lemma {:induction false} SuppliedSuffices(l: Layout, map_: seq<Region>, k: nat, s: Spec)
    requires k <= |map_| && Listed(map_) && Supplied(l, map_)
    ensures Outcome(s, MapOps(l, map_, k)).Some?
    ensures |Outcome(s, MapOps(l, map_, k)).value.free| >= LowPages(l, map_, k) - 4 * HighEntries(l, map_, k)
    decreases k
  {
    hide Outcome, RangeOps, First, Last;
    if k > 0 {
      MapStep(l, map_, k - 1, s);
      SuppliedSuffices(l, map_, k - 1, s);
      var r := map_[k - 1];
      if r.available {
        RangeSupplied(l, r.address, r.length, Outcome(s, MapOps(l, map_, k - 1)).value);
      }
    } else {
      OutcomeNone(s);
    }
  }

  lemma RangeSupplied(l: Layout, address: int, length: int, s: Spec)
    requires Ranged(address, length)
    requires HasHigh(First(l, address, length), Last(l, address, length)) ==>
               |s.free| + Lows(First(l, address, length), Last(l, address, length)) >= 5
    ensures Outcome(s, RangeOps(l, address, length)).Some?
    ensures |Outcome(s, RangeOps(l, address, length)).value.free| >=
            |s.free| + Lows(First(l, address, length), Last(l, address, length))
            - if HasHigh(First(l, address, length), Last(l, address, length)) then 4 else 0
  {
    hide Outcome, First, Last, IntervalOps;
    FiveSuffice(s, l.root, First(l, address, length), Last(l, address, length));
  }

  /** The state in which the loop of the kernel's constructor starts: the boot tables are in force, nothing is free,
      and all that the memory map offers still belongs to whoever wrote the map. */
  ghost function Offered(l: Layout, map_: seq<Region>): Spec
    requires l.root + 8 < LOW
  {
    BootSpec(l.root, Contribution(l, map_, |map_|))
  }

  /** What the boot tables mean, with these frames handed out. */
  ghost function BootSpec(root: Frame, handed: set<Frame>): Spec
    requires root + 8 < LOW
  {
    Spec((r: Frame, q: Page) => if r == root then BootMapping(root, q) else Unmapped,
         (k: Table) => if k.root == root then BootTable(root, k) else None,
         [], {root, root + 1, root + 2, root + 3, root + 4, root + 5}, handed)
  }

  lemma BootRefines(m: Memory, root: Frame, tlb: Tlb, handed: set<Frame>)
    requires root + 8 < LOW && Booted(m, root) && Sound(View(m, tlb, root, {root}), [])
    requires forall f :: f in handed ==> !(root <= f < root + 8)
    ensures Refines(View(m, tlb, root, {root}), [], BootSpec(root, handed)) && Accounted(BootSpec(root, handed))
  {
    hide Walk, Locate, Booted, PageOf, Sound, IsTable;
    forall q
      ensures Walk(m, root, q) == BootMapping(root, q)
    {
      BootWalk(m, root, q);
    }
    forall k: Table | k.root == root
      ensures Locate(m, k) == BootTable(root, k)
    {
      BootTables(m, root, k);
    }
    forall g: Frame
      ensures IsTable(m, {root}, g) <==> root <= g < root + 6
    {
      BootTableFrames(m, root, g);
    }
  }

  lemma OfferedApart(l: Layout, map_: seq<Region>)
    requires l.root + 8 < LOW && Listed(map_) && l.startKernel <= l.endKernel
    ensures forall f :: f in Contribution(l, map_, |map_|) ==> !(l.root <= f < l.root + 8)
    ensures Accounted(Offered(l, map_))
  {
    hide Accepted;
    forall f | f in Contribution(l, map_, |map_|)
      ensures !(l.root <= f < l.root + 8)
    {
      ContributionFrom(l, map_, |map_|, f);
      var j :| 0 <= j < |map_| && map_[j].available && Accepted(l, map_[j].address, map_[j].length, f);
      AcceptedApart(l, map_[j].address, map_[j].length, f);
    }
  }

  lemma OfferedRefines(l: Layout, map_: seq<Region>, m: Memory, tlb: Tlb)
    requires l.root + 8 < LOW && Booted(m, l.root) && Sound(View(m, tlb, l.root, {l.root}), [])
    requires Listed(map_) && l.startKernel <= l.endKernel
    ensures var s := Offered(l, map_);
            && Refines(View(m, tlb, l.root, {l.root}), [], s) && Accounted(s)
            && s.free == [] && s.handed == Contribution(l, map_, |map_|)
  {
    hide Refines, Accounted, Booted;
    OfferedApart(l, map_);
    BootRefines(m, l.root, tlb, Contribution(l, map_, |map_|));
  }

  lemma NoEntries(l: Layout, map_: seq<Region>, s: Spec)
    requires Listed(map_)
    ensures Outcome(s, MapOps(l, map_, 0)) == Some(s) && Contribution(l, map_, 0) == {}
  {
  }

  lemma ContributionStep(l: Layout, map_: seq<Region>, k: nat)
    requires k < |map_|
    ensures var r := map_[k];
            Contribution(l, map_, k + 1) ==
            if r.available then
              Contribution(l, map_, k) + Pushed(l, r.address, r.length, RoundDown(r.address + r.length))
            else Contribution(l, map_, k)
  {
  }

  lemma EntryCollectable(l: Layout, map_: seq<Region>, k: nat, s: Spec)
    requires k < |map_| && map_[k].available && Listed(map_) && Disjoint(map_) && l.startKernel <= l.endKernel
    requires Contribution(l, map_, |map_|) <= s.handed && Outcome(s, MapOps(l, map_, k)).Some?
    ensures Collectable(l, Contribution(l, map_, k), Outcome(s, MapOps(l, map_, k)).value,
                        map_[k].address, map_[k].length)
  {
    hide Accepted, Outcome, MapOps, Contribution;
    NewPages(l, map_, k);
    MapHanded(l, map_, k, s);
  }

  /** In the end nothing that was offered is left over. */
  lemma AllCollected(l: Layout, map_: seq<Region>, s: Spec, v: View, free: seq<Frame>)
    requires Listed(map_) && Disjoint(map_) && l.startKernel <= l.endKernel
    requires Accounted(s) && Contribution(l, map_, |map_|) <= s.handed && s.free == []
    requires Realised(v, free, Outcome(s, MapOps(l, map_, |map_|)))
    requires Collecting(v, free, Contribution(l, map_, |map_|))
    ensures forall f :: f in Contribution(l, map_, |map_|) ==> (f in free <==> !IsTable(v.mem, v.spaces, f))
    ensures forall f :: f in free ==> f in Contribution(l, map_, |map_|)
  {
    hide Outcome, MapOps, Contribution, Walk, Locate, PageOf, IsTable;
    MapHanded(l, map_, |map_|, s);
    MapHolds(l, map_, |map_|, s);
  }

  lemma {:induction false} MapHolds(l: Layout, map_: seq<Region>, k: nat, s: Spec)
    requires k <= |map_| && Listed(map_) && Disjoint(map_) && l.startKernel <= l.endKernel
    requires Accounted(s) && Contribution(l, map_, |map_|) <= s.handed && Outcome(s, MapOps(l, map_, k)).Some?
    ensures Accounted(Outcome(s, MapOps(l, map_, k)).value)
    ensures Holdings(Outcome(s, MapOps(l, map_, k)).value) == Holdings(s)
    decreases k
  {
    hide Outcome, RangeOps, Holdings, Contribution, Accepted, First, Last, Accounted;
    if k > 0 {
      MapStep(l, map_, k - 1, s);
      MapHolds(l, map_, k - 1, s);
      var r := map_[k - 1];
      if r.available {
        EntryCollectable(l, map_, k - 1, s);
        RangeHolds(l, r.address, r.length, Outcome(s, MapOps(l, map_, k - 1)).value);
      }
    } else {
      OutcomeNone(s);
    }
  }

  lemma RangeHolds(l: Layout, address: int, length: int, s: Spec)
    requires Ranged(address, length) && Outcome(s, RangeOps(l, address, length)).Some?
    requires Accounted(s) && forall f: Frame :: Accepted(l, address, length, f) ==> f in s.handed
    ensures Accounted(Outcome(s, RangeOps(l, address, length)).value)
    ensures Holdings(Outcome(s, RangeOps(l, address, length)).value) == Holdings(s)
  {
    hide Outcome, Accepted, First, Last, Holdings, IntervalOps, Accounted;
    forall h: Frame | First(l, address, length) <= h < Last(l, address, length)
      ensures h in s.handed
    {
      AcceptedInterval(l, address, length, h);
    }
    IntervalHolds(s, l.root, First(l, address, length), Last(l, address, length));
  }

  /** A memory map on which the kernel halts: one available page, the first beyond 256 MiB, needs a page table before
      any frame has been pushed. */
  lemma HighMemoryAlone(l: Layout)
    requires l.root + 8 < LOW && l.startKernel <= l.endKernel < LOW * 0x1000
    ensures var map_ := [Region(LOW * 0x1000, 0x1000, true)];
            && Listed(map_) && Disjoint(map_) && !Supplied(l, map_)
            && Accepted(l, LOW * 0x1000, 0x1000, LOW)
            && Outcome(Offered(l, map_), MapOps(l, map_, 1)).None?
  {
    hide Outcome, PageOf, IntervalOps;
    var map_ := [Region(LOW * 0x1000, 0x1000, true)];
    var s := Offered(l, map_);
    assert First(l, LOW * 0x1000, 0x1000) == LOW && Last(l, LOW * 0x1000, 0x1000) == LOW + 1;
    MapStep(l, map_, 0, s);
    OutcomeNone(s);
    IntervalExactly(s, l.root, LOW, LOW + 1);
    FirstHighPage();
    if Supplied(l, map_) {
      SuppliedSuffices(l, map_, 1, s);
    }
  }

  lemma FirstHighPage()
    ensures PageOf(LOW) == Page(0, 0, 128, 0)
  {
  }
}
