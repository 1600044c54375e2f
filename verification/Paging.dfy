/** PagingManager of paging.cpp: Map and UnMap edit the tables of any address space through the scratch page
    of the active one. */
module Paging {
  import opened Options
  import opened Words
  import opened Translation
  import opened Hardware
  import opened Frames
  import opened AddressSpaces
  import opened TableEdits
  import opened AccessRights

  class PagingManager {
    const machine: Machine
    const memory: MemoryManager
    const pageMapLevel4: Frame
    var pml4i: Index
    var pdpi: Index
    var pdi: Index
    var pti: Index
    var dynamicPage: Page

    /** Lays the path to the scratch page.  On cleared frames that opens an address space, and all is well with it
        exactly if none of the four frames is on the free stack. */
    constructor (machine: Machine, memory: MemoryManager, address: Frame)
      requires memory.machine == machine && memory.Valid() && Sound(machine.Now(), memory.stack.free)
      requires address < MAX_ROOT
      requires forall g: Frame :: address <= g < address + 4 ==> Owned(machine.Now(), g)
      modifies machine
      ensures pageMapLevel4 == address && this.machine == machine && this.memory == memory && memory.Valid()
      ensures machine.cr3 == old(machine.cr3) && machine.spaces == old(machine.spaces) + {address}
      ensures Laid(old(machine.mem), machine.mem, address)
      ensures Sound(machine.Now().(spaces := old(machine.spaces)), memory.stack.free)
      ensures forall r: Frame, p | r in old(machine.spaces) :: Walk(machine.mem, r, p) == Walk(old(machine.mem), r, p)
      ensures forall k: Table | k.root in old(machine.spaces) :: Locate(machine.mem, k) == Locate(old(machine.mem), k)
      ensures Cleared(old(machine.mem), address) ==>
                && Bare(machine.mem, address)
                && (Valid() <==> forall g: Frame :: address <= g < address + 4 ==> g !in memory.stack.free)
                && (forall p :: Walk(machine.mem, address, p) == if p == WINDOW then Small(address) else Unmapped)
                && (forall g: Frame :: IsTable(machine.mem, machine.spaces, g) <==>
                      IsTable(old(machine.mem), old(machine.spaces), g) || address <= g < address + 4)
    {
      hide Sound, Walk, Locate, PageOf, Chain, Distinct, Identity, IsTable, Bare, Laid, Cleared;
      this.machine, this.memory, pageMapLevel4 := machine, memory, address;
      pml4i, pdpi, pdi, pti := 0, 0, 0, 0;
      dynamicPage := PageOf(address + 3);
      new;
      LayPath(machine, memory, address);
      ghost var b := machine.Now();
      forall g: Frame | address <= g < address + 4
        ensures !IsTable(b.mem, b.spaces, g)
      {
        assert Owned(b, g);
      }
      machine.spaces := machine.spaces + {address};
      BareLaid(old(machine.mem), machine.mem, address);
      if Cleared(old(machine.mem), address) {
        SpaceAdded(b, machine.Now(), memory.stack.free, address);
      }
    }

    /** On an address space that exists already, the constructor puts down what is there. */
    constructor Attach(machine: Machine, memory: MemoryManager, root: Frame)
      requires memory.machine == machine && memory.Valid() && Sound(machine.Now(), memory.stack.free)
      requires root in machine.spaces && root < MAX_ROOT && PathLaid(machine.mem, root)
      requires forall g: Frame :: root <= g < root + 4 ==> Identity(machine.Now(), g)
      modifies machine`mem, machine`tlb
      ensures Valid() && this.machine == machine && this.memory == memory && pageMapLevel4 == root
      ensures machine.mem == old(machine.mem) && Speculated(old(machine.tlb), machine.tlb, machine.mem, machine.cr3)
    {
      hide Sound, Walk, Locate, PageOf, Chain, Distinct, Identity, EntryOf, FrameOf, Plus, Aligned;
      this.machine, this.memory, pageMapLevel4 := machine, memory, root;
      pml4i, pdpi, pdi, pti := 0, 0, 0, 0;
      dynamicPage := PageOf(root + 3);
      new;
      var base := AddressOf(root);
      PathConstants(base, root);
      LayAgain(machine, memory, root, EntryOf(Plus(base, 0x100B)));
      LayAgain(machine, memory, root + 1, EntryOf(Plus(base, 0x200B)));
      LayAgain(machine, memory, root + 2, EntryOf(Plus(base, 0x300B)));
      LayAgain(machine, memory, root + 3, EntryOf(Plus(base, 0x18F)));
    }

    ghost predicate Valid()
      reads this, machine, memory, memory.stack
    {
      && memory.machine == machine && memory.Valid()
      && Sound(machine.Now(), memory.stack.free)
      && pageMapLevel4 in machine.spaces
    }

    /** ... except that only the free frames in `kept` need to be reached at their own address. */
    ghost predicate ValidBut(kept: seq<Frame>)
      reads this, machine, memory, memory.stack
    {
      && memory.machine == machine && memory.Valid()
      && Sound(machine.Now(), kept) && Loose(machine.Now(), memory.stack.free)
      && pageMapLevel4 in machine.spaces
    }

    /** The scratch page shows frame x. */
    ghost predicate Selected(x: Frame)
      reads this, machine
    {
      && Settled(machine.mem, machine.tlb, machine.cr3, WINDOW, x)
      && machine.cr3 < MAX_ROOT && dynamicPage == PageOf(machine.cr3 + 3)
    }

    method UpdateIndexes(address: Frame)
      requires machine.cr3 < MAX_ROOT
      modifies this
      ensures Page(pml4i, pdpi, pdi, pti) == PageOf(address)
      ensures dynamicPage == PageOf(machine.cr3 + 3)
    {
      dynamicPage := PageOf(machine.cr3 + 3);
      pml4i := address / 0x800_0000 % 512;
      pdpi := address / 0x4_0000 % 512;
      pdi := address / 512 % 512;
      pti := address % 512;
    }

    /** The scratch entry is set to the address, and the scratch page invalidated.  The setter stores twice; in
        between the scratch page leads to frame 0, and no other page notices. */
    method Select(address: bv64) returns (ghost half: Tlb)
      requires machine.cr3 < MAX_ROOT && dynamicPage == PageOf(machine.cr3 + 3)
      requires WindowPath(machine.mem, machine.cr3) && Identity(machine.Now(), machine.cr3 + 3)
      requires Walk(Pointing(machine.mem, machine.cr3, 0), machine.cr3, dynamicPage) ==
               Walk(machine.mem, machine.cr3, dynamicPage)
      modifies machine`mem, machine`tlb
      ensures machine.mem == Pointing(old(machine.mem), machine.cr3, FrameOf(address))
      ensures Speculated(old(machine.tlb) - {WINDOW}, half, Pointing(old(machine.mem), machine.cr3, 0), machine.cr3)
      ensures Speculated(half - {WINDOW}, machine.tlb, machine.mem, machine.cr3)
      ensures Selected(FrameOf(address))
    {
      hide Walk, Locate, PageOf, FrameOf, EntryOf;
      ghost var m := machine.mem;
      var e := machine.Load(dynamicPage, 511, machine.cr3 + 3);
      var entry := new PagingStructure.Over(e);
      var cleared := entry.SetAddress(address);
      WindowMoves(m, machine.cr3, e.(frame := FrameOf(address)));
      machine.Store(dynamicPage, 511, EntryOf(cleared), machine.cr3 + 3);
      assert machine.mem == Pointing(m, machine.cr3, 0);
      half := machine.tlb - {WINDOW};
      machine.Store(dynamicPage, 511, entry.Value(), machine.cr3 + 3);
      assert machine.mem == Pointing(m, machine.cr3, FrameOf(address));
      machine.Invlpg(WINDOW);
    }

    /** ... between two operations on the tables, when the tables are in order. */
    method SelectTable(address: bv64)
      requires machine.cr3 < MAX_ROOT && dynamicPage == PageOf(machine.cr3 + 3)
      requires Forest(machine.Now()) && Identity(machine.Now(), machine.cr3 + 3)
      modifies machine`mem, machine`tlb
      ensures machine.mem == Pointing(old(machine.mem), machine.cr3, FrameOf(address))
      ensures Speculated(old(machine.tlb) - {WINDOW}, machine.tlb, machine.mem, machine.cr3)
      ensures Selected(FrameOf(address))
    {
      hide Walk, Locate, PageOf, FrameOf, Separate, Speculated;
      ghost var a := machine.Now();
      ForestWindow(a);
      Unread(a, 0, dynamicPage);
      ghost var half := Select(address);
      TwoStores(a, half, machine.Now(), FrameOf(address));
    }

    /** One store through the scratch page while it shows the table that is being edited. */
    method WriteEntry(i: Index, w: Word, ghost a: View, ghost n: Table, ghost x: Frame)
      requires Midway(a, machine.Now(), n, i, x, {}) && Selected(x)
      modifies machine`mem, machine`tlb
      ensures machine.mem == old(machine.mem)[Slot(x, i) := w]
      ensures Midway(a, machine.Now(), n, i, x, {}) && Selected(x)
    {
      hide Walk, Locate, Through, Detour, PageOf;
      machine.Store(WINDOW, i, w, x);
      MidwayScratch(a, old(machine.Now()), n, i, x);
      MidwayStore(a, old(machine.Now()), machine.Now(), n, i, x, {}, Slot(x, i), w);
      MidwayScratch(a, machine.Now(), n, i, x);
    }

    /** IsPresent, IsBottom and GetAddress of entry i of the table on show. */
    method ReadEntry(i: Index, ghost x: Frame) returns (present: bool, bottom: bool, address: bv64)
      requires Settled(machine.mem, machine.tlb, machine.cr3, WINDOW, x)
      ensures present == machine.mem[Slot(x, i)].present && bottom == machine.mem[Slot(x, i)].large
      ensures FrameOf(address) == machine.mem[Slot(x, i)].frame
    {
      hide Walk, EntryOf, FrameOf;
      var e := machine.Load(WINDOW, i, x);
      var entry := new PagingStructure.Over(e);
      present := entry.IsPresent();
      bottom := entry.IsBottom();
      address := entry.GetAddress();
    }

    /** Clear() of entry i of the table on show. */
    method ClearEntry(i: Index, ghost a: View, ghost n: Table, ghost x: Frame)
      requires Midway(a, machine.Now(), n, i, x, {}) && Selected(x)
      modifies machine`mem, machine`tlb
      ensures machine.mem == old(machine.mem)[Slot(x, i) := ZERO]
      ensures Midway(a, machine.Now(), n, i, x, {}) && Selected(x)
    {
      hide Midway, Walk, PageOf, EntryOf, Locate;
      var e := machine.Load(WINDOW, i, x);
      var entry := new PagingStructure.Over(e);
      entry.Clear();
      WriteEntry(i, entry.Value(), a, n, x);
    }

    /** SetAccess(access) of entry i of the table on show; like all setters, it stores twice. */
    method SetEntryAccess(i: Index, access: bv2, ghost a: View, ghost n: Table, ghost x: Frame)
      requires Midway(a, machine.Now(), n, i, x, {}) && Selected(x)
      modifies machine`mem, machine`tlb
      ensures machine.mem == old(machine.mem)[Slot(x, i) := old(machine.mem)[Slot(x, i)].(access := access)]
      ensures Midway(a, machine.Now(), n, i, x, {}) && Selected(x)
    {
      hide Midway, Walk, PageOf, EntryOf, Locate;
      var e := machine.Load(WINDOW, i, x);
      var entry := new PagingStructure.Over(e);
      Widened(access);
      var half := entry.SetAccess(access as bv64);
      WriteEntry(i, EntryOf(half), a, n, x);
      WriteEntry(i, entry.Value(), a, n, x);
    }

    /** SetAddress(address) of entry i of the table on show. */
    method SetEntryAddress(i: Index, address: bv64, ghost a: View, ghost n: Table, ghost x: Frame)
      requires Midway(a, machine.Now(), n, i, x, {}) && Selected(x)
      modifies machine`mem, machine`tlb
      ensures machine.mem == old(machine.mem)[Slot(x, i) := old(machine.mem)[Slot(x, i)].(frame := FrameOf(address))]
      ensures Midway(a, machine.Now(), n, i, x, {}) && Selected(x)
    {
      hide Midway, Walk, PageOf, EntryOf, FrameOf, Locate;
      var e := machine.Load(WINDOW, i, x);
      var entry := new PagingStructure.Over(e);
      var half := entry.SetAddress(address);
      WriteEntry(i, EntryOf(half), a, n, x);
      WriteEntry(i, entry.Value(), a, n, x);
    }

    /** SetCachability(cachability) of entry i of the table on show. */
    method SetEntryCachability(i: Index, cachability: bv2, ghost a: View, ghost n: Table, ghost x: Frame)
      requires Midway(a, machine.Now(), n, i, x, {}) && Selected(x)
      modifies machine`mem, machine`tlb
      ensures machine.mem == old(machine.mem)[Slot(x, i) := old(machine.mem)[Slot(x, i)].(cache := cachability)]
      ensures Midway(a, machine.Now(), n, i, x, {}) && Selected(x)
    {
      hide Midway, Walk, PageOf, EntryOf, Locate;
      var e := machine.Load(WINDOW, i, x);
      var entry := new PagingStructure.Over(e);
      Widened(cachability);
      var half := entry.SetCachability(cachability as bv64);
      WriteEntry(i, EntryOf(half), a, n, x);
      WriteEntry(i, entry.Value(), a, n, x);
    }

    /** SetPresence(present) of entry i of the table on show. */
    method SetEntryPresence(i: Index, present: bool, ghost a: View, ghost n: Table, ghost x: Frame)
      requires Midway(a, machine.Now(), n, i, x, {}) && Selected(x)
      modifies machine`mem, machine`tlb
      ensures machine.mem == old(machine.mem)[Slot(x, i) := old(machine.mem)[Slot(x, i)].(present := present)]
      ensures Midway(a, machine.Now(), n, i, x, {}) && Selected(x)
    {
      hide Midway, Walk, PageOf, EntryOf, Locate;
      var e := machine.Load(WINDOW, i, x);
      var entry := new PagingStructure.Over(e);
      var half := entry.SetPresence(present);
      WriteEntry(i, EntryOf(half), a, n, x);
      WriteEntry(i, entry.Value(), a, n, x);
    }

    /** memset of the scratch page: 512 words, one after the other. */
    method ZeroPage(c: Frame, ghost a: View, ghost n: Table, ghost i: Index, ghost x: Frame)
      requires Midway(a, machine.Now(), n, i, x, {c}) && Selected(c)
      modifies machine`mem, machine`tlb
      ensures forall k: Index :: machine.mem[Slot(c, k)] == ZERO
      ensures forall s: Slot :: s.frame != c ==> machine.mem[s] == old(machine.mem)[s]
      ensures Midway(a, machine.Now(), n, i, x, {c}) && Selected(c)
    {
      hide Walk, Locate, Through, Detour, PageOf;
      var k := 0;
      while k < 512
        invariant 0 <= k <= 512
        invariant Midway(a, machine.Now(), n, i, x, {c}) && Selected(c)
        invariant forall j: Index :: j < k ==> machine.mem[Slot(c, j)] == ZERO
        invariant forall s: Slot :: s.frame != c ==> machine.mem[s] == old(machine.mem)[s]
      {
        ghost var b := machine.Now();
        machine.Store(WINDOW, k, ZERO, c);
        MidwayScratchWord(a, b, n, i, x, c);
        MidwayStore(a, b, machine.Now(), n, i, x, {c}, Slot(c, k), ZERO);
        MidwayScratchWord(a, machine.Now(), n, i, x, c);
        k := k + 1;
      }
    }

    /** The body of the three branches of Map that create a table: the entry is rebuilt around a frame from
        the free stack, the scratch page is moved to that frame, and the frame is zeroed. */
    method NewTable(i: Index, ghost n: Table, ghost x: Frame, ghost kept: seq<Frame>) returns (ok: bool)
      requires ValidBut(kept) && Selected(x) && Leads(memory.stack.free, kept, 1)
      requires n.root == pageMapLevel4 && !n.Pt? && Locate(machine.mem, n) == Some(x)
      requires Locate(machine.mem, Child(n, i)) == None
      requires !Through(n, i, machine.cr3, WINDOW)
      requires memory.stack.free != [] ==>
                 forall f :: f in kept || f == machine.cr3 + 3 ==> !Through(n, i, machine.cr3, PageOf(f))
      modifies machine`mem, machine`tlb, memory.stack
      ensures ok <==> old(memory.stack.free) != []
      ensures ok ==> kept != [] && ValidBut(kept[1..]) && Selected(old(memory.stack.free)[0])
      ensures ok ==> memory.stack.free == old(memory.stack.free)[1..]
      ensures ok ==> Grown(old(machine.Now()), machine.Now(), n, i, old(memory.stack.free)[0])
      ensures ok ==> machine.mem == StepMemory(old(machine.mem), machine.cr3, x, i, old(memory.stack.free)[0], true)
    {
      hide Sound, Loose, Midway, Walk, Locate, Through, Detour, PageOf, Chain, Distinct, Grown, StepMemory;
      ghost var a, free := machine.Now(), memory.stack.free;
      ghost var chain := memory.stack;
      OpenValid(n, i, x, kept);
      ClearEntry(i, a, n, x);
      SetEntryAccess(i, USER_WRITABLE, a, n, x);
      assert machine.mem == a.mem[Slot(x, i) := ZERO.(access := USER_WRITABLE)];
      SoundFrames(a, kept);
      ChainBeside(a, machine.Now(), n, x, free, chain.stack, chain.base);
      if free != [] {
        MidwayIdentity(a, machine.Now(), n, i, x, {}, free[0]);
      }
      ghost var m := machine.mem;
      var r := memory.PAlloc(1, false);
      if !r.Granted? {
        return false;
      }
      FirstFree(a, free);
      FillTable(i, r.frame, a, n, x);
      StepOver(a.mem, a.cr3, x, i, ZERO.(access := USER_WRITABLE), r.frame);
      Finished(a, machine.Now(), n, i, x, free, kept, m, chain.stack, chain.base);
      ok := true;
    }

    /** SetAddress, SetCachability and SetPresence of the entry. */
    method FillEntry(i: Index, c: Frame, ghost a: View, ghost n: Table, ghost x: Frame)
      requires Midway(a, machine.Now(), n, i, x, {}) && Selected(x)
      requires machine.mem[Slot(x, i)] == ZERO.(access := USER_WRITABLE)
      modifies machine`mem, machine`tlb
      ensures machine.mem == old(machine.mem)[Slot(x, i) := TableEntry(c)]
      ensures Midway(a, machine.Now(), n, i, x, {}) && Selected(x)
    {
      hide Midway, Walk, Settled, PageOf, EntryOf, FrameOf, Aligned;
      SetEntryAddress(i, AddressOf(c), a, n, x);
      SetEntryCachability(i, WRITE_THROUGH, a, n, x);
      SetEntryPresence(i, true, a, n, x);
    }

    /** The entry is filled, and then the frame zeroed that it leads to. */
    method FillTable(i: Index, c: Frame, ghost a: View, ghost n: Table, ghost x: Frame)
      requires Midway(a, machine.Now(), n, i, x, {}) && Selected(x) && !IsTable(a.mem, a.spaces, c)
      requires machine.mem[Slot(x, i)] == ZERO.(access := USER_WRITABLE)
      requires a.cr3 < MAX_ROOT && Identity(a, a.cr3 + 3) && !Through(n, i, a.cr3, PageOf(a.cr3 + 3))
      modifies machine`mem, machine`tlb
      ensures Midway(a, machine.Now(), n, i, x, {c}) && Selected(c)
      ensures machine.mem[Slot(x, i)] == TableEntry(c)
      ensures forall k: Index :: machine.mem[Slot(c, k)] == ZERO
      ensures machine.mem == StepMemory(old(machine.mem), machine.cr3, x, i, c, true)
    {
      hide Sound, Midway, Walk, Locate, Through, Detour, PageOf, EntryOf, FrameOf, Aligned, StepMemory, Settled;
      FillEntry(i, c, a, n, x);
      ghost var b := machine.Now();
      MidwayFacts(a, b, n, i, x, c);
      MidwayWiden(a, b, n, i, x, c);
      MidwayWindow(a, b, n, i, x, {});
      MidwayIdentity(a, b, n, i, x, {}, a.cr3 + 3);
      MidwayEntryPage(a, b, n, i, x);
      var _, _, address := ReadEntry(i, x);
      ghost var half := Select(address);
      MidwaySelected(a, b, half, machine.Now(), n, i, x, {c}, c);
      ghost var d := machine.mem;
      ZeroPage(c, a, n, i, x);
      Stepped(old(machine.mem), d, machine.mem, machine.cr3, x, i, c);
    }

    /** One of the three steps of Map from a table to the next: a missing table (or, in a page directory, a
        2 MiB leaf) is replaced by a new one, and the scratch page moves on. */
    method Enter(i: Index, bottoms: bool, ghost n: Table, ghost x: Frame, ghost kept: seq<Frame>)
      returns (ok: bool, ghost y: Frame)
      requires ValidBut(kept) && Selected(x)
      requires n.root == pageMapLevel4 && !n.Pt? && bottoms == n.Dir? && Locate(machine.mem, n) == Some(x)
      requires Leads(memory.stack.free, kept, Wanted(machine.mem, Child(n, i)))
      requires n.root == machine.cr3 && n.Dir? && machine.mem[Slot(x, i)].present && machine.mem[Slot(x, i)].large
               && memory.stack.free != [] ==>
                 forall f :: f in kept || f == machine.cr3 + 3 ==> !Through(n, i, machine.cr3, PageOf(f))
      modifies machine`mem, machine`tlb, memory.stack
      ensures ok <==> Wanted(old(machine.mem), Child(n, i)) <= |old(memory.stack.free)|
      ensures ok ==> Wanted(old(machine.mem), Child(n, i)) <= |kept|
      ensures ok ==> ValidBut(Rest(kept, Wanted(old(machine.mem), Child(n, i)))) && Selected(y)
      ensures ok ==> memory.stack.free == Rest(old(memory.stack.free), Wanted(old(machine.mem), Child(n, i)))
      ensures ok ==> Entered(old(machine.Now()), machine.Now(), n, i, x, y, old(memory.stack.free))
      ensures ok ==>
                var taken := Wanted(old(machine.mem), Child(n, i)) == 1;
                machine.mem == StepMemory(old(machine.mem), machine.cr3, x, i, y, taken)
      ensures ok && Wanted(old(machine.mem), Child(n, i)) == 1 ==> y == old(memory.stack.free)[0]
    {
      hide Sound, Loose, Walk, Locate, Through, Detour, PageOf, Chain, Distinct, Grown, Entered, EntryOf, FrameOf;
      hide Aligned, Settled;
      ghost var a, free := machine.Now(), memory.stack.free;
      y := x;
      ghost var e := machine.mem[Slot(x, i)];
      var present, bottom, address := ReadEntry(i, x);
      LocateStep(machine.mem, Child(n, i));
      ChildParent(n, i);
      SoundFrames(a, kept);
      ForestWindow(a);
      if !present || (bottoms && bottom) {
        AbsentThrough(a, free, kept, n, i, x);
        ok := NewTable(i, n, x, kept);
        if ok {
          y := free[0];
          GrownEntered(a, machine.Now(), n, i, x, free);
        }
      } else {
        SelectTable(address);
        y := e.frame;
        ok := true;
        PresentEntered(a, machine.Now(), n, i, x, free, kept, y);
        SelectChain(a, machine.Now(), free, memory.stack.stack, memory.stack.base);
      }
    }

    /** The three steps from the root to the last-level table of page v. */
    method EnterAll(ghost v: Page, ghost kept: seq<Frame>) returns (ok: bool, ghost y: Frame)
      requires ValidBut(kept) && Selected(pageMapLevel4) && v == Page(pml4i, pdpi, pdi, pti)
      requires Leads(memory.stack.free, kept, Missing(machine.mem, pageMapLevel4, v))
      requires pageMapLevel4 == machine.cr3 ==> v != WINDOW
      requires pageMapLevel4 == machine.cr3 && Walk(machine.mem, machine.cr3, v).Large? && memory.stack.free != [] ==>
                 forall f :: f in kept || f == machine.cr3 + 3 ==> !SameRegion(PageOf(f), v)
      modifies machine`mem, machine`tlb, memory.stack
      ensures ok <==> Missing(old(machine.mem), pageMapLevel4, v) <= |old(memory.stack.free)|
      ensures ok ==> Missing(old(machine.mem), pageMapLevel4, v) <= |kept|
      ensures ok ==> ValidBut(Rest(kept, Missing(old(machine.mem), pageMapLevel4, v))) && Selected(y)
      ensures ok ==> memory.stack.free == Rest(old(memory.stack.free), Missing(old(machine.mem), pageMapLevel4, v))
      ensures ok ==> Reached(old(machine.Now()), machine.Now(), pageMapLevel4, v, y, old(memory.stack.free))
      ensures ok ==> Descended(old(machine.mem), machine.mem, machine.cr3, pageMapLevel4, v, y, old(memory.stack.free))
    {
      hide Sound, Loose, Walk, Locate, PageOf, Chain, Distinct, Wanted, Entered, Reached, Leads, Settled, SameRegion;
      hide Through, Rest, StepMemory, Descended;
      ghost var r, a, free := pageMapLevel4, machine.Now(), memory.stack.free;
      ghost var x;
      y := pageMapLevel4;
      RootLocated(machine.mem, r);
      LeadsFirst(free, kept, Missing(a.mem, r, v), Wanted(a.mem, Pdp(r, v.i4)));
      ok, x := Enter(pml4i, false, Pml4(r), r, kept);
      if !ok {
        return;
      }
      ghost var b, x1, k1 := machine.Now(), x, Wanted(a.mem, Pdp(r, v.i4));
      SecondStep(a, b, r, v, x1, free);
      LeadsPart(free, kept, Missing(a.mem, r, v), k1, Wanted(b.mem, Dir(r, v.i4, v.i3)));
      ok, x := Enter(pdpi, false, Pdp(r, v.i4), x, Rest(kept, k1));
      if !ok {
        return;
      }
      ghost var c, x2, k2 := machine.Now(), x, k1 + Wanted(b.mem, Dir(r, v.i4, v.i3));
      ThirdStep(a, b, c, r, v, x1, x2, free, kept, Rest(kept, k2));
      DropTwice(kept, k1, k2);
      DropTwice(free, k1, k2);
      LeadsPart(free, kept, Missing(a.mem, r, v), k2, Wanted(c.mem, Pt(r, v.i4, v.i3, v.i2)));
      ok, y := Enter(pdi, true, Dir(r, v.i4, v.i3), x, Rest(kept, k2));
      if ok {
        ghost var k3 := k2 + Wanted(c.mem, Pt(r, v.i4, v.i3, v.i2));
        DropTwice(kept, k2, k3);
        DropTwice(free, k2, k3);
        AllSteps(a, b, c, machine.Now(), r, v, x1, x2, y, free);
        AllDescended(a, b, c, machine.Now(), r, v, x1, x2, y, free);
      }
    }

    /** The last-level entry is rebuilt around the frame that the page is to show. */
    method WritePage(physicalAddress: Frame, ghost a: View, ghost n: Table, ghost x: Frame)
      requires Midway(a, machine.Now(), n, pti, x, {}) && Selected(x)
      modifies machine`mem, machine`tlb
      ensures machine.mem == old(machine.mem)[Slot(x, pti) := TableEntry(physicalAddress)]
      ensures Midway(a, machine.Now(), n, pti, x, {}) && Selected(x)
    {
      hide Midway, Walk, Settled, PageOf, EntryOf, FrameOf, Aligned;
      ClearEntry(pti, a, n, x);
      SetEntryAccess(pti, USER_WRITABLE, a, n, x);
      FillEntry(pti, physicalAddress, a, n, x);
    }

    /** False when the processor is halted for want of a frame. */
    method Map(virtualAddress: Frame, physicalAddress: Frame) returns (ok: bool)
      requires Valid()
      requires pageMapLevel4 == machine.cr3 ==>
                 Sparing(machine.Now(), memory.stack.free, PageOf(virtualAddress), physicalAddress)
      modifies this, machine`mem, machine`tlb, memory.stack
      ensures ok <==> Missing(old(machine.mem), pageMapLevel4, PageOf(virtualAddress)) <= |old(memory.stack.free)|
      ensures ok ==> Valid()
      ensures var k := Missing(old(machine.mem), pageMapLevel4, PageOf(virtualAddress));
              ok ==> memory.stack.free == old(memory.stack.free)[k..]
      ensures ok ==> Mapped(old(machine.Now()), machine.Now(), pageMapLevel4, PageOf(virtualAddress), physicalAddress,
                            old(memory.stack.free))
      ensures ok ==> Stored(old(machine.mem), machine.mem, machine.cr3, pageMapLevel4, PageOf(virtualAddress),
                            physicalAddress, old(memory.stack.free))
      ensures ok ==> PageGranted(old(machine.mem), machine.mem, pageMapLevel4, PageOf(virtualAddress), physicalAddress)
      ensures ok && pageMapLevel4 == machine.cr3 && PageOf(virtualAddress) in machine.tlb ==>
                machine.tlb[PageOf(virtualAddress)] == physicalAddress
    {
      hide PageGranted, Forest;
      hide Sound, Loose, Walk, Locate, PageOf, Chain, Distinct, Missing, Reached, Sparing, Mapped, Midway, Moved;
      hide Speculated, EntryOf, FrameOf, Aligned, Spared, Leads, Rest, SameRegion, Stored, Descended;
      ghost var r, a, free, v := pageMapLevel4, machine.Now(), memory.stack.free, PageOf(virtualAddress);
      SoundFrames(a, free);
      UpdateIndexes(virtualAddress);
      Show(AddressOf(pageMapLevel4));
      ghost var b := machine.Now();
      MovedTwice(a, a, b);
      MapBegins(a, b, free, r, v, physicalAddress);
      ghost var kept, k := Spared(b, free, r, v, physicalAddress), Missing(a.mem, r, v);
      ghost var y;
      ok, y := EnterAll(v, kept);
      if !ok {
        return;
      }
      ghost var c, n := machine.Now(), Pt(r, v.i4, v.i3, v.i2);
      ReachedTable(b, c, r, v, y, free);
      OpenValid(n, pti, y, Rest(kept, k));
      WritePage(physicalAddress, c, n, y);
      ghost var d := machine.Now();
      machine.Invlpg(PageOf(virtualAddress));
      MapEnds(a, b, c, d, machine.Now(), free, r, v, y, physicalAddress);
      MapStored(a, b, c, d, free, r, v, y, physicalAddress);
      SoundFrames(machine.Now(), Rest(free, k));
      MapRights(a, machine.Now(), r, v, physicalAddress, free);
      ChainBeside(c, machine.Now(), n, y, memory.stack.free, memory.stack.stack, memory.stack.base);
    }

    /** Select between two operations on the tables. */
    method Show(address: bv64)
      requires Valid() && machine.cr3 < MAX_ROOT && dynamicPage == PageOf(machine.cr3 + 3)
      modifies machine`mem, machine`tlb
      ensures Valid() && Selected(FrameOf(address)) && Moved(old(machine.Now()), machine.Now())
      ensures Shifted(old(machine.Now()), machine.Now())
      ensures machine.mem == Pointing(old(machine.mem), machine.cr3, FrameOf(address))
    {
      hide Sound, Walk, Locate, PageOf, Chain, Distinct, Speculated, FrameOf, Shifted;
      ghost var a, free := machine.Now(), memory.stack.free;
      SoundFrames(a, free);
      ForestWindow(a);
      SelectTable(address);
      SoundSelect(a, machine.Now(), free, FrameOf(address));
      ShiftedOnce(a, machine.Now(), FrameOf(address));
      SelectChain(a, machine.Now(), free, memory.stack.stack, memory.stack.base);
    }

    /** Clears the presence bit of entry i of the table that the scratch page shows, and invalidates page v. */
    method Drop(i: Index, v: Page, ghost n: Table, ghost x: Frame)
      requires Valid() && Selected(x) && Drops(machine.Now(), memory.stack.free, n, i, x, v)
      requires n.root == pageMapLevel4
      modifies machine`mem, machine`tlb
      ensures Valid() && machine.cr3 == old(machine.cr3) && machine.spaces == old(machine.spaces)
      ensures Unmapping(old(machine.Now()), machine.Now(), n.root, v)
      ensures machine.cr3 < MAX_ROOT && Slot(x, i) != WindowSlot(machine.cr3)
      ensures machine.mem == old(machine.mem)[Slot(x, i) := old(machine.mem)[Slot(x, i)].(present := false)]
      ensures n.root == machine.cr3 ==> v !in machine.tlb
    {
      hide Sound, Walk, Locate, PageOf, Chain, Distinct, Speculated, Drops, Unmapping;
      ghost var a, free := machine.Now(), memory.stack.free;
      OpenDrop(a, free, n, i, x, v);
      SoundFrames(a, free);
      OpenValid(n, i, x, free);
      SetEntryPresence(i, false, a, n, x);
      ghost var b := machine.Now();
      MidwayScratch(a, b, n, i, x);
      machine.Invlpg(v);
      Dropped(a, b, machine.Now(), free, n, i, x, v);
      ChainBeside(a, machine.Now(), n, x, free, memory.stack.stack, memory.stack.base);
    }

    /** Reads entry i of the table on show and, if it leads to a next-level table, moves on to that one. */
    method Follow(i: Index, bottoms: bool, ghost n: Table, ghost x: Frame)
      returns (present: bool, bottom: bool, ghost e: Word)
      requires Valid() && Selected(x) && n.root == pageMapLevel4 && !n.Pt? && bottoms == n.Dir?
      requires Locate(machine.mem, n) == Some(x)
      modifies machine`mem, machine`tlb
      ensures Valid() && Moved(old(machine.Now()), machine.Now()) && e == old(machine.mem[Slot(x, i)])
      ensures Shifted(old(machine.Now()), machine.Now())
      ensures present == e.present && bottom == e.large
      ensures e.present && !(bottoms && e.large) ==>
                Selected(e.frame) && Locate(machine.mem, Child(n, i)) == Some(e.frame)
      ensures !(e.present && !(bottoms && e.large)) ==>
                machine.mem == old(machine.mem) && Selected(x) && Locate(machine.mem, Child(n, i)) == None
    {
      hide Sound, Walk, Locate, PageOf, Chain, Distinct, Speculated, FrameOf, Shifted;
      e := machine.mem[Slot(x, i)];
      var address;
      present, bottom, address := ReadEntry(i, x);
      LocateStep(machine.mem, Child(n, i));
      ChildParent(n, i);
      SoundFrames(machine.Now(), memory.stack.free);
      NotShifted(machine.Now());
      if present && !(bottoms && bottom) {
        Show(address);
      }
    }

    method UnMap(virtualAddress: Frame)
      requires Valid()
      requires pageMapLevel4 == machine.cr3 ==> Needless(machine.Now(), memory.stack.free, PageOf(virtualAddress))
      modifies this, machine`mem, machine`tlb
      ensures Valid()
      ensures Unmapping(old(machine.Now()), machine.Now(), pageMapLevel4, PageOf(virtualAddress))
      ensures Emptied(old(machine.mem), machine.mem, machine.cr3, pageMapLevel4, PageOf(virtualAddress))
      ensures pageMapLevel4 == machine.cr3 && HasEntry(old(machine.mem), machine.cr3, PageOf(virtualAddress)) ==>
                PageOf(virtualAddress) !in machine.tlb
      ensures pageMapLevel4 == machine.cr3 && PageOf(virtualAddress) in machine.tlb ==>
                PageOf(virtualAddress) in old(machine.tlb)
                && machine.tlb[PageOf(virtualAddress)] == old(machine.tlb)[PageOf(virtualAddress)]
    {
      hide Sound, Walk, Locate, PageOf, Chain, Distinct, Speculated, Moved, Shifted, Drops, Needless, Unmapping;
      hide EntryOf, FrameOf, Aligned, Emptied, HasEntry;
      ghost var r, a, free, v := pageMapLevel4, machine.Now(), memory.stack.free, PageOf(virtualAddress);
      SoundFrames(a, free);
      NeedlessScratch(a, free, v);
      UpdateIndexes(virtualAddress);
      Show(AddressOf(pageMapLevel4));
      RootLocated(machine.mem, r);
      ghost var b := machine.Now();
      MovedTwice(a, a, b);
      var present4, _, e4 := Follow(pml4i, false, Pml4(r), r);
      Onward(a, b, machine.Now());
      if !present4 {
        AlreadyUnmapped(a, machine.Now(), r, v, r);
        NothingEmptied(a, machine.Now(), r, v, r);
        return;
      }
      b := machine.Now();
      var present3, _, e3 := Follow(pdpi, false, Pdp(r, v.i4), e4.frame);
      Onward(a, b, machine.Now());
      if !present3 {
        AlreadyUnmapped(a, machine.Now(), r, v, r);
        NothingEmptied(a, machine.Now(), r, v, r);
        return;
      }
      b := machine.Now();
      var present2, bottom2, e2 := Follow(pdi, true, Dir(r, v.i4, v.i3), e3.frame);
      Onward(a, b, machine.Now());
      if !present2 {
        AlreadyUnmapped(a, machine.Now(), r, v, e3.frame);
        NothingEmptied(a, machine.Now(), r, v, e3.frame);
        return;
      }
      b := machine.Now();
      if bottom2 {
        LeafDrops(a, b, free, r, v, e3.frame);
        Drop(pdi, PageOf(virtualAddress), Dir(r, v.i4, v.i3), e3.frame);
        EntryEmptied(a, b, machine.mem, r, v, Dir(r, v.i4, v.i3), pdi, e3.frame);
      } else {
        PageDrops(a, b, free, r, v, e2.frame);
        Drop(pti, PageOf(virtualAddress), Pt(r, v.i4, v.i3, v.i2), e2.frame);
        EntryEmptied(a, b, machine.mem, r, v, Pt(r, v.i4, v.i3, v.i2), pti, e2.frame);
      }
      MovedUnmapping(a, b, machine.Now(), r, v);
    }

    lemma OpenValid(n: Table, i: Index, x: Frame, kept: seq<Frame>)
      requires ValidBut(kept) && n.root == pageMapLevel4 && Locate(machine.mem, n) == Some(x)
      requires !Through(n, i, machine.cr3, WINDOW)
      ensures Midway(machine.Now(), machine.Now(), n, i, x, {}) && Sound(machine.Now(), kept) && Forest(machine.Now())
      ensures memory.machine == machine && memory.stack.machine == machine
      ensures Chain(machine.mem, memory.stack.stack, memory.stack.free, memory.stack.base)
    {
      MidwayStart(machine.Now(), kept, n, i, x);
    }
  }

  /** Frame g holds no table and is reached at its own address. */
  ghost predicate Owned(v: View, g: Frame) {
    Identity(v, g) && !IsTable(v.mem, v.spaces, g)
  }

  /** memset of one page: 512 words at the address of the frame itself. */
  method ClearFrame(machine: Machine, memory: MemoryManager, f: Frame)
    requires memory.machine == machine && memory.Valid() && Sound(machine.Now(), memory.stack.free)
    requires Owned(machine.Now(), f) && f !in memory.stack.free
    modifies machine`mem, machine`tlb
    ensures forall s: Slot :: machine.mem[s] == if s.frame == f then ZERO else old(machine.mem)[s]
    ensures memory.Valid() && Sound(machine.Now(), memory.stack.free)
    ensures SameSpaces(old(machine.Now()), machine.Now())
  {
    hide Sound, Walk, Locate, PageOf, Chain, Distinct, IsTable, Settled;
    var i := 0;
    while i < 512
      invariant 0 <= i <= 512
      invariant memory.Valid() && Sound(machine.Now(), memory.stack.free)
      invariant SameSpaces(old(machine.Now()), machine.Now())
      invariant forall s: Slot ::
                  machine.mem[s] == if s.frame == f && s.index < i then ZERO else old(machine.mem)[s]
    {
      ghost var a := machine.Now();
      OwnedStays(old(machine.Now()), a, f);
      machine.Store(PageOf(f), i, ZERO, f);
      SoundWrite(a, machine.Now(), memory.stack.free, f, i, ZERO);
      SameTwice(old(machine.Now()), a, machine.Now());
      ChainKept(a.mem, machine.mem, memory.stack.stack, memory.stack.free, memory.stack.base);
      i := i + 1;
    }
  }

  /** No table has moved, no translation has changed, and frames are still reached where they were. */
  ghost predicate SameSpaces(a: View, b: View) {
    && b.cr3 == a.cr3 && b.spaces == a.spaces
    && (forall k: Table | k.root in a.spaces :: Locate(b.mem, k) == Locate(a.mem, k))
    && (forall r: Frame, p | r in a.spaces :: Walk(b.mem, r, p) == Walk(a.mem, r, p))
    && (forall g: Frame :: IsTable(b.mem, b.spaces, g) <==> IsTable(a.mem, a.spaces, g))
    && (forall g: Frame :: Identity(a, g) ==> Identity(b, g))
  }

  lemma OwnedStays(a: View, b: View, f: Frame)
    requires SameSpaces(a, b) && Owned(a, f)
    ensures Owned(b, f) && Settled(b.mem, b.tlb, b.cr3, PageOf(f), f)
  {
    hide Walk, Locate, PageOf, IsTable;
  }

  lemma SameTwice(a: View, b: View, c: View)
    requires SameSpaces(a, b) && c.cr3 == b.cr3 && c.spaces == b.spaces
    requires forall k: Table | k.root in b.spaces :: Locate(c.mem, k) == Locate(b.mem, k)
    requires forall r: Frame, p | r in b.spaces :: Walk(c.mem, r, p) == Walk(b.mem, r, p)
    requires forall g: Frame :: IsTable(c.mem, c.spaces, g) <==> IsTable(b.mem, b.spaces, g)
    requires forall g: Frame :: Identity(b, g) ==> Identity(c, g)
    ensures SameSpaces(a, c)
  {
    hide Walk, Locate, IsTable, Identity;
  }

  /** A bare address space has joined the others, and nothing else has changed. */
  ghost predicate Opened(a: View, b: View, root: Frame) {
    && b.cr3 == a.cr3 && b.spaces == a.spaces + {root} && Bare(b.mem, root)
    && (forall s: Slot :: !(root <= s.frame < root + 4) ==> b.mem[s] == a.mem[s])
    && (forall r: Frame, p | r in a.spaces :: Walk(b.mem, r, p) == Walk(a.mem, r, p))
    && (forall k: Table | k.root in a.spaces :: Locate(b.mem, k) == Locate(a.mem, k))
    && (forall p :: Walk(b.mem, root, p) == if p == WINDOW then Small(root) else Unmapped)
    && forall g: Frame :: IsTable(b.mem, b.spaces, g) <==> IsTable(a.mem, a.spaces, g) || root <= g < root + 4
  }

  /** The way the kernel makes an address space: four pages are zeroed, and the constructor runs. */
  method OpenSpace(machine: Machine, memory: MemoryManager, root: Frame) returns (manager: PagingManager)
    requires memory.machine == machine && memory.Valid() && Sound(machine.Now(), memory.stack.free)
    requires root < MAX_ROOT && root !in machine.spaces
    requires forall g: Frame :: root <= g < root + 4 ==> Owned(machine.Now(), g) && g !in memory.stack.free
    modifies machine
    ensures fresh(manager) && manager.machine == machine && manager.memory == memory
    ensures manager.pageMapLevel4 == root && manager.Valid()
    ensures machine.cr3 == old(machine.cr3) && machine.spaces == old(machine.spaces) + {root}
    ensures Opened(old(machine.Now()), machine.Now(), root)
  {
    hide Sound, Walk, Locate, PageOf, Chain, Distinct, IsTable, Laid, Bare, Owned, Cleared;
    ClearFour(machine, memory, root);
    ghost var m := machine.mem;
    manager := new PagingManager(machine, memory, root);
    BareLaid(m, machine.mem, root);
  }

  /** memset of four pages in a row. */
  method ClearFour(machine: Machine, memory: MemoryManager, root: Frame)
    requires memory.machine == machine && memory.Valid() && Sound(machine.Now(), memory.stack.free)
    requires root < MAX_ROOT
    requires forall g: Frame :: root <= g < root + 4 ==> Owned(machine.Now(), g) && g !in memory.stack.free
    modifies machine`mem, machine`tlb
    ensures memory.Valid() && Sound(machine.Now(), memory.stack.free) && Cleared(machine.mem, root)
    ensures SameSpaces(old(machine.Now()), machine.Now())
    ensures forall g: Frame :: root <= g < root + 4 ==> Owned(machine.Now(), g)
    ensures forall s: Slot :: !(root <= s.frame < root + 4) ==> machine.mem[s] == old(machine.mem)[s]
  {
    hide Sound, Walk, Locate, PageOf, Chain, Distinct, IsTable, Identity, Owned;
    var i := 0;
    while i < 4
      invariant 0 <= i <= 4
      invariant memory.Valid() && Sound(machine.Now(), memory.stack.free)
      invariant SameSpaces(old(machine.Now()), machine.Now())
      invariant forall s: Slot ::
                  machine.mem[s] == if root <= s.frame < root + i then ZERO else old(machine.mem)[s]
    {
      ghost var a := machine.Now();
      OwnedStays(old(machine.Now()), a, root + i);
      ClearFrame(machine, memory, root + i);
      SameTwice(old(machine.Now()), a, machine.Now());
      i := i + 1;
    }
    forall g: Frame | root <= g < root + 4
      ensures Owned(machine.Now(), g)
    {
      OwnedStays(old(machine.Now()), machine.Now(), g);
    }
  }

  /** The path to the scratch page, as the constructor lays it. */
  ghost predicate PathLaid(m: Memory, root: Frame)
    requires root < MAX_ROOT
  {
    && m[Slot(root, 511)] == TableWord(root + 1) && m[Slot(root + 1, 511)] == TableWord(root + 2)
    && m[Slot(root + 2, 511)] == TableWord(root + 3) && m[Slot(root + 3, 511)] == LeafWord(root)
  }

  /** One store of the constructor where the word is there already. */
  method LayAgain(machine: Machine, memory: MemoryManager, f: Frame, w: Word)
    requires memory.machine == machine && memory.Valid() && Sound(machine.Now(), memory.stack.free)
    requires Identity(machine.Now(), f) && machine.mem[Slot(f, 511)] == w
    modifies machine`mem, machine`tlb
    ensures machine.mem == old(machine.mem) && Speculated(old(machine.tlb), machine.tlb, machine.mem, machine.cr3)
    ensures memory.Valid() && Sound(machine.Now(), memory.stack.free)
    ensures forall g: Frame :: Identity(old(machine.Now()), g) ==> Identity(machine.Now(), g)
  {
    hide Sound, Walk, Locate, PageOf, Chain, Distinct;
    machine.Store(PageOf(f), 511, w, f);
    assert machine.mem == old(machine.mem);
    SoundSpeculated(old(machine.Now()), machine.Now(), memory.stack.free);
  }

  /** One store of the constructor, at the address of the frame itself. */
  method Lay(machine: Machine, memory: MemoryManager, f: Frame, w: Word, ghost free: seq<Frame>)
    requires memory.machine == machine && memory.Valid() && free == memory.stack.free
    requires Sound(machine.Now(), free) && Owned(machine.Now(), f)
    modifies machine`mem, machine`tlb
    ensures machine.mem == old(machine.mem)[Slot(f, 511) := w]
    ensures memory.Valid() && Sound(machine.Now(), free)
    ensures forall g: Frame :: Owned(old(machine.Now()), g) ==> Owned(machine.Now(), g)
    ensures forall r: Frame, p | r in machine.spaces :: Walk(machine.mem, r, p) == Walk(old(machine.mem), r, p)
    ensures forall k: Table | k.root in machine.spaces :: Locate(machine.mem, k) == Locate(old(machine.mem), k)
    ensures forall g: Frame :: IsTable(machine.mem, machine.spaces, g) <==> IsTable(old(machine.mem), machine.spaces, g)
  {
    hide Sound, Walk, Locate, PageOf, Chain, Distinct, IsTable;
    ghost var a := machine.Now();
    machine.Store(PageOf(f), 511, w, f);
    SoundWrite(a, machine.Now(), free, f, 511, w);
    ChainKept(a.mem, machine.mem, memory.stack.stack, free, memory.stack.base);
  }

  /** The four stores of the constructor. */
  method LayPath(machine: Machine, memory: MemoryManager, address: Frame)
    requires memory.machine == machine && memory.Valid() && Sound(machine.Now(), memory.stack.free)
    requires address < MAX_ROOT
    requires forall g: Frame :: address <= g < address + 4 ==> Owned(machine.Now(), g)
    modifies machine`mem, machine`tlb
    ensures memory.Valid() && Sound(machine.Now(), memory.stack.free)
    ensures Laid(old(machine.mem), machine.mem, address)
    ensures forall g: Frame :: address <= g < address + 4 ==> Owned(machine.Now(), g)
    ensures forall r: Frame, p | r in machine.spaces :: Walk(machine.mem, r, p) == Walk(old(machine.mem), r, p)
    ensures forall k: Table | k.root in machine.spaces :: Locate(machine.mem, k) == Locate(old(machine.mem), k)
    ensures forall g: Frame :: IsTable(machine.mem, machine.spaces, g) <==> IsTable(old(machine.mem), machine.spaces, g)
  {
    hide Sound, Walk, Locate, PageOf, Chain, Distinct, Owned, IsTable, Bare, EntryOf, FrameOf, Plus, Aligned;
    ghost var free := memory.stack.free;
    var base := AddressOf(address);
    PathConstants(base, address);
    Lay(machine, memory, address, EntryOf(Plus(base, 0x100B)), free);
    Lay(machine, memory, address + 1, EntryOf(Plus(base, 0x200B)), free);
    Lay(machine, memory, address + 2, EntryOf(Plus(base, 0x300B)), free);
    Lay(machine, memory, address + 3, EntryOf(Plus(base, 0x18F)), free);
  }
}
