/** paging_initialize of rocket/paging.c: the tables that are in force when the kernel starts. */
module Boot {
  import opened Options
  import opened Words
  import opened Translation
  import opened Hardware
  import opened AddressSpaces
  import opened TableEdits
  import opened AccessRights

  lemma Next4(a: bv64)
    ensures Plus(PageAfter(PageAfter(PageAfter(PageAfter(a)))), 0xB) == Plus(a, 0x400B)
  {
  }

  lemma Next5(a: bv64)
    ensures Plus(PageAfter(PageAfter(PageAfter(PageAfter(PageAfter(a))))), 0xB) == Plus(a, 0x500B)
  {
  }

  /** The frame three pages further. */
  lemma ThreeAfter(a: bv64)
    requires Aligned(a) && FrameOf(a) < MAX_ROOT
    ensures var b := PageAfter(PageAfter(PageAfter(a))); Aligned(b) && FrameOf(b) == FrameOf(a) + 3
  {
    hide EntryOf, FrameOf, PageAfter, Plus, Aligned, TableWord;
    NextTable(a);
    NextTable(PageAfter(a));
    NextTable(PageAfter(PageAfter(a)));
  }

  /** What the two further constants of the boot tables put into the tables. */
  lemma LowConstants(a: bv64, f: Frame)
    requires Aligned(a) && FrameOf(a) == f < MAX_ROOT - 8
    ensures EntryOf(Plus(a, 0x400B)) == TableWord(f + 4)
    ensures EntryOf(Plus(a, 0x500B)) == TableWord(f + 5)
  {
    hide EntryOf, FrameOf, PageAfter, Plus, Aligned, TableWord;
    ThreeAfter(a);
    Next4(a);
    NextTable(PageAfter(PageAfter(PageAfter(a))));
    Next5(a);
    NextTable(PageAfter(PageAfter(PageAfter(PageAfter(a)))));
  }

  /** Word i of boot table t: the root, the three tables of the scratch page, and the page-directory-pointer
      table and the page directory of the first 256 MiB. */
  function BootEntry(root: Frame, t: nat, i: Index): Word
    requires root < MAX_ROOT - 8
  {
    if t == 0 && i == 0 then TableWord(root + 4)
    else if t < 3 && i == 511 then TableWord(root + t + 1)
    else if t == 3 && i == 511 then LeafWord(root)
    else if t == 4 && i == 0 then TableWord(root + 5)
    else if t == 5 && i < 128 then LeafWord(i * 512)
    else ZERO
  }

  /** The boot tables are in place. */
  ghost predicate Booted(m: Memory, root: Frame)
    requires root < MAX_ROOT - 8
  {
    forall t: nat, i: Index :: t < 6 ==> m[Slot(root + t, i)] == BootEntry(root, t, i)
  }

  /** What the boot tables translate: the first 256 MiB to themselves, and the scratch page to the root. */
  function BootMapping(root: Frame, p: Page): Mapping {
    if p == WINDOW then Small(root)
    else if p.i4 == 0 && p.i3 == 0 && p.i2 < 128 then Large(p.i2 * 512 + p.i1)
    else Unmapped
  }

  /** The boot tables by name. */
  function BootTable(root: Frame, k: Table): Option<Frame>
    requires root < MAX_ROOT - 8
  {
    match k
    case Pml4(r) => Some(r)
    case Pdp(_, i4) => if i4 == 0 then Some(root + 4) else if i4 == 511 then Some(root + 1) else None
    case Dir(_, i4, i3) => if i4 == i3 == 0 then Some(root + 5) else if i4 == i3 == 511 then Some(root + 2) else None
    case Pt(_, i4, i3, i2) => if i4 == i3 == i2 == 511 then Some(root + 3) else None
  }

  lemma BootTables(m: Memory, root: Frame, k: Table)
    requires root < MAX_ROOT - 8 && Booted(m, root) && k.root == root
    ensures Locate(m, k) == BootTable(root, k)
    decreases Depth(k)
  {
    hide Locate;
    if k.Pml4? {
      RootLocated(m, root);
    } else {
      LocateStep(m, k);
      BootTables(m, root, Parent(k));
      var q := BootTable(root, Parent(k));
      if q.Some? {
        assert m[Slot(root + (q.value - root), Last(k))] == BootEntry(root, q.value - root, Last(k));
      }
    }
  }

  lemma BootWalk(m: Memory, root: Frame, p: Page)
    requires root < MAX_ROOT - 8 && Booted(m, root)
    ensures Walk(m, root, p) == BootMapping(root, p)
  {
    hide Walk, Locate;
    WalkTables(m, root, p);
    BootTables(m, root, Dir(root, p.i4, p.i3));
    BootTables(m, root, Pt(root, p.i4, p.i3, p.i2));
    var d, t := BootTable(root, Dir(root, p.i4, p.i3)), BootTable(root, Pt(root, p.i4, p.i3, p.i2));
    if d.Some? {
      assert m[Slot(root + (d.value - root), p.i2)] == BootEntry(root, d.value - root, p.i2);
    }
    if t.Some? {
      assert m[Slot(root + (t.value - root), p.i1)] == BootEntry(root, t.value - root, p.i1);
    }
  }

  lemma WordRights(f: Frame)
    ensures Granted(TableWord(f)) == Rights(true, false) && Granted(LeafWord(f)) == ALL
  {
    GrantedAccess(TableWord(f));
    GrantedAccess(LeafWord(f));
  }

  /** The boot tables allow writing and keep ring 3 out: of the pages that they map, and of all that Map adds in the
      first and in the last 512 GiB. */
  lemma BootRights(m: Memory, root: Frame, p: Page)
    requires root < MAX_ROOT - 8 && Booted(m, root)
    ensures Effective(m, root, p) == if BootMapping(root, p) == Unmapped then None else Some(Rights(true, false))
    ensures Inherited(m, root, p) == Rights(true, 0 < p.i4 < 511)
  {
    hide Granted, Booted;
    forall t: nat, i: Index | t < 6
      ensures m[Slot(root + t, i)] == BootEntry(root, t, i)
    {
      BootWord(m, root, t, i);
    }
    forall f: Frame
      ensures Granted(TableWord(f)) == Rights(true, false) && Granted(LeafWord(f)) == ALL
    {
      WordRights(f);
    }
    assert m[Slot(root + 0, p.i4)] == BootEntry(root, 0, p.i4);
    if p.i4 == 0 {
      assert m[Slot(root + 4, p.i3)] == BootEntry(root, 4, p.i3);
      assert m[Slot(root + 5, p.i2)] == BootEntry(root, 5, p.i2);
    } else if p.i4 == 511 {
      assert m[Slot(root + 1, p.i3)] == BootEntry(root, 1, p.i3);
      assert m[Slot(root + 2, p.i2)] == BootEntry(root, 2, p.i2);
      assert m[Slot(root + 3, p.i1)] == BootEntry(root, 3, p.i1);
    }
  }

  lemma BootWord(m: Memory, root: Frame, t: nat, i: Index)
    requires root < MAX_ROOT - 8 && Booted(m, root) && t < 6
    ensures m[Slot(root + t, i)] == BootEntry(root, t, i)
  {
  }

  /** Below 256 MiB the page that bears the address of frame f shows frame f. */
  lemma BootIdentity(root: Frame, f: Frame)
    ensures f < 0x1_0000 ==> PageOf(f) != WINDOW && BootMapping(root, PageOf(f)) == Large(f)
    ensures 0x1_0000 <= f < 0x10_0000_0000 && PageOf(f) != WINDOW ==> BootMapping(root, PageOf(f)) == Unmapped
  {
  }

  /** The boot tables are a sound start: one address space, nothing free yet, any buffer the tables allow. */
  lemma BootSound(m: Memory, root: Frame, tlb: Tlb)
    requires root + 3 < 0x1_0000 && Booted(m, root)
    requires Speculated(map[], tlb, m, root)
    ensures Sound(View(m, tlb, root, {root}), [])
  {
    hide Walk, Locate, PageOf;
    forall k: Table | k.root == root
      ensures Locate(m, k) == BootTable(root, k)
    {
      BootTables(m, root, k);
    }
    assert m[Slot(root + 3, 511)] == BootEntry(root, 3, 511);
    BootWalk(m, root, PageOf(root + 3));
    BootIdentity(root, root + 3);
  }

  lemma BootTableFrames(m: Memory, root: Frame, g: Frame)
    requires root < MAX_ROOT - 8 && Booted(m, root)
    ensures IsTable(m, {root}, g) <==> root <= g < root + 6
  {
    hide Locate;
    var names := [Pml4(root), Pdp(root, 511), Dir(root, 511, 511), Pt(root, 511, 511, 511),
                  Pdp(root, 0), Dir(root, 0, 0)];
    if root <= g < root + 6 {
      BootTables(m, root, names[g - root]);
      IsTableIntro(m, {root}, names[g - root], g);
    }
    if IsTable(m, {root}, g) {
      var k: Table :| k.root in {root} && Locate(m, k) == Some(g);
      BootTables(m, root, k);
    }
  }

  /** Over the boot tables, the first page beyond 256 MiB gets its table in a frame that has been in use: until the
      frame is zeroed, a word in it that looks present maps the page to a frame nobody asked for. */
  lemma StaleFrame(m: Memory, b: Memory, root: Frame, c: Frame, w: Word)
    requires root + 8 < 0x1_0000 && Booted(m, root) && !(root <= c < root + 6)
    requires m[Slot(c, 0)] == w && w.present && b == m[Slot(root + 5, 128) := TableEntry(c)]
    ensures Walk(m, root, Page(0, 0, 128, 0)) == Unmapped && Walk(b, root, Page(0, 0, 128, 0)) == Small(w.frame)
  {
    hide Walk, Locate, IsTable, Separate;
    var a := View(m, map[], root, {root});
    BootSound(m, root, map[]);
    BootWalk(m, root, Page(0, 0, 128, 0));
    BootTables(m, root, Dir(root, 0, 0));
    BootTableFrames(m, root, c);
    assert m[Slot(root + 3, 511)] == BootEntry(root, 3, 511);
    StaleWords(a, View(b, map[], root, {root}), Dir(root, 0, 0), 128, root + 5, c, 0);
  }

  /** The same one level up: the frame is made into the page-directory-pointer table of another 512 GiB, and a stale
      word in it leads to a frame with a stale word that looks like a 2 MiB leaf. */
  lemma StaleTable(m: Memory, b: Memory, root: Frame, c: Frame, d: Frame)
    requires root + 8 < 0x1_0000 && Booted(m, root) && !(root <= c < root + 6) && !(root <= d < root + 6)
    requires m[Slot(c, 0)].present && m[Slot(c, 0)].frame == d && m[Slot(d, 0)].present && m[Slot(d, 0)].large
    requires b == m[Slot(root, 1) := TableEntry(c)]
    ensures Walk(m, root, Page(1, 0, 0, 0)) == Unmapped && Walk(b, root, Page(1, 0, 0, 0)).Large?
  {
    BootWalk(m, root, Page(1, 0, 0, 0));
  }

  /** A state in which UnMap leaves its page in the buffer: the page has neither a last-level table nor a leaf, so UnMap
      returns early and invalidates nothing, and the processor may keep what it has loaded of the page. */
  lemma StaleRemains(m: Memory, root: Frame, g: Frame)
    requires root + 8 < 0x1_0000 && Booted(m, root)
    ensures var v := Page(1, 0, 0, 0);
            var tlb: Tlb := map[v := g];
            && Sound(View(m, tlb, root, {root}), []) && Needless(View(m, tlb, root, {root}), [], v)
            && !HasEntry(m, root, v) && forall n: Memory :: Speculated(tlb - {WINDOW}, tlb, n, root)
  {
    hide Walk, Locate, IsTable, Forest;
    var v := Page(1, 0, 0, 0);
    BootSound(m, root, map[]);
    BootWalk(m, root, v);
    BootTables(m, root, Pt(root, 1, 0, 0));
    StaleKept(View(m, map[], root, {root}), [], v, g);
    assert map[][v := g] == map[v := g];
  }

  /** 128 leaves of 2 MiB, one after the other. */
  method FillDirectory(machine: Machine, d: Frame)
    modifies machine`mem
    ensures forall s: Slot ::
              machine.mem[s] == if s.frame == d && s.index < 128 then LeafWord(s.index * 512) else old(machine.mem)[s]
  {
    hide EntryOf, FrameOf, Plus, Aligned, LeafWord;
    var i := 0;
    while i < 128
      invariant 0 <= i <= 128
      invariant forall s: Slot ::
                  machine.mem[s] == if s.frame == d && s.index < i then LeafWord(s.index * 512) else old(machine.mem)[s]
    {
      var a := AddressOf(i * 512);
      LeafConstant(a);
      machine.mem := machine.mem[Slot(d, i) := EntryOf(Plus(a, 0x18F))];
      i := i + 1;
    }
  }

  /** The first half of paging_initialize: the identity of the first 256 MiB in 2 MiB leaves. */
  method MapLow(machine: Machine, root: Frame)
    requires root < MAX_ROOT - 8
    modifies machine`mem
    ensures forall s: Slot ::
              machine.mem[s] == if s.frame == root + 5 && s.index < 128 then LeafWord(s.index * 512)
                                else if s == Slot(root + 4, 0) then TableWord(root + 5)
                                else if s == Slot(root, 0) then TableWord(root + 4)
                                else old(machine.mem)[s]
  {
    hide EntryOf, FrameOf, Plus, Aligned, LeafWord, TableWord;
    var address := AddressOf(root);
    LowConstants(address, root);
    machine.mem := machine.mem[Slot(root, 0) := EntryOf(Plus(address, 0x400B))];
    machine.mem := machine.mem[Slot(root + 4, 0) := EntryOf(Plus(address, 0x500B))];
    FillDirectory(machine, root + 5);
  }

  /** The second half, and the whole constructor of PagingManager: the path to the scratch page. */
  method MapWindow(machine: Machine, root: Frame)
    requires root < MAX_ROOT - 8
    modifies machine`mem
    ensures Laid(old(machine.mem), machine.mem, root)
  {
    hide EntryOf, FrameOf, Plus, Aligned, LeafWord, TableWord;
    var address := AddressOf(root);
    PathConstants(address, root);
    machine.mem := machine.mem[Slot(root, 511) := EntryOf(Plus(address, 0x100B))];
    machine.mem := machine.mem[Slot(root + 1, 511) := EntryOf(Plus(address, 0x200B))];
    machine.mem := machine.mem[Slot(root + 2, 511) := EntryOf(Plus(address, 0x300B))];
    machine.mem := machine.mem[Slot(root + 3, 511) := EntryOf(Plus(address, 0x18F))];
  }

  lemma LaidAt(a: Memory, b: Memory, root: Frame, s: Slot)
    requires root < MAX_ROOT - 8 && Laid(a, b, root)
    ensures b[s] == if s.index == 511 && root <= s.frame < root + 4 then BootEntry(root, s.frame - root, 511) else a[s]
  {
  }

  /** The frame that a 32-bit address is rounded up to; near the top the sum wraps around to zero. */
  function RoundedUp(address: int): (f: Frame)
    requires 0 <= address < 0x1_0000_0000
    ensures address <= 0xFFFF_F000 ==> address <= f * 0x1000 < address + 0x1000
  {
    (address + 0xFFF) % 0x1_0000_0000 / 0x1000
  }

  /** Runs before paging is switched on, so the stores go to physical memory.  The six tables end below 4 GiB,
      where no pointer to one of them wraps around. */
  method PagingInitialize(machine: Machine, address: int) returns (root: Frame)
    requires 0 <= address < 0x1_0000_0000 && RoundedUp(address) + 6 <= 0x10_0000
    requires forall s: Slot :: RoundedUp(address) <= s.frame < RoundedUp(address) + 6 ==> machine.mem[s] == ZERO
    modifies machine`mem
    ensures root == RoundedUp(address)
    ensures forall s: Slot :: !(root <= s.frame < root + 6) ==> machine.mem[s] == old(machine.mem)[s]
    ensures Booted(machine.mem, root)
    ensures forall p :: Walk(machine.mem, root, p) == BootMapping(root, p)
  {
    hide Walk, BootMapping, Booted;
    var aligned := (address + 0xFFF) % 0x1_0000_0000;
    aligned := aligned - aligned % 0x1000;
    root := aligned / 0x1000;
    assert root == RoundedUp(address);
    BuildTables(machine, root);
  }

  method BuildTables(machine: Machine, root: Frame)
    requires root < MAX_ROOT - 8
    requires forall s: Slot :: root <= s.frame < root + 6 ==> machine.mem[s] == ZERO
    modifies machine`mem
    ensures Booted(machine.mem, root)
    ensures forall s: Slot :: !(root <= s.frame < root + 6) ==> machine.mem[s] == old(machine.mem)[s]
    ensures forall p :: Walk(machine.mem, root, p) == BootMapping(root, p)
  {
    hide Walk, BootMapping, Booted, Laid;
    MapLow(machine, root);
    ghost var low := machine.mem;
    MapWindow(machine, root);
    BootStores(old(machine.mem), low, machine.mem, root);
  }

  /** What the two halves add up to on zeroed frames. */
  lemma BootStores(m: Memory, low: Memory, b: Memory, root: Frame)
    requires root < MAX_ROOT - 8 && forall s: Slot :: root <= s.frame < root + 6 ==> m[s] == ZERO
    requires forall s: Slot ::
               low[s] == if s.frame == root + 5 && s.index < 128 then LeafWord(s.index * 512)
                         else if s == Slot(root + 4, 0) then TableWord(root + 5)
                         else if s == Slot(root, 0) then TableWord(root + 4)
                         else m[s]
    requires Laid(low, b, root)
    ensures Booted(b, root)
    ensures forall s: Slot :: !(root <= s.frame < root + 6) ==> b[s] == m[s]
    ensures forall p :: Walk(b, root, p) == BootMapping(root, p)
  {
    hide Walk, Locate, BootMapping, Laid;
    forall t: nat, i: Index | t < 6
      ensures b[Slot(root + t, i)] == BootEntry(root, t, i)
    {
      LaidAt(low, b, root, Slot(root + t, i));
    }
    forall s: Slot | !(root <= s.frame < root + 6)
      ensures b[s] == m[s]
    {
      LaidAt(low, b, root, s);
    }
    forall p
      ensures Walk(b, root, p) == BootMapping(root, p)
    {
      BootWalk(b, root, p);
    }
  }

  /** Constructing a PagingManager on the boot tables stores what is there already. */
  lemma ConstructorOnBoot(m: Memory, b: Memory, root: Frame)
    requires root < MAX_ROOT - 8 && Booted(m, root) && Laid(m, b, root)
    ensures b == m
  {
    hide Laid;
    forall s: Slot
      ensures b[s] == m[s]
    {
      LaidAt(m, b, root, s);
      if root <= s.frame < root + 4 {
        assert m[Slot(root + (s.frame - root), s.index)] == BootEntry(root, s.frame - root, s.index);
      }
    }
  }
}
