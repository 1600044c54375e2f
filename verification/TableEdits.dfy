/** The phases of Map and UnMap as steps between states of the machine, and what they add up to. */
module TableEdits {
  import opened Options
  import opened Words
  import opened Translation
  import opened Hardware
  import opened Frames
  import opened AddressSpaces

  /** Pages inside the same 2 MiB. */
  predicate SameRegion(p: Page, q: Page) {
    p.i4 == q.i4 && p.i3 == q.i3 && p.i2 == q.i2
  }

  /** One if table k is missing. */
  function Wanted(m: Memory, k: Table): nat {
    if Locate(m, k) == None then 1 else 0
  }

  /** The number of tables that Map has to create on the way to page v. */
  function Missing(m: Memory, root: Frame, v: Page): nat {
    Wanted(m, Pdp(root, v.i4)) + Wanted(m, Dir(root, v.i4, v.i3)) + Wanted(m, Pt(root, v.i4, v.i3, v.i2))
  }

  /** The entry that Map makes for a next-level table or a page in frame f. */
  function TableEntry(f: Frame): Word {
    ZERO.(access := USER_WRITABLE, frame := f, cache := WRITE_THROUGH, present := true)
  }

  /** Memory m with frame c zeroed. */
  ghost function Blanked(m: Memory, c: Frame): Memory {
    imap s: Slot :: if s.frame == c then ZERO else m[s]
  }

  /** Memory after a step from the table in frame x to the one in frame y, which is new if it has been taken from the
      free stack. */
  ghost function StepMemory(m: Memory, cr3: Frame, x: Frame, i: Index, y: Frame, taken: bool): Memory
    requires cr3 < MAX_ROOT
  {
    if taken then Blanked(Pointing(m[Slot(x, i) := TableEntry(y)], cr3, y), y) else Pointing(m, cr3, y)
  }

  lemma Stepped(m: Memory, d: Memory, b: Memory, cr3: Frame, x: Frame, i: Index, c: Frame)
    requires cr3 < MAX_ROOT && d == Pointing(m[Slot(x, i) := TableEntry(c)], cr3, c)
    requires (forall k: Index :: b[Slot(c, k)] == ZERO) && forall s: Slot :: s.frame != c ==> b[s] == d[s]
    ensures b == StepMemory(m, cr3, x, i, c, true)
  {
    hide Pointing, TableEntry;
    forall s: Slot
      ensures b[s] == StepMemory(m, cr3, x, i, c, true)[s]
    {
      assert s == Slot(s.frame, s.index);
    }
  }

  /** The entry has been touched before it is filled. */
  lemma StepOver(m: Memory, cr3: Frame, x: Frame, i: Index, w: Word, c: Frame)
    requires cr3 < MAX_ROOT
    ensures StepMemory(m[Slot(x, i) := w], cr3, x, i, c, true) == StepMemory(m, cr3, x, i, c, true)
  {
    assert m[Slot(x, i) := w][Slot(x, i) := TableEntry(c)] == m[Slot(x, i) := TableEntry(c)];
  }

  lemma SoundFrames(v: View, free: seq<Frame>)
    requires Sound(v, free)
    ensures Loose(v, free) && Forest(v) && v.cr3 < MAX_ROOT && Identity(v, v.cr3 + 3)
    ensures forall f :: f in free ==> Identity(v, f) && !IsTable(v.mem, v.spaces, f)
  {
  }

  /** The frames of the free stack are different and hold no table; how they are reached is another matter. */
  ghost predicate Loose(v: View, free: seq<Frame>) {
    Distinct(free) && forall f :: f in free ==> !IsTable(v.mem, v.spaces, f)
  }

  lemma MidwayFacts(a: View, b: View, n: Table, i: Index, x: Frame, c: Frame)
    requires Midway(a, b, n, i, x, {}) && !IsTable(a.mem, a.spaces, c)
    ensures b.cr3 == a.cr3 < MAX_ROOT && b.spaces == a.spaces && b.mem[WindowSlot(a.cr3)].present
    ensures Slot(x, i) != WindowSlot(a.cr3) && x != c
  {
    IsTableIntro(a.mem, a.spaces, n, x);
    MidwayScratch(a, b, n, i, x);
  }

  /** The page through which the scratch entry is set does not depend on where it leads. */
  lemma MidwayEntryPage(a: View, b: View, n: Table, i: Index, x: Frame)
    requires Midway(a, b, n, i, x, {}) && a.cr3 < MAX_ROOT
    requires PageOf(a.cr3 + 3) != WINDOW && !Through(n, i, a.cr3, PageOf(a.cr3 + 3))
    ensures b.cr3 == a.cr3
    ensures Walk(Pointing(b.mem, b.cr3, 0), b.cr3, PageOf(b.cr3 + 3)) == Walk(b.mem, b.cr3, PageOf(b.cr3 + 3))
  {
    hide Walk, Locate, PageOf, Through;
    var h := View(Pointing(b.mem, b.cr3, 0), map[], b.cr3, b.spaces);
    MidwayStore(a, b, h, n, i, x, {}, WindowSlot(a.cr3), h.mem[WindowSlot(a.cr3)]);
    MidwayWalk(a, b, n, i, x, {}, a.cr3, PageOf(a.cr3 + 3));
    MidwayWalk(a, h, n, i, x, {}, a.cr3, PageOf(a.cr3 + 3));
  }

  /** All stores of NewTable taken together.  The frames `kept` are those that are reached at their own address. */
  lemma Finished(a: View, b: View, n: Table, i: Index, x: Frame, free: seq<Frame>, kept: seq<Frame>, m: Memory,
                 stack: Word, base: Word)
    requires free != [] && kept != [] && kept[0] == free[0]
    requires Sound(a, kept) && Loose(a, free) && Midway(a, b, n, i, x, {free[0]})
    requires !n.Pt? && Locate(a.mem, Child(n, i)) == None && b.mem[Slot(x, i)] == TableEntry(free[0])
    requires forall k: Index :: b.mem[Slot(free[0], k)] == ZERO
    requires Settled(b.mem, b.tlb, b.cr3, WINDOW, free[0])
    requires forall f :: f in kept || f == a.cr3 + 3 ==> !Through(n, i, a.cr3, PageOf(f))
    requires Chain(m, stack, free[1..], base) && forall s: Slot :: s.frame != x ==> m[s] == a.mem[s]
    ensures Sound(b, kept[1..]) && Loose(b, free[1..]) && Grown(a, b, n, i, free[0])
    ensures Chain(b.mem, stack, free[1..], base)
  {
    hide Walk, Locate, PageOf, Through, Sound, Chain, Agrees;
    var c := free[0];
    LocateStep(a.mem, Child(n, i));
    ChildParent(n, i);
    SoundFrames(a, kept);
    SoundLinked(a, b, kept, n, i, x, c);
    ForestLinked(a, b, n, i, x, c);
    forall r: Frame, p | r in a.spaces && !Through(n, i, r, p) && !(r == a.cr3 && p == WINDOW)
      ensures Walk(b.mem, r, p) == Walk(a.mem, r, p)
    {
      MidwayWalk(a, b, n, i, x, {c}, r, p);
    }
    FinishedChain(a, b, n, i, x, free, m, stack, base);
  }

  /** A free frame holds neither the edited table nor the scratch entry. */
  lemma FreeApart(a: View, free: seq<Frame>, n: Table, x: Frame)
    requires Forest(a) && Loose(a, free) && n.root in a.spaces && Locate(a.mem, n) == Some(x)
    ensures x !in free && a.cr3 < MAX_ROOT && a.cr3 + 3 !in free
  {
    hide Walk, Locate;
    IsTableIntro(a.mem, a.spaces, n, x);
    IsTableIntro(a.mem, a.spaces, WindowTable(a.cr3), a.cr3 + 3);
  }

  lemma FinishedChain(a: View, b: View, n: Table, i: Index, x: Frame, free: seq<Frame>, m: Memory, stack: Word,
                      base: Word)
    requires free != [] && Loose(a, free) && Touched(a, b, n, i, x, {free[0]})
    requires Chain(m, stack, free[1..], base) && forall s: Slot :: s.frame != x ==> m[s] == a.mem[s]
    ensures Chain(b.mem, stack, free[1..], base)
  {
    hide Forest, IsTable, Chain, Locate, Through;
    FreeApart(a, free, n, x);
    forall f | f in free[1..]
      ensures b.mem[Slot(f, 0)] == m[Slot(f, 0)]
    {
      assert f != free[0] && f in free;
    }
    ChainKept(m, b.mem, stack, free[1..], base);
  }

  /** Editing tables does not disturb the links of the free frames. */
  lemma ChainBeside(a: View, b: View, n: Table, x: Frame, free: seq<Frame>, stack: Word, base: Word)
    requires Forest(a) && Loose(a, free) && Chain(a.mem, stack, free, base)
    requires n.root in a.spaces && Locate(a.mem, n) == Some(x)
    requires forall s: Slot :: s.frame != x ==> b.mem[s] == a.mem[s]
    ensures Chain(b.mem, stack, free, base)
  {
    FreeApart(a, free, n, x);
    ChainKept(a.mem, b.mem, stack, free, base);
  }

  /** Table n has got a new, empty child c behind entry i; nothing else has changed but the scratch page. */
  ghost predicate Grown(a: View, b: View, n: Table, i: Index, c: Frame)
    requires !n.Pt?
  {
    && Locate(b.mem, Child(n, i)) == Some(c)
    && (forall k: Table | k.root in a.spaces && k != Child(n, i) :: Locate(b.mem, k) == Locate(a.mem, k))
    && (forall g: Frame :: IsTable(b.mem, b.spaces, g) <==> IsTable(a.mem, a.spaces, g) || g == c)
    && (forall p :: Through(n, i, n.root, p) ==> Walk(b.mem, n.root, p) == Unmapped)
    && forall r: Frame, p | r in a.spaces && !Through(n, i, r, p) && !(r == a.cr3 && p == WINDOW) ::
         Walk(b.mem, r, p) == Walk(a.mem, r, p)
  }

  /** The scratch page keeps translating to what its entry says. */
  lemma MidwayScratch(a: View, b: View, n: Table, i: Index, x: Frame)
    requires Midway(a, b, n, i, x, {})
    ensures Walk(b.mem, b.cr3, WINDOW) == Small(b.mem[WindowSlot(b.cr3)].frame)
    ensures Slot(x, i) != WindowSlot(b.cr3)
  {
    hide Walk, Locate;
    MidwayWindow(a, b, n, i, x, {});
    WindowWalk(b.mem, b.cr3);
  }

  lemma MidwayScratchWord(a: View, b: View, n: Table, i: Index, x: Frame, c: Frame)
    requires Midway(a, b, n, i, x, {c})
    ensures Walk(b.mem, b.cr3, WINDOW) == Small(b.mem[WindowSlot(b.cr3)].frame)
    ensures c != b.cr3 + 3
  {
    hide Walk, Locate;
    MidwayWindow(a, b, n, i, x, {c});
    WindowWalk(b.mem, b.cr3);
    IsTableIntro(a.mem, a.spaces, WindowTable(a.cr3), a.cr3 + 3);
  }

  /** Child y of table n is in place and nothing has changed but a 2 MiB leaf in its way and the scratch page. */
  ghost predicate Entered(a: View, b: View, n: Table, i: Index, x: Frame, y: Frame, free: seq<Frame>)
    requires !n.Pt?
  {
    && Locate(b.mem, Child(n, i)) == Some(y)
    && Wanted(a.mem, Child(n, i)) <= |free|
    && (Locate(a.mem, Child(n, i)).Some? ==> Locate(a.mem, Child(n, i)) == Some(y))
    && (forall k: Table | k.root in a.spaces && k != Child(n, i) :: Locate(b.mem, k) == Locate(a.mem, k))
    && (forall g: Frame :: IsTable(b.mem, b.spaces, g) <==>
          IsTable(a.mem, a.spaces, g) || g in free[..Wanted(a.mem, Child(n, i))])
    && forall r: Frame, p | r in a.spaces && !(r == a.cr3 && p == WINDOW) ::
         Walk(b.mem, r, p) ==
         if Through(n, i, r, p) && n.Dir? && Walk(a.mem, r, p).Large? then Unmapped else Walk(a.mem, r, p)
  }

  lemma ChildParent(n: Table, i: Index)
    requires !n.Pt?
    ensures var c := Child(n, i);
            !c.Pml4? && Parent(c) == n && Last(c) == i && c.root == n.root && (c.Pt? <==> n.Dir?)
  {
  }

  /** No access at its own address goes through an entry that is about to be replaced. */
  lemma AbsentThrough(v: View, free: seq<Frame>, kept: seq<Frame>, n: Table, i: Index, x: Frame)
    requires Sound(v, kept) && n.root in v.spaces && Locate(v.mem, n) == Some(x) && !n.Pt?
    requires !v.mem[Slot(x, i)].present || (n.Dir? && v.mem[Slot(x, i)].large)
    requires n.root == v.cr3 && n.Dir? && v.mem[Slot(x, i)].present && v.mem[Slot(x, i)].large && free != [] ==>
               forall f :: f in kept || f == v.cr3 + 3 ==> !Through(n, i, v.cr3, PageOf(f))
    ensures free != [] ==> forall f :: f in kept || f == v.cr3 + 3 ==> !Through(n, i, v.cr3, PageOf(f))
    ensures !Through(n, i, v.cr3, WINDOW)
  {
    hide Walk, Locate, Through, PageOf;
    ForestWindow(v);
    if Through(n, i, v.cr3, WINDOW) {
      MappedThrough(v.mem, n, i, x, v.cr3, WINDOW);
    }
    forall f | free != [] && (f in kept || f == v.cr3 + 3)
      ensures !Through(n, i, v.cr3, PageOf(f))
    {
      SoundFrames(v, kept);
      if Through(n, i, v.cr3, PageOf(f)) {
        ThroughRoot(n, i, v.cr3, PageOf(f));
        MappedThrough(v.mem, n, i, x, v.cr3, PageOf(f));
      }
    }
  }

  lemma ThroughRoot(n: Table, i: Index, root: Frame, p: Page)
    ensures Through(n, i, root, p) ==> n.root == root
  {
  }

  lemma GrownEntered(a: View, b: View, n: Table, i: Index, x: Frame, free: seq<Frame>)
    requires free != [] && !n.Pt? && Locate(a.mem, n) == Some(x) && n.root in a.spaces && Grown(a, b, n, i, free[0])
    requires Locate(a.mem, Child(n, i)) == None && !Through(n, i, a.cr3, WINDOW)
    ensures Entered(a, b, n, i, x, free[0], free)
  {
    hide Walk, Locate, Through;
    forall r: Frame, p | r in a.spaces && !(r == a.cr3 && p == WINDOW)
      ensures Walk(b.mem, r, p) ==
              if Through(n, i, r, p) && n.Dir? && Walk(a.mem, r, p).Large? then Unmapped else Walk(a.mem, r, p)
    {
      if Through(n, i, r, p) {
        ThroughRoot(n, i, r, p);
        LocateStep(a.mem, Child(n, i));
        ChildParent(n, i);
        if Walk(a.mem, r, p) != Unmapped {
          MappedThrough(a.mem, n, i, x, r, p);
        }
      }
    }
  }

  lemma PresentEntered(a: View, b: View, n: Table, i: Index, x: Frame, free: seq<Frame>, kept: seq<Frame>, y: Frame)
    requires Sound(a, kept) && Loose(a, free) && !n.Pt? && n.root in a.spaces && Locate(a.mem, n) == Some(x)
    requires Locate(a.mem, Child(n, i)) == Some(y)
    requires b.mem == a.mem[WindowSlot(a.cr3) := a.mem[WindowSlot(a.cr3)].(frame := y)]
    requires b.cr3 == a.cr3 && b.spaces == a.spaces && Speculated(a.tlb - {WINDOW}, b.tlb, b.mem, b.cr3)
    ensures Sound(b, kept) && Loose(b, free) && Entered(a, b, n, i, x, y, free)
  {
    hide Walk, Locate, Through, Sound;
    SoundSelect(a, b, kept, y);
    LocateStep(a.mem, Child(n, i));
    ChildParent(n, i);
    IsTableIntro(a.mem, a.spaces, Child(n, i), y);
    forall r: Frame, p | r in a.spaces && !(r == a.cr3 && p == WINDOW) && Through(n, i, r, p) && n.Dir?
      ensures !Walk(a.mem, r, p).Large?
    {
      ThroughRoot(n, i, r, p);
      if Walk(a.mem, r, p).Large? {
        MappedThrough(a.mem, n, i, x, r, p);
      }
    }
  }

  lemma SelectChain(a: View, b: View, free: seq<Frame>, stack: Word, base: Word)
    requires Forest(a) && Loose(a, free) && Chain(a.mem, stack, free, base)
    requires b.mem == a.mem[WindowSlot(a.cr3) := b.mem[WindowSlot(a.cr3)]]
    ensures Chain(b.mem, stack, free, base)
  {
    ChainBeside(a, b, WindowTable(a.cr3), a.cr3 + 3, free, stack, base);
  }

  /** Map(v, p) in the active address space takes away no page that is still needed.  A 2 MiB leaf over v is
      out from the moment its entry is cleared: the frame that is popped next and the scratch entry are then
      accessed at their own addresses, and of the other free frames only p can be reached again, at page v. */
  ghost predicate Sparing(s: View, free: seq<Frame>, v: Page, p: Frame) {
    && v != WINDOW
    && if Walk(s.mem, s.cr3, v).Large? then
         free != [] ==>
           && (forall f: Frame :: f == free[0] || f == s.cr3 + 3 ==> !SameRegion(PageOf(f), v))
           && forall f :: f in free && SameRegion(PageOf(f), v) ==> PageOf(f) == v && f == p
       else
         forall f :: (f in free || f == s.cr3 + 3) && PageOf(f) == v ==> f == p
  }

  /** UnMap(v) in the active address space takes away no page that is needed. */
  ghost predicate Needless(s: View, free: seq<Frame>, v: Page) {
    && v != WINDOW
    && forall f :: f in free || f == s.cr3 + 3 ==>
         if Walk(s.mem, s.cr3, v).Large? then !SameRegion(PageOf(f), v) else PageOf(f) != v
  }

  /** As far as k frames are popped, those of `kept` are popped. */
  predicate Leads(free: seq<Frame>, kept: seq<Frame>, k: nat) {
    && (k <= |kept| || |free| <= |kept|)
    && forall j :: 0 <= j < k && j < |free| && j < |kept| ==> kept[j] == free[j]
  }

  /** The free frames that are reached at their own address as long as the leaf over v is out. */
  ghost function Kept(free: seq<Frame>, p: Frame, out: bool): (kept: seq<Frame>)
    ensures forall f :: f in kept ==> f in free
    ensures forall f :: f in free && f !in kept ==> out && f == p
    ensures !out ==> kept == free
  {
    if out && p in free then
      var j :| 0 <= j < |free| && free[j] == p;
      free[..j] + free[j + 1..]
    else free
  }

  /** Under a 2 MiB leaf exactly the last-level table is missing; under a 4 KiB page none is. */
  lemma MappedMissing(m: Memory, r: Frame, v: Page)
    ensures Walk(m, r, v).Large? ==> Missing(m, r, v) == 1
    ensures Walk(m, r, v).Small? ==> Missing(m, r, v) == 0
  {
    hide Walk, Locate;
    WalkTables(m, r, v);
    LocateStep(m, Dir(r, v.i4, v.i3));
    LocateStep(m, Pt(r, v.i4, v.i3, v.i2));
  }

  lemma LeadsFirst(free: seq<Frame>, kept: seq<Frame>, k: nat, w: nat)
    requires Leads(free, kept, k) && w <= k
    ensures Leads(free, kept, w)
  {
  }

  /** The sequence without its first k frames. */
  function Rest(s: seq<Frame>, k: nat): (r: seq<Frame>)
    ensures |r| == if k <= |s| then |s| - k else 0
  {
    if k <= |s| then s[k..] else []
  }

  lemma DropTwice(s: seq<Frame>, j: nat, k: nat)
    requires j <= k <= |s|
    ensures Rest(Rest(s, j), k - j) == Rest(s, k)
  {
  }

  lemma LeadsPart(free: seq<Frame>, kept: seq<Frame>, k: nat, j: nat, w: nat)
    requires Leads(free, kept, k) && j + w <= k && j <= |free| && j <= |kept|
    ensures Leads(Rest(free, j), Rest(kept, j), w)
  {
  }

  lemma KeptFacts(a: View, free: seq<Frame>, v: Page, p: Frame, r: Frame)
    requires Sound(a, free) && r in a.spaces && (r == a.cr3 ==> Sparing(a, free, v, p))
    ensures var out := r == a.cr3 && Walk(a.mem, a.cr3, v).Large? && PageOf(p) == v;
            var kept := Kept(free, p, out);
            && Sound(a, kept) && Leads(free, kept, Missing(a.mem, r, v))
            && (r == a.cr3 && Walk(a.mem, a.cr3, v).Large? && free != [] ==>
                  forall f :: f in kept || f == a.cr3 + 3 ==> !SameRegion(PageOf(f), v))
  {
    hide Walk, Missing, PageOf, Agrees, IsTable, Forest;
    MappedMissing(a.mem, r, v);
  }

  /** Table k is one of those that the walk of page v reads in address space root. */
  predicate OnPath(root: Frame, v: Page, k: Table) {
    k == Pml4(root) || k == Pdp(root, v.i4) || k == Dir(root, v.i4, v.i3) || k == Pt(root, v.i4, v.i3, v.i2)
  }

  /** The last-level table of page v is in place at y; new tables came from the free stack in order. */
  ghost predicate Reached(a: View, b: View, root: Frame, v: Page, y: Frame, free: seq<Frame>) {
    && Locate(b.mem, Pt(root, v.i4, v.i3, v.i2)) == Some(y)
    && Missing(a.mem, root, v) <= |free|
    && (forall k: Table | k.root in a.spaces ::
          && (Locate(a.mem, k).Some? ==> Locate(b.mem, k) == Locate(a.mem, k))
          && (Locate(b.mem, k).Some? <==> Locate(a.mem, k).Some? || OnPath(root, v, k)))
    && (forall g: Frame :: IsTable(b.mem, b.spaces, g) <==>
          IsTable(a.mem, a.spaces, g) || g in free[..Missing(a.mem, root, v)])
    && forall r: Frame, p | r in a.spaces && !(r == a.cr3 && p == WINDOW) ::
         Walk(b.mem, r, p) ==
         if r == root && SameRegion(p, v) && Walk(a.mem, r, p).Large? then Unmapped else Walk(a.mem, r, p)
  }

  lemma EnteredChild(a: View, b: View, n: Table, i: Index, x: Frame, y: Frame, free: seq<Frame>)
    requires !n.Pt? && Entered(a, b, n, i, x, y, free)
    ensures Locate(b.mem, Child(n, i)) == Some(y)
    ensures forall k: Table | k.root in a.spaces && k != Child(n, i) :: Wanted(b.mem, k) == Wanted(a.mem, k)
  {
  }

  /** The first two steps change no translation. */
  lemma EarlySteps(a: View, b: View, c: View, r: Frame, v: Page, x1: Frame, x2: Frame, free: seq<Frame>,
                   kept: seq<Frame>)
    requires r in a.spaces && a.spaces == b.spaces == c.spaces && a.cr3 == b.cr3 == c.cr3
    requires Entered(a, b, Pml4(r), v.i4, r, x1, free)
    requires Entered(b, c, Pdp(r, v.i4), v.i3, x1, x2, Rest(free, Wanted(a.mem, Pdp(r, v.i4))))
    requires r == a.cr3 && Walk(a.mem, a.cr3, v).Large? && free != [] ==>
               forall f :: f in kept || f == a.cr3 + 3 ==> !SameRegion(PageOf(f), v)
    requires r == a.cr3 ==> v != WINDOW
    ensures Locate(c.mem, Dir(r, v.i4, v.i3)) == Some(x2)
    ensures forall k: Table | k.root in a.spaces && k != Pdp(r, v.i4) && k != Dir(r, v.i4, v.i3) ::
              Wanted(c.mem, k) == Wanted(a.mem, k)
    ensures forall s: Frame, p | s in a.spaces && !(s == a.cr3 && p == WINDOW) :: Walk(c.mem, s, p) == Walk(a.mem, s, p)
    ensures r == c.cr3 && c.mem[Slot(x2, v.i2)].present && c.mem[Slot(x2, v.i2)].large && free != [] ==>
              forall f :: f in kept || f == c.cr3 + 3 ==> !Through(Dir(r, v.i4, v.i3), v.i2, c.cr3, PageOf(f))
  {
    hide Walk, Locate, PageOf;
    EnteredChild(a, b, Pml4(r), v.i4, r, x1, free);
    EnteredChild(b, c, Pdp(r, v.i4), v.i3, x1, x2, Rest(free, Wanted(a.mem, Pdp(r, v.i4))));
    WalkTables(c.mem, r, v);
  }

  /** What the second step finds. */
  lemma SecondStep(a: View, b: View, r: Frame, v: Page, x1: Frame, free: seq<Frame>)
    requires r in a.spaces && Entered(a, b, Pml4(r), v.i4, r, x1, free)
    ensures Locate(b.mem, Pdp(r, v.i4)) == Some(x1)
    ensures Wanted(b.mem, Dir(r, v.i4, v.i3)) == Wanted(a.mem, Dir(r, v.i4, v.i3))
  {
    hide Walk, Locate, Wanted, Entered;
    EnteredChild(a, b, Pml4(r), v.i4, r, x1, free);
  }

  /** What the third step finds. */
  lemma ThirdStep(a: View, b: View, c: View, r: Frame, v: Page, x1: Frame, x2: Frame, free: seq<Frame>,
                  kept: seq<Frame>, rest: seq<Frame>)
    requires r in a.spaces && a.spaces == b.spaces == c.spaces && a.cr3 == b.cr3 == c.cr3
    requires Entered(a, b, Pml4(r), v.i4, r, x1, free)
    requires Entered(b, c, Pdp(r, v.i4), v.i3, x1, x2, Rest(free, Wanted(a.mem, Pdp(r, v.i4))))
    requires r == a.cr3 && Walk(a.mem, a.cr3, v).Large? && free != [] ==>
               forall f :: f in kept || f == a.cr3 + 3 ==> !SameRegion(PageOf(f), v)
    requires r == a.cr3 ==> v != WINDOW
    requires exists k: nat :: rest == Rest(kept, k)
    ensures Locate(c.mem, Dir(r, v.i4, v.i3)) == Some(x2)
    ensures Wanted(c.mem, Pt(r, v.i4, v.i3, v.i2)) == Wanted(a.mem, Pt(r, v.i4, v.i3, v.i2))
    ensures r == c.cr3 && c.mem[Slot(x2, v.i2)].present && c.mem[Slot(x2, v.i2)].large && free != [] ==>
              forall f :: f in rest || f == c.cr3 + 3 ==> !Through(Dir(r, v.i4, v.i3), v.i2, c.cr3, PageOf(f))
  {
    hide Walk, Locate, Wanted, Entered, PageOf, SameRegion, Through;
    EarlySteps(a, b, c, r, v, x1, x2, free, kept);
  }

  /** The states between the steps of Map from the root to the last-level table of page v. */
  ghost predicate ThreeSteps(a: View, b: View, c: View, d: View, r: Frame, v: Page, x1: Frame, x2: Frame, y: Frame,
                             free: seq<Frame>)
  {
    var k1, k2 := Wanted(a.mem, Pdp(r, v.i4)), Wanted(b.mem, Dir(r, v.i4, v.i3));
    && a.spaces == b.spaces == c.spaces == d.spaces && a.cr3 == b.cr3 == c.cr3 == d.cr3
    && Entered(a, b, Pml4(r), v.i4, r, x1, free)
    && Entered(b, c, Pdp(r, v.i4), v.i3, x1, x2, Rest(free, k1))
    && k1 + k2 <= |free| && Entered(c, d, Dir(r, v.i4, v.i3), v.i2, x2, y, Rest(free, k1 + k2))
  }

  /** After all three steps. */
  lemma AllSteps(a: View, b: View, c: View, d: View, r: Frame, v: Page, x1: Frame, x2: Frame, y: Frame,
                 free: seq<Frame>)
    requires r in a.spaces && ThreeSteps(a, b, c, d, r, v, x1, x2, y, free)
    ensures Reached(a, d, r, v, y, free)
  {
    hide Walk, Locate, Wanted, Entered;
    StepTables(a, b, c, d, r, v, x1, x2, y, free);
    StepLocates(a, b, c, d, r, v, x1, x2, y, free);
    StepFrames(a, b, c, d, r, v, x1, x2, y, free);
    StepWalks(a, b, c, d, r, v, x1, x2, y, free);
  }

  lemma StepLocates(a: View, b: View, c: View, d: View, r: Frame, v: Page, x1: Frame, x2: Frame, y: Frame,
                    free: seq<Frame>)
    requires r in a.spaces && ThreeSteps(a, b, c, d, r, v, x1, x2, y, free)
    ensures Missing(a.mem, r, v) <= |free|
    ensures forall k: Table | k.root in a.spaces ::
              && (Locate(a.mem, k).Some? ==> Locate(d.mem, k) == Locate(a.mem, k))
              && (Locate(d.mem, k).Some? <==> Locate(a.mem, k).Some? || OnPath(r, v, k))
  {
    hide Walk, Locate, IsTable;
    RootLocated(a.mem, r);
    RootLocated(d.mem, r);
  }

  /** The tables that are new in b are in the k topmost free frames. */
  ghost predicate FramesTaken(a: View, b: View, k: nat, free: seq<Frame>) {
    k <= |free|
    && forall g: Frame :: IsTable(b.mem, b.spaces, g) <==> IsTable(a.mem, a.spaces, g) || g in free[..k]
  }

  lemma StepFrames(a: View, b: View, c: View, d: View, r: Frame, v: Page, x1: Frame, x2: Frame, y: Frame,
                   free: seq<Frame>)
    requires r in a.spaces && ThreeSteps(a, b, c, d, r, v, x1, x2, y, free)
    ensures FramesTaken(a, d, Missing(a.mem, r, v), free)
  {
    hide Walk, Locate, IsTable;
    var k1 := Wanted(a.mem, Pdp(r, v.i4));
    var k2 := k1 + Wanted(b.mem, Dir(r, v.i4, v.i3));
    var k3 := k2 + Wanted(c.mem, Pt(r, v.i4, v.i3, v.i2));
    StepTables(a, b, c, d, r, v, x1, x2, y, free);
    assert k3 == Missing(a.mem, r, v);
    assert free[..k2] == free[..k1] + Rest(free, k1)[..k2 - k1];
    assert free[..k3] == free[..k2] + Rest(free, k2)[..k3 - k2];
  }

  lemma StepWalks(a: View, b: View, c: View, d: View, r: Frame, v: Page, x1: Frame, x2: Frame, y: Frame,
                  free: seq<Frame>)
    requires r in a.spaces && ThreeSteps(a, b, c, d, r, v, x1, x2, y, free)
    ensures forall s: Frame, p | s in a.spaces && !(s == a.cr3 && p == WINDOW) ::
              Walk(d.mem, s, p) ==
              if s == r && SameRegion(p, v) && Walk(a.mem, s, p).Large? then Unmapped else Walk(a.mem, s, p)
  {
    hide Walk, Locate, IsTable, Wanted;
  }

  /** Page v of address space root maps to p; the tables this took are exactly the topmost free frames. */
  ghost predicate Mapped(a: View, b: View, root: Frame, v: Page, p: Frame, free: seq<Frame>) {
    && Missing(a.mem, root, v) <= |free|
    && (forall k: Table | k.root in a.spaces ::
          && (Locate(a.mem, k).Some? ==> Locate(b.mem, k) == Locate(a.mem, k))
          && (Locate(b.mem, k).Some? <==> Locate(a.mem, k).Some? || OnPath(root, v, k)))
    && (forall g: Frame :: IsTable(b.mem, b.spaces, g) <==>
          IsTable(a.mem, a.spaces, g) || g in free[..Missing(a.mem, root, v)])
    && forall r: Frame, q | r in a.spaces && !(r == a.cr3 && q == WINDOW) ::
         Walk(b.mem, r, q) == AfterMap(root, v, p, r, q, Walk(a.mem, r, q))
  }

  /** The translation of page q in address space r after Map(v, p) in address space root, from what it was. */
  function AfterMap(root: Frame, v: Page, p: Frame, r: Frame, q: Page, was: Mapping): Mapping {
    if r == root && q == v then Small(p)
    else if r == root && SameRegion(q, v) && was.Large? then Unmapped
    else was
  }

  lemma MissingSame(a: View, b: View, root: Frame, v: Page, free: seq<Frame>)
    requires root in a.spaces && a.cr3 in a.spaces && b.cr3 == a.cr3
    requires forall k: Table | k.root in a.spaces :: Locate(b.mem, k) == Locate(a.mem, k)
    requires forall s: Frame, p | s in a.spaces && !(s == a.cr3 && p == WINDOW) ::
               Walk(b.mem, s, p) == Walk(a.mem, s, p)
    ensures Missing(b.mem, root, v) == Missing(a.mem, root, v)
    ensures v != WINDOW ==> forall p :: Sparing(b, free, v, p) <==> Sparing(a, free, v, p)
  {
  }

  lemma ReachedTable(a: View, b: View, root: Frame, v: Page, y: Frame, free: seq<Frame>)
    requires Reached(a, b, root, v, y, free)
    ensures Locate(b.mem, Pt(root, v.i4, v.i3, v.i2)) == Some(y)
  {
  }

  lemma SparingScratch(s: View, free: seq<Frame>, v: Page, p: Frame)
    ensures Sparing(s, free, v, p) ==> v != WINDOW
  {
  }

  lemma NeedlessScratch(s: View, free: seq<Frame>, v: Page)
    ensures Needless(s, free, v) ==> v != WINDOW
  {
  }

  lemma FirstFree(v: View, free: seq<Frame>)
    requires Loose(v, free)
    ensures free != [] ==> !IsTable(v.mem, v.spaces, free[0])
  {
    assert free != [] ==> free[0] in free;
  }

  /** What Map may rely on when it comes to write the entry of page v. */
  lemma KeptPages(a: View, free: seq<Frame>, v: Page, p: Frame, r: Frame)
    requires Sound(a, free) && r in a.spaces && (r == a.cr3 ==> Sparing(a, free, v, p))
    requires Missing(a.mem, r, v) <= |free|
    ensures var out := r == a.cr3 && Walk(a.mem, a.cr3, v).Large? && PageOf(p) == v;
            var kept := Kept(free, p, out);
            var k := Missing(a.mem, r, v);
            && k <= |kept| && kept[..k] == free[..k]
            && (r == a.cr3 ==> forall g :: (g in kept[k..] || g == a.cr3 + 3) && PageOf(g) == v ==> g == p)
            && forall g :: g in free[k..] && g !in kept[k..] ==> g == p && PageOf(g) == v && r == a.cr3
  {
    hide Walk, Missing, PageOf, Sound, Kept;
    var out := r == a.cr3 && Walk(a.mem, a.cr3, v).Large? && PageOf(p) == v;
    KeptFacts(a, free, v, p, r);
    MappedMissing(a.mem, r, v);
    var kept, k := Kept(free, p, out), Missing(a.mem, r, v);
    SoundFrames(a, free);
    assert kept == kept[..k] + kept[k..];
    forall g | g in free[k..]
      ensures g !in free[..k] && g in free
    {
      assert free == free[..k] + free[k..];
    }
  }

  /** A free frame that could not be reached for a while is reached at page v again. */
  lemma Readmitted(e: View, free: seq<Frame>, kept: seq<Frame>, v: Page, f: Frame)
    requires Sound(e, kept) && Loose(e, free)
    requires forall g :: g in free && g !in kept ==>
               g == f && PageOf(g) == v && v != WINDOW && Walk(e.mem, e.cr3, v) == Small(f)
    ensures Sound(e, free)
  {
    hide Walk, PageOf, Forest, IsTable;
    forall g | g in free
      ensures Identity(e, g)
    {
      assert Agrees(e.mem, e.tlb, e.cr3, v);
    }
  }

  /** Only the scratch page has moved. */
  ghost predicate Moved(a: View, b: View) {
    && b.cr3 == a.cr3 && b.spaces == a.spaces
    && (forall k: Table | k.root in a.spaces :: Locate(b.mem, k) == Locate(a.mem, k))
    && (forall g: Frame :: IsTable(b.mem, b.spaces, g) <==> IsTable(a.mem, a.spaces, g))
    && forall r: Frame, p | r in a.spaces && !(r == a.cr3 && p == WINDOW) :: Walk(b.mem, r, p) == Walk(a.mem, r, p)
  }

  /** ... in memory and in the buffer: the scratch entry leads elsewhere, and pages without a translation have gained
      none. */
  ghost predicate Shifted(a: View, b: View) {
    && a.cr3 < MAX_ROOT
    && (forall s: Slot :: s != WindowSlot(a.cr3) ==> b.mem[s] == a.mem[s])
    && b.mem[WindowSlot(a.cr3)] == a.mem[WindowSlot(a.cr3)].(frame := b.mem[WindowSlot(a.cr3)].frame)
    && forall p :: p != WINDOW && Walk(a.mem, a.cr3, p) == Unmapped && p in b.tlb ==> p in a.tlb && b.tlb[p] == a.tlb[p]
  }

  lemma ShiftedOnce(a: View, b: View, f: Frame)
    requires Moved(a, b) && a.cr3 in a.spaces && a.cr3 < MAX_ROOT && b.mem == Pointing(a.mem, a.cr3, f)
    requires Speculated(a.tlb - {WINDOW}, b.tlb, b.mem, b.cr3)
    ensures Shifted(a, b)
  {
    hide Walk, Locate, IsTable;
  }

  lemma ShiftedTwice(a: View, b: View, c: View)
    requires Moved(a, b) && Shifted(a, b) && Shifted(b, c) && a.cr3 in a.spaces
    ensures Shifted(a, c)
  {
    hide Walk, Locate, IsTable;
  }

  lemma Onward(a: View, b: View, c: View)
    requires Moved(a, b) && Moved(b, c) && Shifted(a, b) && Shifted(b, c) && a.cr3 in a.spaces
    ensures Moved(a, c) && Shifted(a, c) && c.cr3 == a.cr3 && c.spaces == a.spaces
  {
    hide Walk, Locate, IsTable, Shifted;
    ShiftedTwice(a, b, c);
  }

  lemma NotShifted(a: View)
    requires a.cr3 < MAX_ROOT
    ensures Shifted(a, a) && Moved(a, a)
  {
  }

  /** Map as a whole, from the states after its phases. */
  lemma MapDone(a: View, b: View, c: View, d: View, e: View, free: seq<Frame>, kept: seq<Frame>, r: Frame, v: Page,
                y: Frame, f: Frame)
    requires r in a.spaces && a.cr3 == b.cr3 == c.cr3 && a.spaces == b.spaces == c.spaces
    requires r == a.cr3 ==> v != WINDOW
    requires Missing(b.mem, r, v) == Missing(a.mem, r, v) && Missing(a.mem, r, v) <= |kept|
    requires r == a.cr3 ==> forall g :: (g in kept[Missing(a.mem, r, v)..] || g == a.cr3 + 3) && PageOf(g) == v ==>
               f == g
    requires forall k: Table | k.root in a.spaces :: Locate(b.mem, k) == Locate(a.mem, k)
    requires forall g: Frame :: IsTable(b.mem, b.spaces, g) <==> IsTable(a.mem, a.spaces, g)
    requires forall s: Frame, p | s in a.spaces && !(s == a.cr3 && p == WINDOW) ::
               Walk(b.mem, s, p) == Walk(a.mem, s, p)
    requires Reached(b, c, r, v, y, free)
    requires Sound(c, kept[Missing(a.mem, r, v)..]) && Loose(c, free[Missing(a.mem, r, v)..])
    requires Midway(c, d, Pt(r, v.i4, v.i3, v.i2), v.i1, y, {}) && d.mem[Slot(y, v.i1)] == TableEntry(f)
    requires Settled(d.mem, d.tlb, d.cr3, WINDOW, y)
    requires e == d.(tlb := e.tlb) && Speculated(d.tlb - {v}, e.tlb, d.mem, d.cr3)
    ensures Sound(e, kept[Missing(a.mem, r, v)..]) && Loose(e, free[Missing(a.mem, r, v)..])
            && Mapped(a, e, r, v, f, free)
    ensures Walk(e.mem, r, v) == Small(f) && (r == a.cr3 && v in e.tlb ==> e.tlb[v] == f)
  {
    hide Sound, Walk, Locate, PageOf;
    var n := Pt(r, v.i4, v.i3, v.i2);
    SoundLeaf(c, d, e, kept[Missing(a.mem, r, v)..], n, v.i1, y, v);
    forall k: Table | k.root in a.spaces
      ensures Locate(d.mem, k) == Locate(c.mem, k)
    {
      MidwayTable(c, d, n, v.i1, y, {}, k);
    }
    forall s: Frame, q | s in a.spaces && !(s == a.cr3 && q == WINDOW)
      ensures Walk(e.mem, s, q) == AfterMap(r, v, f, s, q, Walk(a.mem, s, q))
    {
      if !(s == r && q == v) {
        MidwayWalk(c, d, n, v.i1, y, {}, s, q);
      }
    }
  }

  /** Memory after the three steps to the last-level table of page v in frame y: the tables that were missing are the
      topmost free frames in order, and each step has done to memory what StepMemory says. */
  ghost predicate Descended(a: Memory, b: Memory, cr3: Frame, root: Frame, v: Page, y: Frame, free: seq<Frame>) {
    && cr3 < MAX_ROOT
    && Locate(b, Pdp(root, v.i4)).Some? && Locate(b, Dir(root, v.i4, v.i3)).Some?
    && Locate(b, Pt(root, v.i4, v.i3, v.i2)) == Some(y)
    && InOrder(a, b, root, v, free)
    && b == DescentMemory(a, cr3, v, WayOf(a, b, root, v))
  }

  /** The four tables on the way to a page, and which of the lower three had to be made. */
  datatype Way = Way(root: Frame, x1: Frame, x2: Frame, y: Frame, new1: bool, new2: bool, new3: bool)

  ghost function WayOf(a: Memory, b: Memory, root: Frame, v: Page): Way
    requires Locate(b, Pdp(root, v.i4)).Some? && Locate(b, Dir(root, v.i4, v.i3)).Some?
    requires Locate(b, Pt(root, v.i4, v.i3, v.i2)).Some?
  {
    Way(root, Locate(b, Pdp(root, v.i4)).value, Locate(b, Dir(root, v.i4, v.i3)).value,
        Locate(b, Pt(root, v.i4, v.i3, v.i2)).value, Locate(a, Pdp(root, v.i4)).None?,
        Locate(a, Dir(root, v.i4, v.i3)).None?, Locate(a, Pt(root, v.i4, v.i3, v.i2)).None?)
  }

  ghost function DescentMemory(m: Memory, cr3: Frame, v: Page, w: Way): Memory
    requires cr3 < MAX_ROOT
  {
    var m1 := StepMemory(m, cr3, w.root, v.i4, w.x1, w.new1);
    var m2 := StepMemory(m1, cr3, w.x1, v.i3, w.x2, w.new2);
    StepMemory(m2, cr3, w.x2, v.i2, w.y, w.new3)
  }

  /** Tables that were missing on the way to page v are in the topmost free frames, the upper ones first. */
  ghost predicate InOrder(a: Memory, b: Memory, root: Frame, v: Page, free: seq<Frame>) {
    var k1, k2 := Wanted(a, Pdp(root, v.i4)), Wanted(a, Dir(root, v.i4, v.i3));
    && Missing(a, root, v) <= |free|
    && (k1 == 1 ==> Locate(b, Pdp(root, v.i4)) == Some(free[0]))
    && (k2 == 1 ==> Locate(b, Dir(root, v.i4, v.i3)) == Some(free[k1]))
    && (Wanted(a, Pt(root, v.i4, v.i3, v.i2)) == 1 ==> Locate(b, Pt(root, v.i4, v.i3, v.i2)) == Some(free[k1 + k2]))
  }

  /** Memory after Map, to the last word. */
  ghost predicate Stored(a: Memory, b: Memory, cr3: Frame, root: Frame, v: Page, p: Frame, free: seq<Frame>) {
    && cr3 < MAX_ROOT
    && Locate(b, Pdp(root, v.i4)).Some? && Locate(b, Dir(root, v.i4, v.i3)).Some?
    && Locate(b, Pt(root, v.i4, v.i3, v.i2)).Some?
    && InOrder(a, b, root, v, free)
    && var w := WayOf(a, b, root, v);
       b == DescentMemory(Pointing(a, cr3, root), cr3, v, w)[Slot(w.y, v.i1) := TableEntry(p)]
  }

  lemma AllDescended(a: View, b: View, c: View, d: View, r: Frame, v: Page, x1: Frame, x2: Frame, y: Frame,
                     free: seq<Frame>)
    requires r in a.spaces && a.cr3 < MAX_ROOT && ThreeSteps(a, b, c, d, r, v, x1, x2, y, free)
    requires var k1 := Wanted(a.mem, Pdp(r, v.i4));
             b.mem == StepMemory(a.mem, a.cr3, r, v.i4, x1, k1 == 1) && (k1 == 1 ==> |free| > 0 && x1 == free[0])
    requires var k1, k2 := Wanted(a.mem, Pdp(r, v.i4)), Wanted(b.mem, Dir(r, v.i4, v.i3));
             && c.mem == StepMemory(b.mem, a.cr3, x1, v.i3, x2, k2 == 1)
             && (k2 == 1 ==> |free| > k1 && x2 == Rest(free, k1)[0])
    requires var k := Wanted(a.mem, Pdp(r, v.i4)) + Wanted(b.mem, Dir(r, v.i4, v.i3));
             var k3 := Wanted(c.mem, Pt(r, v.i4, v.i3, v.i2));
             && k + k3 <= |free| && d.mem == StepMemory(c.mem, a.cr3, x2, v.i2, y, k3 == 1)
             && (k3 == 1 ==> y == Rest(free, k)[0])
    ensures Descended(a.mem, d.mem, a.cr3, r, v, y, free)
  {
    hide Walk, Locate, StepMemory, Entered, ThreeSteps;
    StepTables(a, b, c, d, r, v, x1, x2, y, free);
  }

  /** Where the three steps find their tables, and where those are in the end. */
  lemma StepTables(a: View, b: View, c: View, d: View, r: Frame, v: Page, x1: Frame, x2: Frame, y: Frame,
                   free: seq<Frame>)
    requires r in a.spaces && ThreeSteps(a, b, c, d, r, v, x1, x2, y, free)
    ensures Wanted(b.mem, Dir(r, v.i4, v.i3)) == Wanted(a.mem, Dir(r, v.i4, v.i3))
    ensures Wanted(c.mem, Pt(r, v.i4, v.i3, v.i2)) == Wanted(a.mem, Pt(r, v.i4, v.i3, v.i2))
    ensures Locate(d.mem, Pdp(r, v.i4)) == Some(x1) && Locate(d.mem, Dir(r, v.i4, v.i3)) == Some(x2)
    ensures Locate(d.mem, Pt(r, v.i4, v.i3, v.i2)) == Some(y)
  {
    hide Walk, Locate;
  }

  /** The word that Map leaves at s, if it is not the scratch entry: an entry on the way to the page if that has been
      made, zero elsewhere in a new table, and what was there before in all other places. */
  function WordAfter(was: Word, v: Page, p: Frame, w: Way, s: Slot): Word {
    if s == Slot(w.y, v.i1) then TableEntry(p)
    else if s == Slot(w.x2, v.i2) && w.new3 then TableEntry(w.y)
    else if s == Slot(w.x1, v.i3) && w.new2 then TableEntry(w.x2)
    else if s == Slot(w.root, v.i4) && w.new1 then TableEntry(w.x1)
    else if (w.new1 && s.frame == w.x1) || (w.new2 && s.frame == w.x2) || (w.new3 && s.frame == w.y) then ZERO
    else was
  }

  predicate Different(w: Way) {
    w.root != w.x1 && w.root != w.x2 && w.root != w.y && w.x1 != w.x2 && w.x1 != w.y && w.x2 != w.y
  }

  lemma DescentAt(m: Memory, cr3: Frame, v: Page, w: Way, p: Frame, s: Slot)
    requires cr3 < MAX_ROOT && Different(w) && s != WindowSlot(cr3)
    requires (w.new1 ==> w.new2) && (w.new2 ==> w.new3)
    ensures DescentMemory(Pointing(m, cr3, w.root), cr3, v, w)[Slot(w.y, v.i1) := TableEntry(p)][s] ==
            WordAfter(m[s], v, p, w, s)
  {
    hide TableEntry, StepMemory;
    var m0 := Pointing(m, cr3, w.root);
    var m1 := StepMemory(m0, cr3, w.root, v.i4, w.x1, w.new1);
    var m2 := StepMemory(m1, cr3, w.x1, v.i3, w.x2, w.new2);
    StepAt(m0, cr3, w.root, v.i4, w.x1, w.new1, s);
    StepAt(m1, cr3, w.x1, v.i3, w.x2, w.new2, s);
    StepAt(m2, cr3, w.x2, v.i2, w.y, w.new3, s);
  }

  lemma StepAt(m: Memory, cr3: Frame, x: Frame, i: Index, y: Frame, taken: bool, s: Slot)
    requires cr3 < MAX_ROOT && s != WindowSlot(cr3)
    ensures StepMemory(m, cr3, x, i, y, taken)[s] ==
            if taken && s.frame == y then ZERO else if taken && s == Slot(x, i) then TableEntry(y) else m[s]
  {
    hide TableEntry;
  }

  /** What Map does to a word, from its two contracts. */
  lemma MapWords(a: View, b: View, r: Frame, v: Page, p: Frame, free: seq<Frame>)
    requires Stored(a.mem, b.mem, a.cr3, r, v, p, free) && Separate(b.mem, b.spaces) && r in b.spaces
    ensures var w := WayOf(a.mem, b.mem, r, v);
            && Different(w) && (w.new1 ==> w.new2) && (w.new2 ==> w.new3)
            && forall s: Slot :: s != WindowSlot(a.cr3) ==> b.mem[s] == WordAfter(a.mem[s], v, p, w, s)
  {
    hide Locate, DescentMemory, WordAfter, TableEntry;
    var w := WayOf(a.mem, b.mem, r, v);
    RootLocated(b.mem, r);
    LocateStep(a.mem, Dir(r, v.i4, v.i3));
    LocateStep(a.mem, Pt(r, v.i4, v.i3, v.i2));
    assert Locate(b.mem, Pml4(r)) == Some(r) && Locate(b.mem, Pdp(r, v.i4)) == Some(w.x1);
    forall s: Slot | s != WindowSlot(a.cr3)
      ensures b.mem[s] == WordAfter(a.mem[s], v, p, w, s)
    {
      DescentAt(a.mem, a.cr3, v, w, p, s);
    }
  }

  /** Map leaves alone all words of frames that hold no table afterwards. */
  lemma MapKeeps(a: View, b: View, r: Frame, v: Page, p: Frame, free: seq<Frame>, s: Slot)
    requires Stored(a.mem, b.mem, a.cr3, r, v, p, free) && Forest(b) && b.cr3 == a.cr3 && r in b.spaces
    requires !IsTable(b.mem, b.spaces, s.frame)
    ensures b.mem[s] == a.mem[s]
  {
    hide Locate, DescentMemory, TableEntry;
    MapWords(a, b, r, v, p, free);
    var w := WayOf(a.mem, b.mem, r, v);
    RootLocated(b.mem, r);
    IsTableIntro(b.mem, b.spaces, Pml4(r), r);
    IsTableIntro(b.mem, b.spaces, Pdp(r, v.i4), w.x1);
    IsTableIntro(b.mem, b.spaces, Dir(r, v.i4, v.i3), w.x2);
    IsTableIntro(b.mem, b.spaces, Pt(r, v.i4, v.i3, v.i2), w.y);
    IsTableIntro(b.mem, b.spaces, WindowTable(b.cr3), b.cr3 + 3);
  }

  /** So does UnMap. */
  lemma UnMapKeeps(a: View, b: View, r: Frame, v: Page, s: Slot)
    requires Emptied(a.mem, b.mem, a.cr3, r, v) && Forest(a) && r in a.spaces
    requires !IsTable(a.mem, a.spaces, s.frame)
    ensures b.mem[s] == a.mem[s]
  {
    hide Locate;
    IsTableIntro(a.mem, a.spaces, WindowTable(a.cr3), a.cr3 + 3);
    if Maps(a.mem, r, v, s) {
      if Locate(a.mem, Pt(r, v.i4, v.i3, v.i2)) == Some(s.frame) {
        IsTableIntro(a.mem, a.spaces, Pt(r, v.i4, v.i3, v.i2), s.frame);
      } else {
        IsTableIntro(a.mem, a.spaces, Dir(r, v.i4, v.i3), s.frame);
      }
    }
  }

  lemma MapStored(a: View, b: View, c: View, d: View, free: seq<Frame>, r: Frame, v: Page, y: Frame, f: Frame)
    requires Moved(a, b) && r in a.spaces && c.cr3 == a.cr3 < MAX_ROOT && c.spaces == a.spaces
    requires b.mem == Pointing(a.mem, a.cr3, r) && Descended(b.mem, c.mem, a.cr3, r, v, y, free)
    requires Midway(c, d, Pt(r, v.i4, v.i3, v.i2), v.i1, y, {}) && d.mem == c.mem[Slot(y, v.i1) := TableEntry(f)]
    ensures Stored(a.mem, d.mem, a.cr3, r, v, f, free)
  {
    hide Walk, Locate, StepMemory, Midway, DescentMemory;
    var n := Pt(r, v.i4, v.i3, v.i2);
    MidwayRoot(c, d, n, v.i1, y);
    MidwayTable(c, d, n, v.i1, y, {}, Pdp(r, v.i4));
    MidwayTable(c, d, n, v.i1, y, {}, Dir(r, v.i4, v.i3));
    MidwayTable(c, d, n, v.i1, y, {}, n);
  }

  lemma MidwayRoot(a: View, b: View, n: Table, i: Index, x: Frame)
    requires Midway(a, b, n, i, x, {})
    ensures Touched(a, b, n, i, x, {}) && n.root in a.spaces
  {
  }

  /** The free frames that are reached at their own address throughout Map(v, f). */
  ghost function Spared(s: View, free: seq<Frame>, r: Frame, v: Page, f: Frame): seq<Frame> {
    Kept(free, f, r == s.cr3 && Walk(s.mem, s.cr3, v).Large? && PageOf(f) == v)
  }

  /** What Map may rely on once the scratch page shows the root table. */
  lemma MapBegins(a: View, b: View, free: seq<Frame>, r: Frame, v: Page, f: Frame)
    requires Moved(a, b) && Sound(a, free) && Sound(b, free) && r in a.spaces
    requires r == a.cr3 ==> Sparing(a, free, v, f)
    ensures Missing(b.mem, r, v) == Missing(a.mem, r, v) && (r == a.cr3 ==> v != WINDOW)
    ensures r == b.cr3 ==> Sparing(b, free, v, f)
    ensures var kept := Spared(b, free, r, v, f);
            && Sound(b, kept) && Loose(b, free) && Leads(free, kept, Missing(b.mem, r, v))
            && (r == b.cr3 && Walk(b.mem, b.cr3, v).Large? && free != [] ==>
                  forall g :: g in kept || g == b.cr3 + 3 ==> !SameRegion(PageOf(g), v))
  {
    hide Sound, Walk, Locate, Missing, PageOf, Leads, Kept, SameRegion, Sparing;
    SoundFrames(a, free);
    SoundFrames(b, free);
    SparingScratch(a, free, v, f);
    MissingSame(a, b, r, v, free);
    KeptFacts(b, free, v, f, r);
  }

  /** ... and what it comes to. */
  lemma MapEnds(a: View, b: View, c: View, d: View, e: View, free: seq<Frame>, r: Frame, v: Page, y: Frame, f: Frame)
    requires Moved(a, b) && Sound(a, free) && Sound(b, free) && r in a.spaces
    requires c.cr3 == d.cr3 == a.cr3 && c.spaces == a.spaces && Missing(a.mem, r, v) <= |free|
    requires r == a.cr3 ==> Sparing(a, free, v, f)
    requires Reached(b, c, r, v, y, free)
    requires Sound(c, Rest(Spared(b, free, r, v, f), Missing(a.mem, r, v)))
    requires Loose(c, Rest(free, Missing(a.mem, r, v)))
    requires Midway(c, d, Pt(r, v.i4, v.i3, v.i2), v.i1, y, {}) && d.mem[Slot(y, v.i1)] == TableEntry(f)
    requires Settled(d.mem, d.tlb, d.cr3, WINDOW, y)
    requires e == d.(tlb := e.tlb) && Speculated(d.tlb - {v}, e.tlb, d.mem, d.cr3)
    ensures Rest(free, Missing(a.mem, r, v)) == free[Missing(a.mem, r, v)..]
    ensures Sound(e, Rest(free, Missing(a.mem, r, v))) && Mapped(a, e, r, v, f, free)
    ensures r == a.cr3 && v in e.tlb ==> e.tlb[v] == f
  {
    hide Sound, Loose, Walk, Locate, Missing, PageOf, Kept, Sparing, Reached, Midway, Mapped;
    MapBegins(a, b, free, r, v, f);
    KeptPages(b, free, v, f, r);
    MapDone(a, b, c, d, e, free, Spared(b, free, r, v, f), r, v, y, f);
    Readmitted(e, Rest(free, Missing(a.mem, r, v)), Rest(Spared(b, free, r, v, f), Missing(a.mem, r, v)), v, f);
  }

  lemma MovedTwice(a: View, b: View, c: View)
    requires Moved(a, b) && Moved(b, c)
    ensures Moved(a, c) && c.cr3 == a.cr3 && c.spaces == a.spaces
  {
  }

  /** The translation of page q in address space r after UnMap(v) in address space root, from what it was. */
  function AfterUnMap(root: Frame, v: Page, r: Frame, q: Page, was: Mapping): Mapping {
    if r == root && (q == v || (SameRegion(q, v) && was.Large?)) then Unmapped else was
  }

  ghost predicate Unmapping(a: View, b: View, root: Frame, v: Page) {
    && (forall k: Table | k.root in a.spaces :: Locate(b.mem, k) == Locate(a.mem, k))
    && (forall g: Frame :: IsTable(b.mem, b.spaces, g) <==> IsTable(a.mem, a.spaces, g))
    && forall r: Frame, q | r in a.spaces && !(r == a.cr3 && q == WINDOW) ::
         Walk(b.mem, r, q) == AfterUnMap(root, v, r, q, Walk(a.mem, r, q))
  }

  /** The word that UnMap(v) clears the presence bit of: the last-level entry of v, whether or not it is present, or the
      2 MiB leaf over v. */
  ghost predicate Maps(m: Memory, root: Frame, v: Page, s: Slot) {
    || (Locate(m, Pt(root, v.i4, v.i3, v.i2)) == Some(s.frame) && s.index == v.i1)
    || (Locate(m, Dir(root, v.i4, v.i3)) == Some(s.frame) && s.index == v.i2 && m[s].present && m[s].large)
  }

  /** UnMap comes to such a word. */
  ghost predicate HasEntry(m: Memory, root: Frame, v: Page) {
    Locate(m, Pt(root, v.i4, v.i3, v.i2)).Some? || Walk(m, root, v).Large?
  }

  /** Memory after UnMap: but for the frame of the scratch entry, only that word has changed. */
  ghost predicate Emptied(a: Memory, b: Memory, cr3: Frame, root: Frame, v: Page) {
    && cr3 < MAX_ROOT
    && (forall s: Slot :: s != WindowSlot(cr3) ==>
          b[s] == if Maps(a, root, v, s) then a[s].(present := false) else a[s])
    && b[WindowSlot(cr3)] == a[WindowSlot(cr3)].(frame := b[WindowSlot(cr3)].frame)
  }

  /** Nothing to clear. */
  lemma NothingEmptied(a: View, b: View, r: Frame, v: Page, f: Frame)
    requires Moved(a, b) && Shifted(a, b) && r in a.spaces && a.cr3 in a.spaces && (r == a.cr3 ==> v != WINDOW)
    requires Locate(b.mem, Pdp(r, v.i4)) == None || Locate(b.mem, Dir(r, v.i4, v.i3)) == None
             || (Locate(b.mem, Dir(r, v.i4, v.i3)) == Some(f) && !b.mem[Slot(f, v.i2)].present)
    ensures Emptied(a.mem, b.mem, a.cr3, r, v) && !HasEntry(a.mem, r, v)
    ensures r == a.cr3 && v in b.tlb ==> v in a.tlb && b.tlb[v] == a.tlb[v]
  {
    hide Locate, Walk, IsTable;
    LocateStep(b.mem, Dir(r, v.i4, v.i3));
    LocateStep(b.mem, Pt(r, v.i4, v.i3, v.i2));
    WalkTables(b.mem, r, v);
    forall s: Slot | s != WindowSlot(a.cr3)
      ensures !Maps(a.mem, r, v, s)
    {
      assert b.mem[s] == a.mem[s] && s == Slot(s.frame, s.index);
    }
  }

  /** Entry i of table n, which is the one that Maps means, has been cleared. */
  lemma EntryEmptied(a: View, b: View, c: Memory, r: Frame, v: Page, n: Table, i: Index, x: Frame)
    requires Moved(a, b) && Shifted(a, b) && r in a.spaces && n.root == r && Locate(b.mem, n) == Some(x)
    requires (n == Pt(r, v.i4, v.i3, v.i2) && i == v.i1)
             || (n == Dir(r, v.i4, v.i3) && i == v.i2 && b.mem[Slot(x, i)].present && b.mem[Slot(x, i)].large)
    requires r == a.cr3 ==> v != WINDOW
    requires Slot(x, i) != WindowSlot(a.cr3) && c == b.mem[Slot(x, i) := b.mem[Slot(x, i)].(present := false)]
    ensures Emptied(a.mem, c, a.cr3, r, v) && HasEntry(a.mem, r, v)
  {
    hide Locate, Walk, IsTable;
    LocateStep(b.mem, Pt(r, v.i4, v.i3, v.i2));
    WalkTables(b.mem, r, v);
    forall s: Slot | s != WindowSlot(a.cr3)
      ensures Maps(a.mem, r, v, s) <==> s == Slot(x, i)
    {
      assert b.mem[s] == a.mem[s] && s == Slot(s.frame, s.index);
    }
  }

  /** Entry i of table n is the one that maps page v, and no page that must stay depends on it. */
  ghost predicate Drops(s: View, free: seq<Frame>, n: Table, i: Index, x: Frame, v: Page) {
    && n.root in s.spaces && Locate(s.mem, n) == Some(x) && Through(n, i, n.root, v)
       && (n.root == s.cr3 ==> v != WINDOW)
    && (n.Pt? || (n.Dir? && s.mem[Slot(x, i)].present && s.mem[Slot(x, i)].large))
    && (n.root == s.cr3 ==> forall f :: f in free || f == s.cr3 + 3 ==> !Through(n, i, s.cr3, PageOf(f)))
  }

  lemma OpenDrop(a: View, free: seq<Frame>, n: Table, i: Index, x: Frame, v: Page)
    requires Sound(a, free) && Drops(a, free, n, i, x, v)
    ensures n.root in a.spaces && Locate(a.mem, n) == Some(x) && !Through(n, i, a.cr3, WINDOW)
  {
    hide Walk, Locate, PageOf;
    ForestWindow(a);
    if Through(n, i, a.cr3, WINDOW) {
      MappedThrough(a.mem, n, i, x, a.cr3, WINDOW);
    }
  }

  lemma Dropped(a: View, b: View, c: View, free: seq<Frame>, n: Table, i: Index, x: Frame, v: Page)
    requires Sound(a, free) && Drops(a, free, n, i, x, v) && Midway(a, b, n, i, x, {})
    requires b.mem == a.mem[Slot(x, i) := a.mem[Slot(x, i)].(present := false)]
    requires Settled(b.mem, b.tlb, b.cr3, WINDOW, x)
    requires c == b.(tlb := c.tlb) && Speculated(b.tlb - {v}, c.tlb, c.mem, c.cr3)
    ensures Sound(c, free) && Unmapping(a, c, n.root, v) && (n.root == a.cr3 ==> v !in c.tlb)
  {
    hide Walk, Locate, PageOf;
    OpenDrop(a, free, n, i, x, v);
    DroppedTables(a, b, free, n, i, x, v);
    MidwayWindow(a, b, n, i, x, {});
    forall r: Frame, q | r in a.spaces && !(r == a.cr3 && q == WINDOW)
      ensures Walk(c.mem, r, q) == AfterUnMap(n.root, v, r, q, Walk(a.mem, r, q))
    {
      if !Through(n, i, r, q) {
        MidwayWalk(a, b, n, i, x, {}, r, q);
      }
    }
    forall p
      ensures Agrees(c.mem, c.tlb, c.cr3, p)
    {
      if !Through(n, i, a.cr3, p) && p != WINDOW {
        assert Agrees(b.mem, b.tlb, b.cr3, p);
      }
    }
    forall f | f in free || f == a.cr3 + 3
      ensures Identity(c, f)
    {
      MidwayIdentity(a, b, n, i, x, {}, f);
      assert Agrees(c.mem, c.tlb, c.cr3, PageOf(f));
    }
  }

  /** Clearing the entry moves no table and unmaps the pages that read it. */
  lemma DroppedTables(a: View, b: View, free: seq<Frame>, n: Table, i: Index, x: Frame, v: Page)
    requires Sound(a, free) && Drops(a, free, n, i, x, v) && Midway(a, b, n, i, x, {})
    requires b.mem == a.mem[Slot(x, i) := a.mem[Slot(x, i)].(present := false)]
    ensures forall k: Table | k.root in a.spaces :: Locate(b.mem, k) == Locate(a.mem, k)
    ensures Separate(b.mem, b.spaces)
    ensures forall g: Frame :: IsTable(b.mem, b.spaces, g) <==> IsTable(a.mem, a.spaces, g)
    ensures forall q | Through(n, i, n.root, q) :: Walk(b.mem, n.root, q) == Unmapped
    ensures forall q | SameRegion(q, v) && n.Pt? :: !Walk(a.mem, n.root, q).Large?
    ensures forall q | SameRegion(q, v) && n.Dir? :: Walk(a.mem, n.root, q).Large?
  {
    hide Walk, Locate, PageOf, Sound, Agrees;
    forall k: Table | k.root in a.spaces
      ensures Locate(b.mem, k) == Locate(a.mem, k)
    {
      if Below(n, i, k) {
        LocateStep(a.mem, k);
        LocateStep(b.mem, k);
        MidwayTable(a, b, n, i, x, {}, n);
      } else {
        MidwayTable(a, b, n, i, x, {}, k);
      }
    }
    SameTables(a.mem, b.mem, a.spaces);
    forall q | SameRegion(q, v)
      ensures Through(n, i, n.root, q) ==> Walk(b.mem, n.root, q) == Unmapped
      ensures n.Pt? ==> !Walk(a.mem, n.root, q).Large?
      ensures n.Dir? ==> Walk(a.mem, n.root, q).Large?
    {
      WalkTables(a.mem, n.root, q);
      WalkTables(b.mem, n.root, q);
    }
  }

  /** The pages of one 2 MiB region are mapped by a 2 MiB leaf together or not at all. */
  lemma RegionLarge(m: Memory, root: Frame, p: Page, q: Page)
    requires SameRegion(p, q)
    ensures Walk(m, root, p).Large? <==> Walk(m, root, q).Large?
  {
    hide Walk, Locate;
    WalkTables(m, root, p);
    WalkTables(m, root, q);
  }

  /** The early returns of UnMap. */
  lemma AlreadyUnmapped(a: View, b: View, r: Frame, v: Page, f: Frame)
    requires Moved(a, b) && r in a.spaces && (r == a.cr3 ==> v != WINDOW)
    requires Locate(b.mem, Pdp(r, v.i4)) == None || Locate(b.mem, Dir(r, v.i4, v.i3)) == None
             || (Locate(b.mem, Dir(r, v.i4, v.i3)) == Some(f) && !b.mem[Slot(f, v.i2)].present)
    ensures Walk(a.mem, r, v) == Unmapped && Unmapping(a, b, r, v)
  {
    hide Locate, Walk;
    LocateStep(b.mem, Dir(r, v.i4, v.i3));
    WalkTables(b.mem, r, v);
    forall q | SameRegion(q, v)
      ensures !Walk(a.mem, r, q).Large?
    {
      RegionLarge(a.mem, r, q, v);
    }
  }

  lemma MovedUnmapping(a: View, b: View, c: View, r: Frame, v: Page)
    requires Moved(a, b) && Unmapping(b, c, r, v)
    ensures Unmapping(a, c, r, v)
  {
  }

  lemma LeafDrops(a: View, b: View, free: seq<Frame>, r: Frame, v: Page, f: Frame)
    requires Moved(a, b) && r in a.spaces && Locate(b.mem, Dir(r, v.i4, v.i3)) == Some(f)
    requires b.mem[Slot(f, v.i2)].present && b.mem[Slot(f, v.i2)].large
    requires r == a.cr3 ==> Needless(a, free, v)
    ensures Drops(b, free, Dir(r, v.i4, v.i3), v.i2, f, v)
  {
    hide Locate, Walk, PageOf;
    WalkTables(b.mem, r, v);
  }

  lemma PageDrops(a: View, b: View, free: seq<Frame>, r: Frame, v: Page, f: Frame)
    requires Moved(a, b) && r in a.spaces && Locate(b.mem, Pt(r, v.i4, v.i3, v.i2)) == Some(f)
    requires r == a.cr3 ==> Needless(a, free, v)
    ensures Drops(b, free, Pt(r, v.i4, v.i3, v.i2), v.i1, f, v)
  {
    hide Walk, Locate, PageOf;
    LocateStep(b.mem, Pt(r, v.i4, v.i3, v.i2));
    WalkTables(b.mem, r, v);
  }

  /** What the pages of the region show then: whatever the words that the frame still holds happen to say. */
  lemma StaleWords(a: View, b: View, n: Table, i: Index, x: Frame, c: Frame, k: Index)
    requires Touched(a, b, n, i, x, {c}) && n.Dir? && b.mem[Slot(x, i)] == TableEntry(c)
    ensures Through(n, i, n.root, Page(n.i4, n.i3, i, k))
    ensures Walk(b.mem, n.root, Page(n.i4, n.i3, i, k)) ==
            if b.mem[Slot(c, k)].present then Small(b.mem[Slot(c, k)].frame) else Unmapped
  {
    hide Walk, Locate;
    MidwayTable(a, b, n, i, x, {c}, n);
    WalkTables(b.mem, n.root, Page(n.i4, n.i3, i, k));
    LocateStep(b.mem, Child(n, i));
    ChildParent(n, i);
  }

  /** No word of a last-level table looks present. */
  ghost predicate NoPages(m: Memory, f: Frame) {
    forall k: Index :: !m[Slot(f, k)].present
  }

  /** No word of a page directory leads to a page. */
  ghost predicate NoLeaves(m: Memory, f: Frame) {
    forall k: Index :: !m[Slot(f, k)].present || (!m[Slot(f, k)].large && NoPages(m, m[Slot(f, k)].frame))
  }

  /** No word of a page-directory-pointer table leads to a page. */
  ghost predicate NoDirectories(m: Memory, f: Frame) {
    forall k: Index :: !m[Slot(f, k)].present || NoLeaves(m, m[Slot(f, k)].frame)
  }

  /** No page is mapped through frame f, taken as a child of table n. */
  ghost predicate Blank(m: Memory, n: Table, f: Frame)
    requires !n.Pt?
  {
    match n
    case Pml4(_) => NoDirectories(m, f)
    case Pdp(_, _) => NoLeaves(m, f)
    case Dir(_, _, _) => NoPages(m, f)
  }

  /** Map sets the presence bit of a new entry, at any of the three levels, before the frame behind it is zeroed.  In
      between, the pages behind the entry are all absent exactly when the words that the frame still holds lead to no
      page; otherwise the buffer may load translations that were never asked for. */
  lemma PublishedEarly(a: View, b: View, n: Table, i: Index, x: Frame, c: Frame)
    requires Touched(a, b, n, i, x, {c}) && !n.Pt? && b.mem[Slot(x, i)] == TableEntry(c)
    ensures (forall p :: Through(n, i, n.root, p) ==> Walk(b.mem, n.root, p) == Unmapped) <==> Blank(b.mem, n, c)
  {
    hide Touched, Blank, Through, Walk;
    TouchedTable(a, b, n, i, x, c);
    if forall p :: Through(n, i, n.root, p) ==> Walk(b.mem, n.root, p) == Unmapped {
      AbsentBlank(b.mem, n, i, x, c);
    }
    if Blank(b.mem, n, c) {
      BlankAbsent(b.mem, n, i, x, c);
    }
  }

  lemma TouchedTable(a: View, b: View, n: Table, i: Index, x: Frame, c: Frame)
    requires Touched(a, b, n, i, x, {c}) && !n.Pt?
    ensures Locate(b.mem, n) == Some(x)
  {
    hide Walk, Locate;
    MidwayTable(a, b, n, i, x, {c}, n);
  }

  lemma BlankAbsent(m: Memory, n: Table, i: Index, x: Frame, c: Frame)
    requires !n.Pt? && Locate(m, n) == Some(x) && m[Slot(x, i)] == TableEntry(c) && Blank(m, n, c)
    ensures forall p :: Through(n, i, n.root, p) ==> Walk(m, n.root, p) == Unmapped
  {
  }

  lemma AbsentBlank(m: Memory, n: Table, i: Index, x: Frame, c: Frame)
    requires !n.Pt? && Locate(m, n) == Some(x) && m[Slot(x, i)] == TableEntry(c)
    requires forall p :: Through(n, i, n.root, p) ==> Walk(m, n.root, p) == Unmapped
    ensures Blank(m, n, c)
  {
    match n
    case Pml4(_) =>
      forall k: Index | m[Slot(c, k)].present
        ensures NoLeaves(m, m[Slot(c, k)].frame)
      {
        var d := m[Slot(c, k)].frame;
        forall j: Index | m[Slot(d, j)].present
          ensures !m[Slot(d, j)].large && NoPages(m, m[Slot(d, j)].frame)
        {
          assert Walk(m, n.root, Page(i, k, j, 0)) == Unmapped;
          forall h: Index
            ensures !m[Slot(m[Slot(d, j)].frame, h)].present
          {
            assert Walk(m, n.root, Page(i, k, j, h)) == Unmapped;
          }
        }
      }
    case Pdp(_, i4) =>
      forall j: Index | m[Slot(c, j)].present
        ensures !m[Slot(c, j)].large && NoPages(m, m[Slot(c, j)].frame)
      {
        assert Walk(m, n.root, Page(i4, i, j, 0)) == Unmapped;
        forall h: Index
          ensures !m[Slot(m[Slot(c, j)].frame, h)].present
        {
          assert Walk(m, n.root, Page(i4, i, j, h)) == Unmapped;
        }
      }
    case Dir(_, i4, i3) =>
      forall h: Index
        ensures !m[Slot(c, h)].present
      {
        assert Walk(m, n.root, Page(i4, i3, i, h)) == Unmapped;
      }
  }

  /** The invariant does not mind what the buffer holds of a page without a translation. */
  lemma StaleKept(a: View, free: seq<Frame>, v: Page, g: Frame)
    requires Sound(a, free) && Walk(a.mem, a.cr3, v) == Unmapped
    ensures Sound(a.(tlb := a.tlb[v := g]), free)
  {
    hide Walk, Locate, PageOf, IsTable;
    var b := a.(tlb := a.tlb[v := g]);
    forall p
      ensures Agrees(b.mem, b.tlb, b.cr3, p)
    {
      assert Agrees(a.mem, a.tlb, a.cr3, p);
    }
  }
}
