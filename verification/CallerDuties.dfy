/** What edits of the active address space may take away: exactly the pages through which no frame that is still
    needed is reached. */
module CallerDuties {
  import opened Options
  import opened Words
  import opened Translation
  import opened Hardware
  import opened Frames
  import opened AddressSpaces
  import opened TableEdits
  import opened Runs
  import opened RunProperties
  import opened Boot

  /** All free frames and the scratch entry are reached at their own number. */
  ghost predicate Reaching(s: Spec, cr3: Frame) {
    forall f :: Critical(s, cr3, f) ==> Reaches(s, cr3, f)
  }

  /** The pages of a region have a 2 MiB leaf together, and tables are missing accordingly. */
  ghost predicate Coherent(s: Spec, root: Frame) {
    && (forall p, q :: p != WINDOW && q != WINDOW && SameRegion(p, q) ==>
          (s.at(root, p).Large? <==> s.at(root, q).Large?))
    && forall p :: p != WINDOW ==>
         && (s.at(root, p).Large? ==> Needed(s, root, p) == 1)
         && (s.at(root, p).Small? ==> Needed(s, root, p) == 0)
  }

  lemma RefinesCoherent(v: View, free: seq<Frame>, s: Spec)
    requires Refines(v, free, s)
    ensures v.cr3 < MAX_ROOT && Coherent(s, v.cr3) && Reaching(s, v.cr3)
  {
    hide Walk, Locate, PageOf, IsTable;
    SoundFrames(v, free);
    forall p, q | p != WINDOW && q != WINDOW && SameRegion(p, q)
      ensures s.at(v.cr3, p).Large? <==> s.at(v.cr3, q).Large?
    {
      RegionLarge(v.mem, v.cr3, p, q);
      assert s.at(v.cr3, p) == Walk(v.mem, v.cr3, p) && s.at(v.cr3, q) == Walk(v.mem, v.cr3, q);
    }
    forall p | p != WINDOW
      ensures s.at(v.cr3, p).Large? ==> Needed(s, v.cr3, p) == 1
      ensures s.at(v.cr3, p).Small? ==> Needed(s, v.cr3, p) == 0
    {
      MappedMissing(v.mem, v.cr3, p);
      RefinesMap(v, free, s, v.cr3, p, 0);
      assert s.at(v.cr3, p) == Walk(v.mem, v.cr3, p);
    }
  }

  /** The state in which Map has cleared the entry of the 2 MiB leaf over v. */
  function Leafless(s: Spec, root: Frame, v: Page): Spec {
    s.(at := (r: Frame, q: Page) => if r == root && SameRegion(q, v) && s.at(r, q).Large? then Unmapped else s.at(r, q))
  }

  /** The call leaves every free frame and the scratch entry within reach; and while a 2 MiB leaf is being
      replaced, so are the frame that is popped and the scratch entry. */
  ghost predicate Harmless(s: Spec, cr3: Frame, op: Op)
    requires cr3 < MAX_ROOT && (op.Map? ==> Coherent(s, cr3) && (op.root == cr3 ==> PageOf(op.v) != WINDOW))
  {
    match Next(s, op)
    case None => true
    case Some(t) =>
      && Reaching(t, cr3)
      && (op.Map? && op.root == cr3 && s.at(cr3, PageOf(op.v)).Large? ==>
            var u := Leafless(s, cr3, PageOf(op.v)); Reaches(u, cr3, s.free[0]) && Reaches(u, cr3, cr3 + 3))
  }

  /** What becomes of a frame that was reached: it is lost if its page is in the way, unless p is put there. */
  lemma AfterMapReaches(s: Spec, cr3: Frame, v: Frame, p: Frame, f: Frame)
    requires Coherent(s, cr3) && Reaches(s, cr3, f) && PageOf(v) != WINDOW && Next(s, Map(cr3, v, p)).Some?
    ensures var w := PageOf(v);
            Reaches(Next(s, Map(cr3, v, p)).value, cr3, f) <==>
            (if s.at(cr3, w).Large? then SameRegion(PageOf(f), w) ==> PageOf(f) == w && f == p
             else PageOf(f) == w ==> f == p)
  {
    hide PageOf;
    var t := Next(s, Map(cr3, v, p)).value;
    assert t.at(cr3, PageOf(f)) == AfterMap(cr3, PageOf(v), p, cr3, PageOf(f), s.at(cr3, PageOf(f)));
  }

  /** The frames that are still free after Map. */
  lemma StillFree(s: Spec, cr3: Frame, v: Frame, p: Frame)
    requires Coherent(s, cr3) && Reaching(s, cr3) && PageOf(v) != WINDOW && Next(s, Map(cr3, v, p)).Some?
    ensures var t := Next(s, Map(cr3, v, p)).value;
            && (forall f :: f in t.free ==> f in s.free)
            && (s.at(cr3, PageOf(v)).Large? ==>
                  s.free != [] && forall f :: f in s.free ==> f in t.free || f == s.free[0])
            && (!s.at(cr3, PageOf(v)).Large? ==> forall f :: f in s.free && PageOf(f) == PageOf(v) ==> f in t.free)
  {
    hide PageOf;
    var k := Needed(s, cr3, PageOf(v));
    assert s.free == s.free[..k] + s.free[k..];
    forall f | f in s.free && PageOf(f) == PageOf(v) && !s.at(cr3, PageOf(v)).Large?
      ensures f in s.free[k..]
    {
      assert Reaches(s, cr3, f);
    }
  }

  /** Map in the active address space is harmless if and only if it spares what is needed. */
  lemma SparesExactly(s: Spec, cr3: Frame, v: Frame, p: Frame)
    requires cr3 < MAX_ROOT && Coherent(s, cr3) && Reaching(s, cr3) && PageOf(v) != WINDOW
    ensures Spares(s, cr3, PageOf(v), p) <==> Harmless(s, cr3, Map(cr3, v, p))
  {
    hide PageOf, Next, Coherent, Leafless;
    var op, w := Map(cr3, v, p), PageOf(v);
    if Next(s, op).Some? {
      var t := Next(s, op).value;
      StillFree(s, cr3, v, p);
      forall f | Critical(s, cr3, f)
        ensures Reaches(t, cr3, f) <==>
                  (if s.at(cr3, w).Large? then SameRegion(PageOf(f), w) ==> PageOf(f) == w && f == p
                                         else PageOf(f) == w ==> f == p)
        ensures s.at(cr3, w).Large? ==> (Reaches(Leafless(s, cr3, w), cr3, f) <==> !SameRegion(PageOf(f), w))
      {
        AfterMapReaches(s, cr3, v, p, f);
        if s.at(cr3, w).Large? {
          LeaflessReaches(s, cr3, w, f);
        }
      }
    } else {
      HaltsAlone(s, cr3, v, p);
    }
  }

  lemma LeaflessReaches(s: Spec, cr3: Frame, w: Page, f: Frame)
    requires Coherent(s, cr3) && Reaches(s, cr3, f) && w != WINDOW && s.at(cr3, w).Large?
    ensures Reaches(Leafless(s, cr3, w), cr3, f) <==> !SameRegion(PageOf(f), w)
  {
    hide PageOf;
  }

  /** A call that halts for want of frames does so before it has taken anything away. */
  lemma HaltsAlone(s: Spec, cr3: Frame, v: Frame, p: Frame)
    requires Coherent(s, cr3) && Reaching(s, cr3) && PageOf(v) != WINDOW && Next(s, Map(cr3, v, p)).None?
    ensures Spares(s, cr3, PageOf(v), p)
  {
    hide PageOf;
    forall f | Critical(s, cr3, f)
      ensures PageOf(f) == PageOf(v) ==> s.at(cr3, PageOf(v)).Large?
    {
      assert Reaches(s, cr3, f);
    }
  }

  /** So is UnMap. */
  lemma DispensableExactly(s: Spec, cr3: Frame, v: Frame)
    requires cr3 < MAX_ROOT && Coherent(s, cr3) && Reaching(s, cr3) && PageOf(v) != WINDOW
    ensures Dispensable(s, cr3, PageOf(v)) <==> Harmless(s, cr3, UnMap(cr3, v))
  {
    hide PageOf, Coherent, Next;
    UnMapSome(s, cr3, v);
    var t := Next(s, UnMap(cr3, v)).value;
    forall f | Critical(s, cr3, f)
      ensures Reaches(t, cr3, f) <==>
                if s.at(cr3, PageOf(v)).Large? then !SameRegion(PageOf(f), PageOf(v)) else PageOf(f) != PageOf(v)
    {
      AfterUnMapReaches(s, cr3, v, f);
    }
  }

  lemma UnMapSome(s: Spec, root: Frame, v: Frame)
    ensures Next(s, UnMap(root, v)).Some? && Next(s, UnMap(root, v)).value.free == s.free
  {
  }

  lemma AfterUnMapReaches(s: Spec, cr3: Frame, v: Frame, f: Frame)
    requires Coherent(s, cr3) && Reaches(s, cr3, f) && PageOf(v) != WINDOW
    ensures Next(s, UnMap(cr3, v)).Some?
    ensures Reaches(Next(s, UnMap(cr3, v)).value, cr3, f) <==>
            if s.at(cr3, PageOf(v)).Large? then !SameRegion(PageOf(f), PageOf(v)) else PageOf(f) != PageOf(v)
  {
    hide PageOf;
    var t := Next(s, UnMap(cr3, v)).value;
    assert t.at(cr3, PageOf(f)) == AfterUnMap(cr3, PageOf(v), cr3, PageOf(f), s.at(cr3, PageOf(f)));
  }

  /** In every state of the kernel: the callers of Map and UnMap owe exactly what keeps the call harmless. */
  lemma LegalExactly(a: View, s: Spec, bottom: Word, op: Op)
    requires Refines(a, s.free, s) && (op.Map? || op.UnMap?) && op.root in a.spaces
    requires op.root == a.cr3 ==> PageOf(op.v) != WINDOW
    ensures a.cr3 < MAX_ROOT && Coherent(s, a.cr3)
    ensures Legal(s, a.spaces, a.cr3, bottom, op) <==> Harmless(s, a.cr3, op)
  {
    hide PageOf, Spares, Dispensable, Coherent, Refines;
    RefinesCoherent(a, s.free, s);
    if op.root == a.cr3 {
      if op.Map? {
        SparesExactly(s, a.cr3, op.v, op.p);
      } else {
        DispensableExactly(s, a.cr3, op.v);
      }
    } else {
      ElsewhereHarmless(s, a.cr3, op);
    }
  }

  /** Giving frame f back leaves each frame in one place, loses none and takes none from elsewhere; all free frames are
      within reach, and none of them is taken for the bottom of the stack. */
  ghost predicate HarmlessFree(s: Spec, cr3: Frame, bottom: Word, f: Frame) {
    var t := Next(s, Free(f)).value;
    && Accounted(t) && Holdings(t) == Holdings(s) && Reaching(t, cr3)
    && forall g :: g in t.free ==> Pointer(g) != bottom
  }

  lemma GivenTwice(s: Spec, f: Frame)
    requires f in s.free
    ensures !Accounted(Next(s, Free(f)).value)
  {
    var t := Next(s, Free(f)).value;
    var j :| 0 <= j < |s.free| && s.free[j] == f;
    assert t.free[0] == t.free[j + 1];
  }

  /** The duty of the callers of PFree is exactly that. */
  lemma FreeExactly(s: Spec, spaces: set<Frame>, cr3: Frame, bottom: Word, f: Frame)
    requires Accounted(s) && Reaching(s, cr3) && forall g :: g in s.free ==> Pointer(g) != bottom
    ensures Legal(s, spaces, cr3, bottom, Free(f)) <==> HarmlessFree(s, cr3, bottom, f)
  {
    hide PageOf;
    var t := Next(s, Free(f)).value;
    assert t.free[0] == f && f in t.free;
    if f in s.free {
      GivenTwice(s, f);
    }
    if HarmlessFree(s, cr3, bottom, f) {
      assert Critical(t, cr3, f);
    }
    if Legal(s, spaces, cr3, bottom, Free(f)) {
      StepConserves(s, Free(f));
      forall g | Critical(t, cr3, g)
        ensures Reaches(t, cr3, g)
      {
        assert g == f || Critical(s, cr3, g);
      }
    }
  }

  /** An edit of another address space takes nothing away from the active one. */
  lemma ElsewhereHarmless(s: Spec, cr3: Frame, op: Op)
    requires cr3 < MAX_ROOT && Coherent(s, cr3) && Reaching(s, cr3) && (op.Map? || op.UnMap?) && op.root != cr3
    ensures Harmless(s, cr3, op)
  {
    hide PageOf, Coherent;
    if Next(s, op).Some? {
      var t := Next(s, op).value;
      forall f | Critical(t, cr3, f)
        ensures Reaches(t, cr3, f)
      {
        assert Critical(s, cr3, f);
        assert t.at(cr3, PageOf(f)) == s.at(cr3, PageOf(f));
      }
    }
  }

  /** On the machine: if the invariant holds after the call, nothing needed was in the way. */
  lemma MapNeeds(a: View, b: View, free: seq<Frame>, v: Page, p: Frame)
    requires Sound(a, free) && v != WINDOW && Mapped(a, b, a.cr3, v, p, free) && b.cr3 == a.cr3 && b.spaces == a.spaces
    requires Sound(b, free[Missing(a.mem, a.cr3, v)..])
    ensures forall f :: f in free[Missing(a.mem, a.cr3, v)..] || f == a.cr3 + 3 ==>
              if Walk(a.mem, a.cr3, v).Large? then SameRegion(PageOf(f), v) ==> PageOf(f) == v && f == p
              else PageOf(f) == v ==> f == p
  {
    hide Walk, Locate, PageOf, Missing, IsTable, Forest;
    var rest := free[Missing(a.mem, a.cr3, v)..];
    forall f | f in rest || f == a.cr3 + 3
      ensures if Walk(a.mem, a.cr3, v).Large? then SameRegion(PageOf(f), v) ==> PageOf(f) == v && f == p
              else PageOf(f) == v ==> f == p
    {
      SoundFrames(b, rest);
      RegionOfFree(a, free, v, f);
      assert Walk(b.mem, a.cr3, PageOf(f)) == AfterMap(a.cr3, v, p, a.cr3, PageOf(f), Walk(a.mem, a.cr3, PageOf(f)));
    }
  }

  lemma RegionOfFree(a: View, free: seq<Frame>, v: Page, f: Frame)
    requires Sound(a, free) && v != WINDOW
    ensures a.cr3 in a.spaces
    ensures SameRegion(PageOf(f), v) ==> (Walk(a.mem, a.cr3, PageOf(f)).Large? <==> Walk(a.mem, a.cr3, v).Large?)
  {
    if SameRegion(PageOf(f), v) {
      RegionLarge(a.mem, a.cr3, PageOf(f), v);
    }
  }

  lemma UnMapNeeds(a: View, b: View, free: seq<Frame>, v: Page)
    requires Sound(a, free) && v != WINDOW && Unmapping(a, b, a.cr3, v) && b.cr3 == a.cr3 && b.spaces == a.spaces
    requires Sound(b, free)
    ensures Needless(a, free, v)
  {
    hide Walk, Locate, PageOf, IsTable, Forest;
    forall f | f in free || f == a.cr3 + 3
      ensures if Walk(a.mem, a.cr3, v).Large? then !SameRegion(PageOf(f), v) else PageOf(f) != v
    {
      SoundFrames(b, free);
      RegionOfFree(a, free, v, f);
      assert Walk(b.mem, a.cr3, PageOf(f)) == AfterUnMap(a.cr3, v, a.cr3, PageOf(f), Walk(a.mem, a.cr3, PageOf(f)));
    }
  }

  /** While the entry of a 2 MiB leaf is clear, exactly the frames reached through it have no translation: only what
      the buffer happens to hold answers an access to them, and an empty buffer does not. */
  lemma LeafOut(a: View, b: View, n: Table, i: Index, x: Frame, f: Frame)
    requires Midway(a, b, n, i, x, {}) && n.Dir? && n.root == a.cr3 && !b.mem[Slot(x, i)].present && Identity(a, f)
    ensures Walk(b.mem, b.cr3, PageOf(f)) == Unmapped <==> Through(n, i, a.cr3, PageOf(f))
    ensures Through(n, i, a.cr3, PageOf(f)) ==> !Settled(b.mem, map[], b.cr3, PageOf(f), f)
  {
    hide Walk, Locate, PageOf, Through;
    if Through(n, i, a.cr3, PageOf(f)) {
      CutOff(a, b, n, i, x, PageOf(f));
    } else {
      MidwayWalk(a, b, n, i, x, {}, a.cr3, PageOf(f));
    }
  }

  lemma CutOff(a: View, b: View, n: Table, i: Index, x: Frame, q: Page)
    requires Midway(a, b, n, i, x, {}) && n.Dir? && !b.mem[Slot(x, i)].present && Through(n, i, n.root, q)
    ensures Walk(b.mem, n.root, q) == Unmapped
  {
    hide Walk, Locate;
    MidwayTable(a, b, n, i, x, {}, n);
    WalkTables(b.mem, n.root, q);
  }

  /** Map clears the entry it is about to rewrite, and UnMap clears its presence bit.  If that is the scratch entry,
      the scratch page is gone, and no address that is put into the entry brings it back. */
  lemma ScratchLost(a: View, free: seq<Frame>, w: Word, f: Frame)
    requires Sound(a, free) && !w.present
    ensures a.cr3 < MAX_ROOT && Walk(a.mem[WindowSlot(a.cr3) := w.(frame := f)], a.cr3, WINDOW) == Unmapped
  {
    hide Locate, Walk, PageOf;
    ForestWindow(a);
    ScratchAbsent(a.mem, a.cr3, w.(frame := f));
  }

  lemma ScratchAbsent(m: Memory, root: Frame, w: Word)
    requires WindowPath(m, root) && !w.present
    ensures Walk(m[WindowSlot(root) := w], root, WINDOW) == Unmapped
  {
  }

  /** A failing call: under the boot tables at 0x240000, with frame 0x300 free, mapping page 0x200 elsewhere replaces
      the 2 MiB leaf through which both the free frame and the scratch entry are reached; unmapping it drops them. */
  lemma BootCallsFail(m: Memory, tlb: Tlb, bottom: Word)
    requires Booted(m, 0x240) && Speculated(map[], tlb, m, 0x240)
    ensures var a := View(m, tlb, 0x240, {0x240});
            var s := Abstraction(a, [0x300], {});
            && Refines(a, [0x300], s) && Accounted(s) && Coherent(s, 0x240)
            && (forall op :: op == Map(0x240, 0x200, 0x999) || op == UnMap(0x240, 0x200) ==>
                  && !Legal(s, a.spaces, 0x240, bottom, op) && !Harmless(s, 0x240, op)
                  && Next(s, op).Some? && Next(s, op).value.at(0x240, PageOf(0x243)) == Unmapped)
  {
    hide Walk, Locate, Sound, Refines, Coherent, Harmless, Legal, IsTable, Booted, Accounted;
    var a := View(m, tlb, 0x240, {0x240});
    var s := Abstraction(a, [0x300], {});
    OneFree(m, tlb);
    AbstractionRefines(a, [0x300], {});
    RefinesCoherent(a, [0x300], s);
    assert PageOf(0x243) == Page(0, 0, 1, 67) && PageOf(0x200) == Page(0, 0, 1, 0);
    RefinesMap(a, [0x300], s, 0x240, PageOf(0x200), 0x999);
    MappedMissing(a.mem, 0x240, PageOf(0x200));
    var q := PageOf(0x243);
    assert s.at(0x240, q) == BootMapping(0x240, q) && s.at(0x240, q).Large?;
    forall op | op == Map(0x240, 0x200, 0x999) || op == UnMap(0x240, 0x200)
      ensures Next(s, op).Some? && Next(s, op).value.at(0x240, PageOf(0x243)) == Unmapped
      ensures !Legal(s, a.spaces, 0x240, bottom, op) && !Harmless(s, 0x240, op)
    {
      LegalExactly(a, s, bottom, op);
      if op.Map? {
        assert Next(s, op).value.at(0x240, q) == AfterMap(0x240, PageOf(0x200), 0x999, 0x240, q, s.at(0x240, q));
      } else {
        assert Next(s, op).value.at(0x240, q) == AfterUnMap(0x240, PageOf(0x200), 0x240, q, s.at(0x240, q));
      }
      NotReached(s, op);
    }
  }

  lemma OneFree(m: Memory, tlb: Tlb)
    requires Booted(m, 0x240) && Speculated(map[], tlb, m, 0x240)
    ensures Sound(View(m, tlb, 0x240, {0x240}), [0x300])
    ensures forall p :: Walk(m, 0x240, p) == BootMapping(0x240, p)
  {
    hide Walk, Locate, IsTable, Booted, PageOf, Forest;
    BootSound(m, 0x240, tlb);
    BootTableFrames(m, 0x240, 0x300);
    BootIdentity(0x240, 0x300);
    forall p
      ensures Walk(m, 0x240, p) == BootMapping(0x240, p)
    {
      BootWalk(m, 0x240, p);
    }
  }

  lemma NotReached(s: Spec, op: Op)
    requires Coherent(s, 0x240) && (op.Map? || op.UnMap?) && op.root == 0x240 && PageOf(op.v) != WINDOW
    requires Next(s, op).Some? && Next(s, op).value.at(0x240, PageOf(0x243)) == Unmapped
    ensures !Harmless(s, 0x240, op)
  {
    hide PageOf, Coherent;
    assert Critical(Next(s, op).value, 0x240, 0x243);
  }

  /** What the constructor of a PagingManager does if one of the three frames behind its own holds a last-level table of
      some address space: the last page of that table shows another frame. */
  lemma TableOverlaid(v: View, n: Table, x: Frame, w: Word, b: Memory)
    requires Separate(v.mem, v.spaces) && n.root in v.spaces && n.Pt? && Locate(v.mem, n) == Some(x) && w.present
    requires b == v.mem[Slot(x, 511) := w]
    ensures Walk(b, n.root, Page(n.i4, n.i3, n.i2, 511)) == Small(w.frame)
  {
    var d, u := Dir(n.root, n.i4, n.i3), Pdp(n.root, n.i4);
    LocateStep(v.mem, n);
    LocateStep(v.mem, d);
    LocateStep(v.mem, u);
    RootLocated(v.mem, n.root);
    assert Locate(v.mem, d) != Some(x) && Locate(v.mem, u) != Some(x) && Locate(v.mem, Pml4(n.root)) != Some(x);
  }

  /** The scratch page of an address space that is not active outlives every Map, and every UnMap but its own. */
  lemma WindowStays(a: View, b: View, root: Frame, v: Page, p: Frame, free: seq<Frame>, r: Frame)
    requires r in a.spaces && r != a.cr3 && b.cr3 == a.cr3 && HasWindow(a.mem, r)
    ensures Mapped(a, b, root, v, p, free) ==> HasWindow(b.mem, r)
    ensures Unmapping(a, b, root, v) ==> (HasWindow(b.mem, r) <==> !(root == r && v == WINDOW))
  {
    hide Walk, Locate;
    WalkTables(a.mem, r, WINDOW);
    WalkTables(b.mem, r, WINDOW);
  }
}
