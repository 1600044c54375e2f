/** What memory holds while free frames are being collected: tables that Map has made hold what the specification
    says, free frames hold their link and what they held before, and nothing else has changed. */
module PoolContents {
  import opened Options
  import opened Words
  import opened Translation
  import opened Hardware
  import opened Frames
  import opened AddressSpaces
  import opened TableEdits
  import opened Runs

  /** What entry i of table k holds, if Map has made the table. */
  function EntryIn(t: Spec, root: Frame, k: Table, i: Index): Word {
    if k.Pt? then
      var was := t.at(root, Page(k.i4, k.i3, k.i2, i));
      if was.Small? then TableEntry(was.frame) else ZERO
    else
      var c := t.where(Child(k, i));
      if c.Some? then TableEntry(c.value) else ZERO
  }

  /** Tables outside the boot tables hold what the specification says; frames that hold no table are as they were in
      m, but for the first words of free frames. */
  ghost predicate Contents(m: Memory, now: Memory, t: Spec, root: Frame) {
    && (forall k: Table, i: Index :: k.root == root && t.has(k) && !(root <= t.where(k).value < root + 6) ==>
          now[Slot(t.where(k).value, i)] == EntryIn(t, root, k, i))
    && forall w: Slot :: w.frame !in t.tables && !(w.index == 0 && w.frame in t.free) ==> now[w] == m[w]
  }

  /** Two states of the machine with Map of one page in the active address space between them, and what they realise. */
  ghost predicate Mapping1(a: View, b: View, s: Spec, t: Spec, f: Frame) {
    && Refines(a, s.free, s) && Refines(b, t.free, t) && b.cr3 == a.cr3 && b.spaces == a.spaces
    && Next(s, Map(a.cr3, f, f)) == Some(t)
    && Stored(a.mem, b.mem, a.cr3, a.cr3, PageOf(f), f, s.free)
  }

  lemma MapContents(m: Memory, a: View, b: View, s: Spec, t: Spec, f: Frame)
    requires Mapping1(a, b, s, t, f) && Contents(m, a.mem, s, a.cr3)
    ensures Contents(m, b.mem, t, a.cr3)
  {
    hide Walk, Locate, PageOf, IsTable, Contents, EntryIn;
    forall k: Table, i: Index | k.root == a.cr3 && t.has(k) && !(a.cr3 <= t.where(k).value < a.cr3 + 6)
      ensures b.mem[Slot(t.where(k).value, i)] == EntryIn(t, a.cr3, k, i)
    {
      EntryStored(m, a, b, s, t, f, k, i);
    }
    forall w: Slot | w.frame !in t.tables && !(w.index == 0 && w.frame in t.free)
      ensures b.mem[w] == m[w]
    {
      WordKept(m, a, b, s, t, f, w);
    }
    ContentsIntro(m, b.mem, t, a.cr3);
  }

  lemma ContentsIntro(m: Memory, now: Memory, t: Spec, root: Frame)
    requires forall k: Table, i: Index :: k.root == root && t.has(k) && !(root <= t.where(k).value < root + 6) ==>
               now[Slot(t.where(k).value, i)] == EntryIn(t, root, k, i)
    requires forall w: Slot :: w.frame !in t.tables && !(w.index == 0 && w.frame in t.free) ==> now[w] == m[w]
    ensures Contents(m, now, t, root)
  {
  }

  lemma WordKept(m: Memory, a: View, b: View, s: Spec, t: Spec, f: Frame, w: Slot)
    requires Mapping1(a, b, s, t, f) && Contents(m, a.mem, s, a.cr3)
    requires w.frame !in t.tables && !(w.index == 0 && w.frame in t.free)
    ensures b.mem[w] == m[w]
  {
    hide Walk, Locate, PageOf, IsTable, Needed, Stored, EntryIn;
    SoundFrames(a, s.free);
    SoundFrames(b, t.free);
    MapKeeps(a, b, a.cr3, PageOf(f), f, s.free, w);
    assert s.free == s.free[..Needed(s, a.cr3, PageOf(f))] + t.free;
  }

  lemma EntryStored(m: Memory, a: View, b: View, s: Spec, t: Spec, f: Frame, k: Table, i: Index)
    requires Mapping1(a, b, s, t, f) && Contents(m, a.mem, s, a.cr3)
    requires k.root == a.cr3 && t.has(k) && !(a.cr3 <= t.where(k).value < a.cr3 + 6)
    ensures b.mem[Slot(t.where(k).value, i)] == EntryIn(t, a.cr3, k, i)
  {
    hide Walk, Locate, PageOf, IsTable, Stored, EntryIn, WordAfter, Needed, Next;
    var r, v, g := a.cr3, PageOf(f), t.where(k).value;
    SoundFrames(a, s.free);
    SoundFrames(b, t.free);
    WayFacts(a, b, s, t, f);
    MapWords(a, b, r, v, f, s.free);
    var w := WayOf(a.mem, b.mem, r, v);
    assert b.mem[Slot(g, i)] == WordAfter(a.mem[Slot(g, i)], v, f, w, Slot(g, i));
    if OnPath(r, v, k) && i == Along(v, k) && (k.Pt? || !s.has(Child(k, i))) {
      PathEntry(a, b, s, t, f, k);
    } else if s.has(k) {
      OldEntry(a, b, s, t, f, k, i);
    } else {
      NewEntry(a, b, s, t, f, k, i);
    }
  }

  /** The way of Map, by the specifications before and after. */
  lemma WayFacts(a: View, b: View, s: Spec, t: Spec, f: Frame)
    requires Mapping1(a, b, s, t, f)
    ensures a.cr3 in a.spaces && Separate(b.mem, b.spaces)
    ensures var r, v := a.cr3, PageOf(f);
            && Locate(b.mem, Pdp(r, v.i4)).Some? && Locate(b.mem, Dir(r, v.i4, v.i3)).Some?
            && Locate(b.mem, Pt(r, v.i4, v.i3, v.i2)).Some?
            && var w := WayOf(a.mem, b.mem, r, v);
               && t.where(Pml4(r)) == Some(r)
               && t.where(Pdp(r, v.i4)) == Some(w.x1) && (w.new1 <==> !s.has(Pdp(r, v.i4)))
               && t.where(Dir(r, v.i4, v.i3)) == Some(w.x2) && (w.new2 <==> !s.has(Dir(r, v.i4, v.i3)))
               && t.where(Pt(r, v.i4, v.i3, v.i2)) == Some(w.y) && (w.new3 <==> !s.has(Pt(r, v.i4, v.i3, v.i2)))
    ensures forall k: Table :: k.root == a.cr3 && s.has(k) ==> t.where(k) == s.where(k)
    ensures forall k: Table :: k.root == a.cr3 && t.has(k) ==> s.has(k) || OnPath(a.cr3, PageOf(f), k)
    ensures forall k: Table, l: Table ::
              k.root == a.cr3 && l.root == a.cr3 && t.has(k) && t.where(k) == t.where(l) ==> k == l
    ensures forall q: Page :: q != WINDOW ==>
              t.at(a.cr3, q) == AfterMap(a.cr3, PageOf(f), f, a.cr3, q, s.at(a.cr3, q))
  {
    hide Walk, Locate, PageOf, IsTable, DescentMemory, Needed;
    SoundFrames(a, s.free);
    SoundFrames(b, t.free);
    RootLocated(b.mem, a.cr3);
    assert forall k: Table | k.root == a.cr3 :: Locate(b.mem, k) == t.where(k) && Locate(a.mem, k) == s.where(k);
  }

  lemma PathEntry(a: View, b: View, s: Spec, t: Spec, f: Frame, k: Table)
    requires Mapping1(a, b, s, t, f) && t.has(k) && !(a.cr3 <= t.where(k).value < a.cr3 + 6)
    requires OnPath(a.cr3, PageOf(f), k) && (k.Pt? || !s.has(Child(k, Along(PageOf(f), k))))
    ensures b.mem[Slot(t.where(k).value, Along(PageOf(f), k))] == EntryIn(t, a.cr3, k, Along(PageOf(f), k))
  {
    hide Walk, Locate, PageOf, IsTable, Stored, Needed, TableEntry, Next;
    var r, v, g := a.cr3, PageOf(f), t.where(k).value;
    SoundFrames(a, s.free);
    WayFacts(a, b, s, t, f);
    MapWords(a, b, r, v, f, s.free);
    var w := WayOf(a.mem, b.mem, r, v);
    assert b.mem[Slot(g, Along(v, k))] == WordAfter(a.mem[Slot(g, Along(v, k))], v, f, w, Slot(g, Along(v, k)));
    if k.Pt? {
      ScratchTable(b, t);
      assert t.at(r, v) == Small(f);
    }
  }

  /** The scratch page belongs to the boot tables. */
  lemma ScratchTable(v: View, t: Spec)
    requires Refines(v, t.free, t)
    ensures v.cr3 < MAX_ROOT && t.where(WindowTable(v.cr3)) == Some(v.cr3 + 3)
  {
    hide Walk, Locate, PageOf, IsTable;
    SoundFrames(v, t.free);
  }

  lemma OldEntry(a: View, b: View, s: Spec, t: Spec, f: Frame, k: Table, i: Index)
    requires Mapping1(a, b, s, t, f) && s.has(k) && k.root == a.cr3 && !(a.cr3 <= t.where(k).value < a.cr3 + 6)
    requires !(OnPath(a.cr3, PageOf(f), k) && i == Along(PageOf(f), k) && (k.Pt? || !s.has(Child(k, i))))
    requires a.mem[Slot(s.where(k).value, i)] == EntryIn(s, a.cr3, k, i)
    ensures t.has(k) && b.mem[Slot(t.where(k).value, i)] == EntryIn(t, a.cr3, k, i)
  {
    hide Walk, Locate, PageOf, IsTable, Stored, Needed, TableEntry, Next, EntryIn, Mapping1;
    OldWord(a, b, s, t, f, k, i);
    OldMeaning(a, b, s, t, f, k, i);
  }

  lemma OldWord(a: View, b: View, s: Spec, t: Spec, f: Frame, k: Table, i: Index)
    requires Mapping1(a, b, s, t, f) && s.has(k) && k.root == a.cr3 && !(a.cr3 <= t.where(k).value < a.cr3 + 6)
    requires !(OnPath(a.cr3, PageOf(f), k) && i == Along(PageOf(f), k) && (k.Pt? || !s.has(Child(k, i))))
    ensures t.where(k) == s.where(k) && b.mem[Slot(s.where(k).value, i)] == a.mem[Slot(s.where(k).value, i)]
  {
    hide Walk, Locate, PageOf, IsTable, Stored, Needed, TableEntry, Next;
    var r, v, g := a.cr3, PageOf(f), s.where(k).value;
    SoundFrames(a, s.free);
    WayFacts(a, b, s, t, f);
    MapWords(a, b, r, v, f, s.free);
    var w := WayOf(a.mem, b.mem, r, v);
    assert b.mem[Slot(g, i)] == WordAfter(a.mem[Slot(g, i)], v, f, w, Slot(g, i)) == a.mem[Slot(g, i)];
  }

  lemma OldMeaning(a: View, b: View, s: Spec, t: Spec, f: Frame, k: Table, i: Index)
    requires Mapping1(a, b, s, t, f) && s.has(k) && k.root == a.cr3 && !(a.cr3 <= t.where(k).value < a.cr3 + 6)
    requires !(OnPath(a.cr3, PageOf(f), k) && i == Along(PageOf(f), k) && (k.Pt? || !s.has(Child(k, i))))
    ensures EntryIn(t, a.cr3, k, i) == EntryIn(s, a.cr3, k, i)
  {
    hide Walk, Locate, PageOf, IsTable, Stored, Needed, TableEntry, Next;
    WayFacts(a, b, s, t, f);
    ScratchTable(b, t);
    if k.Pt? {
      var q := Page(k.i4, k.i3, k.i2, i);
      assert q != WINDOW && q != PageOf(f);
    } else {
      assert Child(k, i).root == a.cr3;
      assert OnPath(a.cr3, PageOf(f), Child(k, i)) ==> OnPath(a.cr3, PageOf(f), k) && i == Along(PageOf(f), k);
    }
  }

  lemma NewEntry(a: View, b: View, s: Spec, t: Spec, f: Frame, k: Table, i: Index)
    requires Mapping1(a, b, s, t, f) && t.has(k) && !s.has(k) && k.root == a.cr3
    requires !(a.cr3 <= t.where(k).value < a.cr3 + 6) && i != Along(PageOf(f), k)
    ensures b.mem[Slot(t.where(k).value, i)] == EntryIn(t, a.cr3, k, i)
  {
    hide Walk, Locate, PageOf, IsTable, Stored, Needed, TableEntry, Next;
    var r, v, g := a.cr3, PageOf(f), t.where(k).value;
    SoundFrames(a, s.free);
    WayFacts(a, b, s, t, f);
    MapWords(a, b, r, v, f, s.free);
    ScratchTable(b, t);
    ScratchTable(a, s);
    var w := WayOf(a.mem, b.mem, r, v);
    assert b.mem[Slot(g, i)] == WordAfter(a.mem[Slot(g, i)], v, f, w, Slot(g, i)) == ZERO;
    if k.Pt? {
      var q := Page(k.i4, k.i3, k.i2, i);
      WalkTables(a.mem, r, q);
      assert s.at(r, q) == Walk(a.mem, r, q) && Locate(a.mem, k) == None;
    } else {
      LocateStep(b.mem, Child(k, i));
      assert Parent(Child(k, i)) == k && Last(Child(k, i)) == i;
      assert Locate(b.mem, k) == Some(g);
    }
  }

  /** The index at which the walk of page v leaves table k. */
  function Along(v: Page, k: Table): Index {
    match k
    case Pml4(_) => v.i4
    case Pdp(_, _) => v.i3
    case Dir(_, _, _) => v.i2
    case Pt(_, _, _, _) => v.i1
  }

  /** A link is written where a frame is given back. */
  lemma FreeContents(m: Memory, a: Memory, b: Memory, s: Spec, t: Spec, root: Frame, f: Frame, link: Word)
    requires Contents(m, a, s, root) && b == a[Slot(f, 0) := link] && f !in s.tables
    requires forall k: Table :: k.root == root && s.has(k) ==> s.where(k).value in s.tables
    requires Next(s, Free(f)) == Some(t)
    ensures Contents(m, b, t, root)
  {
    hide TableEntry, EntryIn;
    forall k: Table, i: Index | k.root == root && t.has(k) && !(root <= t.where(k).value < root + 6)
      ensures b[Slot(t.where(k).value, i)] == EntryIn(t, root, k, i)
    {
      assert s.has(k) && t.where(k) == s.where(k);
      SameEntry(s, t, root, k, i);
    }
  }

  lemma SameEntry(s: Spec, t: Spec, root: Frame, k: Table, i: Index)
    requires t.at == s.at && t.where == s.where
    ensures EntryIn(t, root, k, i) == EntryIn(s, root, k, i)
  {
  }

  lemma TablesLocated(v: View, s: Spec)
    requires Refines(v, s.free, s)
    ensures forall k: Table :: k.root == v.cr3 && s.has(k) ==> s.where(k).value in s.tables
    ensures forall g: Frame :: g in s.tables <==> IsTable(v.mem, v.spaces, g)
  {
    hide Walk, Locate, PageOf;
    SoundFrames(v, s.free);
    forall k: Table | k.root == v.cr3 && s.has(k)
      ensures s.where(k).value in s.tables
    {
      IsTableIntro(v.mem, v.spaces, k, s.where(k).value);
    }
  }
}
