/** What a program may do with a page: the processor asks every entry that its walk reads (AMD64 Architecture
    Programmer's Manual, Volume 2, section 5.6). */
module AccessRights {
  import opened Options
  import opened Words
  import opened Translation
  import opened Hardware
  import opened AddressSpaces
  import opened TableEdits

  datatype Rights = Rights(write: bool, user: bool)

  const ALL := Rights(true, true)

  /** Bit 1 of a word allows writing, bit 2 allows ring 3. */
  function Grant(e: bv64): Rights {
    Rights(e & 2 != 0, e & 4 != 0)
  }

  function Granted(w: Word): Rights {
    Grant(Encoded(w))
  }

  function Both(a: Rights, b: Rights): Rights {
    Rights(a.write && b.write, a.user && b.user)
  }

  /** What all entries on the way to page p allow together; None if it is not mapped. */
  function Effective(m: Memory, root: Frame, p: Page): Option<Rights> {
    var e4 := m[Slot(root, p.i4)];
    if !e4.present then None else
    var e3 := m[Slot(e4.frame, p.i3)];
    if !e3.present then None else
    var e2 := m[Slot(e3.frame, p.i2)];
    if !e2.present then None else
    var upper := Both(Both(Granted(e4), Granted(e3)), Granted(e2));
    if e2.large then Some(upper) else
    var e1 := m[Slot(e2.frame, p.i1)];
    if !e1.present then None else Some(Both(upper, Granted(e1)))
  }

  /** What the tables that lie on the way to page p already allow. */
  function Inherited(m: Memory, root: Frame, p: Page): Rights {
    var e4 := m[Slot(root, p.i4)];
    if !e4.present then ALL else
    var e3 := m[Slot(e4.frame, p.i3)];
    if !e3.present then Granted(e4) else
    var e2 := m[Slot(e3.frame, p.i2)];
    if !e2.present || e2.large then Both(Granted(e4), Granted(e3)) else
    Both(Both(Granted(e4), Granted(e3)), Granted(e2))
  }

  lemma JoinedEntry(b: bv40)
    ensures Join(Bits(true, 3, 1, 0, false, 0, b, 0)) == Plus((b as bv64) << 12, 0xF)
    ensures Join(Bits(true, 3, 1, 0, false, 0, b, 0)) & 0xFFF0_0000_0000_0FFF == 0xF
  {
  }

  /** The entry that Map makes for frame f, as a 64-bit number: the address of the frame plus 0xF. */
  lemma EntryNumber(f: Frame)
    ensures Encoded(TableEntry(f)) == Plus(AddressOf(f), 0xF)
    ensures Encoded(TableEntry(f)) & 0xFFF0_0000_0000_0FFF == 0xF
    ensures Granted(TableEntry(f)) == ALL
  {
    hide FrameBits, Join, Plus;
    JoinedEntry(FrameBits(f));
    LowBitsGrant(Encoded(TableEntry(f)));
  }

  lemma LowBitsGrant(e: bv64)
    ensures e & 0xFFF0_0000_0000_0FFF == 0xF ==> Grant(e) == ALL
  {
  }

  lemma AccessBits(e: bv64)
    ensures e & 2 != 0 <==> Split(e).access & 1 != 0
    ensures e & 4 != 0 <==> Split(e).access & 2 != 0
  {
  }

  /** The access field is these two bits. */
  lemma GrantedAccess(w: Word)
    ensures Granted(w) == Rights(w.access & 1 != 0, w.access & 2 != 0)
  {
    hide Split, Encoded, FrameNumber;
    AccessBits(Encoded(w));
  }

  /** The entries on the way, none of which is the scratch entry of the active address space. */
  lemma WayWords(a: View, b: View, r: Frame, v: Page, p: Frame, free: seq<Frame>)
    requires Stored(a.mem, b.mem, a.cr3, r, v, p, free) && Forest(b) && b.cr3 == a.cr3 && r in b.spaces
    requires r == a.cr3 ==> v != WINDOW
    ensures WayMade(a.mem, b.mem, v, WayOf(a.mem, b.mem, r, v), p)
  {
    hide Locate, DescentMemory, TableEntry;
    MapWords(a, b, r, v, p, free);
    var w := WayOf(a.mem, b.mem, r, v);
    RootLocated(b.mem, r);
    assert Locate(b.mem, WindowTable(b.cr3)) == Some(b.cr3 + 3);
    assert Locate(b.mem, Pml4(r)) == Some(r) && Locate(b.mem, Pdp(r, v.i4)) == Some(w.x1);
    assert Locate(b.mem, Dir(r, v.i4, v.i3)) == Some(w.x2) && Locate(b.mem, Pt(r, v.i4, v.i3, v.i2)) == Some(w.y);
  }

  lemma EntryPresent(f: Frame)
    ensures var e := TableEntry(f); e.present && !e.large && e.frame == f && Granted(e) == ALL
  {
    EntryNumber(f);
  }

  /** Map has made what was missing on the way to page v, and its last entry. */
  ghost predicate WayMade(a: Memory, b: Memory, v: Page, w: Way, p: Frame) {
    && Locate(b, Pdp(w.root, v.i4)) == Some(w.x1) && Locate(b, Dir(w.root, v.i4, v.i3)) == Some(w.x2)
    && Locate(b, Pt(w.root, v.i4, v.i3, v.i2)) == Some(w.y) && w == WayOf(a, b, w.root, v)
    && b[Slot(w.root, v.i4)] == (if w.new1 then TableEntry(w.x1) else a[Slot(w.root, v.i4)])
    && b[Slot(w.x1, v.i3)] == (if w.new2 then TableEntry(w.x2) else a[Slot(w.x1, v.i3)])
    && b[Slot(w.x2, v.i2)] == (if w.new3 then TableEntry(w.y) else a[Slot(w.x2, v.i2)])
    && b[Slot(w.y, v.i1)] == TableEntry(p)
  }

  lemma WayRights(a: Memory, b: Memory, v: Page, w: Way, p: Frame)
    requires WayMade(a, b, v, w, p)
    ensures Effective(b, w.root, v) == Some(Inherited(a, w.root, v))
  {
    hide TableEntry, Granted;
    EntryPresent(w.x1);
    EntryPresent(w.x2);
    EntryPresent(w.y);
    EntryPresent(p);
  }

  lemma WayGranted(a: Memory, b: Memory, v: Page, w: Way, p: Frame)
    requires WayMade(a, b, v, w, p)
    ensures PageGranted(a, b, w.root, v, p)
  {
    hide Locate, TableEntry, Effective, Inherited, Encoded;
    WayRights(a, b, v, w, p);
    RootLocated(b, w.root);
    EntryNumber(w.x1);
    EntryNumber(w.x2);
    EntryNumber(w.y);
    EntryNumber(p);
  }

  /** Table k has been linked by Map: the word that leads to it is its address plus 0xF. */
  ghost predicate LinkedByMap(a: Memory, b: Memory, k: Table)
    requires !k.Pml4?
  {
    Locate(a, k) == None ==>
      && Locate(b, k).Some? && Locate(b, Parent(k)).Some?
      && Encoded(b[Slot(Locate(b, Parent(k)).value, Last(k))]) == Plus(AddressOf(Locate(b, k).value), 0xF)
  }

  /** Page v shows frame p: its word is the address of p plus 0xF, and new tables on the way are linked likewise.  The
      page allows what the tables that were there before allow. */
  ghost predicate PageGranted(a: Memory, b: Memory, r: Frame, v: Page, p: Frame) {
    && Locate(b, Pt(r, v.i4, v.i3, v.i2)).Some?
    && Encoded(b[Slot(Locate(b, Pt(r, v.i4, v.i3, v.i2)).value, v.i1)]) == Plus(AddressOf(p), 0xF)
    && LinkedByMap(a, b, Pdp(r, v.i4)) && LinkedByMap(a, b, Dir(r, v.i4, v.i3))
    && LinkedByMap(a, b, Pt(r, v.i4, v.i3, v.i2))
    && Effective(b, r, v) == Some(Inherited(a, r, v))
  }

  lemma MapRights(a: View, b: View, r: Frame, v: Page, p: Frame, free: seq<Frame>)
    requires Stored(a.mem, b.mem, a.cr3, r, v, p, free) && Forest(b) && b.cr3 == a.cr3 && r in b.spaces
    requires r == a.cr3 ==> v != WINDOW
    ensures PageGranted(a.mem, b.mem, r, v, p)
  {
    hide PageGranted;
    WayWords(a, b, r, v, p, free);
    WayGranted(a.mem, b.mem, v, WayOf(a.mem, b.mem, r, v), p);
  }

  /** The entries that the constructor makes for the way to the scratch page, but for the last. */
  predicate OnScratchPath(k: Table, i: Index) {
    i == 511 && (k == Pml4(k.root) || k == Pdp(k.root, 511) || k == Dir(k.root, 511, 511))
  }

  /** All entries of address space r allow writing, and all but those on the way to the scratch page allow ring 3;
      nothing is said of the scratch entry. */
  ghost predicate Admits(m: Memory, r: Frame) {
    && Locate(m, WindowTable(r)).Some?
    && forall k: Table, i: Index :: k.root == r && Locate(m, k).Some? && !(k == WindowTable(r) && i == 511) ==>
         Admitted(m[Slot(Locate(m, k).value, i)], k, i)
  }

  predicate Admitted(w: Word, k: Table, i: Index) {
    w.present ==> Granted(w) == Rights(true, !OnScratchPath(k, i))
  }

  /** Then every mapped page but the scratch page can be written, and ring 3 reaches it exactly if it lies below the
      last 512 GiB. */
  lemma AdmittedRights(m: Memory, r: Frame, q: Page)
    requires Admits(m, r) && q != WINDOW
    ensures Walk(m, r, q) == Unmapped ==> Effective(m, r, q) == None
    ensures Walk(m, r, q) != Unmapped ==> Effective(m, r, q) == Some(Rights(true, q.i4 != 511))
  {
    hide Granted, Locate;
    var d, t := Dir(r, q.i4, q.i3), Pt(r, q.i4, q.i3, q.i2);
    RootLocated(m, r);
    LocateStep(m, Pdp(r, q.i4));
    LocateStep(m, d);
    LocateStep(m, t);
    assert Locate(m, Pml4(r)) == Some(r);
  }

  /** Address spaces that admit go on admitting, and new ones do from the start. */
  ghost predicate KeepsRights(a: View, b: View) {
    forall r :: r in b.spaces && (r in a.spaces ==> Admits(a.mem, r)) ==> Admits(b.mem, r)
  }

  lemma KeepsTwice(a: View, b: View, c: View)
    requires KeepsRights(a, b) && KeepsRights(b, c) && a.spaces <= b.spaces
    ensures KeepsRights(a, c)
  {
    hide Admits;
  }

  /** Nothing about the address space has changed but perhaps the scratch entry and presence bits that are gone. */
  lemma AdmitsKept(a: Memory, b: Memory, r: Frame)
    requires Admits(a, r) && forall k: Table | k.root == r :: Locate(b, k) == Locate(a, k)
    requires forall k: Table, i: Index ::
               k.root == r && Locate(a, k).Some? && !(k == WindowTable(r) && i == 511)
               && b[Slot(Locate(a, k).value, i)].present ==>
                 b[Slot(Locate(a, k).value, i)] == a[Slot(Locate(a, k).value, i)]
    ensures Admits(b, r)
  {
    hide Locate, Granted;
  }

  /** The scratch entry of the active address space belongs to no other table. */
  lemma ScratchSlot(v: View, k: Table, f: Frame, i: Index)
    requires Forest(v) && k.root in v.spaces && Locate(v.mem, k) == Some(f) && Slot(f, i) == WindowSlot(v.cr3)
    ensures k == WindowTable(k.root) && i == 511
  {
    hide Locate;
    assert Locate(v.mem, WindowTable(v.cr3)) == Some(v.cr3 + 3);
  }

  /** UnMap clears presence bits only. */
  lemma UnMapAdmits(a: View, b: View, r: Frame, v: Page, q: Frame)
    requires Forest(a) && q in a.spaces && Emptied(a.mem, b.mem, a.cr3, r, v) && Admits(a.mem, q)
    requires forall k: Table | k.root in a.spaces :: Locate(b.mem, k) == Locate(a.mem, k)
    ensures Admits(b.mem, q)
  {
    hide Locate, Admits, Maps;
    forall k: Table, i: Index | k.root == q && Locate(a.mem, k).Some? && !(k == WindowTable(q) && i == 511)
      && b.mem[Slot(Locate(a.mem, k).value, i)].present
      ensures b.mem[Slot(Locate(a.mem, k).value, i)] == a.mem[Slot(Locate(a.mem, k).value, i)]
    {
      if Slot(Locate(a.mem, k).value, i) == WindowSlot(a.cr3) {
        ScratchSlot(a, k, Locate(a.mem, k).value, i);
      }
    }
    AdmitsKept(a.mem, b.mem, q);
  }

  /** A word outside all tables. */
  lemma WriteAdmits(a: View, b: View, s: Slot, q: Frame)
    requires q in a.spaces && !IsTable(a.mem, a.spaces, s.frame) && Admits(a.mem, q)
    requires forall x: Slot :: x != s ==> b.mem[x] == a.mem[x]
    requires forall k: Table | k.root in a.spaces :: Locate(b.mem, k) == Locate(a.mem, k)
    ensures Admits(b.mem, q)
  {
    hide Locate, Admits;
    AdmitsKept(a.mem, b.mem, q);
  }

  /** A new address space next to the others. */
  lemma OpenAdmits(a: View, b: View, root: Frame, q: Frame)
    requires Bare(b.mem, root) && q in a.spaces && Admits(a.mem, q)
    requires forall s: Slot :: !(root <= s.frame < root + 4) ==> b.mem[s] == a.mem[s]
    requires forall g: Frame :: root <= g < root + 4 ==> !IsTable(a.mem, a.spaces, g)
    requires forall k: Table | k.root in a.spaces :: Locate(b.mem, k) == Locate(a.mem, k)
    ensures Admits(b.mem, q)
  {
    hide Locate, Admits, Bare, IsTable;
    forall k: Table | k.root == q && Locate(a.mem, k).Some?
      ensures !(root <= Locate(a.mem, k).value < root + 4)
    {
      IsTableIntro(a.mem, a.spaces, k, Locate(a.mem, k).value);
    }
    AdmitsKept(a.mem, b.mem, q);
  }

  lemma BareAdmits(m: Memory, root: Frame)
    requires Bare(m, root)
    ensures Admits(m, root)
  {
    hide Locate, Granted;
    BareTables(m, root, WindowTable(root));
    forall k: Table, i: Index | k.root == root && Locate(m, k).Some? && !(k == WindowTable(root) && i == 511)
      ensures Admitted(m[Slot(Locate(m, k).value, i)], k, i)
    {
      BareTables(m, root, k);
      var t := Locate(m, k).value - root;
      assert m[Slot(root + t, i)] == BareEntry(root, t, i);
      GrantedAccess(m[Slot(root + t, i)]);
    }
  }

  /** The tables on the way to the scratch page are there, so Map makes none of them. */
  lemma ScratchTables(m: Memory, r: Frame)
    requires Admits(m, r)
    ensures Locate(m, Pdp(r, 511)).Some? && Locate(m, Dir(r, 511, 511)).Some?
  {
    hide Locate, Admitted;
    LocateStep(m, WindowTable(r));
    LocateStep(m, Dir(r, 511, 511));
  }

  /** An entry that Map has left or made. */
  lemma WordAdmits(a: View, b: View, v: Page, p: Frame, w: Way, k: Table, i: Index, f: Frame)
    requires WayMade(a.mem, b.mem, v, w, p) && Separate(b.mem, b.spaces) && w.root in b.spaces && k.root in b.spaces
    requires Locate(b.mem, k) == Some(f) && Admits(a.mem, k.root) && !(k == WindowTable(k.root) && i == 511)
    requires Locate(a.mem, k).Some? ==> Locate(a.mem, k) == Some(f)
    requires Locate(a.mem, k).None? ==> OnPath(w.root, v, k)
    requires b.mem[Slot(f, i)] == WordAfter(a.mem[Slot(f, i)], v, p, w, Slot(f, i))
    ensures Admitted(b.mem[Slot(f, i)], k, i)
  {
    hide Locate, TableEntry, Granted;
    RootLocated(b.mem, w.root);
    RootLocated(a.mem, w.root);
    ScratchTables(a.mem, k.root);
    EntryPresent(w.x1);
    EntryPresent(w.x2);
    EntryPresent(w.y);
    EntryPresent(p);
  }

  lemma MappedTable(a: View, b: View, r: Frame, v: Page, p: Frame, free: seq<Frame>, k: Table)
    requires Mapped(a, b, r, v, p, free) && k.root in a.spaces && Locate(b.mem, k).Some?
    ensures Locate(a.mem, k).Some? ==> Locate(a.mem, k) == Locate(b.mem, k)
    ensures Locate(a.mem, k).None? ==> OnPath(r, v, k)
  {
    hide Locate, Walk, IsTable;
  }

  /** Map keeps what address spaces admit. */
  lemma MapAdmits(a: View, b: View, r: Frame, v: Page, p: Frame, free: seq<Frame>, q: Frame)
    requires Stored(a.mem, b.mem, a.cr3, r, v, p, free) && Mapped(a, b, r, v, p, free) && Forest(b)
    requires b.cr3 == a.cr3 && b.spaces == a.spaces && r in a.spaces && q in a.spaces && Admits(a.mem, q)
    requires r == a.cr3 ==> v != WINDOW
    ensures Admits(b.mem, q)
  {
    hide Locate, Admitted, WordAfter, DescentMemory, Mapped, WayMade, OnPath, InOrder, TableEntry;
    MapWords(a, b, r, v, p, free);
    WayWords(a, b, r, v, p, free);
    MappedStays(a, b, r, v, p, free, WindowTable(q));
    var w := WayOf(a.mem, b.mem, r, v);
    forall k: Table, i: Index | k.root == q && Locate(b.mem, k).Some? && !(k == WindowTable(q) && i == 511)
      ensures Admitted(b.mem[Slot(Locate(b.mem, k).value, i)], k, i)
    {
      var f := Locate(b.mem, k).value;
      MappedTable(a, b, r, v, p, free, k);
      if Slot(f, i) == WindowSlot(b.cr3) {
        ScratchSlot(b, k, f, i);
      } else {
        WordAdmits(a, b, v, p, w, k, i, f);
      }
    }
  }

  lemma MappedStays(a: View, b: View, r: Frame, v: Page, p: Frame, free: seq<Frame>, k: Table)
    requires Mapped(a, b, r, v, p, free) && k.root in a.spaces && Locate(a.mem, k).Some?
    ensures Locate(b.mem, k) == Locate(a.mem, k)
  {
    hide Locate, Walk, IsTable;
  }
}
