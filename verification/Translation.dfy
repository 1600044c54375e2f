/** Physical memory, the four-level tables stored in it, and the translation they define
    (AMD64 Architecture Programmer's Manual, Volume 2, section 5.3). */
module Translation {
  import opened Options
  import opened Words

  /** One 64-bit word of physical memory. */
  datatype Slot = Slot(frame: Frame, index: Index)

  type Memory = m: imap<Slot, Word> | forall s: Slot :: s in m ghost witness imap s: Slot :: ZERO

  /** A virtual page, as the four table indices of its address. */
  datatype Page = Page(i4: Index, i3: Index, i2: Index, i1: Index)

  /** What a page translates to: nothing, a 4 KiB frame, or a frame inside a 2 MiB leaf. */
  datatype Mapping = Unmapped | Small(frame: Frame) | Large(frame: Frame)

  /** The tables of one address space, named by the indices that lead to them from the root. */
  datatype Table =
    | Pml4(root: Frame)
    | Pdp(root: Frame, i4: Index)
    | Dir(root: Frame, i4: Index, i3: Index)
    | Pt(root: Frame, i4: Index, i3: Index, i2: Index)

  /** The page whose address equals the address of physical frame f. */
  function PageOf(f: Frame): Page {
    Page(f / 0x800_0000 % 512, f / 0x4_0000 % 512, f / 512 % 512, f % 512)
  }

  function Walk(m: Memory, root: Frame, p: Page): Mapping {
    var e4 := m[Slot(root, p.i4)];
    if !e4.present then Unmapped else
    var e3 := m[Slot(e4.frame, p.i3)];
    if !e3.present then Unmapped else
    var e2 := m[Slot(e3.frame, p.i2)];
    if !e2.present then Unmapped else
    if e2.large then Large(e2.frame / 512 * 512 + p.i1) else
    var e1 := m[Slot(e2.frame, p.i1)];
    if !e1.present then Unmapped else Small(e1.frame)
  }

  /** The frame that holds table n, if the entries leading to it are present. */
  function Locate(m: Memory, n: Table): Option<Frame> {
    if n.Pml4? then Some(n.root) else
    var e4 := m[Slot(n.root, n.i4)];
    if !e4.present then None else
    if n.Pdp? then Some(e4.frame) else
    var e3 := m[Slot(e4.frame, n.i3)];
    if !e3.present then None else
    if n.Dir? then Some(e3.frame) else
    var e2 := m[Slot(e3.frame, n.i2)];
    if !e2.present || e2.large then None else Some(e2.frame)
  }

  function Child(n: Table, i: Index): Table
    requires !n.Pt?
  {
    match n
    case Pml4(r) => Pdp(r, i)
    case Pdp(r, i4) => Dir(r, i4, i)
    case Dir(r, i4, i3) => Pt(r, i4, i3, i)
  }

  function Parent(k: Table): Table
    requires !k.Pml4?
  {
    match k
    case Pdp(r, _) => Pml4(r)
    case Dir(r, i4, _) => Pdp(r, i4)
    case Pt(r, i4, i3, _) => Dir(r, i4, i3)
  }

  function Last(k: Table): Index
    requires !k.Pml4?
  {
    match k
    case Pdp(_, i) => i
    case Dir(_, _, i) => i
    case Pt(_, _, _, i) => i
  }

  function Depth(k: Table): nat {
    match k
    case Pml4(_) => 0
    case Pdp(_, _) => 1
    case Dir(_, _, _) => 2
    case Pt(_, _, _, _) => 3
  }

  lemma RootLocated(m: Memory, root: Frame)
    ensures Locate(m, Pml4(root)) == Some(root)
  {
  }

  /** A table is found through the last index of its name in the table above it. */
  lemma LocateStep(m: Memory, k: Table)
    requires !k.Pml4?
    ensures Locate(m, k) ==
            match Locate(m, Parent(k))
            case None => None
            case Some(f) =>
              var e := m[Slot(f, Last(k))];
              if !e.present || (k.Pt? && e.large) then None else Some(e.frame)
    ensures Child(Parent(k), Last(k)) == k
  {
  }

  /** The walk of page p in the address space of n reads entry i of table n, if it gets that far. */
  predicate Through(n: Table, i: Index, root: Frame, p: Page) {
    n.root == root &&
    match n
    case Pml4(_) => i == p.i4
    case Pdp(_, i4) => i4 == p.i4 && i == p.i3
    case Dir(_, i4, i3) => i4 == p.i4 && i3 == p.i3 && i == p.i2
    case Pt(_, i4, i3, i2) => Page(i4, i3, i2, i) == p
  }

  /** Table c is reached through entry i of table n. */
  predicate Below(n: Table, i: Index, c: Table) {
    n.root == c.root &&
    match n
    case Pml4(_) => !c.Pml4? && c.i4 == i
    case Pdp(_, i4) => (c.Dir? || c.Pt?) && c.i4 == i4 && c.i3 == i
    case Dir(_, i4, i3) => c == Pt(n.root, i4, i3, i)
    case Pt(_, _, _, _) => false
  }

  /** Well-formedness of all address spaces together: no frame holds two tables. */
  ghost predicate Separate(m: Memory, spaces: set<Frame>) {
    forall n: Table, c: Table {:trigger Locate(m, n), Locate(m, c)} | n.root in spaces && c.root in spaces
      && Locate(m, n).Some? && Locate(m, n) == Locate(m, c) :: n == c
  }

  ghost predicate IsTable(m: Memory, spaces: set<Frame>, f: Frame) {
    exists n: Table :: n.root in spaces && Locate(m, n) == Some(f)
  }

  lemma IsTableIntro(m: Memory, spaces: set<Frame>, n: Table, f: Frame)
    requires n.root in spaces && Locate(m, n) == Some(f)
    ensures IsTable(m, spaces, f)
  {
  }

  /** Memory b differs from a at most in entries s and t and in the frames cs. */
  ghost predicate Detour(a: Memory, b: Memory, s: Slot, t: Slot, cs: set<Frame>) {
    forall x: Slot :: x.frame !in cs && x != s && x != t ==> b[x] == a[x]
  }

  /** Two entries (i of table n in frame x, j of table w in frame y) and frames that hold no table. */
  ghost predicate Places(m: Memory, spaces: set<Frame>, n: Table, x: Frame, w: Table, y: Frame, cs: set<Frame>) {
    && Separate(m, spaces) && n.root in spaces && w.root in spaces
    && Locate(m, n) == Some(x) && Locate(m, w) == Some(y)
    && forall c :: c in cs ==> !IsTable(m, spaces, c)
  }

  /** Entries of tables other than the two named ones are untouched. */
  lemma EntryDetour(a: Memory, b: Memory, spaces: set<Frame>, n: Table, i: Index, x: Frame,
                    w: Table, j: Index, y: Frame, cs: set<Frame>, k: Table, f: Frame, l: Index)
    requires Places(a, spaces, n, x, w, y, cs) && Detour(a, b, Slot(x, i), Slot(y, j), cs)
    requires k.root in spaces && Locate(a, k) == Some(f) && !(k == n && l == i) && !(k == w && l == j)
    ensures b[Slot(f, l)] == a[Slot(f, l)]
  {
    if f in cs {
      IsTableIntro(a, spaces, k, f);
    }
  }

  /** Changing two entries and frames that hold no table moves no table but those below the entries. */
  lemma LocateDetour(a: Memory, b: Memory, spaces: set<Frame>, n: Table, i: Index, x: Frame,
                     w: Table, j: Index, y: Frame, cs: set<Frame>, k: Table)
    requires Places(a, spaces, n, x, w, y, cs) && Detour(a, b, Slot(x, i), Slot(y, j), cs)
    requires k.root in spaces && !Below(n, i, k) && !Below(w, j, k)
    ensures Locate(b, k) == Locate(a, k)
    decreases Depth(k)
  {
    if !k.Pml4? {
      var q, l := Parent(k), Last(k);
      LocateStep(a, k);
      LocateStep(b, k);
      LocateDetour(a, b, spaces, n, i, x, w, j, y, cs, q);
      if Locate(a, q).Some? {
        EntryDetour(a, b, spaces, n, i, x, w, j, y, cs, q, Locate(a, q).value, l);
      }
    }
  }

  /** The walk, by the tables it goes through. */
  lemma WalkTables(m: Memory, root: Frame, p: Page)
    ensures var d := Locate(m, Dir(root, p.i4, p.i3));
            var t := Locate(m, Pt(root, p.i4, p.i3, p.i2));
            && (d == None ==> t == None && Walk(m, root, p) == Unmapped)
            && (d.Some? ==>
                  var e2 := m[Slot(d.value, p.i2)];
                  && (t.Some? <==> e2.present && !e2.large)
                  && (t == None ==>
                        Walk(m, root, p) == if e2.present then Large(e2.frame / 512 * 512 + p.i1) else Unmapped)
                  && (t.Some? ==>
                        var e1 := m[Slot(t.value, p.i1)];
                        Walk(m, root, p) == if e1.present then Small(e1.frame) else Unmapped))
  {
  }

  /** ... and changes no translation but those that read one of the two entries. */
  lemma WalkDetour(a: Memory, b: Memory, spaces: set<Frame>, n: Table, i: Index, x: Frame,
                   w: Table, j: Index, y: Frame, cs: set<Frame>, root: Frame, p: Page)
    requires Places(a, spaces, n, x, w, y, cs) && Detour(a, b, Slot(x, i), Slot(y, j), cs)
    requires root in spaces && !Through(n, i, root, p) && !Through(w, j, root, p)
    ensures Walk(b, root, p) == Walk(a, root, p)
  {
    var d, t := Dir(root, p.i4, p.i3), Pt(root, p.i4, p.i3, p.i2);
    WalkTables(a, root, p);
    WalkTables(b, root, p);
    LocateDetour(a, b, spaces, n, i, x, w, j, y, cs, d);
    LocateDetour(a, b, spaces, n, i, x, w, j, y, cs, t);
    if Locate(a, d).Some? {
      EntryDetour(a, b, spaces, n, i, x, w, j, y, cs, d, Locate(a, d).value, p.i2);
      if Locate(a, t).Some? {
        EntryDetour(a, b, spaces, n, i, x, w, j, y, cs, t, Locate(a, t).value, p.i1);
      }
    }
  }

  /** Changing entries of last-level tables and frames that hold no table keeps the tables where they are. */
  lemma TablesDetour(a: Memory, b: Memory, spaces: set<Frame>, n: Table, i: Index, x: Frame,
                     w: Table, j: Index, y: Frame, cs: set<Frame>)
    requires Places(a, spaces, n, x, w, y, cs) && Detour(a, b, Slot(x, i), Slot(y, j), cs)
    requires n.Pt? && w.Pt?
    ensures forall k: Table | k.root in spaces :: Locate(b, k) == Locate(a, k)
    ensures Separate(b, spaces)
    ensures forall f: Frame :: IsTable(b, spaces, f) <==> IsTable(a, spaces, f)
  {
    forall k: Table | k.root in spaces
      ensures Locate(b, k) == Locate(a, k)
    {
      LocateDetour(a, b, spaces, n, i, x, w, j, y, cs, k);
    }
    SameTables(a, b, spaces);
  }

  lemma SameTables(a: Memory, b: Memory, spaces: set<Frame>)
    requires Separate(a, spaces)
    requires forall k: Table | k.root in spaces :: Locate(b, k) == Locate(a, k)
    ensures Separate(b, spaces)
    ensures forall f: Frame :: IsTable(b, spaces, f) <==> IsTable(a, spaces, f)
  {
    forall f: Frame
      ensures IsTable(b, spaces, f) <==> IsTable(a, spaces, f)
    {
      if IsTable(a, spaces, f) {
        var n: Table :| n.root in spaces && Locate(a, n) == Some(f);
        IsTableIntro(b, spaces, n, f);
      }
      if IsTable(b, spaces, f) {
        var n: Table :| n.root in spaces && Locate(b, n) == Some(f);
        IsTableIntro(a, spaces, n, f);
      }
    }
  }

  /** A page that is mapped walks through present entries only; one mapped by a 4 KiB page through no 2 MiB leaf. */
  lemma MappedThrough(m: Memory, n: Table, i: Index, x: Frame, root: Frame, p: Page)
    requires Locate(m, n) == Some(x) && Through(n, i, root, p) && Walk(m, root, p) != Unmapped
    ensures m[Slot(x, i)].present
    ensures n.Dir? ==> (Walk(m, root, p).Large? <==> m[Slot(x, i)].large)
  {
  }

  /** Entry i of table n held no table in memory a; in b it leads to a zeroed frame c. */
  ghost predicate Links(a: Memory, b: Memory, n: Table, i: Index, x: Frame, c: Frame) {
    && !n.Pt?
    && (!a[Slot(x, i)].present || (n.Dir? && a[Slot(x, i)].large))
    && b[Slot(x, i)].present && !b[Slot(x, i)].large && b[Slot(x, i)].frame == c
    && forall k: Index :: b[Slot(c, k)] == ZERO
  }

  lemma LinkedLocate(a: Memory, b: Memory, spaces: set<Frame>, n: Table, i: Index, x: Frame,
                     w: Table, j: Index, y: Frame, c: Frame, k: Table)
    requires Places(a, spaces, n, x, w, y, {c}) && Detour(a, b, Slot(x, i), Slot(y, j), {c})
    requires w.Pt? && Links(a, b, n, i, x, c) && k.root in spaces
    ensures Locate(b, k) == if k == Child(n, i) then Some(c) else Locate(a, k)
    ensures k == Child(n, i) ==> Locate(a, k) == None
  {
    if Below(n, i, k) {
      LocateDetour(a, b, spaces, n, i, x, w, j, y, {c}, n);
      assert n == Pml4(n.root) || n == Pdp(n.root, k.i4) || n == Dir(n.root, k.i4, k.i3);
      assert b[Slot(x, i)].frame == c;
      if n.Pml4? && k.Pt? {
        assert b[Slot(c, k.i3)] == ZERO;
      }
      assert k != Child(n, i) ==> Locate(b, k) == None;
    } else {
      LocateDetour(a, b, spaces, n, i, x, w, j, y, {c}, k);
    }
  }

  /** Linking a zeroed frame that held no table keeps the address spaces well-formed and adds that one table. */
  lemma Linked(a: Memory, b: Memory, spaces: set<Frame>, n: Table, i: Index, x: Frame,
               w: Table, j: Index, y: Frame, c: Frame)
    requires Places(a, spaces, n, x, w, y, {c}) && Detour(a, b, Slot(x, i), Slot(y, j), {c})
    requires w.Pt? && Links(a, b, n, i, x, c)
    ensures Separate(b, spaces)
    ensures Locate(b, Child(n, i)) == Some(c)
    ensures forall k: Table | k.root in spaces && k != Child(n, i) :: Locate(b, k) == Locate(a, k)
    ensures forall f: Frame :: IsTable(b, spaces, f) <==> IsTable(a, spaces, f) || f == c
    ensures forall p :: Through(n, i, n.root, p) ==> Walk(b, n.root, p) == Unmapped
  {
    var d := Child(n, i);
    forall k: Table | k.root in spaces
      ensures Locate(b, k) == if k == d then Some(c) else Locate(a, k)
      ensures k == d ==> Locate(a, k) == None
    {
      LinkedLocate(a, b, spaces, n, i, x, w, j, y, c, k);
    }
    forall f: Frame
      ensures IsTable(b, spaces, f) <==> IsTable(a, spaces, f) || f == c
    {
      if IsTable(a, spaces, f) {
        var k: Table :| k.root in spaces && Locate(a, k) == Some(f);
        IsTableIntro(b, spaces, k, f);
      }
      if f == c {
        IsTableIntro(b, spaces, d, f);
      }
      if IsTable(b, spaces, f) {
        var k: Table :| k.root in spaces && Locate(b, k) == Some(f);
        if k != d {
          IsTableIntro(a, spaces, k, f);
        }
      }
    }
    forall k: Table, l: Table | k.root in spaces && l.root in spaces && Locate(b, k).Some?
      && Locate(b, k) == Locate(b, l)
      ensures k == l
    {
      if k != d && l == d {
        IsTableIntro(a, spaces, k, c);
      }
      if l != d && k == d {
        IsTableIntro(a, spaces, l, c);
      }
    }
    forall p | Through(n, i, n.root, p)
      ensures Walk(b, n.root, p) == Unmapped
    {
      assert Locate(b, d) == Some(c);
      assert b[Slot(c, p.i3)] == ZERO && b[Slot(c, p.i2)] == ZERO && b[Slot(c, p.i1)] == ZERO;
    }
  }
}
