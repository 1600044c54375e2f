/** What holds of memory, buffer and free frames between two operations on the address spaces, and how it
    survives the half-finished states in between. */
module AddressSpaces {
  import opened Options
  import opened Words
  import opened Translation
  import opened Hardware
  import opened Frames

  /** The scratch page through which all tables are edited. */
  const WINDOW := Page(511, 511, 511, 511)

  const MAX_ROOT: Frame := 0xFF_FFFF_FFFC

  function WindowTable(root: Frame): Table {
    Pt(root, 511, 511, 511)
  }

  /** The entry behind the scratch page of address space root; `dynamic_page` points to it. */
  function WindowSlot(root: Frame): Slot
    requires root < MAX_ROOT
  {
    Slot(root + 3, 511)
  }

  /** address + 0x?00B, where the leading digits make the frame: present, writable, write-through. */
  function TableWord(f: Frame): Word {
    Word(true, 1, WRITE_THROUGH, 0, false, 0, f, 0)
  }

  /** address + 0x18F: present, for users, writable, write-through, a leaf, global. */
  function LeafWord(f: Frame): Word {
    Word(true, USER_WRITABLE, WRITE_THROUGH, 0, true, 1, f, 0)
  }

  lemma LeafConstant(a: bv64)
    requires Aligned(a)
    ensures EntryOf(Plus(a, 0x18F)) == LeafWord(FrameOf(a))
  {
    hide FrameNumber, Split, Plus, Aligned;
    LeafBits(a);
  }

  lemma LeafBits(a: bv64)
    requires Aligned(a)
    ensures Split(Plus(a, 0x18F)) == Bits(true, 3, 1, 0, true, 1, Split(a).frame, 0)
  {
  }

  lemma TableConstant(a: bv64)
    requires Aligned(a)
    ensures EntryOf(Plus(a, 0xB)) == TableWord(FrameOf(a))
  {
    hide FrameNumber, Split, Plus, Aligned;
    TableBits(a);
  }

  lemma TableBits(a: bv64)
    requires Aligned(a)
    ensures Split(Plus(a, 0xB)) == Bits(true, 1, 1, 0, false, 0, Split(a).frame, 0)
  {
  }

  /** The frame after a, and the entry that leads to a table there. */
  lemma NextTable(a: bv64)
    requires Aligned(a) && FrameOf(a) < 0xFF_FFFF_FFFF
    ensures Aligned(PageAfter(a)) && FrameOf(PageAfter(a)) == FrameOf(a) + 1
    ensures EntryOf(Plus(PageAfter(a), 0xB)) == TableWord(FrameOf(a) + 1)
  {
    hide EntryOf, FrameOf, PageAfter, Plus, Aligned, TableWord;
    NextAddress(a);
    TableConstant(PageAfter(a));
  }

  lemma Next1(a: bv64)
    ensures Plus(PageAfter(a), 0xB) == Plus(a, 0x100B)
  {
  }

  lemma Next2(a: bv64)
    ensures Plus(PageAfter(PageAfter(a)), 0xB) == Plus(a, 0x200B)
  {
  }

  lemma Next3(a: bv64)
    ensures Plus(PageAfter(PageAfter(PageAfter(a))), 0xB) == Plus(a, 0x300B)
  {
  }

  /** What the constants of the scratch path put into the tables. */
  lemma PathConstants(a: bv64, f: Frame)
    requires Aligned(a) && FrameOf(a) == f < MAX_ROOT
    ensures EntryOf(Plus(a, 0x100B)) == TableWord(f + 1)
    ensures EntryOf(Plus(a, 0x200B)) == TableWord(f + 2)
    ensures EntryOf(Plus(a, 0x300B)) == TableWord(f + 3)
    ensures EntryOf(Plus(a, 0x18F)) == LeafWord(f)
  {
    hide EntryOf, FrameOf, PageAfter, Plus, Aligned, TableWord, LeafWord;
    Next1(a);
    Next2(a);
    Next3(a);
    NextTable(a);
    NextTable(PageAfter(a));
    NextTable(PageAfter(PageAfter(a)));
    LeafConstant(a);
  }

  /** The scratch page of an address space is behind the third frame after its root. */
  ghost predicate HasWindow(m: Memory, root: Frame) {
    root < MAX_ROOT && Locate(m, WindowTable(root)) == Some(root + 3) && m[WindowSlot(root)].present
  }

  /** Frame f is accessed at the page that bears its own address. */
  ghost predicate Identity(v: View, f: Frame) {
    Settled(v.mem, v.tlb, v.cr3, PageOf(f), f) && PageOf(f) != WINDOW
  }

  /** Separate address spaces, one of them active and with its scratch page in place. */
  ghost predicate Forest(v: View) {
    && Separate(v.mem, v.spaces) && v.cr3 in v.spaces
    && HasWindow(v.mem, v.cr3)
  }

  /** The invariant: well-formed address spaces, a buffer that contradicts no mapped page, and free frames
      that hold no table and can be reached at their own address. */
  ghost predicate Sound(v: View, free: seq<Frame>) {
    && Forest(v)
    && (forall p :: Agrees(v.mem, v.tlb, v.cr3, p))
    && Identity(v, v.cr3 + 3)
    && (forall f :: f in free ==> Identity(v, f) && !IsTable(v.mem, v.spaces, f))
    && Distinct(free)
  }

  /** State b is reached from the sound state a with only entry i of table n (in frame x), the scratch
      entry of the active space and the table-free frames cs touched so far. */
  ghost predicate Touched(a: View, b: View, n: Table, i: Index, x: Frame, cs: set<Frame>) {
    && Forest(a) && n.root in a.spaces && Locate(a.mem, n) == Some(x)
    && !Through(n, i, a.cr3, WINDOW)
    && b.cr3 == a.cr3 && b.spaces == a.spaces
    && (forall c :: c in cs ==> !IsTable(a.mem, a.spaces, c))
    && Detour(a.mem, b.mem, Slot(x, i), WindowSlot(a.cr3), cs)
    && b.mem[WindowSlot(a.cr3)].present
  }

  /** ... and the buffer contradicts no page but those that read the entry. */
  ghost predicate Midway(a: View, b: View, n: Table, i: Index, x: Frame, cs: set<Frame>) {
    && Touched(a, b, n, i, x, cs)
    && forall p :: !Through(n, i, a.cr3, p) && p != WINDOW ==> Agrees(b.mem, b.tlb, b.cr3, p)
  }

  lemma MidwayStart(a: View, free: seq<Frame>, n: Table, i: Index, x: Frame)
    requires Sound(a, free) && n.root in a.spaces && Locate(a.mem, n) == Some(x) && !Through(n, i, a.cr3, WINDOW)
    ensures Midway(a, a, n, i, x, {})
  {
  }

  /** A frame without a table may be drawn in at any time. */
  lemma MidwayWiden(a: View, b: View, n: Table, i: Index, x: Frame, c: Frame)
    requires Midway(a, b, n, i, x, {}) && !IsTable(a.mem, a.spaces, c)
    ensures Midway(a, b, n, i, x, {c})
  {
  }

  lemma MidwayWalk(a: View, b: View, n: Table, i: Index, x: Frame, cs: set<Frame>, root: Frame, p: Page)
    requires Touched(a, b, n, i, x, cs) && root in a.spaces
    requires !Through(n, i, root, p) && !(root == a.cr3 && p == WINDOW)
    ensures Walk(b.mem, root, p) == Walk(a.mem, root, p)
  {
    WalkDetour(a.mem, b.mem, a.spaces, n, i, x, WindowTable(a.cr3), 511, a.cr3 + 3, cs, root, p);
  }

  /** The walk to the scratch entry passes only through entries of other frames. */
  ghost predicate WindowPath(m: Memory, root: Frame) {
    && HasWindow(m, root)
    && Locate(m, Pdp(root, 511)) != Some(root + 3)
    && Locate(m, Dir(root, 511, 511)) != Some(root + 3)
  }

  lemma ForestWindow(v: View)
    requires Forest(v)
    ensures WindowPath(v.mem, v.cr3)
    ensures Walk(v.mem, v.cr3, WINDOW) == Small(v.mem[WindowSlot(v.cr3)].frame)
  {
    assert Locate(v.mem, WindowTable(v.cr3)) == Some(v.cr3 + 3);
  }

  lemma WindowWalk(m: Memory, root: Frame)
    requires HasWindow(m, root)
    ensures Walk(m, root, WINDOW) == Small(m[WindowSlot(root)].frame)
  {
    WalkTables(m, root, WINDOW);
  }

  lemma MidwayWindow(a: View, b: View, n: Table, i: Index, x: Frame, cs: set<Frame>)
    requires Midway(a, b, n, i, x, cs)
    ensures WindowPath(b.mem, b.cr3)
  {
    ForestWindow(a);
    MidwayTable(a, b, n, i, x, cs, Pdp(a.cr3, 511));
    MidwayTable(a, b, n, i, x, cs, Dir(a.cr3, 511, 511));
    MidwayTable(a, b, n, i, x, cs, WindowTable(a.cr3));
  }

  lemma MidwayTable(a: View, b: View, n: Table, i: Index, x: Frame, cs: set<Frame>, k: Table)
    requires Touched(a, b, n, i, x, cs) && k.root in a.spaces && !Below(n, i, k)
    ensures Locate(b.mem, k) == Locate(a.mem, k)
  {
    LocateDetour(a.mem, b.mem, a.spaces, n, i, x, WindowTable(a.cr3), 511, a.cr3 + 3, cs, k);
  }

  /** Pointing the scratch entry at frame t makes the scratch page translate to t. */
  lemma WindowMoves(m: Memory, root: Frame, w: Word)
    requires WindowPath(m, root) && w.present
    ensures var b := m[WindowSlot(root) := w];
            WindowPath(b, root) && Walk(b, root, WINDOW) == Small(w.frame)
  {
  }

  /** Memory m with the scratch entry pointed at frame f. */
  function Pointing(m: Memory, root: Frame, f: Frame): Memory
    requires root < MAX_ROOT
  {
    m[WindowSlot(root) := m[WindowSlot(root)].(frame := f)]
  }

  /** The setter that moves the scratch entry stores twice, and leaves it pointing at frame 0 in between; once the
      scratch page has been invalidated, the buffer is as if it had stored once. */
  lemma TwoStores(a: View, half: Tlb, b: View, f: Frame)
    requires Forest(a) && b.cr3 == a.cr3 && b.mem == Pointing(a.mem, a.cr3, f)
    requires Speculated(a.tlb - {WINDOW}, half, Pointing(a.mem, a.cr3, 0), a.cr3)
    requires Speculated(half - {WINDOW}, b.tlb, b.mem, b.cr3)
    ensures Speculated(a.tlb - {WINDOW}, b.tlb, b.mem, b.cr3)
  {
    hide Walk, Locate;
    forall p | p != WINDOW
      ensures Walk(Pointing(a.mem, a.cr3, 0), a.cr3, p) == Walk(b.mem, b.cr3, p)
    {
      Unread(a, 0, p);
      Unread(a, f, p);
    }
  }

  /** Wherever the scratch entry leads, no other page notices. */
  lemma Unread(v: View, f: Frame, p: Page)
    requires Forest(v) && p != WINDOW
    ensures Walk(Pointing(v.mem, v.cr3, f), v.cr3, p) == Walk(v.mem, v.cr3, p)
  {
    hide Walk, Locate;
    var w, y := WindowTable(v.cr3), v.cr3 + 3;
    WalkDetour(v.mem, Pointing(v.mem, v.cr3, f), v.spaces, w, 511, y, w, 511, y, {}, v.cr3, p);
  }

  lemma MidwayActive(a: View, b: View, n: Table, i: Index, x: Frame, cs: set<Frame>)
    requires Midway(a, b, n, i, x, cs)
    ensures a.cr3 == b.cr3 < MAX_ROOT && b.mem[WindowSlot(a.cr3)].present
  {
  }

  /** ... and the same for the two stores of a state in between. */
  lemma MidwaySelected(a: View, b: View, half: Tlb, c: View, n: Table, i: Index, x: Frame, cs: set<Frame>, f: Frame)
    requires Midway(a, b, n, i, x, cs)
    requires c.cr3 == b.cr3 && c.spaces == b.spaces && c.mem == Pointing(b.mem, b.cr3, f)
    requires Speculated(b.tlb - {WINDOW}, half, Pointing(b.mem, b.cr3, 0), b.cr3)
    requires Speculated(half - {WINDOW}, c.tlb, c.mem, c.cr3)
    ensures Midway(a, c, n, i, x, cs)
  {
    hide Midway, Walk, Locate, Through;
    MidwayActive(a, b, n, i, x, cs);
    var h := View(Pointing(b.mem, b.cr3, 0), half, b.cr3, b.spaces);
    MidwayStore(a, b, h, n, i, x, cs, WindowSlot(a.cr3), h.mem[WindowSlot(a.cr3)]);
    MidwayStore(a, h, c, n, i, x, cs, WindowSlot(a.cr3), c.mem[WindowSlot(a.cr3)]);
  }

  /** One more store into the entry, the scratch entry or cs, after which the buffer may have been refilled. */
  lemma MidwayStore(a: View, b: View, c: View, n: Table, i: Index, x: Frame, cs: set<Frame>, s: Slot, w: Word)
    requires Midway(a, b, n, i, x, cs)
    requires s == Slot(x, i) || s.frame in cs || s == WindowSlot(a.cr3)
    requires s == WindowSlot(a.cr3) ==> w.present
    requires c.mem == b.mem[s := w] && c.cr3 == b.cr3 && c.spaces == b.spaces
    requires Speculated(b.tlb, c.tlb, c.mem, c.cr3) || Speculated(b.tlb - {WINDOW}, c.tlb, c.mem, c.cr3)
    ensures Midway(a, c, n, i, x, cs)
  {
    forall p | !Through(n, i, a.cr3, p) && p != WINDOW
      ensures Agrees(c.mem, c.tlb, c.cr3, p)
    {
      MidwayWalk(a, b, n, i, x, cs, a.cr3, p);
      MidwayWalk(a, c, n, i, x, cs, a.cr3, p);
      assert Agrees(b.mem, b.tlb, b.cr3, p);
    }
  }

  /** Frames reached at their own address stay so, as long as that page does not read the changed entry. */
  lemma MidwayIdentity(a: View, b: View, n: Table, i: Index, x: Frame, cs: set<Frame>, f: Frame)
    requires Midway(a, b, n, i, x, cs) && Identity(a, f) && !Through(n, i, a.cr3, PageOf(f))
    ensures Identity(b, f)
  {
    MidwayWalk(a, b, n, i, x, cs, a.cr3, PageOf(f));
    assert Agrees(b.mem, b.tlb, b.cr3, PageOf(f));
  }

  /** Moving the scratch entry of a sound state. */
  lemma SoundSelect(a: View, b: View, free: seq<Frame>, f: Frame)
    requires Sound(a, free)
    requires b.mem == a.mem[WindowSlot(a.cr3) := a.mem[WindowSlot(a.cr3)].(frame := f)]
    requires b.cr3 == a.cr3 && b.spaces == a.spaces && Speculated(a.tlb - {WINDOW}, b.tlb, b.mem, b.cr3)
    ensures Sound(b, free) && Settled(b.mem, b.tlb, b.cr3, WINDOW, f)
    ensures forall k: Table | k.root in a.spaces :: Locate(b.mem, k) == Locate(a.mem, k)
    ensures forall g: Frame :: IsTable(b.mem, b.spaces, g) <==> IsTable(a.mem, a.spaces, g)
    ensures forall r: Frame, p | r in a.spaces && !(r == a.cr3 && p == WINDOW) :: Walk(b.mem, r, p) == Walk(a.mem, r, p)
  {
    hide Locate, Walk, PageOf;
    var w, y := WindowTable(a.cr3), a.cr3 + 3;
    ForestWindow(a);
    WindowMoves(a.mem, a.cr3, b.mem[WindowSlot(a.cr3)]);
    TablesDetour(a.mem, b.mem, a.spaces, w, 511, y, w, 511, y, {});
    forall r: Frame, p | r in a.spaces && !(r == a.cr3 && p == WINDOW)
      ensures Walk(b.mem, r, p) == Walk(a.mem, r, p)
    {
      WalkDetour(a.mem, b.mem, a.spaces, w, 511, y, w, 511, y, {}, r, p);
    }
    forall p
      ensures Agrees(b.mem, b.tlb, b.cr3, p)
    {
      assert Agrees(a.mem, a.tlb, a.cr3, p);
    }
  }

  /** A sound state stays sound whatever the processor does to its buffer. */
  lemma SoundSpeculated(a: View, b: View, free: seq<Frame>)
    requires Sound(a, free) && b == a.(tlb := b.tlb) && Speculated(a.tlb, b.tlb, b.mem, b.cr3)
    ensures Sound(b, free)
    ensures forall g: Frame :: Identity(a, g) ==> Identity(b, g)
  {
    hide Walk, Locate, PageOf;
    forall p
      ensures Agrees(b.mem, b.tlb, b.cr3, p)
    {
      assert Agrees(a.mem, a.tlb, a.cr3, p);
    }
  }

  /** A new table in place: the entry leads to the zeroed frame c. */
  lemma ForestLinked(a: View, b: View, n: Table, i: Index, x: Frame, c: Frame)
    requires Midway(a, b, n, i, x, {c}) && Links(a.mem, b.mem, n, i, x, c)
    ensures Forest(b)
    ensures Locate(b.mem, Child(n, i)) == Some(c)
    ensures forall k: Table | k.root in a.spaces && k != Child(n, i) :: Locate(b.mem, k) == Locate(a.mem, k)
    ensures forall g: Frame :: IsTable(b.mem, b.spaces, g) <==> IsTable(a.mem, a.spaces, g) || g == c
    ensures forall p :: Through(n, i, n.root, p) ==> Walk(b.mem, n.root, p) == Unmapped
    ensures forall p :: p != WINDOW ==> Agrees(b.mem, b.tlb, b.cr3, p)
  {
    Linked(a.mem, b.mem, a.spaces, n, i, x, WindowTable(a.cr3), 511, a.cr3 + 3, c);
    MidwayWindow(a, b, n, i, x, {c});
    forall p | p != WINDOW
      ensures Agrees(b.mem, b.tlb, b.cr3, p)
    {
      if Through(n, i, a.cr3, p) {
        assert Walk(b.mem, n.root, p) == Unmapped;
      }
    }
  }

  /** ... and c has left the free stack. */
  lemma SoundLinked(a: View, b: View, free: seq<Frame>, n: Table, i: Index, x: Frame, c: Frame)
    requires free != [] && c == free[0] && Sound(a, free) && Midway(a, b, n, i, x, {c})
    requires Links(a.mem, b.mem, n, i, x, c) && Settled(b.mem, b.tlb, b.cr3, WINDOW, c)
    requires forall f :: f in free || f == a.cr3 + 3 ==> !Through(n, i, a.cr3, PageOf(f))
    ensures Sound(b, free[1..])
  {
    hide Locate, Walk, Through, PageOf, Detour, Links;
    ForestLinked(a, b, n, i, x, c);
    forall f | f in free[1..] || f == a.cr3 + 3
      ensures Identity(b, f)
      ensures f in free[1..] ==> !IsTable(b.mem, b.spaces, f)
    {
      MidwayIdentity(a, b, n, i, x, {c}, f);
    }
  }

  /** A last-level entry rewritten, and its page invalidated. */
  lemma SoundLeaf(a: View, b: View, c: View, free: seq<Frame>, n: Table, i: Index, x: Frame, v: Page)
    requires Sound(a, free) && Midway(a, b, n, i, x, {}) && n.Pt? && v == Page(n.i4, n.i3, n.i2, i)
    requires c == b.(tlb := c.tlb) && Speculated(b.tlb - {v}, c.tlb, c.mem, c.cr3)
    requires Settled(b.mem, b.tlb, b.cr3, WINDOW, x)
    requires n.root == a.cr3 ==> forall f :: (f in free || f == a.cr3 + 3) && PageOf(f) == v ==>
               b.mem[Slot(x, i)].present && b.mem[Slot(x, i)].frame == f
    ensures Sound(c, free)
    ensures forall g: Frame :: IsTable(c.mem, c.spaces, g) <==> IsTable(a.mem, a.spaces, g)
    ensures Walk(c.mem, n.root, v) == if b.mem[Slot(x, i)].present then Small(b.mem[Slot(x, i)].frame) else Unmapped
  {
    hide Locate, Walk, PageOf, Detour;
    WalkTables(b.mem, n.root, v);
    var w := WindowTable(a.cr3);
    TablesDetour(a.mem, b.mem, a.spaces, n, i, x, w, 511, a.cr3 + 3, {});
    assert Locate(b.mem, n) == Some(x);
    MidwayWindow(a, b, n, i, x, {});
    forall p
      ensures Agrees(c.mem, c.tlb, c.cr3, p)
    {
      if !Through(n, i, a.cr3, p) && p != WINDOW {
        assert Agrees(b.mem, b.tlb, b.cr3, p);
      }
    }
    forall f | f in free || f == a.cr3 + 3
      ensures Identity(c, f)
    {
      if !Through(n, i, a.cr3, PageOf(f)) {
        MidwayIdentity(a, b, n, i, x, {}, f);
        assert Agrees(c.mem, c.tlb, c.cr3, PageOf(f));
      }
    }
  }

  /** A store into a frame without a table changes no table and no translation. */
  lemma OutsideWrite(a: View, b: View, f: Frame, i: Index, w: Word)
    requires Forest(a) && !IsTable(a.mem, a.spaces, f)
    requires b.mem == a.mem[Slot(f, i) := w] && b.cr3 == a.cr3 && b.spaces == a.spaces
    ensures Forest(b)
    ensures forall k: Table | k.root in a.spaces :: Locate(b.mem, k) == Locate(a.mem, k)
    ensures forall g: Frame :: IsTable(b.mem, b.spaces, g) <==> IsTable(a.mem, a.spaces, g)
    ensures forall r: Frame, p | r in a.spaces :: Walk(b.mem, r, p) == Walk(a.mem, r, p)
  {
    hide Walk, Locate;
    var w, y := WindowTable(a.cr3), a.cr3 + 3;
    TablesDetour(a.mem, b.mem, a.spaces, w, 511, y, w, 511, y, {f});
    IsTableIntro(a.mem, a.spaces, w, y);
    WindowWalk(a.mem, a.cr3);
    WindowWalk(b.mem, a.cr3);
    forall r: Frame, p | r in a.spaces
      ensures Walk(b.mem, r, p) == Walk(a.mem, r, p)
    {
      if !(r == a.cr3 && p == WINDOW) {
        WalkDetour(a.mem, b.mem, a.spaces, w, 511, y, w, 511, y, {f}, r, p);
      } else {
        IsTableIntro(a.mem, a.spaces, w, y);
      }
    }
  }

  /** ... and, if the frame is not free either, leaves the state sound. */
  lemma SoundWrite(a: View, b: View, free: seq<Frame>, f: Frame, i: Index, w: Word)
    requires Sound(a, free) && !IsTable(a.mem, a.spaces, f)
    requires b.mem == a.mem[Slot(f, i) := w] && b.cr3 == a.cr3 && b.spaces == a.spaces
    requires Speculated(a.tlb, b.tlb, b.mem, b.cr3)
    ensures Sound(b, free)
    ensures forall k: Table | k.root in a.spaces :: Locate(b.mem, k) == Locate(a.mem, k)
    ensures forall g: Frame :: IsTable(b.mem, b.spaces, g) <==> IsTable(a.mem, a.spaces, g)
    ensures forall r: Frame, p | r in a.spaces :: Walk(b.mem, r, p) == Walk(a.mem, r, p)
    ensures forall g: Frame :: Identity(a, g) ==> Identity(b, g)
  {
    hide Walk, Locate, PageOf, Forest;
    ForestActive(a);
    OutsideWrite(a, b, f, i, w);
    forall p
      ensures Agrees(b.mem, b.tlb, b.cr3, p)
    {
      assert Agrees(a.mem, a.tlb, a.cr3, p);
    }
    forall g: Frame | Identity(a, g)
      ensures Identity(b, g)
    {
      assert Agrees(b.mem, b.tlb, b.cr3, PageOf(g));
    }
  }

  /** Giving back a frame that holds no table and is reached at its own address. */
  lemma SoundGiven(a: View, b: View, free: seq<Frame>, f: Frame, link: Word)
    requires Sound(a, free) && f !in free && Identity(a, f) && !IsTable(a.mem, a.spaces, f)
    requires b.mem == a.mem[Slot(f, 0) := link] && b.cr3 == a.cr3 && b.spaces == a.spaces
    requires Speculated(a.tlb, b.tlb, b.mem, b.cr3)
    ensures Sound(b, [f] + free)
    ensures forall k: Table | k.root in a.spaces :: Locate(b.mem, k) == Locate(a.mem, k)
    ensures forall g: Frame :: IsTable(b.mem, b.spaces, g) <==> IsTable(a.mem, a.spaces, g)
    ensures forall r: Frame, p | r in a.spaces :: Walk(b.mem, r, p) == Walk(a.mem, r, p)
  {
    hide Walk, Locate, PageOf, Forest, Agrees, Identity;
    SoundWrite(a, b, free, f, 0, link);
  }

  lemma ForestActive(v: View)
    requires Forest(v)
    ensures v.cr3 in v.spaces && v.cr3 < MAX_ROOT
  {
  }

  /** The four frames from root on hold the path to the scratch page and nothing else. */
  ghost predicate Bare(m: Memory, root: Frame) {
    root < MAX_ROOT && forall t: nat, i: Index :: t < 4 ==> m[Slot(root + t, i)] == BareEntry(root, t, i)
  }

  /** The four stores that lay the path to the scratch page. */
  ghost predicate Laid(a: Memory, b: Memory, root: Frame)
    requires root < MAX_ROOT
  {
    b == a[Slot(root, 511) := TableWord(root + 1)][Slot(root + 1, 511) := TableWord(root + 2)]
          [Slot(root + 2, 511) := TableWord(root + 3)][Slot(root + 3, 511) := LeafWord(root)]
  }

  /** The frames hold nothing but perhaps words that the four stores overwrite. */
  ghost predicate Cleared(m: Memory, root: Frame) {
    forall s: Slot :: root <= s.frame < root + 4 && s.index != 511 ==> m[s] == ZERO
  }

  /** They make exactly cleared frames bare. */
  lemma BareLaid(a: Memory, b: Memory, root: Frame)
    requires root < MAX_ROOT && Laid(a, b, root)
    ensures Bare(b, root) <==> Cleared(a, root)
    ensures forall s: Slot :: !(root <= s.frame < root + 4 && s.index == 511) ==> b[s] == a[s]
  {
    if Cleared(a, root) {
      forall t: nat, i: Index | t < 4
        ensures b[Slot(root + t, i)] == BareEntry(root, t, i)
      {
        assert t == 0 || t == 1 || t == 2 || t == 3;
      }
    }
    if Bare(b, root) {
      forall s: Slot | root <= s.frame < root + 4 && s.index != 511
        ensures a[s] == ZERO
      {
        assert b[Slot(root + (s.frame - root), s.index)] == BareEntry(root, s.frame - root, s.index);
      }
    }
  }

  /** Tables of an address space that has nothing but its scratch page. */
  lemma BareTables(m: Memory, root: Frame, k: Table)
    requires Bare(m, root) && k.root == root
    ensures Locate(m, k) == BareTable(root, k)
    decreases Depth(k)
  {
    hide Locate;
    if k.Pml4? {
      RootLocated(m, root);
    } else {
      LocateStep(m, k);
      BareTables(m, root, Parent(k));
      var q := BareTable(root, Parent(k));
      if q.Some? {
        assert m[Slot(root + (q.value - root), Last(k))] == BareEntry(root, q.value - root, Last(k));
      }
    }
  }

  function BareEntry(root: Frame, t: nat, i: Index): Word
    requires root < MAX_ROOT && t < 4
  {
    if i != 511 then ZERO else if t < 3 then TableWord(root + t + 1) else LeafWord(root)
  }

  function BareTable(root: Frame, k: Table): Option<Frame>
    requires root < MAX_ROOT
  {
    match k
    case Pml4(r) => Some(r)
    case Pdp(_, i4) => if i4 == 511 then Some(root + 1) else None
    case Dir(_, i4, i3) => if i4 == i3 == 511 then Some(root + 2) else None
    case Pt(_, i4, i3, i2) => if i4 == i3 == i2 == 511 then Some(root + 3) else None
  }

  lemma BareWalk(m: Memory, root: Frame, p: Page)
    requires Bare(m, root)
    ensures Walk(m, root, p) == if p == WINDOW then Small(root) else Unmapped
  {
    hide Walk, Locate;
    WalkTables(m, root, p);
    BareTables(m, root, Dir(root, p.i4, p.i3));
    BareTables(m, root, Pt(root, p.i4, p.i3, p.i2));
    assert m[Slot(root + 2, p.i2)] == BareEntry(root, 2, p.i2);
    assert m[Slot(root + 3, p.i1)] == BareEntry(root, 3, p.i1);
  }

  /** The tables of a bare address space are exactly its four frames. */
  lemma AddedTable(a: View, b: View, root: Frame, g: Frame)
    requires Bare(a.mem, root) && b == a.(spaces := a.spaces + {root})
    ensures IsTable(b.mem, b.spaces, g) <==> IsTable(a.mem, a.spaces, g) || root <= g < root + 4
  {
    hide Locate;
    var names := [Pml4(root), Pdp(root, 511), Dir(root, 511, 511), Pt(root, 511, 511, 511)];
    if root <= g < root + 4 {
      BareTables(a.mem, root, names[g - root]);
      IsTableIntro(b.mem, b.spaces, names[g - root], g);
    }
    if IsTable(a.mem, a.spaces, g) {
      var k: Table :| k.root in a.spaces && Locate(a.mem, k) == Some(g);
      IsTableIntro(b.mem, b.spaces, k, g);
    }
    if IsTable(b.mem, b.spaces, g) {
      var k: Table :| k.root in b.spaces && Locate(b.mem, k) == Some(g);
      if k.root == root {
        BareTables(a.mem, root, k);
      } else {
        IsTableIntro(a.mem, a.spaces, k, g);
      }
    }
  }

  lemma AddedSeparate(a: View, b: View, root: Frame)
    requires Forest(a) && Bare(a.mem, root) && b == a.(spaces := a.spaces + {root})
    requires forall g: Frame :: root <= g < root + 4 ==> !IsTable(a.mem, a.spaces, g)
    ensures Forest(b)
  {
    hide Locate;
    forall k: Table, l: Table | k.root in b.spaces && l.root in b.spaces && Locate(b.mem, k).Some?
      && Locate(b.mem, k) == Locate(b.mem, l)
      ensures k == l
    {
      OldOrNew(a, root, k);
      OldOrNew(a, root, l);
    }
  }

  /** A table of the old address spaces lies outside the four frames, one of the new one inside. */
  lemma OldOrNew(a: View, root: Frame, k: Table)
    requires Forest(a) && Bare(a.mem, root) && k.root in a.spaces + {root}
    requires forall g: Frame :: root <= g < root + 4 ==> !IsTable(a.mem, a.spaces, g)
    ensures k.root == root <==> k.root !in a.spaces
    ensures k.root == root ==> Locate(a.mem, k) == BareTable(root, k)
    ensures k.root != root && Locate(a.mem, k).Some? ==> !(root <= Locate(a.mem, k).value < root + 4)
  {
    hide Locate;
    RootLocated(a.mem, root);
    if root in a.spaces {
      IsTableIntro(a.mem, a.spaces, Pml4(root), root);
    }
    if k.root == root {
      BareTables(a.mem, root, k);
    } else if Locate(a.mem, k).Some? {
      var g := Locate(a.mem, k).value;
      IsTableIntro(a.mem, a.spaces, k, g);
    }
  }

  /** A bare address space in frames that held no table joins the others; the state stays sound exactly if none of
      the frames is on the free stack. */
  lemma SpaceAdded(a: View, b: View, free: seq<Frame>, root: Frame)
    requires Sound(a, free) && Bare(a.mem, root) && b == a.(spaces := a.spaces + {root})
    requires forall g: Frame :: root <= g < root + 4 ==> !IsTable(a.mem, a.spaces, g)
    ensures Sound(b, free) <==> forall g: Frame :: root <= g < root + 4 ==> g !in free
    ensures HasWindow(b.mem, root)
    ensures forall g: Frame :: IsTable(b.mem, b.spaces, g) <==> IsTable(a.mem, a.spaces, g) || root <= g < root + 4
    ensures forall p :: Walk(b.mem, root, p) == if p == WINDOW then Small(root) else Unmapped
  {
    hide Walk, Locate, PageOf, Forest, IsTable;
    AddedSeparate(a, b, root);
    BareTables(a.mem, root, WindowTable(root));
    assert a.mem[Slot(root + 3, 511)] == BareEntry(root, 3, 511);
    forall p
      ensures Walk(b.mem, root, p) == if p == WINDOW then Small(root) else Unmapped
    {
      BareWalk(a.mem, root, p);
    }
    forall g: Frame
      ensures IsTable(b.mem, b.spaces, g) <==> IsTable(a.mem, a.spaces, g) || root <= g < root + 4
    {
      AddedTable(a, b, root, g);
    }
  }
}
