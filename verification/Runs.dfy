/** Whole runs: any sequence of mapping, unmapping, allocating, freeing and opening address spaces, against a
    specification that knows neither the words in the tables nor scratch pages nor translation buffers. */
module Runs {
  import opened Options
  import opened Words
  import opened Translation
  import opened Hardware
  import opened Frames
  import opened AddressSpaces
  import opened TableEdits
  import opened AccessRights
  import opened Paging

  /** The number of frames that addresses have room for. */
  const FRAMES := 0x100_0000_0000

  /** Open is the way the kernel makes an address space: four frames in a row are zeroed, and a PagingManager is
      constructed on them. */
  datatype Op =
    | Map(root: Frame, v: Frame, p: Frame) | UnMap(root: Frame, v: Frame) | Alloc | Free(f: Frame) | Open(root: Frame)

  /** What each address space translates, which frame each table is in, and where every frame is. */
  datatype Spec = Spec(at: (Frame, Page) -> Mapping, where: Table -> Option<Frame>,
                       free: seq<Frame>, tables: set<Frame>, handed: set<Frame>)
  {
    predicate has(k: Table) {
      where(k).Some?
    }
  }

  function Lacking(s: Spec, k: Table): nat {
    if s.has(k) then 0 else 1
  }

  /** The number of frames that Map takes: one for each table on the way that does not exist. */
  function Needed(s: Spec, root: Frame, v: Page): nat {
    Lacking(s, Pdp(root, v.i4)) + Lacking(s, Dir(root, v.i4, v.i3)) + Lacking(s, Pt(root, v.i4, v.i3, v.i2))
  }

  function Elements(free: seq<Frame>): set<Frame> {
    set f | f in free
  }

  /** Where table k is after Map(v): tables that were missing on the way take the topmost free frames, the upper ones
      first. */
  function WhereAfter(s: Spec, root: Frame, v: Page, k: Table): Option<Frame>
    requires Needed(s, root, v) <= |s.free|
  {
    var k1, k2 := Lacking(s, Pdp(root, v.i4)), Lacking(s, Dir(root, v.i4, v.i3));
    if s.has(k) then s.where(k)
    else if k == Pml4(root) then Some(root)
    else if k == Pdp(root, v.i4) then Some(s.free[0])
    else if k == Dir(root, v.i4, v.i3) then Some(s.free[k1])
    else if k == Pt(root, v.i4, v.i3, v.i2) then Some(s.free[k1 + k2])
    else None
  }

  function Four(root: Frame): set<Frame>
    requires root < MAX_ROOT
  {
    {root, root + 1, root + 2, root + 3}
  }

  lemma WhereOnPath(s: Spec, root: Frame, v: Page, k: Table)
    requires Needed(s, root, v) <= |s.free|
    ensures WhereAfter(s, root, v, k).Some? <==> s.has(k) || OnPath(root, v, k)
  {
  }

  /** None when the processor is halted for want of a frame. */
  function Next(s: Spec, op: Op): Option<Spec> {
    match op
    case Map(root, v, p) =>
      var k := Needed(s, root, PageOf(v));
      if |s.free| < k then None else
      Some(Spec((r: Frame, q: Page) => AfterMap(root, PageOf(v), p, r, q, s.at(r, q)),
                (t: Table) => WhereAfter(s, root, PageOf(v), t),
                s.free[k..], s.tables + Elements(s.free[..k]), s.handed))
    case UnMap(root, v) =>
      Some(s.(at := (r: Frame, q: Page) => AfterUnMap(root, PageOf(v), r, q, s.at(r, q))))
    case Alloc =>
      if s.free == [] then None else Some(s.(free := s.free[1..], handed := s.handed + {s.free[0]}))
    case Free(f) =>
      Some(s.(free := [f] + s.free, handed := s.handed - {f}))
    case Open(root) =>
      Some(if root < MAX_ROOT then WithSpace(s, root) else s)
  }

  /** One more address space, with nothing but its scratch page. */
  function WithSpace(s: Spec, root: Frame): Spec
    requires root < MAX_ROOT
  {
    s.(at := (r: Frame, q: Page) =>
         if r != root then s.at(r, q) else if q == WINDOW then Small(root) else Unmapped,
       where := (t: Table) => if t.root == root then BareTable(root, t) else s.where(t),
       tables := s.tables + Four(root), handed := s.handed - Four(root))
  }

  function Outcome(s: Spec, ops: seq<Op>): Option<Spec>
    decreases |ops|
  {
    if ops == [] then Some(s) else
    match Next(s, ops[0])
    case None => None
    case Some(t) => Outcome(t, ops[1..])
  }

  /** The machine realises the specification, but for the scratch page of the active address space. */
  ghost predicate Refines(v: View, free: seq<Frame>, s: Spec) {
    && Sound(v, free) && free == s.free
    && (forall r: Frame, q | r in v.spaces && !(r == v.cr3 && q == WINDOW) :: Walk(v.mem, r, q) == s.at(r, q))
    && (forall k: Table | k.root in v.spaces :: Locate(v.mem, k) == s.where(k))
    && (forall g: Frame :: IsTable(v.mem, v.spaces, g) <==> g in s.tables)
  }

  /** What a state of the machine means, with these frames free and those handed out. */
  ghost function Abstraction(v: View, free: seq<Frame>, handed: set<Frame>): Spec {
    Spec((r: Frame, q: Page) => Walk(v.mem, r, q), (k: Table) => Locate(v.mem, k), free,
         (set g: Frame | 0 <= g < FRAMES && IsTable(v.mem, v.spaces, g)), handed)
  }

  /** Each frame is in one place only. */
  ghost predicate Accounted(s: Spec) {
    && Distinct(s.free)
    && Elements(s.free) !! s.tables && Elements(s.free) !! s.handed && s.tables !! s.handed
  }

  /** Every sound state realises what it means. */
  lemma AbstractionRefines(v: View, free: seq<Frame>, handed: set<Frame>)
    requires Sound(v, free) && forall f :: f in handed ==> f !in free && !IsTable(v.mem, v.spaces, f)
    ensures Refines(v, free, Abstraction(v, free, handed)) && Accounted(Abstraction(v, free, handed))
  {
    hide Walk, Locate, PageOf;
    SoundFrames(v, free);
  }

  /** The frames that the memory manager reaches at their own address. */
  predicate Critical(s: Spec, cr3: Frame, f: Frame) {
    f in s.free || f == cr3 + 3
  }

  /** Frame f is reached at its own number in the active address space. */
  ghost predicate Reaches(s: Spec, cr3: Frame, f: Frame) {
    PageOf(f) != WINDOW && s.at(cr3, PageOf(f)) != Unmapped && s.at(cr3, PageOf(f)).frame == f
  }

  /** What the callers of the operations owe: edits of the active address space take away no page through which free
      frames or the scratch entry are still reached; frames that are given back, or made into tables, were handed out
      and are reached at their own address. */
  ghost predicate Legal(s: Spec, spaces: set<Frame>, cr3: Frame, bottom: Word, op: Op) {
    match op
    case Map(root, v, p) => root in spaces && (root == cr3 ==> Spares(s, cr3, PageOf(v), p))
    case UnMap(root, v) => root in spaces && (root == cr3 ==> Dispensable(s, cr3, PageOf(v)))
    case Alloc => true
    case Free(f) => f in s.handed && Pointer(f) != bottom && Reaches(s, cr3, f)
    case Open(root) => root < MAX_ROOT && forall g :: g in Four(root) ==> g in s.handed && Reaches(s, cr3, g)
  }

  /** The address spaces after an operation. */
  function Joined(spaces: set<Frame>, op: Op): set<Frame> {
    if op.Open? then spaces + {op.root} else spaces
  }

  /** Page v is not the scratch page.  With a 2 MiB leaf over v: neither the frame that is popped next nor the
      scratch entry is reached through that leaf, and no other free frame is, but for p at page v itself.
      Without one: p is the frame that has to be reached at page v, if there is such a frame. */
  ghost predicate Spares(s: Spec, cr3: Frame, v: Page, p: Frame) {
    && v != WINDOW
    && if s.at(cr3, v).Large? then
         s.free != [] ==>
           && (forall f: Frame :: f == s.free[0] || f == cr3 + 3 ==> !SameRegion(PageOf(f), v))
           && forall f :: f in s.free && SameRegion(PageOf(f), v) ==> PageOf(f) == v && f == p
       else
         forall f :: Critical(s, cr3, f) && PageOf(f) == v ==> f == p
  }

  /** Page v is not the scratch page, and neither it nor the 2 MiB leaf around it leads to a frame that is needed. */
  ghost predicate Dispensable(s: Spec, cr3: Frame, v: Page) {
    && v != WINDOW
    && forall f :: Critical(s, cr3, f) ==> if s.at(cr3, v).Large? then !SameRegion(PageOf(f), v) else PageOf(f) != v
  }

  ghost predicate LegalRun(s: Spec, spaces: set<Frame>, cr3: Frame, bottom: Word, ops: seq<Op>)
    decreases |ops|
  {
    ops == [] || (
      && Legal(s, spaces, cr3, bottom, ops[0])
      && (Next(s, ops[0]).Some? ==>
            LegalRun(Next(s, ops[0]).value, Joined(spaces, ops[0]), cr3, bottom, ops[1..])))
  }

  /** The operation may change the word: it lies in a table, or it is where the link of a frame goes that is given
      back. */
  predicate Changes(t: Spec, op: Op, w: Slot) {
    w.frame in t.tables || (op.Free? && w == Slot(op.f, 0))
  }

  /** One operation of the kernel and one step of the specification.  Nothing but tables and links is written. */
  method Step(machine: Machine, memory: MemoryManager, managers: map<Frame, PagingManager>, op: Op, ghost s: Spec)
    returns (ok: bool, now: map<Frame, PagingManager>)
    requires Together(machine, memory, managers)
    requires Refines(machine.Now(), memory.stack.free, s) && Accounted(s)
    requires Legal(s, machine.spaces, machine.cr3, memory.stack.bottom, op)
    modifies machine, memory.stack, managers.Values
    ensures ok <==> Next(s, op).Some?
    ensures machine.cr3 == old(machine.cr3) && forall m :: m in now.Values ==> m in managers.Values || fresh(m)
    ensures ok ==> machine.spaces == Joined(old(machine.spaces), op) && Together(machine, memory, now)
    ensures ok ==> Refines(machine.Now(), memory.stack.free, Next(s, op).value) && Accounted(Next(s, op).value)
    ensures ok ==> forall w :: !Changes(Next(s, op).value, op, w) ==> machine.mem[w] == old(machine.mem)[w]
    ensures ok ==> KeepsRights(old(machine.Now()), machine.Now())
  {
    hide KeepsRights, PageGranted, Forest;
    hide Sound, Walk, Locate, PageOf, Chain, Distinct, Refines, Accounted, Mapped, Unmapping, Sparing, Needless;
    hide Missing, Spares, Dispensable, AfterMap, AfterUnMap, Stored, Emptied, Reaches, Opened, HasEntry;
    ghost var a, free := machine.Now(), memory.stack.free;
    RefinesSound(a, free, s);
    now := managers;
    match op {
      case Map(root, v, p) =>
        RefinesMap(a, free, s, root, PageOf(v), p);
        ok := managers[root].Map(v, p);
        if ok {
          MapRefines(a, machine.Now(), free, s, root, v, p);
          MapWrites(a, machine.Now(), free, s, root, v, p);
          MapKeepsRights(a, machine.Now(), free, s, root, PageOf(v), p);
        }
      case UnMap(root, v) =>
        RefinesMap(a, free, s, root, PageOf(v), 0);
        managers[root].UnMap(v);
        UnMapRefines(a, machine.Now(), free, s, root, v);
        UnMapWrites(a, machine.Now(), free, s, root, v);
        UnMapKeepsRights(a, machine.Now(), free, s, root, PageOf(v));
        ok := true;
      case Alloc =>
        SoundFrames(a, free);
        assert free != [] ==> free[0] in free;
        var r := memory.PAlloc(1, false);
        ok := r.Granted?;
        if ok {
          AllocRefines(a, free, s);
          SameKeepsRights(a, machine.Now());
        }
      case Free(f) =>
        FreeSettled(a, free, s, f);
        memory.PFree(f);
        FreeRefines(a, machine.Now(), free, s, f, old(memory.stack.stack));
        FreeKeepsRights(a, machine.Now(), free, f, old(memory.stack.stack));
        ok := true;
      case Open(root) =>
        OpenOwned(a, free, s, root);
        var manager := OpenSpace(machine, memory, root);
        OpenRefines(a, machine.Now(), free, s, root);
        OpenWrites(a, machine.Now(), s, root);
        OpenKeepsRights(a, machine.Now(), free, s, root);
        now := managers[root := manager];
        ok := true;
    }
  }

  lemma MapKeepsRights(a: View, b: View, free: seq<Frame>, s: Spec, root: Frame, v: Page, p: Frame)
    requires Stored(a.mem, b.mem, a.cr3, root, v, p, free) && Mapped(a, b, root, v, p, free)
    requires Sound(b, Rest(free, Missing(a.mem, root, v))) && b.cr3 == a.cr3 && b.spaces == a.spaces
    requires root in a.spaces && (root == a.cr3 ==> Spares(s, a.cr3, v, p))
    ensures KeepsRights(a, b)
  {
    hide Sound, Walk, Locate, Stored, Mapped, Admits, Missing, Forest;
    SoundFrames(b, Rest(free, Missing(a.mem, root, v)));
    forall r | r in b.spaces && Admits(a.mem, r)
      ensures Admits(b.mem, r)
    {
      MapAdmits(a, b, root, v, p, free, r);
    }
  }

  lemma UnMapKeepsRights(a: View, b: View, free: seq<Frame>, s: Spec, root: Frame, v: Page)
    requires Emptied(a.mem, b.mem, a.cr3, root, v) && Unmapping(a, b, root, v)
    requires Refines(a, free, s) && b.spaces == a.spaces
    ensures KeepsRights(a, b)
  {
    hide Walk, Locate, Emptied, Admits, Forest, IsTable;
    SoundFrames(a, free);
    forall r | r in b.spaces && Admits(a.mem, r)
      ensures Admits(b.mem, r)
    {
      UnMapAdmits(a, b, root, v, r);
    }
  }

  lemma SameKeepsRights(a: View, b: View)
    requires b.mem == a.mem && b.spaces == a.spaces
    ensures KeepsRights(a, b)
  {
  }

  lemma FreeKeepsRights(a: View, b: View, free: seq<Frame>, f: Frame, link: Word)
    requires Sound(a, free) && f !in free && Identity(a, f) && !IsTable(a.mem, a.spaces, f)
    requires b.mem == a.mem[Slot(f, 0) := link] && b.cr3 == a.cr3 && b.spaces == a.spaces
    requires Speculated(a.tlb, b.tlb, b.mem, b.cr3)
    ensures KeepsRights(a, b)
  {
    hide Sound, Walk, Locate, Admits, IsTable;
    SoundGiven(a, b, free, f, link);
    forall r | r in b.spaces && Admits(a.mem, r)
      ensures Admits(b.mem, r)
    {
      WriteAdmits(a, b, Slot(f, 0), r);
    }
  }

  lemma OpenKeepsRights(a: View, b: View, free: seq<Frame>, s: Spec, root: Frame)
    requires Refines(a, free, s) && Accounted(s) && root < MAX_ROOT && Opened(a, b, root)
    requires forall g :: g in Four(root) ==> g in s.handed
    ensures KeepsRights(a, b)
  {
    hide Sound, Walk, Locate, Admits, IsTable, Bare;
    BareAdmits(b.mem, root);
    forall g: Frame | root <= g < root + 4
      ensures !IsTable(a.mem, a.spaces, g)
    {
      assert g in Four(root);
    }
    forall r | r in a.spaces && Admits(a.mem, r)
      ensures Admits(b.mem, r)
    {
      OpenAdmits(a, b, root, r);
    }
  }

  lemma MapWrites(a: View, b: View, free: seq<Frame>, s: Spec, root: Frame, v: Frame, p: Frame)
    requires Stored(a.mem, b.mem, a.cr3, root, PageOf(v), p, free) && b.cr3 == a.cr3 && root in b.spaces
    requires var n := Next(s, Map(root, v, p)); n.Some? && Refines(b, n.value.free, n.value)
    ensures forall w :: !Changes(Next(s, Map(root, v, p)).value, Map(root, v, p), w) ==> b.mem[w] == a.mem[w]
  {
    hide Walk, Locate, PageOf, Stored, IsTable;
    var t := Next(s, Map(root, v, p)).value;
    SoundFrames(b, t.free);
    forall w | !Changes(t, Map(root, v, p), w)
      ensures b.mem[w] == a.mem[w]
    {
      MapKeeps(a, b, root, PageOf(v), p, free, w);
    }
  }

  lemma UnMapWrites(a: View, b: View, free: seq<Frame>, s: Spec, root: Frame, v: Frame)
    requires Emptied(a.mem, b.mem, a.cr3, root, PageOf(v)) && root in a.spaces
    requires Refines(a, free, s)
    ensures forall w :: !Changes(Next(s, UnMap(root, v)).value, UnMap(root, v), w) ==> b.mem[w] == a.mem[w]
  {
    hide Walk, Locate, PageOf, Emptied, IsTable;
    SoundFrames(a, free);
    forall w | !Changes(Next(s, UnMap(root, v)).value, UnMap(root, v), w)
      ensures b.mem[w] == a.mem[w]
    {
      UnMapKeeps(a, b, root, PageOf(v), w);
    }
  }

  /** The frames of a new address space are in nobody's way. */
  lemma OpenOwned(v: View, free: seq<Frame>, s: Spec, root: Frame)
    requires Refines(v, free, s) && Accounted(s) && root < MAX_ROOT
    requires forall g :: g in Four(root) ==> g in s.handed && Reaches(s, v.cr3, g)
    ensures forall g: Frame :: root <= g < root + 4 ==> Owned(v, g) && g !in free
    ensures root !in v.spaces
  {
    hide Walk, Locate, PageOf;
    forall g: Frame | root <= g < root + 4
      ensures Owned(v, g) && g !in free
    {
      assert g in Four(root);
      assert Agrees(v.mem, v.tlb, v.cr3, PageOf(g));
    }
    RootLocated(v.mem, root);
    if root in v.spaces {
      IsTableIntro(v.mem, v.spaces, Pml4(root), root);
    }
  }

  /** A new address space is one more column of the specification. */
  lemma OpenRefines(a: View, b: View, free: seq<Frame>, s: Spec, root: Frame)
    requires Refines(a, free, s) && Accounted(s) && root < MAX_ROOT && root !in a.spaces
    requires forall g :: g in Four(root) ==> g in s.handed
    requires Sound(b, free) && Opened(a, b, root)
    ensures Refines(b, free, WithSpace(s, root)) && Accounted(WithSpace(s, root))
  {
    hide Sound, Walk, Locate, PageOf, IsTable, Bare;
    SpaceInside(a, free, s, b.cr3);
    forall k: Table | k.root == root
      ensures Locate(b.mem, k) == BareTable(root, k)
    {
      BareTables(b.mem, root, k);
    }
  }

  lemma OpenWrites(a: View, b: View, s: Spec, root: Frame)
    requires root < MAX_ROOT && Opened(a, b, root)
    ensures forall w :: !Changes(WithSpace(s, root), Open(root), w) ==> b.mem[w] == a.mem[w]
  {
    hide Walk, Locate, IsTable, Bare;
  }

  lemma SpaceInside(v: View, free: seq<Frame>, s: Spec, cr3: Frame)
    requires Refines(v, free, s) && cr3 == v.cr3
    ensures cr3 in v.spaces
  {
  }

  /** One processor, one memory manager, and a paging manager for each address space. */
  ghost predicate Together(machine: Machine, memory: MemoryManager, managers: map<Frame, PagingManager>)
    reads machine, memory, memory.stack
  {
    && memory.machine == machine && memory.Valid()
    && forall r :: r in machine.spaces ==>
         r in managers && managers[r].machine == machine && managers[r].memory == memory
           && managers[r].pageMapLevel4 == r
  }

  lemma RefinesMap(v: View, free: seq<Frame>, s: Spec, root: Frame, p: Page, f: Frame)
    requires Refines(v, free, s) && root in v.spaces
    ensures Missing(v.mem, root, p) == Needed(s, root, p)
    ensures Spares(s, v.cr3, p, f) <==> Sparing(v, free, p, f)
    ensures Dispensable(s, v.cr3, p) <==> Needless(v, free, p)
  {
    hide PageOf;
    SoundFrames(v, free);
  }

  lemma RefinesSound(v: View, free: seq<Frame>, s: Spec)
    requires Refines(v, free, s)
    ensures Sound(v, free) && free == s.free
  {
  }

  lemma MapRefines(a: View, b: View, free: seq<Frame>, s: Spec, root: Frame, v: Frame, p: Frame)
    requires Refines(a, free, s) && Accounted(s) && root in a.spaces && b.cr3 == a.cr3 && b.spaces == a.spaces
    requires var k := Missing(a.mem, root, PageOf(v)); k <= |free| && Sound(b, free[k..])
    requires Mapped(a, b, root, PageOf(v), p, free) && Stored(a.mem, b.mem, a.cr3, root, PageOf(v), p, free)
    ensures var k := Missing(a.mem, root, PageOf(v));
            var n := Next(s, Map(root, v, p));
            n.Some? && Refines(b, free[k..], n.value) && Accounted(n.value)
  {
    hide Sound, Walk, Locate, PageOf, Missing, AfterMap, Stored, WhereAfter, IsTable;
    RefinesMap(a, free, s, root, PageOf(v), p);
    var k := Missing(a.mem, root, PageOf(v));
    assert free == free[..k] + free[k..];
    forall t: Table | t.root in b.spaces
      ensures Locate(b.mem, t) == WhereAfter(s, root, PageOf(v), t)
    {
      MapWhere(a, b, free, s, root, v, p, t);
    }
  }

  /** New tables are where the free stack puts them. */
  lemma MapWhere(a: View, b: View, free: seq<Frame>, s: Spec, root: Frame, v: Frame, p: Frame, t: Table)
    requires Refines(a, free, s) && root in a.spaces && t.root in a.spaces
    requires Mapped(a, b, root, PageOf(v), p, free) && Stored(a.mem, b.mem, a.cr3, root, PageOf(v), p, free)
    requires Needed(s, root, PageOf(v)) <= |free|
    ensures Locate(b.mem, t) == WhereAfter(s, root, PageOf(v), t)
  {
    hide Sound, Walk, Locate, PageOf, DescentMemory;
    RootLocated(a.mem, root);
    assert Locate(a.mem, t) == s.where(t);
  }

  lemma UnMapRefines(a: View, b: View, free: seq<Frame>, s: Spec, root: Frame, v: Frame)
    requires Refines(a, free, s) && Accounted(s) && root in a.spaces && b.cr3 == a.cr3 && b.spaces == a.spaces
    requires Sound(b, free) && Unmapping(a, b, root, PageOf(v))
    ensures var n := Next(s, UnMap(root, v)); Refines(b, free, n.value) && Accounted(n.value)
  {
    hide Sound, Walk, Locate, PageOf, AfterUnMap;
  }

  lemma AllocRefines(a: View, free: seq<Frame>, s: Spec)
    requires Refines(a, free, s) && Accounted(s) && free != []
    ensures var n := Next(s, Alloc); n.Some? && Refines(a, free[1..], n.value) && Accounted(n.value)
  {
    hide Walk, Locate, PageOf, Forest, Agrees, Identity;
    assert free == [free[0]] + free[1..];
  }

  lemma FreeSettled(v: View, free: seq<Frame>, s: Spec, f: Frame)
    requires Refines(v, free, s) && Accounted(s) && f in s.handed && Reaches(s, v.cr3, f)
    ensures f !in free && Identity(v, f) && !IsTable(v.mem, v.spaces, f)
  {
    hide Walk, Locate, PageOf;
    assert Agrees(v.mem, v.tlb, v.cr3, PageOf(f));
  }

  /** The link written into a frame that is given back is invisible to all translations. */
  lemma FreeRefines(a: View, b: View, free: seq<Frame>, s: Spec, f: Frame, link: Word)
    requires Refines(a, free, s) && Accounted(s) && f in s.handed && f !in free && Identity(a, f)
             && !IsTable(a.mem, a.spaces, f)
    requires b.mem == a.mem[Slot(f, 0) := link] && b.cr3 == a.cr3 && b.spaces == a.spaces
    requires Speculated(a.tlb, b.tlb, b.mem, b.cr3)
    ensures var n := Next(s, Free(f)); Refines(b, [f] + free, n.value) && Accounted(n.value)
  {
    hide Walk, Locate, PageOf;
    SoundGiven(a, b, free, f, link);
  }

  /** Every run, from every sound state: the kernel halts exactly when the specification says so, and
      otherwise ends in a state that realises what the specification has come to.  Whatever is no table in the end
      has kept its contents, but for the first word of frames that have been given back. */
  method Run(machine: Machine, memory: MemoryManager, managers: map<Frame, PagingManager>, ops: seq<Op>, ghost s: Spec)
    returns (ok: bool, now: map<Frame, PagingManager>)
    requires Together(machine, memory, managers)
    requires Refines(machine.Now(), memory.stack.free, s) && Accounted(s)
    requires LegalRun(s, machine.spaces, machine.cr3, memory.stack.bottom, ops)
    modifies machine, memory.stack, managers.Values
    ensures ok <==> Outcome(s, ops).Some?
    ensures ok ==> Together(machine, memory, now)
    ensures ok ==> Refines(machine.Now(), memory.stack.free, Outcome(s, ops).value) && Accounted(Outcome(s, ops).value)
    ensures ok ==> forall w :: !Rewrites(Outcome(s, ops).value, ops, w) ==> machine.mem[w] == old(machine.mem)[w]
    ensures ok ==> KeepsRights(old(machine.Now()), machine.Now())
  {
    hide Refines, Accounted, Legal, Next, Together, KeepsRights;
    SameKeepsRights(machine.Now(), machine.Now());
    ghost var t := s;
    var i := 0;
    now := managers;
    assert ops[0..] == ops;
    while i < |ops|
      invariant 0 <= i <= |ops|
      invariant forall m :: m in now.Values ==> m in managers.Values || fresh(m)
      invariant Together(machine, memory, now)
      invariant Refines(machine.Now(), memory.stack.free, t) && Accounted(t)
      invariant LegalRun(t, machine.spaces, machine.cr3, memory.stack.bottom, ops[i..])
      invariant Outcome(t, ops[i..]) == Outcome(s, ops)
      invariant forall w :: !Rewrites(t, ops, w) ==> machine.mem[w] == old(machine.mem)[w]
      invariant old(machine.spaces) <= machine.spaces && KeepsRights(old(machine.Now()), machine.Now())
    {
      assert ops[i..][1..] == ops[i + 1..];
      ghost var m, before := machine.mem, machine.Now();
      ok, now := Step(machine, memory, now, ops[i], t);
      if !ok {
        return;
      }
      KeepsTwice(old(machine.Now()), before, machine.Now());
      ghost var u := Next(t, ops[i]).value;
      forall w | !Rewrites(u, ops, w)
        ensures machine.mem[w] == old(machine.mem)[w]
      {
        OnceTable(t, ops, i, w);
      }
      t := u;
      i := i + 1;
    }
    ok := true;
  }

  /** The word lies in a table, or is the first of a frame that has been given back. */
  predicate Rewrites(t: Spec, ops: seq<Op>, w: Slot) {
    w.frame in t.tables || (w.index == 0 && Free(w.frame) in ops)
  }

  /** Frames never cease to be tables. */
  lemma OnceTable(t: Spec, ops: seq<Op>, i: nat, w: Slot)
    requires i < |ops| && Next(t, ops[i]).Some?
    ensures var u := Next(t, ops[i]).value;
            !Rewrites(u, ops, w) ==> !Rewrites(t, ops, w) && !Changes(u, ops[i], w)
  {
  }
}
