/** What the specification of whole runs guarantees, for every sequence of operations. */
module RunProperties {
  import opened Options
  import opened Words
  import opened Translation
  import opened AddressSpaces
  import opened Frames
  import opened TableEdits
  import opened Runs

  /** All frames the memory manager has ever had to do with. */
  function Holdings(s: Spec): set<Frame> {
    Elements(s.free) + s.tables + s.handed
  }

  /** The operation can have no effect on page q of address space r. */
  predicate Leaves(op: Op, r: Frame, q: Page) {
    match op
    case Map(root, v, _) => root != r || !SameRegion(PageOf(v), q)
    case UnMap(root, v) => root != r || !SameRegion(PageOf(v), q)
    case Alloc => true
    case Free(_) => true
    case Open(root) => root != r
  }

  lemma OutcomeAppend(s: Spec, a: seq<Op>, b: seq<Op>)
    ensures Outcome(s, a + b) ==
            match Outcome(s, a)
            case None => None
            case Some(t) => Outcome(t, b)
    decreases |a|
  {
    if a == [] {
      assert a + b == b;
    } else {
      assert (a + b)[1..] == a[1..] + b;
      if Next(s, a[0]).Some? {
        OutcomeAppend(Next(s, a[0]).value, a[1..], b);
      }
    }
  }

  lemma OutcomeOne(s: Spec, op: Op)
    ensures Outcome(s, [op]) == Next(s, op)
  {
    if Next(s, op).Some? {
      assert Outcome(Next(s, op).value, [op][1..]) == Next(s, op);
    }
  }

  lemma NextAt(s: Spec, op: Op, r: Frame, q: Page)
    requires Next(s, op).Some?
    ensures Next(s, op).value.at(r, q) ==
            if op.Map? then AfterMap(op.root, PageOf(op.v), op.p, r, q, s.at(r, q))
            else if op.UnMap? then AfterUnMap(op.root, PageOf(op.v), r, q, s.at(r, q))
            else if op.Open? && op.root < MAX_ROOT && op.root == r then (if q == WINDOW then Small(r) else Unmapped)
            else s.at(r, q)
  {
  }

  /** Conservation: over a whole legal run no frame is lost, invented or in two places. */
  lemma {:induction false} Conservation(s: Spec, spaces: set<Frame>, cr3: Frame, bottom: Word, ops: seq<Op>)
    requires Accounted(s) && LegalRun(s, spaces, cr3, bottom, ops) && Outcome(s, ops).Some?
    ensures Accounted(Outcome(s, ops).value) && Holdings(Outcome(s, ops).value) == Holdings(s)
    decreases |ops|
  {
    if ops != [] {
      StepConserves(s, ops[0]);
      Conservation(Next(s, ops[0]).value, Joined(spaces, ops[0]), cr3, bottom, ops[1..]);
    }
  }

  /** What is given back, or made into tables, was handed out. */
  predicate Given(s: Spec, op: Op) {
    && (op.Free? ==> op.f in s.handed)
    && (op.Open? && op.root < MAX_ROOT ==> Four(op.root) <= s.handed)
  }

  lemma StepConserves(s: Spec, op: Op)
    requires Accounted(s) && Given(s, op) && Next(s, op).Some?
    ensures Accounted(Next(s, op).value) && Holdings(Next(s, op).value) == Holdings(s)
  {
    hide PageOf, AfterMap, AfterUnMap, WhereAfter, Needed;
    if op.Map? {
      TakenConserves(s, Needed(s, op.root, PageOf(op.v)));
    } else if op.Alloc? {
      AllocConserves(s);
    } else if op.Open? {
      OpenConserves(s, op.root);
    }
  }

  /** The first k free frames become tables. */
  lemma TakenConserves(s: Spec, k: nat)
    requires Accounted(s) && k <= |s.free|
    ensures var t := s.(free := s.free[k..], tables := s.tables + Elements(s.free[..k]));
            Accounted(t) && Holdings(t) == Holdings(s)
  {
    assert s.free == s.free[..k] + s.free[k..];
  }

  lemma AllocConserves(s: Spec)
    requires Accounted(s) && s.free != []
    ensures Accounted(Next(s, Alloc).value) && Holdings(Next(s, Alloc).value) == Holdings(s)
  {
    assert s.free == [s.free[0]] + s.free[1..];
  }

  lemma OpenConserves(s: Spec, root: Frame)
    requires Accounted(s) && Given(s, Open(root))
    ensures Accounted(Next(s, Open(root)).value) && Holdings(Next(s, Open(root)).value) == Holdings(s)
  {
    hide BareTable;
  }

  /** Pages that no operation of the run touches keep their translation, in every address space. */
  lemma {:induction false} Untouched(s: Spec, ops: seq<Op>, r: Frame, q: Page)
    requires Outcome(s, ops).Some? && forall k :: 0 <= k < |ops| ==> Leaves(ops[k], r, q)
    ensures Outcome(s, ops).value.at(r, q) == s.at(r, q)
    decreases |ops|
  {
    if ops != [] {
      assert Leaves(ops[0], r, q);
      var t := Next(s, ops[0]).value;
      forall k | 0 <= k < |ops[1..]|
        ensures Leaves(ops[1..][k], r, q)
      {
        assert ops[1..][k] == ops[k + 1];
      }
      Untouched(t, ops[1..], r, q);
    }
  }

  /** Editing inactive address spaces changes no translation of the active one. */
  lemma InactiveEdits(s: Spec, ops: seq<Op>, cr3: Frame, q: Page)
    requires Outcome(s, ops).Some?
    requires forall k :: 0 <= k < |ops| ==> (ops[k].Map? || ops[k].UnMap? || ops[k].Open? ==> ops[k].root != cr3)
    ensures Outcome(s, ops).value.at(cr3, q) == s.at(cr3, q)
  {
    forall k | 0 <= k < |ops|
      ensures Leaves(ops[k], cr3, q)
    {
    }
    Untouched(s, ops, cr3, q);
  }

  /** The last operation on a page decides: mapped where it was last mapped, absent where it was last unmapped. */
  lemma LastWins(s: Spec, before: seq<Op>, op: Op, after: seq<Op>)
    requires op.Map? || op.UnMap?
    requires Outcome(s, before + [op] + after).Some?
    requires forall k :: 0 <= k < |after| ==> Leaves(after[k], op.root, PageOf(op.v))
    ensures Outcome(s, before + [op] + after).value.at(op.root, PageOf(op.v)) ==
            if op.Map? then Small(op.p) else Unmapped
  {
    hide PageOf;
    OutcomeAppend(s, before + [op], after);
    OutcomeAppend(s, before, [op]);
    var t := Outcome(s, before).value;
    var u := Outcome(s, before + [op]).value;
    OutcomeOne(t, op);
    NextAt(t, op, op.root, PageOf(op.v));
    Untouched(u, after, op.root, PageOf(op.v));
  }

  /** Mapping a fresh page and unmapping it again restores every translation, if there was no 2 MiB leaf. */
  lemma MapUnMap(s: Spec, root: Frame, v: Frame, p: Frame, r: Frame, q: Page)
    requires s.at(root, PageOf(v)) == Unmapped && Outcome(s, [Map(root, v, p)]).Some?
    requires forall q: Page :: SameRegion(q, PageOf(v)) ==> !s.at(root, q).Large?
    ensures Outcome(s, [Map(root, v, p), UnMap(root, v)]).Some?
    ensures Outcome(s, [Map(root, v, p), UnMap(root, v)]).value.at(r, q) == s.at(r, q)
  {
    hide PageOf;
    OutcomeAppend(s, [Map(root, v, p)], [UnMap(root, v)]);
    assert [Map(root, v, p)] + [UnMap(root, v)] == [Map(root, v, p), UnMap(root, v)];
    OutcomeOne(s, Map(root, v, p));
    NextAt(s, Map(root, v, p), r, q);
    NextAt(Next(s, Map(root, v, p)).value, UnMap(root, v), r, q);
    OutcomeOne(Next(s, Map(root, v, p)).value, UnMap(root, v));
  }
}
