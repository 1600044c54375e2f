/** When the collection of free memory runs out of frames for its own page tables. */
module PoolCounts {
  import opened Options
  import opened Words
  import opened Translation
  import opened TableEdits
  import opened Runs
  import opened RunProperties

  /** What the boot tables leave for the frame stacks: 256 MiB mapped to themselves in 2 MiB leaves. */
  const LOW: Frame := 0x1_0000

  /** Above this frame, page numbers repeat. */
  const TOP: Frame := 0xF_FFFF_FFFF

  /** The two calls for the page of frame f. */
  function PageOps(root: Frame, f: Frame): seq<Op> {
    if LOW <= f then [Map(root, f, f), Free(f)] else [Free(f)]
  }

  /** The calls for the pages [lo, hi). */
  function IntervalOps(root: Frame, lo: Frame, hi: Frame): seq<Op>
    decreases hi
  {
    if hi <= lo then [] else IntervalOps(root, lo, hi - 1) + PageOps(root, hi - 1)
  }

  /** The first page of [lo, ...) that has to be mapped. */
  function High(lo: Frame): Frame {
    if lo < LOW then LOW else lo
  }

  /** The first page after f that does not share a last-level table with it. */
  function Boundary(f: Frame): int {
    (f / 512 + 1) * 512
  }

  /** One if table k is missing and not created on the way to page p. */
  function Further(s: Spec, root: Frame, p: Page, k: Table): nat {
    if s.has(k) || OnPath(root, p, k) then 0 else 1
  }

  /** The tables that page q takes after those for page p have been created. */
  function NeededAfter(s: Spec, root: Frame, p: Page, q: Page): nat {
    Further(s, root, p, Pdp(root, q.i4)) + Further(s, root, p, Dir(root, q.i4, q.i3))
    + Further(s, root, p, Pt(root, q.i4, q.i3, q.i2))
  }

  /** The frames at hand, with those below LOW that are pushed first, are enough for the first page that has to be
      mapped, and if one of the next two begins another table, for that one too. */
  predicate Enough(s: Spec, root: Frame, lo: Frame, hi: Frame) {
    var g := High(lo);
    g < hi ==>
      var c, have := Needed(s, root, PageOf(g)), |s.free| + (g - lo);
      && c <= have
      && var b := Boundary(g);
      (b <= g + 2 && b < hi ==> c + NeededAfter(s, root, PageOf(g), PageOf(b)) <= have + (b - g))
  }

  /** The state t after the pages [lo, f) of s have been given. */
  ghost predicate Given(s: Spec, t: Spec, root: Frame, lo: Frame, f: Frame) {
    var g := High(lo);
    && (forall h :: h in t.handed <==> h in s.handed && !(lo <= h < f))
    && (f <= g ==> |t.free| == |s.free| + (f - lo) && forall k :: t.has(k) <==> s.has(k))
    && (g < f ==>
          var p, q, have := PageOf(g), PageOf(f - 1), |s.free| + (g - lo);
          && Needed(t, root, q) == 0
          && (f <= Boundary(g) ==>
                && |t.free| == have - Needed(s, root, p) + (f - g)
                && forall k :: t.has(k) <==> s.has(k) || OnPath(root, p, k))
          && (Boundary(g) < f ==> |t.free| > (f - 1) % 512 && |t.free| + 4 >= have + (f - 1) % 512))
  }

  lemma PageStep(s: Spec, root: Frame, f: Frame)
    ensures Outcome(s, PageOps(root, f)).Some? <==> f < LOW || Needed(s, root, PageOf(f)) <= |s.free|
    ensures Outcome(s, PageOps(root, f)).Some? ==>
              var t := Outcome(s, PageOps(root, f)).value;
              && t.handed == s.handed - {f}
              && |t.free| == |s.free| + 1 - (if f < LOW then 0 else Needed(s, root, PageOf(f)))
              && forall k :: t.has(k) <==> s.has(k) || (LOW <= f && OnPath(root, PageOf(f), k))
  {
    hide PageOf, OnPath, WhereAfter;
    PageOutcome(s, root, f);
    if Outcome(s, PageOps(root, f)).Some? {
      forall k
        ensures Outcome(s, PageOps(root, f)).value.has(k) <==> s.has(k) || (LOW <= f && OnPath(root, PageOf(f), k))
      {
        if LOW <= f {
          WhereOnPath(s, root, PageOf(f), k);
        }
      }
    }
  }

  /** Pages of frames with the same quotient share their tables. */
  lemma SharedTables(s: Spec, root: Frame, f: Frame, g: Frame)
    requires f / 512 == g / 512
    ensures SameRegion(PageOf(f), PageOf(g)) && Needed(s, root, PageOf(f)) == Needed(s, root, PageOf(g))
    ensures forall k :: OnPath(root, PageOf(f), k) <==> OnPath(root, PageOf(g), k)
  {
    Quotients(f);
    Quotients(g);
  }

  lemma Quotients(f: Frame)
    ensures f / 0x4_0000 == f / 512 / 512 && f / 0x800_0000 == f / 512 / 512 / 512
  {
  }

  /** What page q takes once the tables for page p are there. */
  lemma NeededLater(s: Spec, t: Spec, root: Frame, p: Page, q: Page)
    requires forall k :: t.has(k) <==> s.has(k) || OnPath(root, p, k)
    ensures Needed(t, root, q) == NeededAfter(s, root, p, q) && Needed(t, root, p) == 0
  {
  }

  lemma NeededSame(s: Spec, t: Spec, root: Frame, p: Page)
    requires forall k :: t.has(k) <==> s.has(k)
    ensures Needed(t, root, p) == Needed(s, root, p)
  {
  }

  /** One more page. */
  lemma GivenStep(s: Spec, t: Spec, root: Frame, lo: Frame, f: Frame)
    requires lo <= f < TOP && Given(s, t, root, lo, f) && Enough(s, root, lo, f)
    ensures Outcome(t, PageOps(root, f)).Some? <==> Enough(s, root, lo, f + 1)
    ensures Outcome(t, PageOps(root, f)).Some? ==> Given(s, Outcome(t, PageOps(root, f)).value, root, lo, f + 1)
  {
    hide PageOf, OnPath, Needed, NeededAfter, Outcome, PageOps;
    var g := High(lo);
    PageStep(t, root, f);
    NeededAtMost(s, t, root, PageOf(g), PageOf(f));
    if f <= g {
      NeededSame(s, t, root, PageOf(f));
    } else {
      if f % 512 != 0 {
        SharedTables(t, root, f, f - 1);
      }
      if f <= Boundary(g) {
        NeededLater(s, t, root, PageOf(g), PageOf(f));
        if f < Boundary(g) {
          SharedTables(t, root, f, g);
        }
      }
    }
    if Outcome(t, PageOps(root, f)).Some? {
      NeededDone(t, Outcome(t, PageOps(root, f)).value, root, f);
    }
  }

  lemma NeededAtMost(s: Spec, t: Spec, root: Frame, p: Page, q: Page)
    ensures Needed(t, root, q) <= 3 && Needed(s, root, p) <= 3
  {
  }

  lemma NeededDone(t: Spec, u: Spec, root: Frame, f: Frame)
    requires forall k :: u.has(k) <==> t.has(k) || (LOW <= f && OnPath(root, PageOf(f), k))
    ensures LOW <= f ==> Needed(u, root, PageOf(f)) == 0
  {
    hide PageOf;
  }

  /** The pages of [lo, hi) can all be given if and only if the frames at hand are enough for the first of them that
      have to be mapped. */
  lemma {:induction false} IntervalExactly(s: Spec, root: Frame, lo: Frame, hi: Frame)
    requires lo <= hi <= TOP
    ensures Outcome(s, IntervalOps(root, lo, hi)).Some? <==> Enough(s, root, lo, hi)
    ensures Outcome(s, IntervalOps(root, lo, hi)).Some? ==>
              Given(s, Outcome(s, IntervalOps(root, lo, hi)).value, root, lo, hi)
    decreases hi
  {
    hide Outcome, PageOps, Given, Needed, NeededAfter, PageOf;
    if lo < hi {
      IntervalExactly(s, root, lo, hi - 1);
      OutcomeAppend(s, IntervalOps(root, lo, hi - 1), PageOps(root, hi - 1));
      if Outcome(s, IntervalOps(root, lo, hi - 1)).Some? {
        GivenStep(s, Outcome(s, IntervalOps(root, lo, hi - 1)).value, root, lo, hi - 1);
      }
    } else {
      NothingGiven(s, root, lo);
    }
  }

  lemma NothingGiven(s: Spec, root: Frame, lo: Frame)
    ensures Outcome(s, []) == Some(s) && Given(s, s, root, lo, lo)
  {
  }

  /** The pages of [lo, hi) below 256 MiB; they cost nothing. */
  function Lows(lo: int, hi: int): int {
    if hi <= lo || LOW <= lo then 0 else if hi <= LOW then hi - lo else LOW - lo
  }

  predicate HasHigh(lo: int, hi: int) {
    lo < hi && LOW < hi
  }

  /** Five frames are enough for any interval, and no interval costs more than four. */
  lemma FiveSuffice(s: Spec, root: Frame, lo: Frame, hi: Frame)
    requires lo <= hi <= TOP && (HasHigh(lo, hi) ==> |s.free| + Lows(lo, hi) >= 5)
    ensures Outcome(s, IntervalOps(root, lo, hi)).Some?
    ensures var t := Outcome(s, IntervalOps(root, lo, hi)).value;
            && |t.free| >= |s.free| + Lows(lo, hi) - (if HasHigh(lo, hi) then 4 else 0)
            && forall h :: h in t.handed <==> h in s.handed && !(lo <= h < hi)
  {
    hide Outcome, Needed, NeededAfter, PageOf, IntervalOps, OnPath;
    IntervalExactly(s, root, lo, hi);
    NeededAtMost(s, s, root, PageOf(High(lo)), PageOf(High(lo)));
    if Boundary(High(lo)) < hi {
      FurtherAtMost(s, root, PageOf(High(lo)), PageOf(Boundary(High(lo))));
    }
  }

  lemma FurtherAtMost(s: Spec, root: Frame, p: Page, q: Page)
    ensures NeededAfter(s, root, p, q) <= 3
  {
  }

  /** Pages that were handed out before they are given are accounted for afterwards. */
  lemma PageHolds(s: Spec, root: Frame, f: Frame)
    requires Accounted(s) && f in s.handed && Outcome(s, PageOps(root, f)).Some?
    ensures Accounted(Outcome(s, PageOps(root, f)).value)
    ensures Holdings(Outcome(s, PageOps(root, f)).value) == Holdings(s)
  {
    hide Accounted, Holdings, Next, Outcome, Needed, PageOf;
    PageOutcome(s, root, f);
    if LOW <= f {
      var u := Next(s, Map(root, f, f)).value;
      StepConserves(s, Map(root, f, f));
      StepConserves(u, Free(f));
    } else {
      StepConserves(s, Free(f));
    }
  }

  lemma PageOutcome(s: Spec, root: Frame, f: Frame)
    ensures Outcome(s, PageOps(root, f)) ==
            if f < LOW then Next(s, Free(f))
            else match Next(s, Map(root, f, f))
                 case None => None
                 case Some(u) => Next(u, Free(f))
    ensures Next(s, Map(root, f, f)).Some? <==> Needed(s, root, PageOf(f)) <= |s.free|
    ensures Next(s, Map(root, f, f)).Some? ==> Next(s, Map(root, f, f)).value.handed == s.handed
    ensures Next(s, Free(f)).Some?
    ensures Next(s, Map(root, f, f)).Some? ==> Next(Next(s, Map(root, f, f)).value, Free(f)).Some?
  {
    hide PageOf, Needed;
    if LOW <= f {
      OutcomeAppend(s, [Map(root, f, f)], [Free(f)]);
      assert [Map(root, f, f)] + [Free(f)] == PageOps(root, f);
      OutcomeOne(s, Map(root, f, f));
      if Next(s, Map(root, f, f)).Some? {
        OutcomeOne(Next(s, Map(root, f, f)).value, Free(f));
      }
    } else {
      OutcomeOne(s, Free(f));
    }
  }

  lemma {:induction false} IntervalHolds(s: Spec, root: Frame, lo: Frame, hi: Frame)
    requires lo <= hi <= TOP && Outcome(s, IntervalOps(root, lo, hi)).Some?
    requires Accounted(s) && forall h: Frame :: lo <= h < hi ==> h in s.handed
    ensures Accounted(Outcome(s, IntervalOps(root, lo, hi)).value)
    ensures Holdings(Outcome(s, IntervalOps(root, lo, hi)).value) == Holdings(s)
    decreases hi
  {
    hide Outcome, PageOps, Needed, NeededAfter, PageOf, Holdings, Accounted;
    if lo < hi {
      OutcomeAppend(s, IntervalOps(root, lo, hi - 1), PageOps(root, hi - 1));
      IntervalHolds(s, root, lo, hi - 1);
      IntervalExactly(s, root, lo, hi - 1);
      PageHolds(Outcome(s, IntervalOps(root, lo, hi - 1)).value, root, hi - 1);
    } else {
      NothingGiven(s, root, lo);
    }
  }
}
