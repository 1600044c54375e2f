/** A condition on the memory map, to be checked before it is walked, under which the walk is undisturbed: the map fits
    into one page, and so many pages above that page are collected with it that it is never taken for a table. */
module MapShelter {
  import opened Options
  import opened Words
  import opened Translation
  import opened AddressSpaces
  import opened Frames
  import opened Runs
  import opened RunProperties
  import opened PoolCounts
  import opened MemoryPool
  import opened LittleEndian
  import opened MapWalk
  import opened MapFindings
  import opened MapLosses
  import Info = BootInformation

  /** q is the lower part of the stack s. */
  predicate Ends(s: seq<Frame>, q: seq<Frame>) {
    |q| <= |s| && s[|s| - |q|..] == q
  }

  lemma EndsLonger(x: seq<Frame>, s: seq<Frame>, q: seq<Frame>)
    requires Ends(s, q)
    ensures Ends(x + s, q)
  {
    var y := x + s;
    assert y[|y| - |q|..] == s[|s| - |q|..];
  }

  lemma EndsShorter(s: seq<Frame>, q: seq<Frame>, k: nat)
    requires Ends(s, q) && k + |q| <= |s|
    ensures Ends(s[k..], q)
  {
    assert s[k..][|s| - k - |q|..] == s[|s| - |q|..];
  }

  /** Giving a page takes frames from the top only. */
  lemma PageEnds(s: Spec, root: Frame, f: Frame, q: seq<Frame>)
    requires Outcome(s, PageOps(root, f)).Some? && Ends(s.free, q)
    requires |q| < |Outcome(s, PageOps(root, f)).value.free|
    ensures Ends(Outcome(s, PageOps(root, f)).value.free, q)
  {
    hide PageOf, Needed, Outcome;
    PageOutcome(s, root, f);
    if LOW <= f {
      var k := Needed(s, root, PageOf(f));
      EndsShorter(s.free, q, k);
      EndsLonger([f], s.free[k..], q);
    } else {
      EndsLonger([f], s.free, q);
    }
  }

  /** Whatever an interval takes for tables, the frames five below the top of the stack are not touched. */
  lemma {:induction false} IntervalEnds(s: Spec, root: Frame, lo: Frame, hi: Frame, q: seq<Frame>)
    requires lo <= hi <= TOP && Ends(s.free, q) && (HasHigh(lo, hi) ==> |s.free| >= |q| + 5)
    ensures Outcome(s, IntervalOps(root, lo, hi)).Some?
    ensures var t := Outcome(s, IntervalOps(root, lo, hi)).value;
            && Ends(t.free, q)
            && |t.free| >= |s.free| + Lows(lo, hi) - (if HasHigh(lo, hi) then 4 else 0)
    decreases hi
  {
    hide Outcome, PageOps;
    FiveSuffice(s, root, lo, hi);
    if lo < hi {
      IntervalEnds(s, root, lo, hi - 1, q);
      var t := Outcome(s, IntervalOps(root, lo, hi - 1)).value;
      OutcomeAppend(s, IntervalOps(root, lo, hi - 1), PageOps(root, hi - 1));
      PageEnds(t, root, hi - 1, q);
    } else {
      OutcomeNone(s);
    }
  }

  lemma {:induction false} IntervalSplit(root: Frame, lo: Frame, mid: Frame, hi: Frame)
    requires lo <= mid <= hi
    ensures IntervalOps(root, lo, hi) == IntervalOps(root, lo, mid) + IntervalOps(root, mid, hi)
    decreases hi
  {
    hide PageOps;
    if mid < hi {
      IntervalSplit(root, lo, mid, hi - 1);
    } else {
      assert IntervalOps(root, mid, hi) == [];
    }
  }

  lemma IntervalTwice(s: Spec, root: Frame, lo: Frame, mid: Frame, hi: Frame)
    requires lo <= mid <= hi && Outcome(s, IntervalOps(root, lo, mid)).Some?
    ensures Outcome(s, IntervalOps(root, lo, hi)) ==
            Outcome(Outcome(s, IntervalOps(root, lo, mid)).value, IntervalOps(root, mid, hi))
  {
    hide Outcome, IntervalOps;
    IntervalSplit(root, lo, mid, hi);
    OutcomeAppend(s, IntervalOps(root, lo, mid), IntervalOps(root, mid, hi));
  }

  /** The end of the pages below 256 MiB. */
  function LowEnd(hi: Frame): Frame {
    if hi < LOW then hi else LOW
  }

  /** A page of the interval, below 256 MiB and with enough others above it, is under those in the end. */
  lemma PageSheltered(s: Spec, root: Frame, lo: Frame, hi: Frame, f: Frame) returns (q: seq<Frame>)
    requires lo <= f < hi <= TOP && f < LOW && (HasHigh(lo, hi) ==> LowEnd(hi) - 1 - f >= 5)
    ensures Outcome(s, IntervalOps(root, lo, hi)).Some? && q != [] && q[0] == f
    ensures var t := Outcome(s, IntervalOps(root, lo, hi)).value;
            Ends(t.free, q) && |t.free| - |q| >= LowEnd(hi) - 1 - f - (if HasHigh(lo, hi) then 4 else 0)
  {
    hide Outcome, IntervalOps, Ends;
    LowInterval(s, root, lo, f + 1);
    var u := Outcome(s, IntervalOps(root, lo, f + 1)).value;
    q := u.free;
    IntervalTwice(s, root, lo, f + 1, hi);
    var w := PushedAbove(u, root, f + 1, hi);
    IntervalTwice(u, root, f + 1, LowEnd(hi), hi);
    IntervalEnds(w, root, LowEnd(hi), hi, q);
    NoLows(LowEnd(hi), hi);
  }

  /** The other low pages come on top. */
  lemma PushedAbove(u: Spec, root: Frame, lo: Frame, hi: Frame) returns (w: Spec)
    requires lo <= hi && lo <= LOW
    ensures Outcome(u, IntervalOps(root, lo, LowEnd(hi))) == Some(w)
    ensures Ends(w.free, u.free) && |w.free| == |u.free| + LowEnd(hi) - lo
  {
    hide Outcome, IntervalOps, Ends;
    LowInterval(u, root, lo, LowEnd(hi));
    w := Outcome(u, IntervalOps(root, lo, LowEnd(hi))).value;
    EndsAll(u.free);
    EndsLonger(Downward(lo, LowEnd(hi)), u.free, u.free);
  }

  lemma EndsAll(s: seq<Frame>)
    ensures Ends(s, s)
  {
  }

  lemma {:induction false} HighGrows(l: Layout, map_: seq<Region>, j: nat, k: nat)
    requires j <= k <= |map_| && Listed(map_)
    ensures HighEntries(l, map_, j) <= HighEntries(l, map_, k)
    decreases k
  {
    if j < k {
      HighGrows(l, map_, j, k - 1);
    }
  }

  /** The frames that the entries from k on may take from the stack as they find it. */
  function Reserve(l: Layout, map_: seq<Region>, k: nat): nat
    requires k <= |map_| && Listed(map_)
  {
    var h := HighEntries(l, map_, |map_|) - HighEntries(l, map_, k);
    if h <= 0 then 0 else 4 * h + 1
  }

  /** Frame f lies so deep in the free stack that the entries from k on leave it there. */
  ghost predicate Deep(l: Layout, map_: seq<Region>, k: nat, free: seq<Frame>, f: Frame)
    requires k <= |map_| && Listed(map_)
  {
    exists q :: q != [] && q[0] == f && Ends(free, q) && |free| - |q| >= Reserve(l, map_, k)
  }

  lemma DeepFree(l: Layout, map_: seq<Region>, k: nat, free: seq<Frame>, f: Frame)
    requires k <= |map_| && Listed(map_) && Deep(l, map_, k, free, f)
    ensures f in free
  {
    var q :| q != [] && q[0] == f && Ends(free, q) && |free| - |q| >= Reserve(l, map_, k);
    assert free[|free| - |q|] == free[|free| - |q|..][0] == f;
  }

  /** Above the page lie as many others of its entry as later entries may take. */
  predicate Covered(l: Layout, map_: seq<Region>, j: nat, f: Frame)
    requires j < |map_| && Listed(map_) && map_[j].available
  {
    f < LOW && LowEnd(MemoryPool.Last(l, map_[j].address, map_[j].length)) - 1 - f >= Reserve(l, map_, j)
  }

  lemma JustCovered(l: Layout, map_: seq<Region>, j: nat, f: Frame, s: Spec)
    requires j < |map_| && Listed(map_) && map_[j].available && Accepted(l, map_[j].address, map_[j].length, f)
    requires Covered(l, map_, j, f) && Outcome(s, MapOps(l, map_, j)).Some?
    ensures Outcome(s, MapOps(l, map_, j + 1)).Some?
    ensures Deep(l, map_, j + 1, Outcome(s, MapOps(l, map_, j + 1)).value.free, f)
  {
    hide Outcome, MapOps, Accepted, First, IntervalOps, HasHigh;
    var r, t := map_[j], Outcome(s, MapOps(l, map_, j)).value;
    var lo, hi := First(l, r.address, r.length), MemoryPool.Last(l, r.address, r.length);
    HighGrows(l, map_, j + 1, |map_|);
    AcceptedInterval(l, r.address, r.length, f);
    MapStep(l, map_, j, s);
    var q := PageSheltered(t, l.root, lo, hi, f);
  }

  lemma StillCovered(l: Layout, map_: seq<Region>, k: nat, f: Frame, s: Spec)
    requires k < |map_| && Listed(map_) && Outcome(s, MapOps(l, map_, k)).Some?
    requires Deep(l, map_, k, Outcome(s, MapOps(l, map_, k)).value.free, f)
    ensures Outcome(s, MapOps(l, map_, k + 1)).Some?
    ensures Deep(l, map_, k + 1, Outcome(s, MapOps(l, map_, k + 1)).value.free, f)
  {
    hide Outcome, MapOps, First, IntervalOps, HasHigh, Lows;
    var r, t := map_[k], Outcome(s, MapOps(l, map_, k)).value;
    HighGrows(l, map_, k + 1, |map_|);
    MapStep(l, map_, k, s);
    var q :| q != [] && q[0] == f && Ends(t.free, q) && |t.free| - |q| >= Reserve(l, map_, k);
    if r.available {
      var lo, hi := First(l, r.address, r.length), MemoryPool.Last(l, r.address, r.length);
      IntervalEnds(t, l.root, lo, hi, q);
      NoLows(lo, hi);
    }
  }

  lemma NoLows(lo: int, hi: int)
    ensures Lows(lo, hi) >= 0
  {
  }

  /** Once collected, the page stays on the stack. */
  lemma {:induction false} StaysDeep(l: Layout, map_: seq<Region>, j: nat, k: nat, f: Frame, s: Spec)
    requires j < k <= |map_| && Listed(map_) && map_[j].available && Accepted(l, map_[j].address, map_[j].length, f)
    requires Covered(l, map_, j, f) && Outcome(s, MapOps(l, map_, k)).Some?
    ensures Deep(l, map_, k, Outcome(s, MapOps(l, map_, k)).value.free, f)
    decreases k
  {
    hide Outcome, MapOps, Accepted, Covered, Deep;
    if Outcome(s, MapOps(l, map_, k - 1)).None? {
      MapHalts(l, map_, k - 1, k, s);
    } else if k == j + 1 {
      JustCovered(l, map_, j, f, s);
    } else {
      StaysDeep(l, map_, j, k - 1, f, s);
      StillCovered(l, map_, k - 1, f, s);
    }
  }

  /** The map fits into one page, with 24 bytes to spare and not at its very beginning; and whichever entry contributes
      that page covers it. */
  predicate Sheltered(l: Layout, map_: seq<Region>, start: int, e: int)
    requires Listed(map_)
  {
    var f := start / 0x1000;
    && 0 <= start && 8 <= start % 0x1000 && e + 24 <= (f + 1) * 0x1000 && f < LOW
    && forall j :: 0 <= j < |map_| && map_[j].available && Accepted(l, map_[j].address, map_[j].length, f) ==>
         Covered(l, map_, j, f)
  }

  /** Such a page is never taken for a table. */
  lemma NeverTaken(l: Layout, map_: seq<Region>, s: Spec, f: Frame, k: nat)
    requires k <= |map_| && Listed(map_) && Disjoint(map_) && l.startKernel <= l.endKernel
    requires Accounted(s) && s.handed == Contribution(l, map_, |map_|) && s.free == [] && f !in s.tables
    requires forall j :: 0 <= j < |map_| && map_[j].available && Accepted(l, map_[j].address, map_[j].length, f) ==>
               Covered(l, map_, j, f)
    requires Outcome(s, MapOps(l, map_, k)).Some?
    ensures f !in Outcome(s, MapOps(l, map_, k)).value.tables
  {
    hide Outcome, MapOps, Accepted, Covered, Deep, Contribution;
    var t := Outcome(s, MapOps(l, map_, k)).value;
    MapHolds(l, map_, k, s);
    MapHanded(l, map_, k, s);
    ContributionFrom(l, map_, k, f);
    if f in Contribution(l, map_, k) {
      var j :| 0 <= j < k && map_[j].available && Accepted(l, map_[j].address, map_[j].length, f);
      StaysDeep(l, map_, j, k, f, s);
      DeepFree(l, map_, k, t.free, f);
    }
  }

  /** The page of a sheltered map, and where its fields lie in it. */
  lemma FieldsInside(l: Layout, map_: seq<Region>, b: Bytes, start: int, e: int, p: int, t: Spec)
    requires Listed(map_) && Sheltered(l, map_, start, e) && start <= p && Legible(b, p, e)
    requires start / 0x1000 !in t.tables
    ensures forall a :: p <= a < e + 24 ==> !Written(t, a)
    ensures forall a :: Awaited(b, p, e, a) ==> !Written(t, a)
  {
    hide Info.FieldsFit, Info.MapFits, Accepted, Covered;
    AwaitedWithin(b, p, e);
    forall a | p <= a < e + 24
      ensures !Written(t, a)
    {
      assert a / 0x1000 == start / 0x1000 && a % 0x1000 >= 8;
    }
  }

  /** A sheltered map is not disturbed. */
  lemma {:induction false} ShelteredUndisturbed(l: Layout, map_: seq<Region>, b: Bytes, s: Spec, start: int, e: int,
                                                k: nat, p: int)
    requires Listed(map_) && Disjoint(map_) && l.startKernel <= l.endKernel && Sheltered(l, map_, start, e)
    requires Accounted(s) && s.handed == Contribution(l, map_, |map_|) && s.free == [] && start / 0x1000 !in s.tables
    requires start <= p && Legible(b, p, e) && k <= |map_| && map_[k..] == Info.Visited(b, p, e)
    requires Outcome(s, MapOps(l, map_, k)).Some?
    ensures Undisturbed(l, b, Outcome(s, MapOps(l, map_, k)).value, p, e)
    decreases e - p
  {
    hide Outcome, MapOps, RangeOps, Accepted, Covered, Written, Info.RegionAt, Read32, Contribution, Accounted;
    if p < e {
      var t, r, q := Outcome(s, MapOps(l, map_, k)).value, Info.RegionAt(b, p), After(b, p);
      assert map_[k] == map_[k..][0] == r;
      assert map_[k + 1..] == map_[k..][1..] == Info.Visited(b, q, e);
      MapStep(l, map_, k, s);
      if Outcome(s, MapOps(l, map_, k + 1)).Some? {
        var u := Outcome(s, MapOps(l, map_, k + 1)).value;
        NeverTaken(l, map_, s, start / 0x1000, k + 1);
        FieldsInside(l, map_, b, start, e, p, u);
        FieldsInside(l, map_, b, start, e, q, u);
        ShelteredUndisturbed(l, map_, b, s, start, e, k + 1, q);
      }
    }
  }

  /** An undisturbed walk, from the beginning: the kernel finds what the loader has left. */
  lemma UndisturbedFinds(l: Layout, m: Memory, base: Word, start: int, e: int)
    requires l.root + 8 < LOW && l.startKernel <= l.endKernel
    requires Legible(Image(m), start, e) && Outside(l.root, start, e)
    requires Listed(Info.Visited(Image(m), start, e)) && Disjoint(Info.Visited(Image(m), start, e))
    requires Undisturbed(l, Image(m), Offered(l, Info.Visited(Image(m), start, e)), start, e)
    ensures var map_ := Info.Visited(Image(m), start, e);
            var s := Offered(l, map_);
            var seen := Seen(l, m, s, base, start, e);
            && Sensible(l, seen, s)
            && Outcome(s, MapOps(l, seen, |seen|)) == Outcome(s, MapOps(l, map_, |map_|))
            && (Outcome(s, MapOps(l, map_, |map_|)).Some? ==> seen == map_)
  {
    hide Outcome, MapOps, Seen, Accepted, Written, Info.Visited, Info.MapFits, Info.FieldsFit, Image, Accounted;
    hide Contribution, Undisturbed;
    var map_ := Info.Visited(Image(m), start, e);
    var s := Offered(l, map_);
    AwaitedWithin(Image(m), start, e);
    NothingWritten(l, map_, start, e);
    UndisturbedSeen(l, m, s, base, start, e);
    PrefixSensible(l, map_, Seen(l, m, s, base, start, e), s);
  }

  lemma NothingWritten(l: Layout, map_: seq<Region>, start: int, e: int)
    requires l.root + 8 < LOW && Outside(l.root, start, e)
    ensures forall a :: start <= a < e + 24 ==> !Written(Offered(l, map_), a)
  {
    hide Contribution;
  }

  /** So does a sheltered one. */
  lemma ShelteredSeen(l: Layout, b: Bytes, start: int, e: int)
    requires l.root + 8 < LOW && l.startKernel <= l.endKernel && Legible(b, start, e) && Outside(l.root, start, e)
    requires Listed(Info.Visited(b, start, e)) && Disjoint(Info.Visited(b, start, e))
    requires Sheltered(l, Info.Visited(b, start, e), start, e)
    ensures Undisturbed(l, b, Offered(l, Info.Visited(b, start, e)), start, e)
  {
    hide Outcome, MapOps, Accepted, Covered, Info.Visited, Info.MapFits, Info.FieldsFit, Accounted, Contribution;
    hide Undisturbed;
    var map_ := Info.Visited(b, start, e);
    var s := Offered(l, map_);
    if start < e {
      OfferedApart(l, map_);
      NoEntries(l, map_, s);
      assert map_[0..] == map_;
      ShelteredUndisturbed(l, map_, b, s, start, e, 0, start);
    } else {
      NoneDisturbed(l, b, s, start, e);
    }
  }

  lemma NoneDisturbed(l: Layout, b: Bytes, t: Spec, p: int, e: int)
    requires Legible(b, p, e) && p >= e
    ensures Undisturbed(l, b, t, p, e)
  {
  }

  lemma PrefixSensible(l: Layout, map_: seq<Region>, seen: seq<Region>, s: Spec)
    requires |seen| <= |map_| && seen == map_[..|seen|] && Listed(map_) && Disjoint(map_) && Listed(seen)
    requires s.handed == Contribution(l, map_, |map_|)
    ensures Sensible(l, seen, s)
  {
    hide Accepted;
    forall f | f in Contribution(l, seen, |seen|)
      ensures f in s.handed
    {
      ContributionFrom(l, seen, |seen|, f);
      ContributionFrom(l, map_, |map_|, f);
      var j :| 0 <= j < |seen| && seen[j].available && Accepted(l, seen[j].address, seen[j].length, f);
      assert map_[j] == seen[j];
    }
  }
}
