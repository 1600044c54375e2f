/** When the kernel finds the memory map as the loader has left it, although it gives the memory away in which the map
    lies. */
module MapFindings {
  import opened Options
  import opened Words
  import opened Translation
  import opened AddressSpaces
  import opened Frames
  import opened TableEdits
  import opened Runs
  import opened RunProperties
  import opened PoolCounts
  import opened PoolContents
  import opened MemoryPool
  import opened LittleEndian
  import opened MapWalk
  import Info = BootInformation

  /** The byte lies in a page table, or in the link of a free frame. */
  predicate Written(t: Spec, a: int) {
    0 <= a < END && (WordOf(a).frame in t.tables || (WordOf(a).index == 0 && WordOf(a).frame in t.free))
  }

  /** The entries can be read from p on. */
  predicate Legible(b: Bytes, p: int, e: int) {
    |b| == END && 0 <= p && e + 24 <= END && Info.MapFits(b, p, e) && Info.FieldsFit(b, p, e)
  }

  function After(b: Bytes, p: int): (q: int)
    requires 0 <= p && p + 4 <= |b|
    ensures p < q
  {
    p + Read32(b, p) + 4
  }

  /** The byte belongs to a field of an entry from p on. */
  predicate Awaited(b: Bytes, p: int, e: int, a: int)
    requires Legible(b, p, e)
    decreases e - p
  {
    p < e && (p <= a < p + 24 || Awaited(b, After(b, p), e, a))
  }

  /** No byte that is still to be read is overwritten: when the entry at p has been collected, neither its size nor a
      field of a later entry lies where a table or a link has been put. */
  ghost predicate Undisturbed(l: Layout, b: Bytes, t: Spec, p: int, e: int)
    requires Legible(b, p, e)
    decreases e - p
  {
    p >= e ||
    var r := Info.RegionAt(b, p);
    if !r.available then Undisturbed(l, b, t, After(b, p), e)
    else Ranged(r.address, r.length) ==>
      match Outcome(t, RangeOps(l, r.address, r.length))
      case None => true
      case Some(u) =>
        && (forall a :: p <= a < p + 4 || Awaited(b, After(b, p), e, a) ==> !Written(u, a))
        && Undisturbed(l, b, u, After(b, p), e)
  }

  /** Bytes that are not overwritten are found as they were. */
  lemma FoundAsWas(m: Memory, t: Spec, root: Frame, base: Word, a: int)
    requires 0 <= a < END && !Written(t, a)
    ensures ByteAt(Shown(m, t, root, base), a) == ByteAt(m, a)
  {
    hide Octet, EntryIn;
  }

  lemma EntryAsWas(m: Memory, t: Spec, root: Frame, base: Word, p: int, n: int)
    requires 0 <= p && p + 24 <= END && 4 <= n && forall a :: p <= a < p + n ==> !Written(t, a)
    ensures Following(m, t, root, base, p) == After(Image(m), p)
    ensures n == 24 ==> Found(m, t, root, base, p) == Info.RegionAt(Image(m), p)
  {
    hide Written, Shown, Octet, Read32, Read64;
    var x, y := Image(Shown(m, t, root, base)), Image(m);
    forall a | 0 <= a < END && p <= a < p + n
      ensures x[a] == y[a]
    {
      FoundAsWas(m, t, root, base, a);
    }
    SameWithin(x, y, p, p + n, p, p + 4);
    SameReads(x, y, p);
    if n == 24 {
      SameRegion24(x, y, p, p, p + 24);
    }
  }

  function EntryOps(l: Layout, r: Region): seq<Op>
    requires r.available ==> Ranged(r.address, r.length)
  {
    if r.available then RangeOps(l, r.address, r.length) else []
  }

  lemma ListedRest(r: Region, rest: seq<Region>)
    requires Listed([r] + rest)
    ensures Listed(rest) && (r.available ==> Ranged(r.address, r.length))
  {
    var map_ := [r] + rest;
    assert map_[0] == r;
    forall j | 0 <= j < |rest| && rest[j].available
      ensures Ranged(rest[j].address, rest[j].length)
    {
      assert map_[j + 1] == rest[j];
    }
  }

  lemma OneMore(l: Layout, map_: seq<Region>, k: nat)
    requires k < |map_| && Listed(map_)
    ensures MapOps(l, map_, k + 1) == MapOps(l, map_, k) + EntryOps(l, map_[k])
  {
  }

  /** The calls for a list are those for its first entry and then those for the others. */
  lemma {:induction false} CallsInOrder(l: Layout, r: Region, rest: seq<Region>, k: nat)
    requires k <= |rest| && Listed([r] + rest) && Listed(rest) && (r.available ==> Ranged(r.address, r.length))
    ensures MapOps(l, [r] + rest, k + 1) == EntryOps(l, r) + MapOps(l, rest, k)
    decreases k
  {
    hide EntryOps, Listed;
    var map_ := [r] + rest;
    if k == 0 {
      OneMore(l, map_, 0);
      assert MapOps(l, map_, 0) == [] && MapOps(l, rest, 0) == [];
    } else {
      hide MapOps;
      CallsInOrder(l, r, rest, k - 1);
      OneMore(l, map_, k);
      OneMore(l, rest, k - 1);
      assert map_[k] == rest[k - 1];
    }
  }

  lemma OutcomeInOrder(l: Layout, t: Spec, r: Region, rest: seq<Region>)
    requires Listed([r] + rest) && Listed(rest) && (r.available ==> Ranged(r.address, r.length))
    ensures Outcome(t, MapOps(l, [r] + rest, |rest| + 1)) ==
            match (if r.available then Outcome(t, RangeOps(l, r.address, r.length)) else Some(t))
            case None => None
            case Some(u) => Outcome(u, MapOps(l, rest, |rest|))
  {
    hide RangeOps, Outcome, MapOps;
    CallsInOrder(l, r, rest, |rest|);
    OutcomeAppend(t, EntryOps(l, r), MapOps(l, rest, |rest|));
    OutcomeNone(t);
  }

  /** An undisturbed walk finds the entries as the loader has left them, up to the one at which the kernel halts, if it
      does. */
  lemma {:induction false} UndisturbedSeen(l: Layout, m: Memory, t: Spec, base: Word, p: int, e: int)
    requires Legible(Image(m), p, e) && Undisturbed(l, Image(m), t, p, e)
    requires forall a :: Awaited(Image(m), p, e, a) ==> !Written(t, a)
    requires Listed(Info.Visited(Image(m), p, e))
    ensures var seen, map_ := Seen(l, m, t, base, p, e), Info.Visited(Image(m), p, e);
            && |seen| <= |map_| && seen == map_[..|seen|] && Listed(seen)
            && Outcome(t, MapOps(l, seen, |seen|)) == Outcome(t, MapOps(l, map_, |map_|))
            && (Outcome(t, MapOps(l, map_, |map_|)).Some? ==> seen == map_)
    decreases e - p
  {
    hide Outcome, MapOps, RangeOps, Written, Found, Following, Image, Info.RegionAt, Read32;
    var b := Image(m);
    if p < e {
      var r, q := Info.RegionAt(b, p), After(b, p);
      var rest := Info.Visited(b, q, e);
      assert Info.Visited(b, p, e) == [r] + rest;
      ListedRest(r, rest);
      EntryAsWas(m, t, l.root, base, p, 24);
      OutcomeInOrder(l, t, r, rest);
      var u := if r.available then Outcome(t, RangeOps(l, r.address, r.length)) else Some(t);
      if u.None? {
        OutcomeInOrder(l, t, r, []);
        assert [r] + [] == [r];
      } else {
        EntryAsWas(m, u.value, l.root, base, p, 4);
        UndisturbedSeen(l, m, u.value, base, q, e);
        var seen := Seen(l, m, u.value, base, q, e);
        assert Listed([r] + seen);
        OutcomeInOrder(l, t, r, seen);
        assert Seen(l, m, t, base, p, e) == [r] + seen;
      }
    }
  }

  /** A word with nothing but a one in byte i. */
  function OneIn(i: nat): (w: bv64)
    requires i < 8
    ensures Octet(w, i) == 1
  {
    if i == 0 then 0x1 else if i == 1 then 0x100 else if i == 2 then 0x1_0000 else if i == 3 then 0x100_0000
    else if i == 4 then 0x1_0000_0000 else if i == 5 then 0x100_0000_0000
    else if i == 6 then 0x1_0000_0000_0000 else 0x100_0000_0000_0000
  }

  lemma NothingIn(i: nat)
    requires i < 8
    ensures Octet(0, i) == 0
  {
  }

  /** Whatever byte the loader leaves at a is what the kernel finds there. */
  ghost predicate FoundAlways(t: Spec, root: Frame, base: Word, a: int)
    requires 0 <= a < END
  {
    forall m: Memory :: ByteAt(Shown(m, t, root, base), a) == ByteAt(m, a)
  }

  /** That is so if and only if no table or link has been put over it. */
  lemma FoundExactly(t: Spec, root: Frame, base: Word, a: int)
    requires 0 <= a < END && !(root <= WordOf(a).frame < root + 6)
    ensures FoundAlways(t, root, base, a) <==> !Written(t, a)
  {
    hide Octet, EntryOf, Encoded, EntryIn, OneIn;
    if Written(t, a) {
      var s, z := WordOf(a), imap x: Slot :: Pointer(x.frame);
      var m0, m1: Memory := z[s := EntryOf(0)], z[s := EntryOf(OneIn(a % 8))];
      EncodedEntry(0);
      EncodedEntry(OneIn(a % 8));
      NothingIn(a % 8);
      assert Shown(m0, t, root, base)[s] == Shown(m1, t, root, base)[s];
      assert ByteAt(m0, a) == 0 && ByteAt(m1, a) == 1;
    } else {
      forall m: Memory
        ensures ByteAt(Shown(m, t, root, base), a) == ByteAt(m, a)
      {
        FoundAsWas(m, t, root, base, a);
      }
    }
  }

  /** In every round, whatever bytes the loader leaves where the kernel still has to read, the kernel finds them. */
  ghost predicate Faithful(l: Layout, b: Bytes, base: Word, t: Spec, p: int, e: int)
    requires Legible(b, p, e)
    decreases e - p
  {
    p >= e ||
    var r := Info.RegionAt(b, p);
    if !r.available then Faithful(l, b, base, t, After(b, p), e)
    else Ranged(r.address, r.length) ==>
      match Outcome(t, RangeOps(l, r.address, r.length))
      case None => true
      case Some(u) =>
        && (forall a :: 0 <= a < END && (p <= a < p + 4 || Awaited(b, After(b, p), e, a)) ==>
              FoundAlways(u, l.root, base, a))
        && Faithful(l, b, base, u, After(b, p), e)
  }

  /** That is exactly the condition of an undisturbed walk. */
  lemma {:induction false} UndisturbedExactly(l: Layout, b: Bytes, base: Word, t: Spec, p: int, e: int)
    requires Legible(b, p, e) && Outside(l.root, p, e)
    ensures Faithful(l, b, base, t, p, e) <==> Undisturbed(l, b, t, p, e)
    decreases e - p, 0
  {
    hide Outcome, RangeOps, Written, Info.RegionAt, Read32, FoundAlways;
    if p < e {
      var r, q := Info.RegionAt(b, p), After(b, p);
      AwaitedWithin(b, q, e);
      if !r.available {
        RestExactly(l, b, base, t, q, e);
      } else if Ranged(r.address, r.length) {
        var v := Outcome(t, RangeOps(l, r.address, r.length));
        if v.Some? {
          RestExactly(l, b, base, v.value, q, e);
          forall a | 0 <= a < END && (p <= a < p + 4 || Awaited(b, q, e, a))
            ensures FoundAlways(v.value, l.root, base, a) <==> !Written(v.value, a)
          {
            FoundExactly(v.value, l.root, base, a);
          }
          assert forall a :: Written(v.value, a) ==> 0 <= a < END by {
            WrittenLow(v.value);
          }
        }
      }
    }
  }

  lemma {:induction false} RestExactly(l: Layout, b: Bytes, base: Word, t: Spec, q: int, e: int)
    requires Legible(b, q, e) && 0 <= q && (q < e ==> Outside(l.root, q, e))
    ensures Faithful(l, b, base, t, q, e) <==> Undisturbed(l, b, t, q, e)
    decreases e - q, 1
  {
    if q < e {
      UndisturbedExactly(l, b, base, t, q, e);
    }
  }

  lemma WrittenLow(t: Spec)
    ensures forall a :: Written(t, a) ==> 0 <= a < END
  {
  }

  /** Fields lie between the first entry and the end of a last one. */
  lemma {:induction false} AwaitedWithin(b: Bytes, p: int, e: int)
    requires Legible(b, p, e)
    ensures forall a :: Awaited(b, p, e, a) ==> p <= a < e + 24
    decreases e - p
  {
    hide Read32;
    if p < e {
      AwaitedWithin(b, After(b, p), e);
    }
  }
}
