/**
 * First fit said byte by byte. Each request in turn takes the lowest stretch of
 * its size, lowest bank first, in which every byte is on offer and not yet taken;
 * no region, cursor or free list appears in the statement.
 */
module LowestFit {
  import opened Types
  import opened Regions
  import opened FirstFit

  /** Which bytes of which banks are on offer. */
  type Offer = (nat, nat) -> bool

  ghost predicate OfferOf(regions: seq<Region>, offered: Offer) {
    forall b: nat, x: nat :: offered(b, x) <==> Covers(regions, b, x)
  }

  predicate NoFurther(b: nat, x: nat, c: nat, y: nat) {
    b < c || (b == c && x <= y)
  }

  /** Every byte of the stretch is on offer and not yet taken. */
  ghost predicate Fits(offered: Offer, spots: seq<Spot>, w: Spot) {
    forall x: nat :: w.offset <= x < w.offset + w.size ==> offered(w.bank, x) && !HandedOut(spots, w.bank, x)
  }

  ghost predicate Lowest(offered: Offer, spots: seq<Spot>, w: Spot) {
    && Fits(offered, spots, w)
    && forall v: Spot :: v.size == w.size && Fits(offered, spots, v) ==> NoFurther(w.bank, w.offset, v.bank, v.offset)
  }

  ghost predicate FirstOffered(offered: Offer, b: nat, x: nat) {
    offered(b, x) && forall c: nat, y: nat :: offered(c, y) ==> NoFurther(b, x, c, y)
  }

  /** Taken without a gap from `from` up to `to`, and no further. */
  ghost predicate TakenTo(offered: Offer, spots: seq<Spot>, b: nat, from: nat, to: nat) {
    && from <= to
    && (forall y: nat :: from <= y < to ==> offered(b, y) && HandedOut(spots, b, y))
    && !(offered(b, to) && HandedOut(spots, b, to))
  }

  /** Where a request for no bytes goes: after what is taken from the very first byte on offer. */
  ghost predicate AfterFirst(offered: Offer, spots: seq<Spot>, w: Spot) {
    exists x: nat :: FirstOffered(offered, w.bank, x) && TakenTo(offered, spots, w.bank, x, w.offset)
  }

  ghost predicate Next(offered: Offer, spots: seq<Spot>, w: Spot) {
    if w.size > 0 then Lowest(offered, spots, w) else AfterFirst(offered, spots, w)
  }

  ghost predicate NextFor(requests: seq<Request>, offered: Offer, spots: seq<Spot>, k: nat)
    requires k < |spots| <= |requests|
  {
    spots[k].size == requests[k].size && Next(offered, spots[..k], spots[k])
  }

  /** The spots are the requests' own, each the next one at its turn. */
  ghost predicate InTurn(requests: seq<Request>, offered: Offer, spots: seq<Spot>) {
    |spots| <= |requests| && forall k: nat :: k < |spots| ==> NextFor(requests, offered, spots, k)
  }

  // ------------------------------------------------------------ one answer

  lemma {:induction false} NextIsUnique(offered: Offer, spots: seq<Spot>, v: Spot, w: Spot)
    requires v.size == w.size && Next(offered, spots, v) && Next(offered, spots, w)
    ensures v == w
  {
    if w.size == 0 {
      var x: nat :| FirstOffered(offered, v.bank, x) && TakenTo(offered, spots, v.bank, x, v.offset);
      var y: nat :| FirstOffered(offered, w.bank, y) && TakenTo(offered, spots, w.bank, y, w.offset);
      assert NoFurther(v.bank, x, w.bank, y) && NoFurther(w.bank, y, v.bank, x);
    }
  }

  /** The requests and the offer leave no choice. */
  lemma {:induction false} InTurnIsUnique(requests: seq<Request>, offered: Offer, s: seq<Spot>, t: seq<Spot>, n: nat)
    requires InTurn(requests, offered, s) && InTurn(requests, offered, t) && n <= |s| && n <= |t|
    ensures s[..n] == t[..n]
  {
    if n != 0 {
      InTurnIsUnique(requests, offered, s, t, n - 1);
      assert NextFor(requests, offered, s, n - 1) && NextFor(requests, offered, t, n - 1);
      NextIsUnique(offered, s[..n - 1], s[n - 1], t[n - 1]);
      assert s[..n] == s[..n - 1] + [s[n - 1]] && t[..n] == t[..n - 1] + [t[n - 1]];
    }
  }

  // --------------------------------------------------- cursors and stretches

  /** A fit so far, over a free list that covers the offer. */
  ghost predicate Underway(f: Fitted, free: seq<Region>, offered: Offer) {
    && |f.cursor| == |free| && OfferOf(free, offered) && Separated(free) && NoneEmpty(free)
    && Tiled(f, free) && AllInside(f, free)
    && forall i :: 0 <= i < |free| ==> f.cursor[i] <= free[i].end
  }

  /** Nothing at or past a region's cursor has been taken. */
  lemma {:induction false} PastCursorIsFree(f: Fitted, free: seq<Region>, offered: Offer, i: nat, x: nat)
    requires Underway(f, free, offered) && i < |free| && f.cursor[i] <= x < free[i].end
    ensures offered(free[i].bank, x) && !HandedOut(f.spots, free[i].bank, x)
  {
    assert free[i].Has(free[i].bank, x);
    forall k | 0 <= k < |f.spots|
      ensures !f.spots[k].Has(free[i].bank, x)
    {
      assert InsideSome(f.spots[k], f, free);
      var j: nat :| Inside(f.spots[k], f, free, j);
      assert j < i ==> Apart(free[j], free[i]);
      assert i < j ==> Apart(free[i], free[j]);
    }
  }

  lemma {:induction false} BelowCursorIsTaken(f: Fitted, free: seq<Region>, offered: Offer, i: nat, x: nat)
    requires Underway(f, free, offered) && i < |free| && free[i].start <= x < f.cursor[i]
    ensures offered(free[i].bank, x) && HandedOut(f.spots, free[i].bank, x)
  {
    assert TiledTo(f.spots, free[i], f.cursor[i]);
    assert free[i].Has(free[i].bank, x);
  }

  /** A stretch that fits lies in one region, at or past its cursor. */
  lemma {:induction false} FitsPastCursor(f: Fitted, free: seq<Region>, offered: Offer, w: Spot) returns (i: nat)
    requires Underway(f, free, offered) && w.size > 0 && Fits(offered, f.spots, w)
    ensures i < |free| && free[i].bank == w.bank
    ensures free[i].start <= f.cursor[i] <= w.offset && w.offset + w.size <= free[i].end
  {
    assert offered(w.bank, w.offset);
    i :| i < |free| && free[i].Has(w.bank, w.offset);
    forall y | w.offset <= y < w.offset + w.size
      ensures Covers(free, w.bank, y)
    {
      assert offered(w.bank, y);
    }
    OneRegion(free, w.bank, w.offset, w.offset + w.size, i);
    if w.offset < f.cursor[i] {
      BelowCursorIsTaken(f, free, offered, i, w.offset);
    }
  }

  /** What first fit hands out next is the lowest stretch that fits. */
  lemma {:induction false} FirstRoomIsLowest(f: Fitted, free: seq<Region>, offered: Offer, size: nat, i: nat)
    requires Underway(f, free, offered) && size > 0 && FirstRoom(free, f.cursor, size, 0) == Some(i)
    ensures Lowest(offered, f.spots, Spot(free[i].bank, f.cursor[i], size))
  {
    var w := Spot(free[i].bank, f.cursor[i], size);
    forall x: nat | w.offset <= x < w.offset + w.size
      ensures offered(w.bank, x) && !HandedOut(f.spots, w.bank, x)
    {
      PastCursorIsFree(f, free, offered, i, x);
    }
    forall v: Spot | v.size == w.size && Fits(offered, f.spots, v)
      ensures NoFurther(w.bank, w.offset, v.bank, v.offset)
    {
      var j := FitsPastCursor(f, free, offered, v);
      assert j >= i;
      assert i < j ==> Apart(free[i], free[j]);
    }
  }

  lemma {:induction false} NoRoomMeansNoFit(f: Fitted, free: seq<Region>, offered: Offer, w: Spot)
    requires Underway(f, free, offered) && w.size > 0 && FirstRoom(free, f.cursor, w.size, 0).None?
    ensures !Fits(offered, f.spots, w)
  {
    if Fits(offered, f.spots, w) {
      var j := FitsPastCursor(f, free, offered, w);
      assert false;
    }
  }

  lemma {:induction false} FirstIsFirstOffered(free: seq<Region>, offered: Offer)
    requires free != [] && OfferOf(free, offered) && Separated(free) && NoneEmpty(free)
    ensures FirstOffered(offered, free[0].bank, free[0].start)
  {
    assert free[0].Has(free[0].bank, free[0].start);
    forall c: nat, y: nat | offered(c, y)
      ensures NoFurther(free[0].bank, free[0].start, c, y)
    {
      var j :| 0 <= j < |free| && free[j].Has(c, y);
      assert 0 < j ==> Apart(free[0], free[j]);
    }
  }

  /** A request for no bytes is handed the first region's cursor. */
  lemma {:induction false} NothingGoesAfterFirst(f: Fitted, free: seq<Region>, offered: Offer)
    requires Underway(f, free, offered) && free != []
    ensures FirstRoom(free, f.cursor, 0, 0) == Some(0)
    ensures AfterFirst(offered, f.spots, Spot(free[0].bank, f.cursor[0], 0))
  {
    var (b, from, to) := (free[0].bank, free[0].start, f.cursor[0]);
    FirstIsFirstOffered(free, offered);
    forall y: nat | from <= y < to
      ensures offered(b, y) && HandedOut(f.spots, b, y)
    {
      BelowCursorIsTaken(f, free, offered, 0, y);
    }
    if to < free[0].end {
      PastCursorIsFree(f, free, offered, 0, to);
    } else {
      PastFirstEnd(free, offered);
    }
    assert TakenTo(offered, f.spots, b, from, to);
  }

  lemma {:induction false} PastFirstEnd(free: seq<Region>, offered: Offer)
    requires free != [] && OfferOf(free, offered) && Separated(free)
    ensures !offered(free[0].bank, free[0].end)
  {
    forall j | 0 <= j < |free|
      ensures !free[j].Has(free[0].bank, free[0].end)
    {
      assert 0 < j ==> Apart(free[0], free[j]);
    }
  }

  // ------------------------------------------------------------- the allocator

  lemma {:induction false} FitIsUnderway(requests: seq<Request>, free: seq<Region>, offered: Offer, n: nat)
    requires n <= |requests| && Fit(requests, free, n).Ok?
    requires OfferOf(free, offered) && Separated(free) && NoneEmpty(free)
    ensures Underway(Fit(requests, free, n).value, free, offered)
  {
    FitTiles(requests, free, n);
    CursorsStayInside(requests, free, n);
  }

  /** Every fit takes the next spot for each of its requests. */
  lemma {:induction false} FitIsInTurn(requests: seq<Request>, free: seq<Region>, offered: Offer, n: nat)
    requires n <= |requests| && Fit(requests, free, n).Ok? && free != []
    requires OfferOf(free, offered) && Separated(free) && NoneEmpty(free)
    ensures InTurn(requests, offered, Fit(requests, free, n).value.spots)
  {
    if n != 0 {
      var was := Fit(requests, free, n - 1).value;
      var size := requests[n - 1].size;
      var i := FirstRoom(free, was.cursor, size, 0).value;
      var w := Spot(free[i].bank, was.cursor[i], size);
      FitIsInTurn(requests, free, offered, n - 1);
      FitIsUnderway(requests, free, offered, n - 1);
      if size > 0 {
        FirstRoomIsLowest(was, free, offered, size, i);
      } else {
        NothingGoesAfterFirst(was, free, offered);
      }
      TurnsExtend(requests, offered, was.spots, w);
    }
  }

  lemma {:induction false} TurnsExtend(requests: seq<Request>, offered: Offer, spots: seq<Spot>, w: Spot)
    requires |spots| < |requests| && InTurn(requests, offered, spots)
    requires w.size == requests[|spots|].size && Next(offered, spots, w)
    ensures InTurn(requests, offered, spots + [w])
  {
    var next := spots + [w];
    forall k: nat | k < |next|
      ensures NextFor(requests, offered, next, k)
    {
      if k < |spots| {
        assert NextFor(requests, offered, spots, k) && next[..k] == spots[..k];
      } else {
        assert next[..k] == spots;
      }
    }
  }

  /** A refusal names the first request that has bytes and no stretch to fit in. */
  lemma {:induction false} RefusalIsNoFit(requests: seq<Request>, free: seq<Region>, offered: Offer, n: nat)
    returns (k: nat, spots: seq<Spot>)
    requires n <= |requests| && Fit(requests, free, n).Err? && free != []
    requires OfferOf(free, offered) && Separated(free) && NoneEmpty(free)
    ensures k < n && |spots| == k && InTurn(requests, offered, spots)
    ensures requests[k].size > 0 && forall w: Spot :: w.size == requests[k].size ==> !Fits(offered, spots, w)
    ensures Fit(requests, free, n) == Err(NoRoom(requests[k].key, requests[k].size))
  {
    if Fit(requests, free, n - 1).Err? {
      k, spots := RefusalIsNoFit(requests, free, offered, n - 1);
    } else {
      var was := Fit(requests, free, n - 1).value;
      k, spots := n - 1, was.spots;
      FitIsInTurn(requests, free, offered, k);
      FitIsUnderway(requests, free, offered, k);
      if requests[k].size == 0 {
        NothingGoesAfterFirst(was, free, offered);
      }
      forall w: Spot | w.size == requests[k].size
        ensures !Fits(offered, spots, w)
      {
        NoRoomMeansNoFit(was, free, offered, w);
      }
    }
  }

  /** Nothing stands in the way of any request: something is on offer, and all of them can be served in turn. */
  ghost predicate Serves(requests: seq<Request>, offered: Offer, spots: seq<Spot>) {
    && (exists b: nat, x: nat :: offered(b, x))
    && |spots| == |requests| && InTurn(requests, offered, spots)
  }

  lemma {:induction false} FreeListKeeps(regions: seq<Region>, offered: Offer)
    requires NoneEmpty(regions) && OfferOf(regions, offered)
    ensures var free := FreeList(regions);
            && OfferOf(free, offered) && Separated(free) && NoneEmpty(free)
            && (free != [] <==> exists b: nat, x: nat :: offered(b, x))
  {
    var free := FreeList(regions);
    forall b: nat, x: nat
      ensures Separated(free) && (offered(b, x) <==> Covers(free, b, x))
    {
      FreeListIsOffered(regions, b, x);
    }
    var sorted := SortedRegions(regions);
    forall i | 0 <= i < |sorted|
      ensures sorted[i].start < sorted[i].end
    {
      assert sorted[i] in regions;
    }
    MergeKeepsNonEmpty(sorted);
    MergeIsUnion(regions, 0, 0);
    SortOfSorted(Merged(regions));
    if free != [] {
      FirstIsFirstOffered(free, offered);
    }
  }

  /** The allocator's spots are the ones every request takes in turn. */
  lemma {:induction false} FittingServes(requests: seq<Request>, regions: seq<Region>, offered: Offer)
    requires NoneEmpty(regions) && OfferOf(regions, offered) && Fitting(requests, regions).Ok?
    ensures Serves(requests, offered, Fitting(requests, regions).value.spots)
  {
    FreeListKeeps(regions, offered);
    FitIsInTurn(requests, FreeList(regions), offered, |requests|);
  }

  /**
   * The allocator succeeds exactly when something is on offer and every request
   * can be served in turn, and then those are its spots.
   */
  lemma {:induction false} FittingIffServed(requests: seq<Request>, regions: seq<Region>, offered: Offer)
    requires NoneEmpty(regions) && OfferOf(regions, offered)
    ensures Fitting(requests, regions).Ok? <==> exists spots :: Serves(requests, offered, spots)
    ensures forall spots :: Serves(requests, offered, spots) ==>
              Fitting(requests, regions).Ok? && Fitting(requests, regions).value.spots == spots
  {
    FreeListKeeps(regions, offered);
    if Fitting(requests, regions).Ok? {
      FittingServes(requests, regions, offered);
    }
    forall spots | Serves(requests, offered, spots)
      ensures Fitting(requests, regions).Ok? && Fitting(requests, regions).value.spots == spots
    {
      ServedIsFitted(requests, regions, offered, spots);
    }
  }

  /** Where all can be served, the next request has a stretch to fit in after any served so far. */
  lemma {:induction false} ServedFitsAt(requests: seq<Request>, offered: Offer, spots: seq<Spot>, before: seq<Spot>)
    requires Serves(requests, offered, spots) && InTurn(requests, offered, before)
    requires |before| < |requests| && requests[|before|].size > 0
    ensures exists w: Spot :: w.size == requests[|before|].size && Fits(offered, before, w)
  {
    var k := |before|;
    InTurnIsUnique(requests, offered, spots, before, k);
    assert before[..k] == before && NextFor(requests, offered, spots, k);
    assert Fits(offered, before, spots[k]);
  }

  lemma {:induction false} ServedIsFitted(requests: seq<Request>, regions: seq<Region>, offered: Offer,
                                          spots: seq<Spot>)
    requires NoneEmpty(regions) && OfferOf(regions, offered) && Serves(requests, offered, spots)
    ensures Fitting(requests, regions).Ok? && Fitting(requests, regions).value.spots == spots
  {
    if Fitting(requests, regions).Err? {
      RefusedIsNotServed(requests, regions, offered, spots);
      assert false;
    } else {
      FittingServes(requests, regions, offered);
      ServedAlike(requests, offered, spots, Fitting(requests, regions).value.spots);
    }
  }

  lemma {:induction false} RefusedIsNotServed(requests: seq<Request>, regions: seq<Region>, offered: Offer,
                                              spots: seq<Spot>)
    requires NoneEmpty(regions) && OfferOf(regions, offered) && Fitting(requests, regions).Err?
    ensures !Serves(requests, offered, spots)
  {
    FreeListKeeps(regions, offered);
    if Serves(requests, offered, spots) {
      var k, before := RefusalIsNoFit(requests, FreeList(regions), offered, |requests|);
      ServedFitsAt(requests, offered, spots, before);
      assert false;
    }
  }

  lemma {:induction false} ServedAlike(requests: seq<Request>, offered: Offer, s: seq<Spot>, t: seq<Spot>)
    requires Serves(requests, offered, s) && Serves(requests, offered, t)
    ensures s == t
  {
    InTurnIsUnique(requests, offered, s, t, |requests|);
    assert s[..|requests|] == s && t[..|requests|] == t;
  }

  /** Refusals: nothing on offer, or else the first request with bytes and no stretch to fit in. */
  lemma {:induction false} RefusalNames(requests: seq<Request>, regions: seq<Region>, offered: Offer)
    returns (k: nat, spots: seq<Spot>)
    requires NoneEmpty(regions) && OfferOf(regions, offered) && Fitting(requests, regions).Err?
    ensures Fitting(requests, regions).error == NoRegions <==> !exists b: nat, x: nat :: offered(b, x)
    ensures Fitting(requests, regions).error != NoRegions ==>
              && k < |requests| && |spots| == k && InTurn(requests, offered, spots)
              && requests[k].size > 0 && (forall w: Spot :: w.size == requests[k].size ==> !Fits(offered, spots, w))
              && Fitting(requests, regions).error == NoRoom(requests[k].key, requests[k].size)
  {
    FreeListKeeps(regions, offered);
    k, spots := 0, [];
    if FreeList(regions) != [] {
      k, spots := RefusalIsNoFit(requests, FreeList(regions), offered, |requests|);
    }
  }
}
