/** Placing decoded streams into free regions, first fit. */
module FirstFit {
  import opened Types
  import opened Bits
  import opened Regions

  datatype Request = Request(key: nat, size: nat)

  datatype AllocationError = NoRegions | NoRoom(key: nat, size: nat)

  /** A run of one bank that has been handed out. */
  datatype Spot = Spot(bank: nat, offset: nat, size: nat) {
    predicate Has(b: nat, x: nat) {
      bank == b && offset <= x < offset + size
    }

    /** `bank << 16 | offset`: the offset may stand one past the bank's end. */
    function Address(): nat {
      Or(bank * Power2(16), offset)
    }
  }

  lemma {:induction false} SixteenBits()
    ensures Power2(16) == 0x10000
  {
    assert Power2(8) == 0x100;
  }

  /** Inside its bank, a spot's address is the bank's start plus the offset. */
  lemma {:induction false} AddressInBank(spot: Spot)
    requires spot.offset < 0x10000
    ensures spot.Address() == spot.bank * 0x10000 + spot.offset
  {
    SixteenBits();
    OrAdds(spot.bank, spot.offset, 16);
  }

  /** One past the end of an odd bank, the carry is lost; of an even bank, it is the next bank's start. */
  lemma {:induction false} AddressAtBankEnd(spot: Spot)
    requires spot.offset == 0x10000
    ensures spot.Address() == (if spot.bank % 2 == 1 then spot.bank else spot.bank + 1) * 0x10000
  {
    SixteenBits();
    OrShifts(spot.bank, 1, 16);
    OrOne(spot.bank);
  }

  /** The spots handed out so far, and each region's next unused offset. */
  datatype Fitted = Fitted(spots: seq<Spot>, cursor: seq<nat>)

  /** The lowest-numbered region, from `i` on, whose tail still holds `size` bytes. */
  function FirstRoom(free: seq<Region>, cursor: seq<nat>, size: nat, i: nat): (r: Option<nat>)
    requires |cursor| == |free| && i <= |free|
    ensures r.Some? ==> i <= r.value < |free| && free[r.value].end - cursor[r.value] >= size
    ensures forall j :: i <= j < (if r.Some? then r.value else |free|) ==> free[j].end - cursor[j] < size
    decreases |free| - i
  {
    if i == |free| then None
    else if free[i].end - cursor[i] >= size then Some(i)
    else FirstRoom(free, cursor, size, i + 1)
  }

  function Starts(free: seq<Region>): (r: seq<nat>)
    ensures |r| == |free| && forall i :: 0 <= i < |free| ==> r[i] == free[i].start
  {
    seq(|free|, i requires 0 <= i < |free| => free[i].start)
  }

  /** The first `n` requests in turn, or the first one that does not fit. */
  function Fit(requests: seq<Request>, free: seq<Region>, n: nat): (r: Result<Fitted, AllocationError>)
    requires n <= |requests|
    ensures r.Ok? ==> |r.value.spots| == n && |r.value.cursor| == |free|
  {
    if n == 0 then Ok(Fitted([], Starts(free)))
    else
      match Fit(requests, free, n - 1)
      case Err(e) => Err(e)
      case Ok(f) =>
        var q := requests[n - 1];
        match FirstRoom(free, f.cursor, q.size, 0)
        case None => Err(NoRoom(q.key, q.size))
        case Some(i) =>
          Ok(Advanced(f, free, i, q.size))
  }

  /** Region `i` hands out its next `size` bytes. */
  function Advanced(f: Fitted, free: seq<Region>, i: nat, size: nat): Fitted
    requires i < |free| == |f.cursor|
  {
    Fitted(f.spots + [Spot(free[i].bank, f.cursor[i], size)], f.cursor[i := f.cursor[i] + size])
  }

  /** The dictionary of addresses; a repeated key keeps the last one. */
  function Addresses(requests: seq<Request>, spots: seq<Spot>): map<nat, nat>
    requires |spots| <= |requests|
  {
    if spots == [] then map[]
    else
      var n := |spots| - 1;
      Addresses(requests, spots[..n])[requests[n].key := spots[n].Address()]
  }

  function FreeList(regions: seq<Region>): seq<Region> {
    SortedRegions(Merged(regions))
  }

  function Fitting(requests: seq<Request>, regions: seq<Region>): (r: Result<Fitted, AllocationError>)
    ensures r.Ok? ==> |r.value.spots| == |requests|
  {
    if FreeList(regions) == [] then Err(NoRegions)
    else Fit(requests, FreeList(regions), |requests|)
  }

  /** The answer as the caller sees it: a dictionary, or the first refusal. */
  function Destinations(requests: seq<Request>, regions: seq<Region>): Result<map<nat, nat>, AllocationError> {
    match Fitting(requests, regions)
    case Err(e) => Err(e)
    case Ok(f) => Ok(Addresses(requests, f.spots))
  }

  method Allocate(requests: seq<Request>, regions: seq<Region>)
    returns (r: Result<map<nat, nat>, AllocationError>)
    ensures r == Destinations(requests, regions)
  {
    var merged := Merge(regions);
    var free := SortedRegions(merged);
    if free == [] {
      return Err(NoRegions);
    }
    var placed: map<nat, nat> := map[];
    var cursor: seq<nat> := Starts(free);
    ghost var spots: seq<Spot> := [];
    for n := 0 to |requests|
      invariant Handed(requests, free, n, spots, cursor, placed)
    {
      var found := FirstRoom(free, cursor, requests[n].size, 0);
      if found.None? {
        FitStops(requests, free, n, |requests|);
        return Err(NoRoom(requests[n].key, requests[n].size));
      }
      var i := found.value;
      ghost var spot := Spot(free[i].bank, cursor[i], requests[n].size);
      HandsNext(requests, free, n, spots, cursor, placed, i);
      placed := placed[requests[n].key := Or(free[i].bank * Power2(16), cursor[i])];
      spots := spots + [spot];
      cursor := cursor[i := cursor[i] + requests[n].size];
    }
    return Ok(placed);
  }

  /** What the loop holds after `n` requests. */
  ghost predicate Handed(requests: seq<Request>, free: seq<Region>, n: nat, spots: seq<Spot>, cursor: seq<nat>,
                         placed: map<nat, nat>)
  {
    && n <= |requests| && |spots| == n && |cursor| == |free|
    && Fit(requests, free, n) == Ok(Fitted(spots, cursor)) && placed == Addresses(requests, spots)
  }

  lemma {:induction false} HandsNext(requests: seq<Request>, free: seq<Region>, n: nat, spots: seq<Spot>,
                                     cursor: seq<nat>, placed: map<nat, nat>, i: nat)
    requires n < |requests| && Handed(requests, free, n, spots, cursor, placed)
    requires FirstRoom(free, cursor, requests[n].size, 0) == Some(i) && i < |free|
    ensures var spot := Spot(free[i].bank, cursor[i], requests[n].size);
            Handed(requests, free, n + 1, spots + [spot], cursor[i := cursor[i] + requests[n].size],
                   placed[requests[n].key := spot.Address()])
  {
    FitNext(requests, free, n, spots, cursor, i);
  }

  lemma {:induction false} FitStops(requests: seq<Request>, free: seq<Region>, i: nat, n: nat)
    requires i < n <= |requests|
    requires Fit(requests, free, i).Ok? && Fit(requests, free, i + 1).Err?
    ensures Fit(requests, free, n) == Fit(requests, free, i + 1)
  {
    if n > i + 1 {
      FitStops(requests, free, i, n - 1);
    }
  }

  /** A request with room extends the fit and the dictionary by its own spot. */
  lemma {:induction false} FitNext(requests: seq<Request>, free: seq<Region>, n: nat, spots: seq<Spot>,
                                   cursor: seq<nat>, i: nat)
    requires n < |requests| && |cursor| == |free| && |spots| == n
    requires Fit(requests, free, n) == Ok(Fitted(spots, cursor))
    requires FirstRoom(free, cursor, requests[n].size, 0) == Some(i) && i < |free|
    ensures var spot := Spot(free[i].bank, cursor[i], requests[n].size);
            && Fit(requests, free, n + 1) == Ok(Fitted(spots + [spot], cursor[i := cursor[i] + requests[n].size]))
            && Addresses(requests, spots + [spot]) == Addresses(requests, spots)[requests[n].key := spot.Address()]
  {
    var spot := Spot(free[i].bank, cursor[i], requests[n].size);
    assert (spots + [spot])[..n] == spots;
  }

  /** With distinct keys, the dictionary gives every request its own spot. */
  lemma {:induction false} AddressOf(requests: seq<Request>, spots: seq<Spot>, k: nat)
    requires k < |spots| <= |requests|
    requires forall i, j :: 0 <= i < j < |requests| ==> requests[i].key != requests[j].key
    ensures requests[k].key in Addresses(requests, spots)
    ensures Addresses(requests, spots)[requests[k].key] == spots[k].Address()
  {
    if k < |spots| - 1 {
      AddressOf(requests, spots[..|spots| - 1], k);
    }
  }

  // --------------------------------------------------------------- invariants

  ghost predicate HandedOut(spots: seq<Spot>, b: nat, x: nat) {
    exists k :: 0 <= k < |spots| && spots[k].Has(b, x)
  }

  /** Region `i` is handed out from its start up to its cursor, without holes. */
  ghost predicate Tiled(f: Fitted, free: seq<Region>)
    requires |f.cursor| == |free|
  {
    && (forall i :: 0 <= i < |free| ==> free[i].start <= f.cursor[i])
    && (forall i :: 0 <= i < |free| ==> TiledTo(f.spots, free[i], f.cursor[i]))
  }

  ghost predicate TiledTo(spots: seq<Spot>, region: Region, cursor: nat) {
    forall x: nat :: region.start <= x < cursor ==> HandedOut(spots, region.bank, x)
  }

  /** The spot lies in region `i`, below its cursor. */
  ghost predicate Inside(spot: Spot, f: Fitted, free: seq<Region>, i: nat)
    requires |free| == |f.cursor|
  {
    && i < |free|
    && spot.bank == free[i].bank
    && free[i].start <= spot.offset
    && spot.offset + spot.size <= f.cursor[i]
    && spot.offset + spot.size <= free[i].end
  }

  ghost predicate InsideSome(spot: Spot, f: Fitted, free: seq<Region>)
    requires |free| == |f.cursor|
  {
    exists i: nat :: Inside(spot, f, free, i)
  }

  ghost predicate AllInside(f: Fitted, free: seq<Region>)
    requires |f.cursor| == |free|
  {
    forall k :: 0 <= k < |f.spots| ==> InsideSome(f.spots[k], f, free)
  }

  predicate Clear(s: Spot, t: Spot) {
    s.bank != t.bank || s.offset + s.size <= t.offset || t.offset + t.size <= s.offset
  }

  ghost predicate AllClear(spots: seq<Spot>) {
    forall j, k :: 0 <= j < k < |spots| ==> Clear(spots[j], spots[k])
  }

  lemma {:induction false} AdvanceTiles(f: Fitted, free: seq<Region>, i: nat, size: nat)
    requires i < |free| == |f.cursor| && Tiled(f, free)
    ensures Tiled(Advanced(f, free, i, size), free)
  {
    var g := Advanced(f, free, i, size);
    forall j | 0 <= j < |free|
      ensures TiledTo(g.spots, free[j], g.cursor[j])
    {
      forall x: nat | free[j].start <= x < g.cursor[j]
        ensures HandedOut(g.spots, free[j].bank, x)
      {
        if x < f.cursor[j] {
          assert TiledTo(f.spots, free[j], f.cursor[j]) && HandedOut(f.spots, free[j].bank, x);
          var k :| 0 <= k < |f.spots| && f.spots[k].Has(free[j].bank, x);
          assert g.spots[k].Has(free[j].bank, x);
        } else {
          assert g.spots[|f.spots|].Has(free[j].bank, x);
        }
      }
    }
  }

  lemma {:induction false} AdvanceStaysInside(f: Fitted, free: seq<Region>, i: nat, size: nat)
    requires i < |free| == |f.cursor| && AllInside(f, free)
    requires free[i].start <= f.cursor[i] && free[i].end - f.cursor[i] >= size
    ensures AllInside(Advanced(f, free, i, size), free)
  {
    var g := Advanced(f, free, i, size);
    forall k | 0 <= k < |g.spots|
      ensures InsideSome(g.spots[k], g, free)
    {
      if k < |f.spots| {
        assert InsideSome(f.spots[k], f, free);
        var j: nat :| Inside(f.spots[k], f, free, j);
        assert Inside(g.spots[k], g, free, j);
      } else {
        assert Inside(g.spots[k], g, free, i);
      }
    }
  }

  lemma {:induction false} AdvanceIsClear(f: Fitted, free: seq<Region>, i: nat, size: nat)
    requires i < |free| == |f.cursor| && AllInside(f, free) && AllClear(f.spots) && Separated(free)
    requires free[i].start <= f.cursor[i] && free[i].end - f.cursor[i] >= size
    ensures AllClear(Advanced(f, free, i, size).spots)
  {
    var g := Advanced(f, free, i, size);
    forall k | 0 <= k < |f.spots|
      ensures Clear(g.spots[k], g.spots[|f.spots|])
    {
      assert InsideSome(f.spots[k], f, free);
      var j: nat :| Inside(f.spots[k], f, free, j);
      assert j < i ==> Apart(free[j], free[i]);
      assert i < j ==> Apart(free[i], free[j]);
    }
  }

  lemma {:induction false} FitTiles(requests: seq<Request>, free: seq<Region>, n: nat)
    requires n <= |requests| && Fit(requests, free, n).Ok?
    ensures Tiled(Fit(requests, free, n).value, free)
    ensures AllInside(Fit(requests, free, n).value, free)
  {
    if n != 0 {
      FitTiles(requests, free, n - 1);
      var was := Fit(requests, free, n - 1).value;
      var i := FirstRoom(free, was.cursor, requests[n - 1].size, 0).value;
      AdvanceTiles(was, free, i, requests[n - 1].size);
      AdvanceStaysInside(was, free, i, requests[n - 1].size);
    }
  }

  lemma {:induction false} FitIsClear(requests: seq<Request>, free: seq<Region>, n: nat)
    requires n <= |requests| && Fit(requests, free, n).Ok? && Separated(free)
    ensures AllClear(Fit(requests, free, n).value.spots)
  {
    if n != 0 {
      FitIsClear(requests, free, n - 1);
      FitTiles(requests, free, n - 1);
      var was := Fit(requests, free, n - 1).value;
      var i := FirstRoom(free, was.cursor, requests[n - 1].size, 0).value;
      AdvanceIsClear(was, free, i, requests[n - 1].size);
    }
  }

  // ------------------------------------------------- what first fit means

  /** `size` bytes at `b:x` lie in one region and overlap no spot handed out so far. */
  ghost predicate FreeWindow(free: seq<Region>, spots: seq<Spot>, w: Spot) {
    && (exists i :: 0 <= i < |free| && free[i].bank == w.bank &&
          free[i].start <= w.offset && w.offset + w.size <= free[i].end)
    && forall k :: 0 <= k < |spots| ==> Clear(spots[k], w)
  }

  /** A non-empty free window can only start at or after its region's cursor. */
  lemma {:induction false} WindowPastCursor(f: Fitted, free: seq<Region>, w: Spot, i: nat)
    requires |f.cursor| == |free| && Tiled(f, free) && w.size > 0 && i < |free|
    requires free[i].bank == w.bank && free[i].start <= w.offset && w.offset + w.size <= free[i].end
    requires forall k :: 0 <= k < |f.spots| ==> Clear(f.spots[k], w)
    ensures f.cursor[i] <= w.offset
  {
    assert TiledTo(f.spots, free[i], f.cursor[i]);
    assert !HandedOut(f.spots, w.bank, w.offset) by {
      assert forall k :: 0 <= k < |f.spots| && f.spots[k].Has(w.bank, w.offset) ==> !Clear(f.spots[k], w);
    }
  }

  /**
   * First fit, said without cursors: each non-empty request gets the lowest free
   * window of its size, lowest bank first, and the allocator refuses exactly when
   * no region holds a free window that large.
   */
  lemma {:induction false} EachGetsTheLowestWindow(requests: seq<Request>, free: seq<Region>, n: nat, w: Spot)
    requires n < |requests| && Fit(requests, free, n).Ok? && Separated(free)
    requires w.size == requests[n].size > 0 && FreeWindow(free, Fit(requests, free, n).value.spots, w)
    ensures Fit(requests, free, n + 1).Ok?
    ensures var spot := Fit(requests, free, n + 1).value.spots[n];
            spot.bank < w.bank || (spot.bank == w.bank && spot.offset <= w.offset)
  {
    var f := Fit(requests, free, n).value;
    FitTiles(requests, free, n);
    var i :| 0 <= i < |free| && free[i].bank == w.bank &&
      free[i].start <= w.offset && w.offset + w.size <= free[i].end;
    WindowPastCursor(f, free, w, i);
    var chosen := FirstRoom(free, f.cursor, w.size, 0).value;
    assert chosen <= i;
    assert chosen < i ==> Apart(free[chosen], free[i]);
  }

  lemma {:induction false} CursorsStayInside(requests: seq<Request>, free: seq<Region>, n: nat)
    requires n <= |requests| && Fit(requests, free, n).Ok?
    requires forall i :: 0 <= i < |free| ==> free[i].start <= free[i].end
    ensures forall i :: 0 <= i < |free| ==> Fit(requests, free, n).value.cursor[i] <= free[i].end
  {
    if n != 0 {
      CursorsStayInside(requests, free, n - 1);
    }
  }

  /** A request for no bytes is always granted, where the first region's next byte would go. */
  lemma {:induction false} NoBytesGoFirst(requests: seq<Request>, free: seq<Region>, n: nat)
    requires n < |requests| && requests[n].size == 0 && Fit(requests, free, n).Ok? && free != []
    requires forall i :: 0 <= i < |free| ==> free[i].start <= free[i].end
    ensures Fit(requests, free, n + 1).Ok?
    ensures Fit(requests, free, n + 1).value.cursor == Fit(requests, free, n).value.cursor
    ensures Fit(requests, free, n + 1).value.spots[n] == Spot(free[0].bank, Fit(requests, free, n).value.cursor[0], 0)
  {
    CursorsStayInside(requests, free, n);
  }

  /** What a request is given is a free window at its turn. */
  lemma {:induction false} EachGetsAFreeWindow(requests: seq<Request>, free: seq<Region>, n: nat)
    requires n < |requests| && Fit(requests, free, n + 1).Ok? && Separated(free)
    ensures Fit(requests, free, n).Ok?
    ensures FreeWindow(free, Fit(requests, free, n).value.spots, Fit(requests, free, n + 1).value.spots[n])
  {
    var was, f := Fit(requests, free, n).value, Fit(requests, free, n + 1).value;
    FitIsClear(requests, free, n + 1);
    FitTiles(requests, free, n + 1);
    assert f.spots == was.spots + [f.spots[n]];
    assert InsideSome(f.spots[n], f, free);
    var i: nat :| Inside(f.spots[n], f, free, i);
    forall k | 0 <= k < n
      ensures Clear(was.spots[k], f.spots[n])
    {
      assert Clear(f.spots[k], f.spots[n]);
    }
  }

  function TotalSize(requests: seq<Request>, n: nat): nat
    requires n <= |requests|
  {
    if n == 0 then 0 else TotalSize(requests, n - 1) + requests[n - 1].size
  }

  function Sum(values: seq<nat>): nat {
    if values == [] then 0 else Sum(values[..|values| - 1]) + values[|values| - 1]
  }

  lemma {:induction false} SumUpdate(values: seq<nat>, i: nat, v: nat)
    requires i < |values|
    ensures Sum(values[i := v]) == Sum(values) - values[i] + v
  {
    var n := |values| - 1;
    if i == n {
      assert values[i := v][..n] == values[..n];
    } else {
      assert values[i := v][..n] == values[..n][i := v];
      SumUpdate(values[..n], i, v);
    }
  }

  lemma {:induction false} AdvanceAdds(f: Fitted, free: seq<Region>, i: nat, size: nat)
    requires i < |free| == |f.cursor|
    ensures Sum(Advanced(f, free, i, size).cursor) == Sum(f.cursor) + size
  {
    SumUpdate(f.cursor, i, f.cursor[i] + size);
  }

  /** Bytes handed out of the regions equal bytes requested. */
  lemma {:induction false} BytesAreConserved(requests: seq<Request>, free: seq<Region>, n: nat)
    requires n <= |requests| && Fit(requests, free, n).Ok?
    ensures Sum(Fit(requests, free, n).value.cursor) == Sum(Starts(free)) + TotalSize(requests, n)
  {
    if n != 0 {
      BytesAreConserved(requests, free, n - 1);
      var was := Fit(requests, free, n - 1).value;
      var i := FirstRoom(free, was.cursor, requests[n - 1].size, 0).value;
      AdvanceAdds(was, free, i, requests[n - 1].size);
    }
  }

  /** The free list covers exactly the offered addresses and is strictly separated. */
  lemma {:induction false} FreeListIsOffered(regions: seq<Region>, b: nat, x: nat)
    ensures Separated(FreeList(regions))
    ensures Covers(FreeList(regions), b, x) <==> Covers(regions, b, x)
  {
    MergeIsUnion(regions, b, x);
    SortOfSorted(Merged(regions));
  }

  /**
   * Whatever is offered, the placements are pairwise disjoint and every byte
   * handed out lies in an offered region.
   */
  lemma {:induction false} PlacementsAreDisjointAndOffered(requests: seq<Request>, regions: seq<Region>)
    requires Fitting(requests, regions).Ok?
    ensures AllClear(Fitting(requests, regions).value.spots)
    ensures forall k, b, x :: 0 <= k < |requests| && Fitting(requests, regions).value.spots[k].Has(b, x) ==>
              Covers(regions, b, x)
  {
    var free := FreeList(regions);
    var f := Fitting(requests, regions).value;
    FreeListIsOffered(regions, 0, 0);
    FitIsClear(requests, free, |requests|);
    FitTiles(requests, free, |requests|);
    forall k, b, x | 0 <= k < |requests| && f.spots[k].Has(b, x)
      ensures Covers(regions, b, x)
    {
      assert InsideSome(f.spots[k], f, free);
      var i: nat :| Inside(f.spots[k], f, free, i);
      assert free[i].Has(b, x);
      FreeListIsOffered(regions, b, x);
    }
  }
}
