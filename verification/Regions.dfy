/** Interval algebra over half-open runs of one bank each. */
module Regions {
  import Sorting

  datatype Region = Region(bank: nat, start: nat, end: nat) {
    predicate Has(b: nat, x: nat) {
      bank == b && start <= x < end
    }
  }

  ghost predicate Covers(regions: seq<Region>, b: nat, x: nat) {
    exists i :: 0 <= i < |regions| && regions[i].Has(b, x)
  }

  ghost predicate Disjoint(regions: seq<Region>) {
    forall i, j, b, x :: 0 <= i < j < |regions| && regions[i].Has(b, x) ==> !regions[j].Has(b, x)
  }

  lemma {:induction false} CoversConcat(r: seq<Region>, s: seq<Region>, b: nat, x: nat)
    ensures Covers(r + s, b, x) <==> Covers(r, b, x) || Covers(s, b, x)
  {
    if i :| 0 <= i < |r| && r[i].Has(b, x) {
      assert (r + s)[i].Has(b, x);
    }
    if i :| 0 <= i < |s| && s[i].Has(b, x) {
      assert (r + s)[|r| + i].Has(b, x);
    }
    if i :| 0 <= i < |r + s| && (r + s)[i].Has(b, x) {
      assert if i < |r| then r[i].Has(b, x) else s[i - |r|].Has(b, x);
    }
  }

  lemma {:induction false} CoversLast(regions: seq<Region>, b: nat, x: nat)
    requires regions != []
    ensures var n := |regions| - 1;
            Covers(regions, b, x) <==> Covers(regions[..n], b, x) || regions[n].Has(b, x)
  {
    var n := |regions| - 1;
    assert regions == regions[..n] + [regions[n]];
    CoversConcat(regions[..n], [regions[n]], b, x);
    assert [regions[n]][0] == regions[n];
  }

  // ------------------------------------------------------------- subtraction

  /** What a hole leaves of one piece: up to two pieces, in order. */
  function CutPiece(piece: Region, hole: Region): seq<Region> {
    if hole.end <= piece.start || hole.start >= piece.end then [piece]
    else
      (if piece.start < hole.start then [piece.(end := hole.start)] else []) +
      (if hole.end < piece.end then [piece.(start := hole.end)] else [])
  }

  function Cut(pieces: seq<Region>, hole: Region): seq<Region> {
    if pieces == [] then []
    else
      var n := |pieces| - 1;
      Cut(pieces[..n], hole) + CutPiece(pieces[n], hole)
  }

  /** What the holes of its own bank leave of one region, empty pieces included. */
  function Remaining(region: Region, taken: seq<Region>): seq<Region> {
    if taken == [] then [region]
    else
      var n := |taken| - 1;
      var pieces := Remaining(region, taken[..n]);
      if taken[n].bank != region.bank then pieces else Cut(pieces, taken[n])
  }

  function NonEmpty(pieces: seq<Region>): (r: seq<Region>) {
    if pieces == [] then []
    else
      var n := |pieces| - 1;
      NonEmpty(pieces[..n]) + (if pieces[n].end > pieces[n].start then [pieces[n]] else [])
  }

  function Subtracted(regions: seq<Region>, taken: seq<Region>): seq<Region> {
    if regions == [] then []
    else
      var n := |regions| - 1;
      Subtracted(regions[..n], taken) + NonEmpty(Remaining(regions[n], taken))
  }

  method CutPieces(pieces: seq<Region>, hole: Region) returns (r: seq<Region>)
    ensures r == Cut(pieces, hole)
  {
    r := [];
    for i := 0 to |pieces|
      invariant r == Cut(pieces[..i], hole)
    {
      assert pieces[..i + 1][..i] == pieces[..i];
      var piece := pieces[i];
      if hole.end <= piece.start || hole.start >= piece.end {
        r := r + [piece];
        continue;
      }
      ghost var before := r;
      if piece.start < hole.start {
        r := r + [piece.(end := hole.start)];
      }
      if hole.end < piece.end {
        r := r + [piece.(start := hole.end)];
      }
      assert r == before + CutPiece(piece, hole);
    }
    assert pieces[..|pieces|] == pieces;
  }

  method Subtract(regions: seq<Region>, taken: seq<Region>) returns (out: seq<Region>)
    ensures out == Subtracted(regions, taken)
  {
    out := [];
    for i := 0 to |regions|
      invariant out == Subtracted(regions[..i], taken)
    {
      assert regions[..i + 1][..i] == regions[..i];
      var pieces := [regions[i]];
      for j := 0 to |taken|
        invariant pieces == Remaining(regions[i], taken[..j])
      {
        assert taken[..j + 1][..j] == taken[..j];
        if taken[j].bank != regions[i].bank {
          continue;
        }
        pieces := CutPieces(pieces, taken[j]);
      }
      assert taken[..|taken|] == taken;
      ghost var before := out;
      for k := 0 to |pieces|
        invariant out == before + NonEmpty(pieces[..k])
      {
        assert pieces[..k + 1][..k] == pieces[..k];
        if pieces[k].end > pieces[k].start {
          out := out + [pieces[k]];
        }
      }
      assert pieces[..|pieces|] == pieces;
    }
    assert regions[..|regions|] == regions;
  }

  lemma {:induction false} CutCovers(pieces: seq<Region>, hole: Region, b: nat, x: nat)
    requires forall i :: 0 <= i < |pieces| ==> pieces[i].bank == hole.bank
    ensures forall i :: 0 <= i < |Cut(pieces, hole)| ==> Cut(pieces, hole)[i].bank == hole.bank
    ensures Covers(Cut(pieces, hole), b, x) <==> Covers(pieces, b, x) && !hole.Has(b, x)
  {
    if pieces != [] {
      var n := |pieces| - 1;
      CutCovers(pieces[..n], hole, b, x);
      CoversConcat(Cut(pieces[..n], hole), CutPiece(pieces[n], hole), b, x);
      CoversLast(pieces, b, x);
      CutPieceCovers(pieces[n], hole, b, x);
    }
  }

  lemma {:induction false} CutPieceCovers(piece: Region, hole: Region, b: nat, x: nat)
    requires piece.bank == hole.bank
    ensures Covers(CutPiece(piece, hole), b, x) <==> piece.Has(b, x) && !hole.Has(b, x)
  {
    var cut := CutPiece(piece, hole);
    if piece.Has(b, x) && !hole.Has(b, x) {
      assert cut[0].Has(b, x) || (|cut| == 2 && cut[1].Has(b, x));
    }
  }

  lemma {:induction false} RemainingCovers(region: Region, taken: seq<Region>, b: nat, x: nat)
    ensures forall i :: 0 <= i < |Remaining(region, taken)| ==> Remaining(region, taken)[i].bank == region.bank
    ensures Covers(Remaining(region, taken), b, x) <==> region.Has(b, x) && !Covers(taken, b, x)
  {
    if taken == [] {
      assert [region][0] == region;
    } else {
      var n := |taken| - 1;
      RemainingCovers(region, taken[..n], b, x);
      CoversLast(taken, b, x);
      if taken[n].bank == region.bank {
        CutCovers(Remaining(region, taken[..n]), taken[n], b, x);
      }
    }
  }

  lemma {:induction false} NonEmptyCovers(pieces: seq<Region>, b: nat, x: nat)
    ensures Covers(NonEmpty(pieces), b, x) <==> Covers(pieces, b, x)
    ensures forall i :: 0 <= i < |NonEmpty(pieces)| ==> NonEmpty(pieces)[i] in pieces
    ensures forall i :: 0 <= i < |NonEmpty(pieces)| ==> NonEmpty(pieces)[i].start < NonEmpty(pieces)[i].end
  {
    if pieces != [] {
      var n := |pieces| - 1;
      NonEmptyCovers(pieces[..n], b, x);
      assert pieces == pieces[..n] + [pieces[n]];
      CoversConcat(pieces[..n], [pieces[n]], b, x);
      assert [pieces[n]][0] == pieces[n];
      CoversConcat(NonEmpty(pieces[..n]), [pieces[n]], b, x);
      assert NonEmpty(pieces[..n]) + [] == NonEmpty(pieces[..n]);
    }
  }

  /** Subtraction is exact set difference, address by address. */
  lemma {:induction false} SubtractIsDifference(regions: seq<Region>, taken: seq<Region>, b: nat, x: nat)
    ensures Covers(Subtracted(regions, taken), b, x) <==> Covers(regions, b, x) && !Covers(taken, b, x)
  {
    if regions != [] {
      var n := |regions| - 1;
      SubtractIsDifference(regions[..n], taken, b, x);
      CoversLast(regions, b, x);
      var rest := NonEmpty(Remaining(regions[n], taken));
      RemainingCovers(regions[n], taken, b, x);
      NonEmptyCovers(Remaining(regions[n], taken), b, x);
      CoversConcat(Subtracted(regions[..n], taken), rest, b, x);
    }
  }

  /** In a disjoint list what the last piece has the others do not. */
  lemma {:induction false} FrontMisses(pieces: seq<Region>, b: nat, x: nat)
    requires Disjoint(pieces) && pieces != [] && pieces[|pieces| - 1].Has(b, x)
    ensures !Covers(pieces[..|pieces| - 1], b, x)
  {
    var front := pieces[..|pieces| - 1];
    forall i | 0 <= i < |front|
      ensures !front[i].Has(b, x)
    {
      assert front[i] == pieces[i];
    }
  }

  lemma {:induction false} CutKeepsDisjoint(pieces: seq<Region>, hole: Region)
    requires Disjoint(pieces) && hole.start <= hole.end
    requires forall i :: 0 <= i < |pieces| ==> pieces[i].bank == hole.bank
    ensures Disjoint(Cut(pieces, hole))
  {
    if pieces != [] {
      var n := |pieces| - 1;
      CutKeepsDisjoint(pieces[..n], hole);
      forall b, x | Covers(CutPiece(pieces[n], hole), b, x)
        ensures !Covers(Cut(pieces[..n], hole), b, x)
      {
        CutPieceCovers(pieces[n], hole, b, x);
        CutCovers(pieces[..n], hole, b, x);
        FrontMisses(pieces, b, x);
      }
      JoinDisjoint(Cut(pieces[..n], hole), CutPiece(pieces[n], hole));
    }
  }

  lemma {:induction false} JoinDisjoint(r: seq<Region>, s: seq<Region>)
    requires Disjoint(r) && Disjoint(s)
    requires forall b, x :: Covers(s, b, x) ==> !Covers(r, b, x)
    ensures Disjoint(r + s)
  {
    var t := r + s;
    forall i, j, b, x | 0 <= i < j < |t| && t[i].Has(b, x)
      ensures !t[j].Has(b, x)
    {
      if j < |r| {
        assert r[i].Has(b, x);
      } else if i >= |r| {
        assert s[i - |r|].Has(b, x);
      } else if s[j - |r|].Has(b, x) {
        assert Covers(s, b, x) && Covers(r, b, x);
      }
    }
  }

  lemma {:induction false} RemainingDisjoint(region: Region, taken: seq<Region>)
    requires forall i :: 0 <= i < |taken| ==> taken[i].start <= taken[i].end
    ensures Disjoint(NonEmpty(Remaining(region, taken)))
  {
    if taken != [] {
      var n := |taken| - 1;
      RemainingDisjoint(region, taken[..n]);
      NonEmptyDisjoint(Remaining(region, taken[..n]));
      if taken[n].bank == region.bank {
        RemainingCovers(region, taken[..n], 0, 0);
        CutKeepsDisjoint(Remaining(region, taken[..n]), taken[n]);
      }
    }
    NonEmptyDisjoint(Remaining(region, taken));
  }

  /** Dropping empty pieces neither makes nor breaks an overlap. */
  lemma {:induction false} NonEmptyDisjoint(pieces: seq<Region>)
    ensures Disjoint(NonEmpty(pieces)) <==> Disjoint(pieces)
  {
    if pieces != [] {
      var n := |pieces| - 1;
      var front, last := pieces[..n], pieces[n];
      assert pieces == front + [last];
      NonEmptyDisjoint(front);
      if Disjoint(pieces) {
        assert Disjoint(front);
        forall b, x | Covers([last], b, x)
          ensures !Covers(NonEmpty(front), b, x)
        {
          NonEmptyCovers(front, b, x);
        }
        JoinDisjoint(NonEmpty(front), [last]);
        assert NonEmpty(front) + [] == NonEmpty(front);
      }
      if Disjoint(NonEmpty(pieces)) {
        var kept := NonEmpty(pieces);
        if last.end > last.start {
          assert kept == NonEmpty(front) + [last];
          assert forall i :: 0 <= i < |NonEmpty(front)| ==> kept[i] == NonEmpty(front)[i];
          assert Disjoint(NonEmpty(front));
          forall b, x | Covers([last], b, x)
            ensures !Covers(front, b, x)
          {
            NonEmptyCovers(front, b, x);
            assert kept[|kept| - 1].Has(b, x);
          }
        } else {
          assert kept == NonEmpty(front);
        }
        JoinDisjoint(front, [last]);
      }
    }
  }

  /** Subtracting well-formed holes from disjoint regions leaves disjoint regions. */
  lemma {:induction false} SubtractKeepsDisjoint(regions: seq<Region>, taken: seq<Region>)
    requires Disjoint(regions)
    requires forall i :: 0 <= i < |taken| ==> taken[i].start <= taken[i].end
    ensures Disjoint(Subtracted(regions, taken))
  {
    if regions != [] {
      var n := |regions| - 1;
      var rest := NonEmpty(Remaining(regions[n], taken));
      SubtractKeepsDisjoint(regions[..n], taken);
      RemainingDisjoint(regions[n], taken);
      forall b, x | Covers(rest, b, x)
        ensures !Covers(Subtracted(regions[..n], taken), b, x)
      {
        NonEmptyCovers(Remaining(regions[n], taken), b, x);
        RemainingCovers(regions[n], taken, b, x);
        SubtractIsDifference(regions[..n], taken, b, x);
      }
      JoinDisjoint(Subtracted(regions[..n], taken), rest);
    }
  }

  /** All of the one before any of the other. */
  ghost predicate Ahead(r: Region, s: Region) {
    r.bank < s.bank || (r.bank == s.bank && r.end <= s.start)
  }

  ghost predicate InOrder(regions: seq<Region>) {
    forall i, j :: 0 <= i < j < |regions| ==> Ahead(regions[i], regions[j])
  }

  ghost predicate Within(p: Region, r: Region) {
    p.bank == r.bank && r.start <= p.start && p.end <= r.end
  }

  ghost predicate WithinSome(pieces: seq<Region>, p: Region) {
    exists i :: 0 <= i < |pieces| && Within(p, pieces[i])
  }

  ghost predicate AllWithin(pieces: seq<Region>, of: seq<Region>) {
    forall i :: 0 <= i < |pieces| ==> WithinSome(of, pieces[i])
  }

  /** What comes of the pieces before the last stays ahead of what comes of the last. */
  lemma {:induction false} OrderJoins(pieces: seq<Region>, r: seq<Region>, s: seq<Region>)
    requires InOrder(pieces) && pieces != [] && InOrder(r) && InOrder(s)
    requires AllWithin(r, pieces[..|pieces| - 1]) && forall i :: 0 <= i < |s| ==> Within(s[i], pieces[|pieces| - 1])
    ensures InOrder(r + s) && AllWithin(r + s, pieces)
  {
    forall i | 0 <= i < |r|
      ensures WithinSome(pieces, r[i])
      ensures forall j :: 0 <= j < |s| ==> Ahead(r[i], s[j])
    {
      var k :| 0 <= k < |pieces| - 1 && Within(r[i], pieces[..|pieces| - 1][k]);
      assert Within(r[i], pieces[k]) && Ahead(pieces[k], pieces[|pieces| - 1]);
    }
    forall i | 0 <= i < |s|
      ensures WithinSome(pieces, s[i])
    {
      assert Within(s[i], pieces[|pieces| - 1]);
    }
  }

  lemma {:induction false} CutKeepsOrder(pieces: seq<Region>, hole: Region)
    requires InOrder(pieces) && hole.start <= hole.end
    ensures InOrder(Cut(pieces, hole)) && AllWithin(Cut(pieces, hole), pieces)
  {
    if pieces != [] {
      var n := |pieces| - 1;
      CutKeepsOrder(pieces[..n], hole);
      OrderJoins(pieces, Cut(pieces[..n], hole), CutPiece(pieces[n], hole));
    }
  }

  lemma {:induction false} RemainingInOrder(region: Region, taken: seq<Region>)
    requires forall i :: 0 <= i < |taken| ==> taken[i].start <= taken[i].end
    ensures InOrder(Remaining(region, taken))
    ensures forall i :: 0 <= i < |Remaining(region, taken)| ==> Within(Remaining(region, taken)[i], region)
  {
    if taken != [] {
      var n := |taken| - 1;
      RemainingInOrder(region, taken[..n]);
      if taken[n].bank == region.bank {
        CutKeepsOrder(Remaining(region, taken[..n]), taken[n]);
      }
    }
  }

  lemma {:induction false} NonEmptyKeepsOrder(pieces: seq<Region>)
    requires InOrder(pieces)
    ensures InOrder(NonEmpty(pieces)) && NoneEmpty(NonEmpty(pieces)) && AllWithin(NonEmpty(pieces), pieces)
  {
    if pieces != [] {
      var n := |pieces| - 1;
      NonEmptyKeepsOrder(pieces[..n]);
      OrderJoins(pieces, NonEmpty(pieces[..n]), if pieces[n].end > pieces[n].start then [pieces[n]] else []);
    }
  }

  /** What is left of regions in order is in order, and none of it is empty. */
  lemma {:induction false} SubtractKeepsOrder(regions: seq<Region>, taken: seq<Region>)
    requires InOrder(regions) && forall i :: 0 <= i < |taken| ==> taken[i].start <= taken[i].end
    ensures InOrder(Subtracted(regions, taken)) && NoneEmpty(Subtracted(regions, taken))
    ensures AllWithin(Subtracted(regions, taken), regions)
  {
    if regions != [] {
      var n := |regions| - 1;
      SubtractKeepsOrder(regions[..n], taken);
      RemainingInOrder(regions[n], taken);
      NonEmptyKeepsOrder(Remaining(regions[n], taken));
      forall i | 0 <= i < |NonEmpty(Remaining(regions[n], taken))|
        ensures Within(NonEmpty(Remaining(regions[n], taken))[i], regions[n])
      {
        assert WithinSome(Remaining(regions[n], taken), NonEmpty(Remaining(regions[n], taken))[i]);
      }
      OrderJoins(regions, Subtracted(regions[..n], taken), NonEmpty(Remaining(regions[n], taken)));
    }
  }

  // ------------------------------------------------------------------ merging

  predicate NoLater(r: Region, s: Region) {
    r.bank < s.bank || (r.bank == s.bank && r.start <= s.start)
  }

  ghost predicate Sorted(regions: seq<Region>) {
    forall i, j :: 0 <= i < j < |regions| ==> NoLater(regions[i], regions[j])
  }

  /** By bank and start, stably. */
  function SortedRegions(regions: seq<Region>): (s: seq<Region>)
    ensures |s| == |regions| && forall x :: x in s <==> x in regions
  {
    Sorting.SortedBy(NoLater, regions)
  }

  lemma {:induction false} SortSorts(regions: seq<Region>)
    ensures Sorted(SortedRegions(regions))
  {
    Sorting.SortSorts(NoLater, regions);
  }

  lemma {:induction false} SortOfSorted(regions: seq<Region>)
    requires Sorted(regions)
    ensures SortedRegions(regions) == regions
  {
    Sorting.SortOfSorted(NoLater, regions);
  }

  /** Joins the next region onto the last one when they touch or overlap. */
  function Joined(merged: seq<Region>, r: Region): seq<Region> {
    var n := |merged| - 1;
    if n >= 0 && merged[n].bank == r.bank && merged[n].end >= r.start then
      merged[..n] + [merged[n].(end := if merged[n].end < r.end then r.end else merged[n].end)]
    else merged + [r]
  }

  function MergedSorted(sorted: seq<Region>): seq<Region> {
    if sorted == [] then [] else Joined(MergedSorted(sorted[..|sorted| - 1]), sorted[|sorted| - 1])
  }

  function Merged(regions: seq<Region>): seq<Region> {
    MergedSorted(SortedRegions(regions))
  }

  /** Widening the last region in place is what joining means. */
  lemma {:induction false} WidenLast(merged: seq<Region>, r: Region, end: nat)
    requires merged != [] && merged[|merged| - 1].bank == r.bank && merged[|merged| - 1].end >= r.start
    requires end == if merged[|merged| - 1].end < r.end then r.end else merged[|merged| - 1].end
    ensures merged[|merged| - 1 := merged[|merged| - 1].(end := end)] == Joined(merged, r)
  {
  }

  lemma {:induction false} MergedNext(sorted: seq<Region>, i: nat)
    requires i < |sorted|
    ensures MergedSorted(sorted[..i + 1]) == Joined(MergedSorted(sorted[..i]), sorted[i])
  {
    assert sorted[..i + 1][..i] == sorted[..i];
  }

  method Merge(regions: seq<Region>) returns (merged: seq<Region>)
    ensures merged == Merged(regions)
  {
    var sorted := SortedRegions(regions);
    merged := [];
    for i := 0 to |sorted|
      invariant merged == MergedSorted(sorted[..i])
    {
      MergedNext(sorted, i);
      var region := sorted[i];
      if merged != [] && merged[|merged| - 1].bank == region.bank && merged[|merged| - 1].end >= region.start {
        var last := merged[|merged| - 1];
        var end := if last.end < region.end then region.end else last.end;
        WidenLast(merged, region, end);
        merged := merged[|merged| - 1 := Region(last.bank, last.start, end)];
      } else {
        merged := merged + [region];
      }
    }
    assert sorted[..|sorted|] == sorted;
  }

  /** In order, and with a gap between any two regions of one bank. */
  ghost predicate Separated(regions: seq<Region>) {
    forall i, j :: 0 <= i < j < |regions| ==> Apart(regions[i], regions[j])
  }

  /** A merged region is no wider than the regions it came from. */
  ghost predicate EndsWithin(regions: seq<Region>, limit: nat) {
    forall i :: 0 <= i < |regions| ==> regions[i].end <= limit
  }

  ghost predicate Apart(r: Region, s: Region) {
    r.bank < s.bank || (r.bank == s.bank && r.end < s.start && r.start <= s.start)
  }

  lemma {:induction false} JoinedSeparated(merged: seq<Region>, r: Region)
    requires Separated(merged) && (merged != [] ==> NoLater(merged[|merged| - 1], r))
    ensures Separated(Joined(merged, r))
    ensures NoLater(Joined(merged, r)[|Joined(merged, r)| - 1], r)
  {
    var n := |merged| - 1;
    var joined := Joined(merged, r);
    forall i, j | 0 <= i < j < |joined|
      ensures Apart(joined[i], joined[j])
    {
      if j <= n {
        assert Apart(merged[i], merged[j]);
      } else if i < n {
        assert Apart(merged[i], merged[n]);
      }
    }
  }

  lemma {:induction false} MergedSortedSeparated(sorted: seq<Region>)
    requires Sorted(sorted)
    ensures Separated(MergedSorted(sorted))
    ensures sorted != [] ==> MergedSorted(sorted) != []
    ensures sorted != [] ==> NoLater(MergedSorted(sorted)[|MergedSorted(sorted)| - 1], sorted[|sorted| - 1])
  {
    if sorted != [] {
      var n := |sorted| - 1;
      MergedSortedSeparated(sorted[..n]);
      if n > 0 {
        assert NoLater(sorted[n - 1], sorted[n]);
      }
      JoinedSeparated(MergedSorted(sorted[..n]), sorted[n]);
    }
  }

  /** Merging never reaches past the furthest end it was given. */
  lemma {:induction false} MergeKeepsEnds(sorted: seq<Region>, limit: nat)
    requires EndsWithin(sorted, limit)
    ensures EndsWithin(MergedSorted(sorted), limit)
  {
    if sorted != [] {
      MergeKeepsEnds(sorted[..|sorted| - 1], limit);
    }
  }

  ghost predicate NoneEmpty(regions: seq<Region>) {
    forall i :: 0 <= i < |regions| ==> regions[i].start < regions[i].end
  }

  lemma {:induction false} MergeKeepsNonEmpty(sorted: seq<Region>)
    requires NoneEmpty(sorted)
    ensures NoneEmpty(MergedSorted(sorted))
  {
    if sorted != [] {
      MergeKeepsNonEmpty(sorted[..|sorted| - 1]);
    }
  }

  lemma {:induction false} MergedSortedCovers(sorted: seq<Region>, b: nat, x: nat)
    requires Sorted(sorted)
    ensures Covers(MergedSorted(sorted), b, x) <==> Covers(sorted, b, x)
  {
    if sorted != [] {
      var n := |sorted| - 1;
      MergedSortedCovers(sorted[..n], b, x);
      MergedSortedSeparated(sorted[..n]);
      CoversLast(sorted, b, x);
      if n > 0 {
        assert NoLater(sorted[n - 1], sorted[n]);
      }
      JoinedCovers(MergedSorted(sorted[..n]), sorted[n], b, x);
    }
  }

  lemma {:induction false} JoinedCovers(merged: seq<Region>, r: Region, b: nat, x: nat)
    requires merged != [] ==> NoLater(merged[|merged| - 1], r)
    ensures Covers(Joined(merged, r), b, x) <==> Covers(merged, b, x) || r.Has(b, x)
  {
    var n := |merged| - 1;
    var joined := Joined(merged, r);
    if n >= 0 && merged[n].bank == r.bank && merged[n].end >= r.start {
      assert merged == merged[..n] + [merged[n]];
      CoversConcat(merged[..n], [merged[n]], b, x);
      CoversConcat(merged[..n], [joined[n]], b, x);
      assert [merged[n]][0] == merged[n] && [joined[n]][0] == joined[n];
    } else {
      CoversConcat(merged, [r], b, x);
      assert [r][0] == r;
    }
  }

  lemma {:induction false} SameMembersCover(r: seq<Region>, s: seq<Region>, b: nat, x: nat)
    requires forall v :: v in r <==> v in s
    ensures Covers(r, b, x) <==> Covers(s, b, x)
  {
    if i :| 0 <= i < |r| && r[i].Has(b, x) {
      assert r[i] in s;
    }
    if i :| 0 <= i < |s| && s[i].Has(b, x) {
      assert s[i] in r;
    }
  }

  /** Merging keeps exactly the addresses, sorted and strictly separated. */
  lemma {:induction false} MergeIsUnion(regions: seq<Region>, b: nat, x: nat)
    ensures Separated(Merged(regions)) && Sorted(Merged(regions))
    ensures Covers(Merged(regions), b, x) <==> Covers(regions, b, x)
  {
    var sorted := SortedRegions(regions);
    SortSorts(regions);
    MergedSortedSeparated(sorted);
    MergedSortedCovers(sorted, b, x);
    SameMembersCover(sorted, regions, b, x);
  }

  /** Consecutive covered addresses lie in one region when regions keep gaps between them. */
  lemma {:induction false} OneRegion(regions: seq<Region>, b: nat, lo: nat, hi: nat, i: nat)
    requires Separated(regions) && i < |regions| && lo < hi && regions[i].Has(b, lo)
    requires forall y :: lo <= y < hi ==> Covers(regions, b, y)
    ensures regions[i].end >= hi
  {
    var past := regions[i].end;
    assert past < hi ==> !Covers(regions, b, past) by {
      forall j | 0 <= j < |regions|
        ensures !regions[j].Has(b, past)
      {
        assert j < i ==> Apart(regions[j], regions[i]);
        assert i < j ==> Apart(regions[i], regions[j]);
      }
    }
  }
}
