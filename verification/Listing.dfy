/** Keeping what was found, in order: the `for` loop that appends to a list when there is something to append. */
module Listing {
  import opened Types

  function IfAny<T>(finding: Option<T>): seq<T> {
    match finding
    case None => []
    case Some(f) => [f]
  }

  /** The findings there were, in order. */
  function Kept<T>(findings: seq<Option<T>>): seq<T> {
    if findings == [] then []
    else
      var n := |findings| - 1;
      Kept(findings[..n]) + IfAny(findings[n])
  }

  /** `at` lists, in ascending order, exactly the positions below `n` that satisfy `p`. */
  ghost predicate Selects(p: nat -> bool, n: nat, at: seq<nat>) {
    && (forall i, j :: 0 <= i < j < |at| ==> at[i] < at[j])
    && (forall i :: 0 <= i < |at| ==> at[i] < n && p(at[i]))
    && (forall k: nat :: k < n && p(k) ==> k in at)
  }

  lemma {:induction false} SelectsOneMore(p: nat -> bool, n: nat, at: seq<nat>)
    requires Selects(p, n, at) && p(n)
    ensures Selects(p, n + 1, at + [n])
  {
    assert (at + [n])[|at|] == n;
  }

  lemma {:induction false} SelectsNoMore(p: nat -> bool, n: nat, at: seq<nat>)
    requires Selects(p, n, at) && !p(n)
    ensures Selects(p, n + 1, at)
  {
  }

  lemma {:induction false} SameSelection(p: nat -> bool, q: nat -> bool, n: nat, at: seq<nat>)
    requires Selects(p, n, at) && forall k: nat :: k < n ==> (p(k) <==> q(k))
    ensures Selects(q, n, at)
  {
  }

  /** The kept findings are the ones at those positions, in that order. */
  ghost predicate KeptAt<T>(findings: seq<Option<T>>, at: seq<nat>, kept: seq<T>) {
    && |kept| == |at|
    && forall k :: 0 <= k < |at| ==> at[k] < |findings| && findings[at[k]] == Some(kept[k])
  }

  function Found<T>(findings: seq<Option<T>>): nat -> bool {
    (k: nat) => k < |findings| && findings[k].Some?
  }

  /** The positions below `n` that satisfy `p`, in ascending order. */
  function Places(p: nat -> bool, n: nat): seq<nat> {
    if n == 0 then []
    else if p(n - 1) then Places(p, n - 1) + [n - 1]
    else Places(p, n - 1)
  }

  lemma {:induction false} PlacesSelect(p: nat -> bool, n: nat)
    ensures Selects(p, n, Places(p, n))
  {
    if n != 0 {
      PlacesSelect(p, n - 1);
      if p(n - 1) {
        SelectsOneMore(p, n - 1, Places(p, n - 1));
      } else {
        SelectsNoMore(p, n - 1, Places(p, n - 1));
      }
    }
  }

  lemma {:induction false} KeptAtPlaces<T>(findings: seq<Option<T>>, n: nat)
    requires n <= |findings|
    ensures KeptAt(findings, Places(Found(findings), n), Kept(findings[..n]))
  {
    if n != 0 {
      KeptAtPlaces(findings, n - 1);
      assert findings[..n][..n - 1] == findings[..n - 1];
    }
  }

  /** Nothing is lost, added, repeated or moved. */
  lemma {:induction false} KeptIsExact<T>(findings: seq<Option<T>>) returns (at: seq<nat>)
    ensures Selects(Found(findings), |findings|, at) && KeptAt(findings, at, Kept(findings))
  {
    at := Places(Found(findings), |findings|);
    PlacesSelect(Found(findings), |findings|);
    KeptAtPlaces(findings, |findings|);
    assert findings[..|findings|] == findings;
  }

  /** A list holds the findings and nothing else, so it is empty exactly when there were none. */
  lemma {:induction false} KeptMembers<T>(findings: seq<Option<T>>)
    ensures forall f :: f in Kept(findings) <==> Some(f) in findings
    ensures Kept(findings) == [] <==> forall i :: 0 <= i < |findings| ==> findings[i].None?
  {
    if findings != [] {
      var n := |findings| - 1;
      KeptMembers(findings[..n]);
      assert findings == findings[..n] + [findings[n]];
      assert forall i :: 0 <= i < n ==> findings[..n][i] == findings[i];
    }
  }
}
