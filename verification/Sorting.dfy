/** Sorting by a comparison, as `sorted` and `list.sort` do: stable, by insertion at the end. */
module Sorting {

  /** Any two are comparable, and comparisons chain. */
  ghost predicate TotalOrder<T(!new)>(le: (T, T) -> bool) {
    && (forall x, y :: le(x, y) || le(y, x))
    && (forall x, y, z :: le(x, y) && le(y, z) ==> le(x, z))
  }

  ghost predicate InOrder<T>(le: (T, T) -> bool, s: seq<T>) {
    forall i, j :: 0 <= i < j < |s| ==> le(s[i], s[j])
  }

  /** `x` goes after everything that is no later than it. */
  function Inserted<T(==,!new)>(le: (T, T) -> bool, sorted: seq<T>, x: T): (r: seq<T>)
    ensures |r| == |sorted| + 1 && forall y :: y in r <==> y in sorted || y == x
  {
    if sorted == [] then [x]
    else
      var rest, last := sorted[..|sorted| - 1], sorted[|sorted| - 1];
      assert sorted == rest + [last];
      if le(last, x) then sorted + [x] else Inserted(le, rest, x) + [last]
  }

  function SortedBy<T(==,!new)>(le: (T, T) -> bool, items: seq<T>): (r: seq<T>)
    ensures |r| == |items| && forall y :: y in r <==> y in items
  {
    if items == [] then []
    else
      var rest, last := items[..|items| - 1], items[|items| - 1];
      assert items == rest + [last];
      Inserted(le, SortedBy(le, rest), last)
  }

  /** In order, and ties in the order of `before`. */
  ghost predicate StablyInOrder<T>(le: (T, T) -> bool, before: (T, T) -> bool, s: seq<T>) {
    forall i, j :: 0 <= i < j < |s| ==> le(s[i], s[j]) && (le(s[j], s[i]) ==> before(s[i], s[j]))
  }

  lemma {:induction false} InsertedIsStable<T(!new)>(le: (T, T) -> bool, before: (T, T) -> bool, sorted: seq<T>, x: T)
    requires TotalOrder(le) && StablyInOrder(le, before, sorted)
    requires forall i :: 0 <= i < |sorted| ==> before(sorted[i], x)
    ensures StablyInOrder(le, before, Inserted(le, sorted, x))
  {
    if sorted != [] {
      var rest, last := sorted[..|sorted| - 1], sorted[|sorted| - 1];
      if le(last, x) {
        forall i | 0 <= i < |sorted|
          ensures le(sorted[i], x)
        {
          assert i < |rest| ==> le(sorted[i], last);
        }
      } else {
        InsertedIsStable(le, before, rest, x);
        var r := Inserted(le, rest, x);
        forall i | 0 <= i < |r|
          ensures le(r[i], last) && (le(last, r[i]) ==> before(r[i], last))
        {
          assert r[i] in r;
        }
      }
    }
  }

  /** Items given in the order of `before` keep it wherever they compare equal. */
  lemma {:induction false} SortIsStable<T(!new)>(le: (T, T) -> bool, before: (T, T) -> bool, items: seq<T>)
    requires TotalOrder(le) && InOrder(before, items)
    ensures StablyInOrder(le, before, SortedBy(le, items))
  {
    if items != [] {
      var rest, last := items[..|items| - 1], items[|items| - 1];
      SortIsStable(le, before, rest);
      var r := SortedBy(le, rest);
      forall i | 0 <= i < |r|
        ensures before(r[i], last)
      {
        assert r[i] in rest;
      }
      InsertedIsStable(le, before, r, last);
    }
  }

  /** The result is in order and holds every item as often as it was given. */
  lemma {:induction false} SortSorts<T(!new)>(le: (T, T) -> bool, items: seq<T>)
    requires TotalOrder(le)
    ensures InOrder(le, SortedBy(le, items)) && multiset(SortedBy(le, items)) == multiset(items)
  {
    SortIsStable(le, (x, y) => true, items);
    SortPermutes(le, items);
  }

  lemma {:induction false} SortPermutes<T(!new)>(le: (T, T) -> bool, items: seq<T>)
    ensures multiset(SortedBy(le, items)) == multiset(items)
  {
    if items != [] {
      var rest, last := items[..|items| - 1], items[|items| - 1];
      assert items == rest + [last];
      SortPermutes(le, rest);
      InsertedAdds(le, SortedBy(le, rest), last);
    }
  }

  lemma {:induction false} InsertedAdds<T(!new)>(le: (T, T) -> bool, sorted: seq<T>, x: T)
    ensures multiset(Inserted(le, sorted, x)) == multiset(sorted) + multiset{x}
  {
    if sorted != [] {
      var rest, last := sorted[..|sorted| - 1], sorted[|sorted| - 1];
      assert sorted == rest + [last];
      InsertedAdds(le, rest, x);
    }
  }

  /** Sorting what is in order changes nothing. */
  lemma {:induction false} SortOfSorted<T(!new)>(le: (T, T) -> bool, items: seq<T>)
    requires InOrder(le, items)
    ensures SortedBy(le, items) == items
  {
    if items != [] {
      var rest, last := items[..|items| - 1], items[|items| - 1];
      assert items == rest + [last];
      SortOfSorted(le, rest);
    }
  }

  ghost predicate NoRepeats<T>(s: seq<T>) {
    forall i, j :: 0 <= i < j < |s| ==> s[i] != s[j]
  }

  lemma {:induction false} AtMostOnce<T>(s: seq<T>, x: T)
    requires NoRepeats(s)
    ensures multiset(s)[x] <= 1
  {
    if s != [] {
      var rest, last := s[..|s| - 1], s[|s| - 1];
      assert s == rest + [last];
      AtMostOnce(rest, x);
    }
  }

  /** A list without repeats sorts to one without. */
  lemma {:induction false} SortKeepsDistinct<T(!new)>(le: (T, T) -> bool, items: seq<T>)
    requires TotalOrder(le) && NoRepeats(items)
    ensures NoRepeats(SortedBy(le, items))
  {
    var r := SortedBy(le, items);
    SortSorts(le, items);
    forall i, j | 0 <= i < j < |r|
      ensures r[i] != r[j]
    {
      AtMostOnce(items, r[i]);
      assert r == r[..j] + [r[j]] + r[j + 1..];
      assert r[i] in r[..j];
    }
  }
}
