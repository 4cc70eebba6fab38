/** Sixteen-bit slot arithmetic: the circle a key-table probe walks on. */
module Circular {
  import opened Types

  const SLOTS := 0x10000

  type Slot = s: int | 0 <= s < 0x10000

  function Next(s: Slot): Slot {
    if s == 0xFFFF then 0 else s + 1
  }

  /** Steps forward from `a` to `b`; the source writes `(b - a) & 0xFFFF`. */
  function Distance(a: Slot, b: Slot): (d: nat)
    ensures d < SLOTS
  {
    if a <= b then b - a else b - a + SLOTS
  }

  /** `s` is the first member of `hits` met when walking forward from `start`. */
  ghost predicate IsFirst(hits: set<Slot>, start: Slot, s: Slot) {
    s in hits && forall t :: t in hits ==> Distance(start, s) <= Distance(start, t)
  }

  lemma {:induction false} FirstExists(hits: set<Slot>, start: Slot) returns (s: Slot)
    requires hits != {}
    ensures IsFirst(hits, start, s)
    decreases |hits|
  {
    s :| s in hits;
    var closer := set t | t in hits && Distance(start, t) < Distance(start, s);
    if closer == {} {
      forall t | t in hits
        ensures Distance(start, s) <= Distance(start, t)
      {
        assert t !in closer;
      }
    } else {
      SubsetSize(closer, hits - {s});
      var c := FirstExists(closer, start);
      forall t | t in hits
        ensures Distance(start, c) <= Distance(start, t)
      {
        assert c in closer;
        assert t in closer || Distance(start, s) <= Distance(start, t);
      }
      s := c;
    }
  }

  lemma {:induction false} FirstIsUnique(hits: set<Slot>, start: Slot, s: Slot, t: Slot)
    requires IsFirst(hits, start, s) && IsFirst(hits, start, t)
    ensures s == t
  {
    assert Distance(start, s) == Distance(start, t);
  }

  /** Where a walk of the whole circle from `start` stops, if it stops. */
  ghost function Nearest(hits: set<Slot>, start: Slot): (r: Option<Slot>)
    ensures r.None? <==> hits == {}
    ensures r.Some? ==> IsFirst(hits, start, r.value)
  {
    if hits == {} then None
    else
      Some(FirstOf(hits, start))
  }

  ghost function FirstOf(hits: set<Slot>, start: Slot): (s: Slot)
    requires hits != {}
    ensures IsFirst(hits, start, s)
  {
    assert exists s :: IsFirst(hits, start, s) by {
      var s := FirstExists(hits, start);
    }
    var s :| IsFirst(hits, start, s);
    s
  }

  lemma {:induction false} NearestIs(hits: set<Slot>, start: Slot, s: Slot)
    requires IsFirst(hits, start, s)
    ensures Nearest(hits, start) == Some(s)
  {
    FirstIsUnique(hits, start, s, Nearest(hits, start).value);
  }

  lemma {:induction false} SubsetSize<T>(small: set<T>, large: set<T>)
    requires small <= large
    ensures |small| <= |large|
  {
    assert large == small + (large - small);
  }

  /** Holding every slot below `n` takes at least `n` members. */
  lemma {:induction false} PigeonHole(s: set<Slot>, n: nat)
    requires n <= SLOTS && forall t: Slot :: t < n ==> t in s
    ensures n <= |s|
  {
    if n != 0 {
      PigeonHole(s - {n - 1}, n - 1);
    }
  }
}
