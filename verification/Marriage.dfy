/** Distinct representatives: the marriage theorem, over sets of slots. */
module Marriage {
  import opened Circular

  /** Every slot some member of `group` may take. */
  ghost function Reach(rooms: seq<set<Slot>>, group: set<nat>): set<Slot> {
    set i, s | i in group && i < |rooms| && s in rooms[i] :: s
  }

  /** However many are chosen, they reach at least as many slots outside the banned ones. */
  ghost predicate Enough(rooms: seq<set<Slot>>, all: set<nat>, banned: set<Slot>) {
    forall group :: group <= all ==> |group| <= |Reach(rooms, group) - banned|
  }

  /** Each member has its own slot, from its own room and not banned. */
  ghost predicate Represents(rooms: seq<set<Slot>>, all: set<nat>, banned: set<Slot>, m: map<nat, Slot>) {
    && m.Keys == all
    && (forall i :: i in all ==> i < |rooms| && m[i] in rooms[i] && m[i] !in banned)
    && (forall i, j :: i in all && j in all && i != j ==> m[i] != m[j])
  }

  ghost predicate Tight(rooms: seq<set<Slot>>, all: set<nat>, banned: set<Slot>, group: set<nat>) {
    group < all && group != {} && |Reach(rooms, group) - banned| == |group|
  }

  lemma {:induction false} ReachOfUnion(rooms: seq<set<Slot>>, a: set<nat>, b: set<nat>)
    ensures Reach(rooms, a + b) == Reach(rooms, a) + Reach(rooms, b)
  {
  }

  lemma {:induction false} UnionSize<T>(a: set<T>, b: set<T>)
    requires a !! b
    ensures |a + b| == |a| + |b|
  {
  }

  /** What a further group reaches beyond a tight one is no less than its own size. */
  lemma {:induction false} BeyondTight(rooms: seq<set<Slot>>, banned: set<Slot>, group: set<nat>, x: set<nat>)
    requires x !! group && |Reach(rooms, group) - banned| == |group|
    requires |x + group| <= |Reach(rooms, x + group) - banned|
    ensures |x| <= |Reach(rooms, x) - (banned + Reach(rooms, group))|
  {
    ReachOfUnion(rooms, x, group);
    var whole, part := Reach(rooms, x + group) - banned, Reach(rooms, group) - banned;
    var beyond := Reach(rooms, x) - (banned + Reach(rooms, group));
    assert whole == part + beyond;
    UnionSize(part, beyond);
    UnionSize(x, group);
  }

  /** Once a tight group has taken all it reaches, the others still have enough. */
  lemma {:induction false} RestHasEnough(rooms: seq<set<Slot>>, all: set<nat>, banned: set<Slot>, group: set<nat>)
    requires Enough(rooms, all, banned) && Tight(rooms, all, banned, group)
    ensures Enough(rooms, all - group, banned + Reach(rooms, group))
  {
    forall x | x <= all - group
      ensures |x| <= |Reach(rooms, x) - (banned + Reach(rooms, group))|
    {
      assert x + group <= all;
      BeyondTight(rooms, banned, group, x);
    }
  }

  /** With no tight group, one member may take any slot of its own. */
  lemma {:induction false} OthersHaveEnough(rooms: seq<set<Slot>>, all: set<nat>, banned: set<Slot>, k: nat, s: Slot)
    requires Enough(rooms, all, banned) && k in all && forall group :: !Tight(rooms, all, banned, group)
    ensures Enough(rooms, all - {k}, banned + {s})
  {
    forall x | x <= all - {k}
      ensures |x| <= |Reach(rooms, x) - (banned + {s})|
    {
      if x != {} {
        assert !Tight(rooms, all, banned, x);
        assert |x| < |Reach(rooms, x) - banned|;
        assert Reach(rooms, x) - (banned + {s}) == Reach(rooms, x) - banned - {s};
      }
    }
  }

  lemma {:induction false} Joins(rooms: seq<set<Slot>>, all: set<nat>, banned: set<Slot>, group: set<nat>,
                                 first: map<nat, Slot>, rest: map<nat, Slot>)
    requires group <= all && Represents(rooms, group, banned, first)
    requires Represents(rooms, all - group, banned + Reach(rooms, group), rest)
    ensures Represents(rooms, all, banned, first + rest)
  {
    var m := first + rest;
    assert m.Keys == all;
    assert forall i :: i in all ==> m[i] == if i in group then first[i] else rest[i];
    forall i, j | i in group && j in all - group
      ensures m[i] != m[j]
    {
      assert first[i] in Reach(rooms, group);
      assert rest[j] !in Reach(rooms, group);
    }
  }

  lemma {:induction false} JoinsOne(rooms: seq<set<Slot>>, all: set<nat>, banned: set<Slot>, k: nat, s: Slot,
                                    rest: map<nat, Slot>)
    requires k in all && k < |rooms| && s in Reach(rooms, {k}) - banned
    requires Represents(rooms, all - {k}, banned + {s}, rest)
    ensures Represents(rooms, all, banned, rest[k := s])
  {
    var m := rest[k := s];
    assert m.Keys == all;
    assert s in rooms[k];
    forall i | i in all && i != k
      ensures m[i] == rest[i] && m[i] in rooms[i] && m[i] !in banned && m[i] != s
    {
      assert i in all - {k};
    }
  }

  lemma {:induction false} ReachesSome(rooms: seq<set<Slot>>, all: set<nat>, banned: set<Slot>, k: nat)
    returns (s: Slot)
    requires Enough(rooms, all, banned) && k in all
    ensures s in Reach(rooms, {k}) - banned
  {
    var free := Reach(rooms, {k}) - banned;
    assert |{k}| <= |free|;
    s :| s in free;
  }

  /** Enough for every group is enough for all at once. */
  lemma {:induction false} Marry(rooms: seq<set<Slot>>, all: set<nat>, banned: set<Slot>) returns (m: map<nat, Slot>)
    requires Enough(rooms, all, banned) && forall i :: i in all ==> i < |rooms|
    ensures Represents(rooms, all, banned, m)
    decreases |all|
  {
    if all == {} {
      m := map[];
    } else if group :| Tight(rooms, all, banned, group) {
      SmallerSet(group, all);
      RestHasEnough(rooms, all, banned, group);
      SmallerSet(all - group, all);
      var first := Marry(rooms, group, banned);
      var rest := Marry(rooms, all - group, banned + Reach(rooms, group));
      Joins(rooms, all, banned, group, first, rest);
      m := first + rest;
    } else {
      var k :| k in all;
      var s := ReachesSome(rooms, all, banned, k);
      OthersHaveEnough(rooms, all, banned, k, s);
      SmallerSet(all - {k}, all);
      var rest := Marry(rooms, all - {k}, banned + {s});
      JoinsOne(rooms, all, banned, k, s, rest);
      m := rest[k := s];
    }
  }

  lemma {:induction false} SmallerSet<T>(small: set<T>, large: set<T>)
    requires small < large
    ensures |small| < |large|
  {
    assert large == small + (large - small);
    assert large - small != {};
  }

  /** Distinct representatives of a group are as many as the group, and all in reach. */
  lemma {:induction false} RepresentativesFit(group: set<nat>, m: map<nat, Slot>, within: set<Slot>)
    requires group <= m.Keys && forall i :: i in group ==> m[i] in within
    requires forall i, j :: i in group && j in group && i != j ==> m[i] != m[j]
    ensures |group| <= |within|
    decreases |group|
  {
    if group != {} {
      var i :| i in group;
      RepresentativesFit(group - {i}, m, within - {m[i]});
    }
  }
}
