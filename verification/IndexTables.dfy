/** The four 64 KB tables that carry the placement into the image. */
module IndexTables {
  import opened Types
  import opened Circular
  import opened KeyTable
  import AddressMap
  import KeyTableLoops

  /** A stream's source in the cartridge and where its decoded bytes will live. */
  datatype Pair = Pair(source: nat, destination: nat)

  datatype Columns = Columns(key: seq<byte>, low: seq<byte>, high: seq<byte>, bank: seq<byte>) {
    predicate Valid() {
      |key| == |low| == |high| == |bank| == SLOTS
    }
  }

  datatype Tables = Tables(columns: Columns, slots: seq<Slot>)

  /** The address the game programs, which is what the table is keyed by. */
  function SourceKey(source: nat): Key {
    Key(AddressMap.WINDOW_BASE + source / 0x10000, source % 0x10000)
  }

  function KeysOf(pairs: seq<Pair>): (r: seq<Key>)
    ensures |r| == |pairs|
  {
    seq(|pairs|, i requires 0 <= i < |pairs| => SourceKey(pairs[i].source))
  }

  const BLANK := Columns(Zeros(SLOTS), Zeros(SLOTS), Zeros(SLOTS), Zeros(SLOTS))

  /** What stops one pair from being written: the bank-zero guard, then the byte width. */
  function PairError(pair: Pair): Option<PlacementError> {
    if pair.destination / 0x10000 == 0 then Some(BankZeroDestination)
    else if SourceKey(pair.source).bank > 0xFF || pair.destination / 0x10000 > 0xFF then Some(NotAByte)
    else None
  }

  function Written(c: Columns, slot: Slot, pair: Pair): (r: Columns)
    requires c.Valid() && PairError(pair).None?
    ensures r.Valid()
  {
    Columns(c.key[slot := SourceKey(pair.source).bank],
            c.low[slot := pair.destination % 0x100],
            c.high[slot := pair.destination / 0x100 % 0x100],
            c.bank[slot := pair.destination / 0x10000])
  }

  /** The columns after the first `n` pairs, or the first pair's refusal. */
  function Filled(pairs: seq<Pair>, slots: seq<Slot>, n: nat): (r: Result<Columns, PlacementError>)
    requires n <= |pairs| == |slots|
    ensures r.Ok? ==> r.value.Valid()
  {
    if n == 0 then Ok(BLANK)
    else
      match Filled(pairs, slots, n - 1)
      case Err(e) => Err(e)
      case Ok(c) =>
        match PairError(pairs[n - 1])
        case Some(e) => Err(e)
        case None => Ok(Written(c, slots[n - 1], pairs[n - 1]))
  }

  ghost function TablesFor(pairs: seq<Pair>): Result<Tables, PlacementError> {
    match Placement(KeysOf(pairs))
    case Err(e) => Err(e)
    case Ok(slots) =>
      PlacementHasLength(KeysOf(pairs));
      match Filled(pairs, slots, |pairs|)
      case Err(e) => Err(e)
      case Ok(c) => Ok(Tables(c, slots))
  }

  lemma {:induction false} PlacementHasLength(keys: seq<Key>)
    ensures Placement(keys).Ok? ==> |Placement(keys).value| == |keys|
  {
  }

  /** Fills the four bytearrays in place, stopping at the first pair it cannot write. */
  method FillColumns(pairs: seq<Pair>, slots: seq<Slot>) returns (r: Result<Columns, PlacementError>)
    requires |slots| == |pairs|
    ensures r == Filled(pairs, slots, |pairs|)
  {
    var key, low := new byte[SLOTS](_ => 0), new byte[SLOTS](_ => 0);
    var high, bank := new byte[SLOTS](_ => 0), new byte[SLOTS](_ => 0);
    assert key[..] == Zeros(SLOTS) && low[..] == Zeros(SLOTS);
    assert high[..] == Zeros(SLOTS) && bank[..] == Zeros(SLOTS);
    for i := 0 to |pairs|
      invariant Filled(pairs, slots, i) == Ok(Columns(key[..], low[..], high[..], bank[..]))
    {
      var target := pairs[i].destination;
      var sourceBank := SourceKey(pairs[i].source).bank;
      if target / 0x10000 == 0 {
        FilledStops(pairs, slots, i, |pairs|);
        return Err(BankZeroDestination);
      }
      if sourceBank > 0xFF || target / 0x10000 > 0xFF {
        FilledStops(pairs, slots, i, |pairs|);
        return Err(NotAByte);
      }
      key[slots[i]] := sourceBank;
      low[slots[i]] := target % 0x100;
      high[slots[i]] := target / 0x100 % 0x100;
      bank[slots[i]] := target / 0x10000;
    }
    r := Ok(Columns(key[..], low[..], high[..], bank[..]));
  }

  /** Allocates, re-checks, and fills; the re-check never objects. */
  method BuildTables(pairs: seq<Pair>) returns (r: Result<Tables, PlacementError>)
    ensures r == TablesFor(pairs)
  {
    var keys := KeysOf(pairs);
    var placement := KeyTableLoops.Allocate(keys);
    if placement.Err? {
      return Err(placement.error);
    }
    var slots := placement.value;
    AllocatedPassesVerify(keys);
    var objection := KeyTableLoops.Verify(keys, slots);
    assert objection.None?;
    var columns := FillColumns(pairs, slots);
    r := match columns
         case Err(e) => Err(e)
         case Ok(c) => Ok(Tables(c, slots));
  }

  lemma {:induction false} FilledStops(pairs: seq<Pair>, slots: seq<Slot>, i: nat, n: nat)
    requires i < n <= |pairs| == |slots|
    requires Filled(pairs, slots, i).Ok? && PairError(pairs[i]).Some?
    ensures Filled(pairs, slots, n) == Err(PairError(pairs[i]).value)
  {
    if n > i + 1 {
      FilledStops(pairs, slots, i, n - 1);
    }
  }

  /** The re-check after allocation can never object. */
  lemma {:induction false} AllocatedPassesVerify(keys: seq<Key>)
    requires Placement(keys).Ok?
    ensures var placed := Placement(keys).value;
            && |placed| == |keys|
            && (forall i, j :: 0 <= i < j < |keys| ==> placed[i] != placed[j])
            && WithinOwnInterval(keys, placed)
  {
    PlacementIffIntervals(keys);
    GreedyIsBijection(keys);
  }

  /** If the tables were filled, no pair was refused: banks are bytes and no bank is zero. */
  lemma {:induction false} FilledAllows(pairs: seq<Pair>, slots: seq<Slot>, n: nat)
    requires n <= |pairs| == |slots| && Filled(pairs, slots, n).Ok?
    ensures forall i :: 0 <= i < n ==> PairError(pairs[i]).None?
  {
    if n != 0 {
      FilledAllows(pairs, slots, n - 1);
    }
  }

  // ------------------------------------------------------ when tables come back

  /** A source inside the 4 MB cartridge, and a destination that is 24 bits wide and not in bank zero. */
  predicate Legal(pair: Pair) {
    pair.source < 0x400000 && 0x10000 <= pair.destination < 0x1000000
  }

  lemma {:induction false} FilledIffLegal(pairs: seq<Pair>, slots: seq<Slot>, n: nat)
    requires n <= |pairs| == |slots|
    ensures Filled(pairs, slots, n).Ok? <==> forall i :: 0 <= i < n ==> Legal(pairs[i])
  {
    if n != 0 {
      FilledIffLegal(pairs, slots, n - 1);
      assert SourceKey(pairs[n - 1].source).bank > 0xFF <==> pairs[n - 1].source >= 0x400000;
    }
  }

  /** Tables come back exactly when the keys have a placement and every pair is legal. */
  lemma {:induction false} TablesIffLegal(pairs: seq<Pair>)
    ensures TablesFor(pairs).Ok? <==>
              Placement(KeysOf(pairs)).Ok? && forall i :: 0 <= i < |pairs| ==> Legal(pairs[i])
  {
    if Placement(KeysOf(pairs)).Ok? {
      PlacementHasLength(KeysOf(pairs));
      FilledIffLegal(pairs, Placement(KeysOf(pairs)).value, |pairs|);
    }
  }

  /** Keys without a placement are refused first: as too many, or else as ambiguous. */
  lemma {:induction false} UnplacedKeysAreRefused(pairs: seq<Pair>)
    requires Placement(KeysOf(pairs)).Err?
    ensures TablesFor(pairs) == Err(if |pairs| > 0x10000 then TooManyKeys else Ambiguous)
  {
  }

  /** Otherwise the first illegal pair is refused: for its low destination, or else for a value that is no byte. */
  lemma {:induction false} FirstIllegalPairIsRefused(pairs: seq<Pair>, i: nat)
    requires Placement(KeysOf(pairs)).Ok? && i < |pairs| && !Legal(pairs[i])
    requires forall j :: 0 <= j < i ==> Legal(pairs[j])
    ensures TablesFor(pairs) == Err(if pairs[i].destination < 0x10000 then BankZeroDestination else NotAByte)
  {
    PlacementHasLength(KeysOf(pairs));
    var slots := Placement(KeysOf(pairs)).value;
    FilledIffLegal(pairs, slots, i);
    assert SourceKey(pairs[i].source).bank > 0xFF <==> pairs[i].source >= 0x400000;
    FilledStops(pairs, slots, i, |pairs|);
  }

  // ------------------------------------------------- what a reader is told

  /** Where a reader of the key column stops for that bank, starting at `addr`. */
  ghost function BankHits(key: seq<byte>, bank: int): set<Slot>
    requires |key| == SLOTS
  {
    set s: Slot | 0 <= s < SLOTS && key[s] == bank
  }

  function Destination(c: Columns, slot: Slot): nat
    requires c.Valid()
  {
    (c.bank[slot] as int) * 0x10000 + (c.high[slot] as int) * 0x100 + c.low[slot]
  }

  lemma {:induction false} DigitsSpell(d: nat)
    ensures d / 0x10000 * 0x10000 + d / 0x100 % 0x100 * 0x100 + d % 0x100 == d
  {
    assert d == d / 0x100 * 0x100 + d % 0x100;
    assert d / 0x100 == d / 0x100 / 0x100 * 0x100 + d / 0x100 % 0x100;
  }

  lemma {:induction false} FilledHolds(pairs: seq<Pair>, slots: seq<Slot>, n: nat)
    requires n <= |pairs| == |slots|
    requires Filled(pairs, slots, n).Ok?
    requires forall i, j :: 0 <= i < j < |slots| ==> slots[i] != slots[j]
    ensures forall i :: 0 <= i < n ==>
              SourceKey(pairs[i].source).bank == Filled(pairs, slots, n).value.key[slots[i]]
    ensures forall i :: 0 <= i < n ==>
              Destination(Filled(pairs, slots, n).value, slots[i]) == pairs[i].destination
    ensures forall s: Slot :: (forall i :: 0 <= i < n ==> slots[i] != s) ==>
              Filled(pairs, slots, n).value.key[s] == 0
  {
    if n != 0 {
      FilledHolds(pairs, slots, n - 1);
      DigitsSpell(pairs[n - 1].destination);
      forall i | 0 <= i < n - 1
        ensures slots[i] != slots[n - 1]
      {
      }
    }
  }

  /** The four bytes at each pair's slot, one by one. */
  lemma {:induction false} FilledBytes(pairs: seq<Pair>, slots: seq<Slot>, n: nat, i: nat)
    requires i < n <= |pairs| == |slots| && Filled(pairs, slots, n).Ok?
    requires forall i, j :: 0 <= i < j < |slots| ==> slots[i] != slots[j]
    ensures var (c, s, d) := (Filled(pairs, slots, n).value, slots[i], pairs[i].destination);
            && c.key[s] as int == 0xC0 + pairs[i].source / 0x10000
            && c.low[s] as int == d % 0x100 && c.high[s] as int == d / 0x100 % 0x100 && c.bank[s] as int == d / 0x10000
  {
    if i < n - 1 {
      FilledBytes(pairs, slots, n - 1, i);
      assert slots[i] != slots[n - 1];
    }
  }

  /** In the finished tables the slot of each pair carries its key's bank and its destination's digits. */
  lemma {:induction false} TablesSpell(pairs: seq<Pair>, i: nat)
    requires TablesFor(pairs).Ok? && i < |pairs|
    ensures |TablesFor(pairs).value.slots| == |pairs|
    ensures var (t, d) := (TablesFor(pairs).value, pairs[i].destination);
            var (c, s) := (t.columns, t.slots[i]);
            && c.key[s] as int == 0xC0 + pairs[i].source / 0x10000
            && c.low[s] as int == d % 0x100 && c.high[s] as int == d / 0x100 % 0x100 && c.bank[s] as int == d / 0x10000
  {
    AllocatedPassesVerify(KeysOf(pairs));
    FilledBytes(pairs, TablesFor(pairs).value.slots, |pairs|, i);
  }

  /** Bytes that name each slot's owner, and are zero elsewhere, lose nothing the scan needs. */
  lemma {:induction false} SameHolders(keys: seq<Key>, st: State, key: seq<byte>, bank: int)
    requires Bijection(keys, st) && |key| == SLOTS && bank != 0
    requires forall j :: 0 <= j < |keys| ==> key[st.placed[j]] == keys[j].bank
    requires forall s: Slot :: (forall j :: 0 <= j < |keys| ==> st.placed[j] != s) ==> key[s] == 0
    ensures BankHits(key, bank) == Holding(st.table, bank)
  {
    forall s: Slot
      ensures s in st.table ==> key[s] == st.table[s]
      ensures s !in st.table ==> key[s] == 0
    {
      if s in st.table {
        var j :| 0 <= j < |keys| && st.placed[j] == s;
        assert Owns(keys, st, j);
      } else {
        forall j | 0 <= j < |keys|
          ensures st.placed[j] != s
        {
          assert Owns(keys, st, j);
        }
      }
    }
  }

  /** The key column names each slot's owner's bank, and is zero where nobody owns the slot. */
  lemma {:induction false} KeyColumnNamesOwners(pairs: seq<Pair>, slots: seq<Slot>)
    requires |slots| == |pairs| && Filled(pairs, slots, |pairs|).Ok?
    requires forall i, j :: 0 <= i < j < |slots| ==> slots[i] != slots[j]
    ensures var key := Filled(pairs, slots, |pairs|).value.key;
            && (forall j :: 0 <= j < |pairs| ==> key[slots[j]] == KeysOf(pairs)[j].bank)
            && (forall s: Slot :: (forall j :: 0 <= j < |pairs| ==> slots[j] != s) ==> key[s] == 0)
  {
    FilledHolds(pairs, slots, |pairs|);
  }

  lemma {:induction false} KeyColumnScans(pairs: seq<Pair>, st: State, i: nat)
    requires Bijection(KeysOf(pairs), st) && Filled(pairs, st.placed, |pairs|).Ok?
    requires i < |pairs| && ScansHome(KeysOf(pairs), st, i)
    ensures var key := SourceKey(pairs[i].source);
            Nearest(BankHits(Filled(pairs, st.placed, |pairs|).value.key, key.bank), key.addr)
            == Some(st.placed[i])
  {
    KeyColumnNamesOwners(pairs, st.placed);
    SameHolders(KeysOf(pairs), st, Filled(pairs, st.placed, |pairs|).value.key, KeysOf(pairs)[i].bank);
  }

  /**
   * Lookup through the finished tables: from its source address every stream's
   * scan stops at its own slot, and the three destination bytes there spell its
   * destination.
   */
  lemma {:induction false} TablesAnswer(pairs: seq<Pair>, i: nat)
    requires TablesFor(pairs).Ok? && i < |pairs|
    ensures var t := TablesFor(pairs).value;
            var key := SourceKey(pairs[i].source);
            && t.columns.Valid() && |t.slots| == |pairs|
            && Nearest(BankHits(t.columns.key, key.bank), key.addr) == Some(t.slots[i])
            && Destination(t.columns, t.slots[i]) == pairs[i].destination
  {
    var keys := KeysOf(pairs);
    var st := GreedyState(keys);
    GreedyIsBijection(keys);
    assert ScansHome(keys, st, i);
    KeyColumnScans(pairs, st, i);
    FilledHolds(pairs, st.placed, |pairs|);
  }

  /** A slot carries a bank exactly when an entry of that bank was placed there. */
  lemma {:induction false} HeldByAnEntry(pairs: seq<Pair>, s: Slot, bank: int)
    requires TablesFor(pairs).Ok? && bank != 0
    ensures |TablesFor(pairs).value.slots| == |pairs|
    ensures TablesFor(pairs).value.columns.key[s] == bank <==>
              exists i :: 0 <= i < |pairs| && TablesFor(pairs).value.slots[i] == s &&
                          SourceKey(pairs[i].source).bank == bank
  {
    var keys, t := KeysOf(pairs), TablesFor(pairs).value;
    AllocatedPassesVerify(keys);
    FilledHolds(pairs, t.slots, |pairs|);
  }
}
