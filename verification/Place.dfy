/** Writing runs of cartridge addresses into the image, through the map. */
module Place {
  import opened Types
  import opened AddressMap

  /** A run of bytes and the 24-bit address it starts at. */
  datatype Write = Write(address: nat, data: seq<byte>) {
    predicate Fits() {
      address + |data| <= SPACE
    }

    predicate Covers(x: nat) {
      address <= x < address + |data|
    }
  }

  ghost predicate ImageOf(image: seq<byte>, banks: nat) {
    banks >= 0xC0 && |image| == banks * BANK
  }

  /** One byte at a time: what writing the run means, whatever it crosses. */
  function Placed(image: seq<byte>, w: Write, banks: nat): (r: seq<byte>)
    requires w.Fits() && banks >= 0xC0 && |image| == banks * BANK
    ensures |r| == |image|
    decreases |w.data|
  {
    if w.data == [] then image
    else
      var n := |w.data| - 1;
      InsideFile(w.address + n, banks);
      Placed(image, Write(w.address, w.data[..n]), banks)[At(w.address + n, banks) := w.data[n]]
  }

  /** The run's first `k` bytes. */
  function Front(w: Write, k: nat): Write
    requires k <= |w.data|
  {
    Write(w.address, w.data[..k])
  }

  lemma {:induction false} PlacedSnoc(image: seq<byte>, w: Write, k: nat, banks: nat)
    requires w.Fits() && ImageOf(image, banks) && k < |w.data|
    ensures At(w.address + k, banks) < |image|
    ensures Placed(image, Front(w, k + 1), banks)
         == Placed(image, Front(w, k), banks)[At(w.address + k, banks) := w.data[k]]
  {
    InsideFile(w.address + k, banks);
    assert w.data[..k + 1][..k] == w.data[..k];
  }

  /** Where the map is contiguous, the slice assignment and the bytewise writes agree. */
  lemma {:induction false} ChunkByte(image: seq<byte>, w: Write, n: nat, k: nat, offset: nat, banks: nat, o: nat)
    requires w.Fits() && ImageOf(image, banks) && n <= k <= |w.data| && o < |image|
    requires forall y: Address :: w.address + n <= y < w.address + k ==>
               At(y, banks) == offset + (y - (w.address + n))
    ensures Placed(image, Front(w, k), banks)[o]
         == if offset <= o < offset + (k - n) then w.data[n + (o - offset)]
            else Placed(image, Front(w, n), banks)[o]
    decreases k - n
  {
    if n != k {
      ChunkByte(image, w, n, k - 1, offset, banks, o);
      PlacedSnoc(image, w, k - 1, banks);
    }
  }

  /** A chunk that stays in one half is contiguous in the file and inside it. */
  lemma {:induction false} ChunkIsContiguous(w: Write, n: nat, k: nat, banks: nat)
    requires banks >= 0xC0 && w.Fits() && n < k <= |w.data|
    requires (w.address + n) % HALF + (k - n) <= HALF
    ensures forall y: Address :: w.address + n <= y < w.address + k ==>
              At(y, banks) == At(w.address + n, banks) + (y - (w.address + n))
    ensures At(w.address + n, banks) + (k - n) <= banks * BANK
  {
    forall y: Address | w.address + n <= y < w.address + k
      ensures At(y, banks) == At(w.address + n, banks) + (y - (w.address + n))
    {
      HalfIsContiguous(w.address + n, y - (w.address + n), banks);
    }
    InsideFile(w.address + (k - 1), banks);
  }

  method AssignSlice(image: array<byte>, offset: nat, data: seq<byte>)
    requires offset + |data| <= image.Length
    modifies image
    ensures forall o :: 0 <= o < image.Length ==>
              image[o] == if offset <= o < offset + |data| then data[o - offset] else old(image[o])
  {
    forall i | 0 <= i < |data| {
      image[offset + i] := data[i];
    }
  }

  lemma {:induction false} ChunkBytes(before: seq<byte>, w: Write, n: nat, k: nat, offset: nat, banks: nat)
    requires ImageOf(before, banks)
    requires w.Fits() && n < k <= |w.data| && (w.address + n) % HALF + (k - n) <= HALF
    requires offset == At(w.address + n, banks)
    ensures offset + (k - n) <= |before|
    ensures forall o :: 0 <= o < |before| ==>
              Placed(before, Front(w, k), banks)[o]
              == if offset <= o < offset + (k - n) then w.data[n + (o - offset)]
                 else Placed(before, Front(w, n), banks)[o]
  {
    ChunkIsContiguous(w, n, k, banks);
    forall o | 0 <= o < |before|
      ensures Placed(before, Front(w, k), banks)[o]
           == if offset <= o < offset + (k - n) then w.data[n + (o - offset)]
              else Placed(before, Front(w, n), banks)[o]
    {
      ChunkByte(before, w, n, k, offset, banks, o);
    }
  }

  /** One slice assignment carries the write from its first `n` bytes to its first `k`. */
  method PlaceChunk(image: array<byte>, ghost before: seq<byte>, w: Write, n: nat, k: nat, offset: nat,
                    ghost banks: nat)
    requires banks >= 0xC0 && image.Length == banks * BANK == |before|
    requires w.Fits() && n < k <= |w.data| && (w.address + n) % HALF + (k - n) <= HALF
    requires offset == At(w.address + n, banks)
    requires image[..] == Placed(before, Front(w, n), banks)
    modifies image
    ensures image[..] == Placed(before, Front(w, k), banks)
  {
    ChunkBytes(before, w, n, k, offset, banks);
    ghost var after := Placed(before, Front(w, k), banks);
    assert forall o :: 0 <= o < image.Length ==> image[o] == Placed(before, Front(w, n), banks)[o];
    AssignSlice(image, offset, w.data[n..k]);
    assert forall o :: 0 <= o < image.Length ==> image[o] == after[o];
  }

  /** Writes the run half by half; equal to writing it byte by byte. */
  method PlaceRun(image: array<byte>, bank: nat, addr: nat, data: seq<byte>, banks: nat)
    requires banks >= 0xC0 && image.Length == banks * BANK
    requires bank < 0x100 && addr < BANK && bank * BANK + addr + |data| <= SPACE
    modifies image
    ensures image[..] == Placed(old(image[..]), Write(bank * BANK + addr, data), banks)
  {
    var w := Write(bank * BANK + addr, data);
    var b: nat, a: nat, written: nat := bank, addr, 0;
    while written < |data|
      invariant written <= |data| && a < BANK && b * BANK + a == w.address + written
      invariant image[..] == Placed(old(image[..]), Front(w, written), banks)
    {
      var edge := if a < HALF then HALF else BANK;
      var chunk := if |data| - written < edge - a then |data| - written else edge - a;
      SplitAddress(w.address + written, b, a);
      var offset := FileOffset(b, a, banks);
      PlaceChunk(image, old(image[..]), w, written, written + chunk, offset, banks);
      written := written + chunk;
      a := a + chunk;
      if a >= BANK {
        a := 0;
        b := b + 1;
      }
    }
    assert Front(w, |data|) == w;
  }

  lemma {:induction false} SplitAddress(x: nat, bank: nat, offset: nat)
    requires offset < BANK && x == bank * BANK + offset
    ensures x / BANK == bank && x % BANK == offset
    ensures x % HALF == if offset < HALF then offset else offset - HALF
  {
  }

  // ------------------------------------------------------- what a write means

  function View(image: seq<byte>, x: Address, banks: nat): byte
    requires banks >= 0xC0 && |image| == banks * BANK
  {
    InsideFile(x, banks);
    image[At(x, banks)]
  }

  /** The `t`-th byte of a run, read through the map from `address`. */
  ghost predicate ReadsByte(image: seq<byte>, banks: nat, address: nat, data: seq<byte>, t: nat)
    requires ImageOf(image, banks)
  {
    t < |data| ==> address + t < SPACE && View(image, address + t, banks) == data[t]
  }

  ghost predicate ReadsAs(image: seq<byte>, banks: nat, address: nat, data: seq<byte>)
    requires ImageOf(image, banks)
  {
    forall t: nat :: ReadsByte(image, banks, address, data, t)
  }

  ghost predicate AllExposed(w: Write)
    requires w.Fits()
  {
    forall x: Address :: w.Covers(x) ==> Exposed(x)
  }

  /** Any file byte the run's addresses do not name is untouched. */
  lemma {:induction false} PlacedKeepsOthers(image: seq<byte>, w: Write, banks: nat, o: nat)
    requires w.Fits() && ImageOf(image, banks) && o < |image|
    requires forall x: Address :: w.Covers(x) ==> At(x, banks) != o
    ensures Placed(image, w, banks)[o] == image[o]
    decreases |w.data|
  {
    if w.data != [] {
      var n := |w.data| - 1;
      var front := Write(w.address, w.data[..n]);
      assert w.Covers(w.address + n);
      assert forall x: Address :: front.Covers(x) ==> w.Covers(x);
      PlacedKeepsOthers(image, front, banks, o);
    }
  }

  lemma {:induction false} ByteShowsAt(image: seq<byte>, y: Address, v: byte, banks: nat, x: Address)
    requires ImageOf(image, banks) && Exposed(x) && Exposed(y)
    ensures At(y, banks) < |image|
    ensures View(image[At(y, banks) := v], x, banks) == if x == y then v else View(image, x, banks)
  {
    InsideFile(x, banks);
    InsideFile(y, banks);
    if x != y {
      DistinctOffsets(x, y, banks);
    }
  }

  lemma {:induction false} FrontExposed(w: Write, k: nat)
    requires w.Fits() && AllExposed(w) && k <= |w.data|
    ensures Front(w, k).Fits() && AllExposed(Front(w, k))
    ensures k < |w.data| ==> w.address + k < SPACE && Exposed(w.address + k)
  {
    if k < |w.data| {
      assert w.Covers(w.address + k);
    }
    forall x: Address | Front(w, k).Covers(x)
      ensures Exposed(x)
    {
      assert w.Covers(x);
    }
  }

  /** Reading back through the map: the run's own bytes, and nothing else changed. */
  lemma {:induction false} PlacedReadsBack(image: seq<byte>, w: Write, banks: nat, x: Address)
    requires w.Fits() && AllExposed(w) && ImageOf(image, banks) && Exposed(x)
    ensures View(Placed(image, w, banks), x, banks)
         == if w.Covers(x) then w.data[x - w.address] else View(image, x, banks)
    decreases |w.data|
  {
    if w.data != [] {
      var n := |w.data| - 1;
      FrontExposed(w, n);
      var was := Placed(image, Front(w, n), banks);
      PlacedReadsBack(image, Front(w, n), banks, x);
      ByteShowsAt(was, w.address + n, w.data[n], banks, x);
      PlacedSnoc(image, w, n, banks);
      assert Front(w, n + 1) == w;
    }
  }

  lemma {:induction false} DistinctOffsets(x: Address, y: Address, banks: nat)
    requires banks >= 0xC0 && Exposed(x) && Exposed(y) && x != y
    ensures At(x, banks) != At(y, banks)
  {
    if At(x, banks) == At(y, banks) {
      MapIsInjective(x, y, banks);
    }
  }

  // ------------------------------------------------------- sequences of writes

  ghost predicate Writable(ws: seq<Write>) {
    forall i :: 0 <= i < |ws| ==> ws[i].Fits() && AllExposed(ws[i])
  }

  ghost predicate AllFit(ws: seq<Write>) {
    forall i :: 0 <= i < |ws| ==> ws[i].Fits()
  }

  ghost function Applied(image: seq<byte>, ws: seq<Write>, banks: nat): (r: seq<byte>)
    requires ImageOf(image, banks) && AllFit(ws)
    ensures |r| == |image|
  {
    if ws == [] then image
    else Placed(Applied(image, ws[..|ws| - 1], banks), ws[|ws| - 1], banks)
  }

  /** The byte the last covering write left at `x`. */
  function LastByte(ws: seq<Write>, x: nat, default: byte): byte {
    if ws == [] then default
    else
      var w := ws[|ws| - 1];
      if w.Covers(x) then w.data[x - w.address] else LastByte(ws[..|ws| - 1], x, default)
  }

  /** Seen through the map, later writes win and unwritten addresses keep their byte. */
  lemma {:induction false} AppliedView(image: seq<byte>, ws: seq<Write>, banks: nat, x: Address)
    requires ImageOf(image, banks) && Writable(ws) && Exposed(x)
    ensures View(Applied(image, ws, banks), x, banks) == LastByte(ws, x, View(image, x, banks))
  {
    if ws != [] {
      AppliedView(image, ws[..|ws| - 1], banks, x);
      PlacedReadsBack(Applied(image, ws[..|ws| - 1], banks), ws[|ws| - 1], banks, x);
    }
  }

  lemma {:induction false} AppliedNext(image: seq<byte>, ws: seq<Write>, i: nat, banks: nat)
    requires ImageOf(image, banks) && AllFit(ws) && i < |ws|
    ensures Applied(image, ws[..i + 1], banks) == Placed(Applied(image, ws[..i], banks), ws[i], banks)
  {
    assert ws[..i + 1][..i] == ws[..i];
  }

  lemma {:induction false} AppliedConcat(image: seq<byte>, a: seq<Write>, b: seq<Write>, banks: nat)
    requires ImageOf(image, banks) && AllFit(a) && AllFit(b)
    ensures AllFit(a + b)
    ensures Applied(image, a + b, banks) == Applied(Applied(image, a, banks), b, banks)
  {
    if b == [] {
      assert a + b == a;
    } else {
      var n := |b| - 1;
      AppliedConcat(image, a, b[..n], banks);
      assert (a + b)[..|a + b| - 1] == a + b[..n];
    }
  }

  lemma {:induction false} LastByteConcat(a: seq<Write>, b: seq<Write>, x: nat, default: byte)
    ensures LastByte(a + b, x, default) == LastByte(b, x, LastByte(a, x, default))
  {
    if b == [] {
      assert a + b == a;
    } else {
      var n := |b| - 1;
      LastByteConcat(a, b[..n], x, default);
      assert (a + b)[..|a + b| - 1] == a + b[..n];
    }
  }

  /** Writes that never cover `x` do not show there. */
  lemma {:induction false} LastByteMisses(ws: seq<Write>, x: nat, default: byte)
    requires forall i :: 0 <= i < |ws| ==> !ws[i].Covers(x)
    ensures LastByte(ws, x, default) == default
  {
    if ws != [] {
      LastByteMisses(ws[..|ws| - 1], x, default);
    }
  }

  /** Write `i` covers `x` and no later write does. */
  ghost predicate IsLast(ws: seq<Write>, i: nat, x: nat) {
    i < |ws| && ws[i].Covers(x) && forall j :: i < j < |ws| ==> !ws[j].Covers(x)
  }

  /** A write nothing later covers is what shows. */
  lemma {:induction false} LastByteHits(ws: seq<Write>, i: nat, x: nat, default: byte)
    requires IsLast(ws, i, x)
    ensures LastByte(ws, x, default) == ws[i].data[x - ws[i].address]
  {
    if i < |ws| - 1 {
      LastByteHits(ws[..|ws| - 1], i, x, default);
    }
  }
}
