/** The memory refines a map from addresses to bytes, over any history of writes; byte orders
    compose and cancel. */
module ByteMap {
  import opened Words
  import opened Memory

  /** A write of 1, 2 or 4 bytes. */
  datatype RawWrite = Write(address: Word, width: nat, value: nat, be: bool)
  type Write = w: RawWrite | w.width in {1, 2, 4} && w.value < Pow256(w.width) witness Write(0, 1, 0, true)

  //////////////////////////////////////////////////////////////////////////////
  // The map
  //////////////////////////////////////////////////////////////////////////////

  /** The byte of significance j (0 is the least) of a number. */
  function ByteOf(v: nat, j: nat): Byte {
    DivBound(v, Pow256(j)); v / Pow256(j) % 0x100
  }

  /** Which byte of an n-byte number lies i bytes after its address. */
  function Significance(n: nat, i: nat, be: bool): nat
    requires i < n
  {
    if be then n - 1 - i else i
  }

  predicate Covers(w: Write, k: nat) {
    k < WORD && Wrap(k - w.address) < w.width
  }

  function MapWrite(m: map<nat, Byte>, w: Write): map<nat, Byte> {
    map k | k in m :: if Covers(w, k) then ByteOf(w.value, Significance(w.width, Wrap(k - w.address), w.be)) else m[k]
  }

  function MapReplay(size: nat, m: map<nat, Byte>, ws: seq<Write>): map<nat, Byte> {
    if ws == [] then m
    else
      var w, m' := ws[|ws| - 1], MapReplay(size, m, ws[..|ws| - 1]);
      if Admit(size, w.address, w.width).Done? then MapWrite(m', w) else m'
  }

  //////////////////////////////////////////////////////////////////////////////
  // The memory
  //////////////////////////////////////////////////////////////////////////////

  /** The effect of one call of the writing methods, refused ones included. */
  function Apply(mem: seq<Byte>, w: Write): (mem': seq<Byte>)
    ensures |mem'| == |mem|
  {
    if Admit(|mem|, w.address, w.width).Done? then Store(mem, w.address, Encode(w.value, w.width, w.be)) else mem
  }

  function Replay(mem: seq<Byte>, ws: seq<Write>): (mem': seq<Byte>)
    ensures |mem'| == |mem|
  {
    if ws == [] then mem else Apply(Replay(mem, ws[..|ws| - 1]), ws[|ws| - 1])
  }

  function AsMap(mem: seq<Byte>): (m: map<nat, Byte>)
    ensures forall k: nat :: k in m <==> k < |mem|
    ensures forall k: nat :: k < |mem| ==> m[k] == mem[k]
  {
    map k: nat | k < |mem| :: mem[k]
  }

  //////////////////////////////////////////////////////////////////////////////
  // Bytes of a number
  //////////////////////////////////////////////////////////////////////////////

  lemma {:induction false} DigitsAt(v: nat, n: nat, j: nat)
    requires j < n
    ensures Digits(v, n)[j] == ByteOf(v, j)
  {
    if j == 0 {
    } else {
      DigitsAt(v / 0x100, n - 1, j - 1);
      DivDiv(v, 0x100, Pow256(j - 1));
    }
  }

  lemma {:induction false} ValueAt(bytes: seq<Byte>, j: nat)
    requires j < |bytes|
    ensures ByteOf(Value(bytes), j) == bytes[j]
  {
    var rest := Value(bytes[1..]);
    HornerParts(bytes[0], rest);
    if j == 0 {
    } else {
      ValueAt(bytes[1..], j - 1);
      DivDiv(Value(bytes), 0x100, Pow256(j - 1));
    }
  }

  lemma HornerParts(b: Byte, rest: nat)
    ensures Horner(b, rest) % 0x100 == b && Horner(b, rest) / 0x100 == rest
  {
  }

  lemma EncodeAt(v: nat, n: nat, be: bool, i: nat)
    requires i < n
    ensures Encode(v, n, be)[i] == ByteOf(v, Significance(n, i, be))
  {
    DigitsAt(v, n, Significance(n, i, be));
  }

  lemma DecodeAt(bytes: seq<Byte>, be: bool, i: nat)
    requires i < |bytes|
    ensures ByteOf(Decode(bytes, be), Significance(|bytes|, i, be)) == bytes[i]
  {
    ValueAt(if be then Reversed(bytes) else bytes, Significance(|bytes|, i, be));
  }

  //////////////////////////////////////////////////////////////////////////////
  // Refinement
  //////////////////////////////////////////////////////////////////////////////

  /** After any history of byte, half-word and word writes in any byte orders, the memory is the
      map after the same history. */
  lemma {:induction false} MemoryIsMap(mem: seq<Byte>, ws: seq<Write>)
    ensures AsMap(Replay(mem, ws)) == MapReplay(|mem|, AsMap(mem), ws)
  {
    if ws == [] {
    } else {
      var before, w := Replay(mem, ws[..|ws| - 1]), ws[|ws| - 1];
      MemoryIsMap(mem, ws[..|ws| - 1]);
      if Admit(|mem|, w.address, w.width).Done? {
        ApplyIsMapWrite(before, w);
      }
    }
  }

  lemma ApplyIsMapWrite(mem: seq<Byte>, w: Write)
    requires Admit(|mem|, w.address, w.width).Done?
    ensures AsMap(Apply(mem, w)) == MapWrite(AsMap(mem), w)
  {
    hide Encode, Admit, ByteOf;
    forall k: nat | k < |mem|
      ensures Apply(mem, w)[k] == MapWrite(AsMap(mem), w)[k]
    {
      if Covers(w, k) { EncodeAt(w.value, w.width, w.be, Wrap(k - w.address)); }
    }
  }

  /** Every admitted read after that history yields the number whose bytes are the map's, in the
      order of the read. A number below 256^n is determined by its n bytes. */
  lemma ReadsMap(mem: seq<Byte>, ws: seq<Write>, address: Word, n: nat, be: bool)
    requires n > 0 && Admit(|mem|, address, n).Done?
    ensures var v, m := Decode(Load(Replay(mem, ws), address, n), be), MapReplay(|mem|, AsMap(mem), ws);
      v < Pow256(n) && forall i :: 0 <= i < n ==> Cell(address, i) in m && ByteOf(v, Significance(n, i, be)) == m[Cell(address, i)]
  {
    hide Decode, ByteOf, Replay, MapReplay;
    MemoryIsMap(mem, ws);
    var bytes := Load(Replay(mem, ws), address, n);
    forall i | 0 <= i < n
      ensures ByteOf(Decode(bytes, be), Significance(n, i, be)) == Replay(mem, ws)[Cell(address, i)]
    {
      DecodeAt(bytes, be, i);
    }
  }

  lemma {:induction false} BytesDetermine(v: nat, w: nat, n: nat)
    requires v < Pow256(n) && w < Pow256(n)
    requires forall j :: 0 <= j < n ==> ByteOf(v, j) == ByteOf(w, j)
    ensures v == w
  {
    if n == 0 {
    } else {
      forall j | 0 <= j < n - 1
        ensures ByteOf(v / 0x100, j) == ByteOf(w / 0x100, j)
      {
        DivDiv(v, 0x100, Pow256(j));
        DivDiv(w, 0x100, Pow256(j));
        assert ByteOf(v, j + 1) == ByteOf(w, j + 1);
      }
      BytesDetermine(v / 0x100, w / 0x100, n - 1);
      assert ByteOf(v, 0) == ByteOf(w, 0);
    }
  }

  /** In a memory below 4 GiB an access is carried out exactly when it lies inside the array; the
      bounds test alone admits one address more (Stray), and those that wrap around. */
  lemma DoneIffInside(size: nat, address: Word, n: nat)
    requires 0 < n <= 4 && size < WORD
    ensures Admit(size, address, n).Done? <==> address + n <= size
    ensures Admit(size, address, n).Stray? <==> address + n - 1 == size || (address + n > WORD && address + n - 1 - WORD <= size)
  {
    if address + n <= size {
      assert forall i :: 0 <= i < n ==> Cell(address, i) == address + i;
    } else if address < size {
      var i := size - address;
      assert Cell(address, i) == size;
    } else {
      assert Cell(address, 0) == address;
    }
  }

  //////////////////////////////////////////////////////////////////////////////
  // Byte orders
  //////////////////////////////////////////////////////////////////////////////

  lemma {:induction false} ValueDigits(v: nat, n: nat)
    requires v < Pow256(n)
    ensures Value(Digits(v, n)) == v
  {
    if n == 0 {
    } else {
      ValueDigits(v / 0x100, n - 1);
      assert Digits(v, n)[1..] == Digits(v / 0x100, n - 1);
    }
  }

  lemma ReversedTwice(bytes: seq<Byte>)
    ensures Reversed(Reversed(bytes)) == bytes
  {
  }

  /** The number with its n bytes in the opposite order. */
  function Swapped(v: nat, n: nat): nat {
    Value(Reversed(Digits(v, n)))
  }

  /** Reading back with the order of the write gives the value, and with the other order the value
      with its bytes swapped; swapping twice is the identity. */
  lemma OrderRoundTrip(v: nat, n: nat, e: bool, f: bool)
    requires v < Pow256(n)
    ensures Decode(Encode(v, n, e), f) == if e == f then v else Swapped(v, n)
    ensures Swapped(Swapped(v, n), n) == v
  {
    var d := Digits(v, n);
    ValueDigits(v, n);
    ReversedTwice(d);
    DigitsValue(Reversed(d));
  }

  lemma {:induction false} DigitsValue(bytes: seq<Byte>)
    ensures Digits(Value(bytes), |bytes|) == bytes
  {
    if bytes == [] {
    } else {
      DigitsValue(bytes[1..]);
      HornerParts(bytes[0], Value(bytes[1..]));
      assert bytes == [bytes[0]] + bytes[1..];
    }
  }

  /** For half-words and words the swap is the reversal of util.h. */
  lemma SwappedIs(v: Half, w: Word)
    ensures Swapped(v, 2) == Reverse2(v) && Swapped(w, 4) == Reverse4(w)
  {
    Digits2(v);
    DecodeHalf(v, Reversed(Digits(v, 2)), false);
    Digits4(w);
    WordOfBytes(w);
    DecodeWord(w, Reversed(Digits(w, 4)), false);
  }

  lemma WordOfBytes(w: Word)
    ensures w == Horner(ToByte(w), Horner(ToByte(w / 0x100), Horner(ToByte(w / 0x1_0000), ToByte(w / 0x100_0000))))
  {
    hide Horner;
    DivDiv(w, 0x100, 0x100);
    DivDiv(w, 0x1_0000, 0x100);
    HornerOf(w);
    HornerOf(w / 0x100);
    HornerOf(w / 0x1_0000);
    assert ToByte(w / 0x100_0000) == w / 0x100_0000;
  }

  lemma HornerOf(x: nat)
    ensures x == Horner(ToByte(x), x / 0x100)
  {
  }

  /** A read of the bytes just written, and a read disjoint from them. */
  lemma LoadAfterStore(mem: seq<Byte>, address: Word, bytes: seq<Byte>, other: Word, n: nat)
    requires 0 < |bytes| <= 4 && Inside(|mem|, address, |bytes|) && 0 < n <= 4 && Inside(|mem|, other, n)
    ensures Load(Store(mem, address, bytes), address, |bytes|) == bytes
    ensures (forall i, j {:trigger Cell(address, i), Cell(other, j)} :: 0 <= i < |bytes| && 0 <= j < n ==> Cell(address, i) != Cell(other, j))
        ==> Load(Store(mem, address, bytes), other, n) == Load(mem, other, n)
  {
    hide Wrap;
    forall i | 0 <= i < |bytes|
      ensures Store(mem, address, bytes)[Cell(address, i)] == bytes[i]
    {
      CellOffset(address, i, Cell(address, i));
    }
    if forall i, j {:trigger Cell(address, i), Cell(other, j)} :: 0 <= i < |bytes| && 0 <= j < n ==> Cell(address, i) != Cell(other, j) {
      forall j | 0 <= j < n
        ensures Store(mem, address, bytes)[Cell(other, j)] == mem[Cell(other, j)]
      {
        var k := Cell(other, j);
        if Wrap(k - address) < |bytes| { CellOffset(address, Wrap(k - address), k); }
      }
    }
  }

  /** A value written with order e and read back with order f. */
  lemma WriteThenRead(mem: seq<Byte>, address: Word, v: nat, n: nat, e: bool, f: bool)
    requires 0 < n <= 4 && v < Pow256(n) && Inside(|mem|, address, n)
    ensures Decode(Load(Store(mem, address, Encode(v, n, e)), address, n), f) == if e == f then v else Swapped(v, n)
  {
    LoadAfterStore(mem, address, Encode(v, n, e), address, n);
    OrderRoundTrip(v, n, e, f);
  }
}
