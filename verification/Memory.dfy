/** The byte memory (memory.c): one array of bytes, accessed by byte, half-word and word in
    either byte order. */
module Memory {
  import opened Words

  /** How an access ends: it is carried out (C returns 0), refused by the bounds test (C returns
      -1), or admitted by the test although it touches a byte outside the array. The last is
      undefined in C; here it is reported and changes nothing. */
  datatype Access = Done | Refused | Stray

  /** The i-th byte of an access: addresses are 32-bit sums. */
  function Cell(address: Word, i: nat): Word {
    Wrap(address + i)
  }

  predicate Inside(size: nat, address: Word, n: nat) {
    forall i {:trigger Cell(address, i)} :: 0 <= i < n ==> Cell(address, i) < size
  }

  /** The outcome of an access of n bytes: the bounds test looks at the last address only. */
  function Admit(size: nat, address: Word, n: nat): Access
    requires n > 0
  {
    if Cell(address, n - 1) > size then Refused else if Inside(size, address, n) then Done else Stray
  }

  function Load(mem: seq<Byte>, address: Word, n: nat): (bytes: seq<Byte>)
    requires Inside(|mem|, address, n)
    ensures |bytes| == n
  {
    seq(n, i requires 0 <= i < n => mem[Cell(address, i)])
  }

  /** The memory with the given bytes at address, address + 1, ... */
  function Store(mem: seq<Byte>, address: Word, bytes: seq<Byte>): (mem': seq<Byte>)
    ensures |mem'| == |mem|
  {
    seq(|mem|, k requires 0 <= k < |mem| =>
      if k < WORD && Wrap(k - address) < |bytes| then bytes[Wrap(k - address)] else mem[k])
  }

  /** The converse of Store: an update of exactly the addressed bytes. */
  lemma StoreIs(mem: seq<Byte>, mem': seq<Byte>, address: Word, bytes: seq<Byte>)
    requires |mem'| == |mem| && |bytes| < WORD
    requires forall i :: 0 <= i < |bytes| ==> Cell(address, i) < |mem| && mem'[Cell(address, i)] == bytes[i]
    requires forall k :: 0 <= k < |mem| && (forall i :: 0 <= i < |bytes| ==> k != Cell(address, i)) ==> mem'[k] == mem[k]
    ensures mem' == Store(mem, address, bytes)
  {
    forall k | 0 <= k < |mem|
      ensures mem'[k] == Store(mem, address, bytes)[k]
    {
      if k < WORD && Wrap(k - address) < |bytes| {
        CellOffset(address, Wrap(k - address), k);
      } else {
        forall i | 0 <= i < |bytes|
          ensures k != Cell(address, i)
        {
          CellOffset(address, i, k);
        }
      }
    }
  }

  /** The offset of a byte from the start of an access, and back. */
  lemma CellOffset(address: Word, i: nat, k: nat)
    requires i < WORD
    ensures k == Cell(address, i) <==> k < WORD && Wrap(k - address) == i
  {
    if k < WORD && k >= address {
      assert Wrap(k - address) == k - address;
    } else if k < WORD {
      assert Wrap(k - address) == k - address + WORD;
    }
    assert Cell(address, i) == if address + i < WORD then address + i else address + i - WORD;
  }

  lemma CellsDistinct(address: Word)
    ensures forall i, j :: 0 <= i < 4 && 0 <= j < 4 && i != j ==> Cell(address, i) != Cell(address, j)
  {
    forall i, j | 0 <= i < 4 && 0 <= j < 4 && i != j
      ensures Cell(address, i) != Cell(address, j)
    {
      CellOffset(address, i, Cell(address, i));
      CellOffset(address, j, Cell(address, i));
    }
  }

  /** Conversion to uint8_t. */
  function ToByte(x: int): Byte {
    x % 0x100
  }

  //////////////////////////////////////////////////////////////////////////////
  // Byte order
  //////////////////////////////////////////////////////////////////////////////

  function Pow256(n: nat): (r: nat)
    ensures r > 0
  {
    if n == 0 then 1 else 0x100 * Pow256(n - 1)
  }

  /** The n low bytes, least significant first. */
  function Digits(v: nat, n: nat): (bytes: seq<Byte>)
    ensures |bytes| == n
  {
    if n == 0 then [] else [ToByte(v)] + Digits(v / 0x100, n - 1)
  }

  function Value(bytes: seq<Byte>): (v: nat)
    ensures v < Pow256(|bytes|)
  {
    if bytes == [] then 0 else Horner(bytes[0], Value(bytes[1..]))
  }

  function Reversed(bytes: seq<Byte>): (r: seq<Byte>)
    ensures |r| == |bytes|
  {
    seq(|bytes|, i requires 0 <= i < |bytes| => bytes[|bytes| - 1 - i])
  }

  /** The bytes of an n-byte value in the order they lie in memory. */
  function Encode(v: nat, n: nat, be: bool): (bytes: seq<Byte>)
    ensures |bytes| == n
  {
    if be then Reversed(Digits(v, n)) else Digits(v, n)
  }

  function Decode(bytes: seq<Byte>, be: bool): (v: nat)
    ensures v < Pow256(|bytes|)
  {
    Value(if be then Reversed(bytes) else bytes)
  }

  /** One turn of the reading loop: the bits shifted past the width are lost. */
  function ShiftIn(v: Word, b: Byte): (r: Word)
    ensures r == Horner(b, v % 0x100_0000)
  {
    ShiftOut(v, 0x100_0000);
    Wrap(v * 0x100) + b
  }

  function ShiftInHalf(v: Half, b: Byte): (r: Half)
    ensures r == Horner(b, v % 0x100)
  {
    ShiftOut(v, 0x100);
    v * 0x100 % 0x1_0000 + b
  }

  lemma ShiftInLow(v: Word, b: Byte)
    ensures ShiftIn(v, b) % 0x100 == b
    ensures ShiftIn(v, b) % 0x1_0000 == Horner(b, v % 0x100)
    ensures ShiftIn(v, b) % 0x100_0000 == Horner(b, v % 0x1_0000)
  {
    hide Horner;
    var rest := v % 0x100_0000;
    HornerLow(b, rest, 1);
    HornerLow(b, rest, 0x100);
    HornerLow(b, rest, 0x1_0000);
    ModMod(v, 0x100, 0x1_0000);
    ModMod(v, 0x1_0000, 0x100);
    assert Horner(b, 0) == b by { HornerZero(b); }
  }

  lemma HornerZero(b: Byte)
    ensures Horner(b, 0) == b
  {
  }

  lemma HornerLow(b: Byte, rest: nat, m: nat)
    requires m > 0
    ensures Horner(b, rest) % (0x100 * m) == Horner(b, rest % m)
  {
    assert 0x100 * rest == (0x100 * m) * (rest / m) + 0x100 * (rest % m);
    DivUnique(Horner(b, rest), 0x100 * m, rest / m, Horner(b, rest % m));
  }

  lemma ShiftOut(v: nat, p: nat)
    requires p > 0
    ensures v * 0x100 % (p * 0x100) == v % p * 0x100
  {
    var q, r := v / p, v % p;
    assert v == p * q + r;
    assert v * 0x100 == (p * 0x100) * q + r * 0x100;
    DivUnique(v * 0x100, p * 0x100, q, r * 0x100);
  }

  function Horner(b: int, rest: int): int {
    b + 0x100 * rest
  }

  lemma Value2(b: seq<Byte>)
    requires |b| == 2
    ensures Value(b) == Horner(b[0], b[1])
  {
    assert b[1..][1..] == [];
  }

  lemma Value4(b: seq<Byte>)
    requires |b| == 4
    ensures Value(b) == Horner(b[0], Horner(b[1], Horner(b[2], b[3])))
  {
    Value2(b[2..]);
    assert b[1..][1..] == b[2..];
  }

  lemma Reverse2Is(a: Byte, b: Byte)
    ensures Reverse2(Horner(b, a)) == Horner(a, b)
  {
    DivUnique(Horner(b, a), 0x100, a, b);
  }

  lemma Reverse4Is(a: Byte, b: Byte, c: Byte, d: Byte)
    ensures Reverse4(Horner(d, Horner(c, Horner(b, a)))) == Horner(a, Horner(b, Horner(c, d)))
  {
    var v := Horner(d, Horner(c, Horner(b, a)));
    DivUnique(v, 0x100, Horner(c, Horner(b, a)), d);
    DivUnique(Horner(c, Horner(b, a)), 0x100, Horner(b, a), c);
    DivUnique(v, 0x1_0000, Horner(b, a), Horner(d, c));
    DivUnique(Horner(b, a), 0x100, a, b);
    DivUnique(v, 0x100_0000, a, Horner(d, Horner(c, b)));
  }

  /** The value assembled by the reading loop is the big-endian one; its reversal is the other. */
  lemma DecodeHalf(v: Half, b: seq<Byte>, be: bool)
    requires |b| == 2 && v == Horner(b[1], b[0])
    ensures Decode(b, be) == if be then v else Reverse2(v)
  {
    hide Horner, Value, Reverse2;
    Value2(b);
    Value2(Reversed(b));
    Reverse2Is(b[0], b[1]);
  }

  lemma DecodeWord(v: Word, b: seq<Byte>, be: bool)
    requires |b| == 4 && v == Horner(b[3], Horner(b[2], Horner(b[1], b[0])))
    ensures Decode(b, be) == if be then v else Reverse4(v)
  {
    hide Horner, Value, Reverse4;
    Value4(b);
    Value4(Reversed(b));
    Reverse4Is(b[0], b[1], b[2], b[3]);
  }

  lemma Digits2(v: nat)
    ensures Digits(v, 2) == [ToByte(v), ToByte(v / 0x100)]
  {
  }

  lemma Digits4(v: nat)
    ensures Digits(v, 4) == [ToByte(v), ToByte(v / 0x100), ToByte(v / 0x1_0000), ToByte(v / 0x100_0000)]
  {
    Digits2(v / 0x1_0000);
    assert v / 0x100 / 0x100 == v / 0x1_0000 && v / 0x1_0000 / 0x100 == v / 0x100_0000;
    assert Digits(v, 4) == [ToByte(v)] + ([ToByte(v / 0x100)] + Digits(v / 0x1_0000, 2));
  }

  //////////////////////////////////////////////////////////////////////////////
  // The memory object
  //////////////////////////////////////////////////////////////////////////////

  class ByteMemory {
    const value: array<Byte>
    const taille: nat

    ghost predicate Valid() {
      value.Length == taille
    }

    /** malloc leaves the bytes unspecified. */
    constructor (size: nat)
      ensures Valid() && taille == size && fresh(value)
    {
      value := new Byte[size];
      taille := size;
    }

    method ReadByte(address: Word, before: Byte) returns (r: Access, v: Byte)
      requires Valid()
      ensures r == Admit(taille, address, 1)
      ensures v == if r.Done? then value[address] else before
    {
      v := before;
      assert Cell(address, 0) == address;
      if address > taille { return Refused, v; }
      if !Inside(taille, address, 1) { return Stray, v; }
      v := value[address];
      r := Done;
    }

    /** The output variable is shifted, not cleared: what it held before is pushed out. */
    method ReadHalf(address: Word, before: Half, be: bool) returns (r: Access, v: Half)
      requires Valid()
      ensures r == Admit(taille, address, 2)
      ensures v == if r.Done? then Decode(Load(value[..], address, 2), be) else before
    {
      v := before;
      if Cell(address, 1) > taille { return Refused, v; }
      if !Inside(taille, address, 2) { return Stray, v; }
      hide Value, Decode, Reversed, Horner, Reverse2, Reverse4;
      ghost var bytes := Load(value[..], address, 2);
      for i := 0 to 2
        invariant i == 1 ==> v % 0x100 == bytes[0]
        invariant i == 2 ==> v == Horner(bytes[1], bytes[0])
      {
        assert Cell(address, i) < taille;
        v := ShiftInHalf(v, value[Cell(address, i)]);
      }
      DecodeHalf(v, bytes, be);
      if !be { v := Reverse2(v); }
      r := Done;
    }

    method ReadWord(address: Word, before: Word, be: bool) returns (r: Access, v: Word)
      requires Valid()
      ensures r == Admit(taille, address, 4)
      ensures v == if r.Done? then Decode(Load(value[..], address, 4), be) else before
    {
      v := before;
      if Cell(address, 3) > taille { return Refused, v; }
      if !Inside(taille, address, 4) { return Stray, v; }
      hide Value, Decode, Reversed, Horner, Reverse2, Reverse4;
      ghost var bytes := Load(value[..], address, 4);
      for i := 0 to 4
        invariant i == 1 ==> v % 0x100 == bytes[0]
        invariant i == 2 ==> v % 0x1_0000 == Horner(bytes[1], bytes[0])
        invariant i == 3 ==> v % 0x100_0000 == Horner(bytes[2], Horner(bytes[1], bytes[0]))
        invariant i == 4 ==> v == Horner(bytes[3], Horner(bytes[2], Horner(bytes[1], bytes[0])))
      {
        assert Cell(address, i) < taille;
        ShiftInLow(v, value[Cell(address, i)]);
        v := ShiftIn(v, value[Cell(address, i)]);
      }
      DecodeWord(v, bytes, be);
      if !be { v := Reverse4(v); }
      r := Done;
    }

    method WriteByte(address: Word, v: Byte) returns (r: Access)
      requires Valid()
      modifies value
      ensures r == Admit(taille, address, 1)
      ensures value[..] == if r.Done? then Store(old(value[..]), address, [v]) else old(value[..])
    {
      assert Cell(address, 0) == address;
      if address > taille { return Refused; }
      if !Inside(taille, address, 1) { return Stray; }
      value[address] := v;
      StoreIs(old(value[..]), value[..], address, [v]);
      r := Done;
    }

    method WriteHalf(address: Word, v: Half, be: bool) returns (r: Access)
      requires Valid()
      modifies value
      ensures r == Admit(taille, address, 2)
      ensures value[..] == if r.Done? then Store(old(value[..]), address, Encode(v, 2, be)) else old(value[..])
    {
      if Cell(address, 1) > taille { return Refused; }
      if !Inside(taille, address, 2) { return Stray; }
      assert Cell(address, 0) == address;
      assert Cell(address, 0) < taille && Cell(address, 1) < taille;
      CellsDistinct(address);
      hide Wrap, Store;
      if be {
        value[address] := ToByte(v / 0x100);
        value[Cell(address, 1)] := ToByte(v);
      } else {
        value[address] := ToByte(v);
        value[Cell(address, 1)] := ToByte(v / 0x100);
      }
      Digits2(v);
      StoreIs(old(value[..]), value[..], address, Encode(v, 2, be));
      r := Done;
    }

    method WriteWord(address: Word, v: Word, be: bool) returns (r: Access)
      requires Valid()
      modifies value
      ensures r == Admit(taille, address, 4)
      ensures value[..] == if r.Done? then Store(old(value[..]), address, Encode(v, 4, be)) else old(value[..])
    {
      if Cell(address, 3) > taille { return Refused; }
      if !Inside(taille, address, 4) { return Stray; }
      assert Cell(address, 0) == address;
      assert Cell(address, 0) < taille && Cell(address, 1) < taille;
      CellsDistinct(address);
      hide Wrap, Store;
      assert Cell(address, 2) < taille && Cell(address, 3) < taille;
      if be {
        value[address] := ToByte(v / 0x100_0000);
        value[Cell(address, 1)] := ToByte(v / 0x1_0000);
        value[Cell(address, 2)] := ToByte(v / 0x100);
        value[Cell(address, 3)] := ToByte(v);
      } else {
        value[address] := ToByte(v);
        value[Cell(address, 1)] := ToByte(v / 0x100);
        value[Cell(address, 2)] := ToByte(v / 0x1_0000);
        value[Cell(address, 3)] := ToByte(v / 0x100_0000);
      }
      Digits4(v);
      StoreIs(old(value[..]), value[..], address, Encode(v, 4, be));
      r := Done;
    }
  }
}
