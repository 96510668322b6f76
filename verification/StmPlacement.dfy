/** Where stm puts the listed registers: one byte each, in list order, along a contiguous block that
    may wrap around the address space, up to the first place outside the memory. */
module StmPlacement {
  import opened Words
  import opened Memory
  import opened Machine
  import opened LoadStore

  /** The number of listed registers below i. */
  function Rank(ins: Word, i: nat): (k: nat)
    ensures k <= i
  {
    if i == 0 then 0 else Rank(ins, i - 1) + BitAt(ins, i - 1)
  }

  function Count(ins: Word): nat {
    Rank(ins, 15)
  }

  /** The base register: r4 or r0, by bit 18. */
  function Base(s: State, ins: Word): Word {
    s.regs[if ins / 0x4_0000 % 2 == 1 then 4 else 0]
  }

  /** The place of the register of rank k, modulo 2^32, by U (bit 23) and P (bit 24): base + k (IA),
      base + k + 1 (IB), base - k (DA) or base - k - 1 (DB). */
  function Place(ins: Word, base: Word, k: nat): Word {
    var b: int, up, before := base, ins / 0x80_0000 % 2 == 1, ins / 0x100_0000 % 2 == 1;
    Wrap(if up && before then b + k + 1 else if up then b + k else if before then b - k - 1 else b - k)
  }

  /** The lowest place of a block of n registers, before wrapping. */
  function Lowest(ins: Word, base: int, n: nat): int {
    var up, before := ins / 0x80_0000 % 2 == 1, ins / 0x100_0000 % 2 == 1;
    if up && before then base + 1 else if up then base else if before then base - n else base - n + 1
  }

  /** m is the rank of the first place outside the memory, or the number of listed registers. */
  ghost predicate StopsAt(size: nat, ins: Word, base: Word, m: nat) {
    && m <= Count(ins) && (forall k: nat :: k < m ==> Place(ins, base, k) < size)
    && (m < Count(ins) ==> Place(ins, base, m) >= size)
  }

  /** Register r is listed, from register i on, with a rank below m. */
  predicate Stored(ins: Word, i: nat, m: nat, r: Reg) {
    i <= r < 15 && BitAt(ins, r) == 1 && Rank(ins, r) < m
  }

  /** The memory after the registers from i on of rank below m have been stored: their low bytes are
      at their places, and all other bytes are as before. */
  ghost predicate Placed(s: State, ins: Word, base: Word, i: nat, m: nat, mem: seq<Byte>) {
    && |mem| == |s.mem|
    && (forall r: Reg :: Stored(ins, i, m, r) ==>
          var at := Place(ins, base, Rank(ins, r)); at < |mem| && mem[at] == s.regs[r] % 0x100)
    && (forall k: nat :: k < |mem| && !PlaceOf(ins, base, i, m, k) ==> mem[k] == s.mem[k])
  }

  /** k is the place of such a register. */
  ghost predicate PlaceOf(ins: Word, base: Word, i: nat, m: nat, k: int) {
    exists r: Reg :: Stored(ins, i, m, r) && k == Place(ins, base, Rank(ins, r))
  }

  /** Bits 18, 22, 23 and 24 of the word, as the code tests them. */
  lemma ModeBits(ins: Word)
    ensures SourceOf(ins) == if ins / 0x4_0000 % 2 == 1 then 4 else 0
    ensures BitAt(ins, 22) == ins / 0x40_0000 % 2
    ensures Up(ins) <==> ins / 0x80_0000 % 2 == 1
    ensures Before(ins) <==> ins / 0x100_0000 % 2 == 1
  {
    hide BitAt, Pow2;
    ModePowers();
    BitValue(ins, 18, 0x4_0000);
    BitValue(ins, 22, 0x40_0000);
    BitValue(ins, 23, 0x80_0000);
    BitValue(ins, 24, 0x100_0000);
  }

  lemma ModePowers()
    ensures Pow2(18) == 0x4_0000 && Pow2(22) == 0x40_0000 && Pow2(23) == 0x80_0000 && Pow2(24) == 0x100_0000
  {
    Pow2Values();
    assert Pow2(18) == 4 * Pow2(16);
  }

  lemma {:induction false} RankGrows(ins: Word, i: nat, j: nat)
    requires i <= j
    ensures Rank(ins, i) <= Rank(ins, j)
    ensures i < j && BitAt(ins, i) == 1 ==> Rank(ins, i) < Rank(ins, j)
  {
    if i < j { RankGrows(ins, i, j - 1); }
  }

  /** Different ranks have different places. */
  lemma PlacesApart(ins: Word, base: Word, j: nat, k: nat)
    requires j < k <= 15
    ensures Place(ins, base, j) != Place(ins, base, k)
  {
    hide Wrap;
    var b: int := base;
    WrapApart(b + j, k - j);
    WrapApart(b + j + 1, k - j);
    WrapApart(b - k, k - j);
    WrapApart(b - k - 1, k - j);
  }

  lemma WrapApart(x: int, d: int)
    requires 0 < d < WORD
    ensures Wrap(x) != Wrap(x + d)
  {
    WrapWrap(x, d);
    var w: int := Wrap(x);
    assert Wrap(w + d) == if w + d < WORD then w + d else w + d - WORD;
  }

  /** The address when i registers have been looked at. */
  function Moved(ins: Word, base: Word, i: nat): Word {
    if Up(ins) then Plus(base, Rank(ins, i)) else Minus(base, Rank(ins, i))
  }

  /** The address reached at a listed register is its place, and the next one its successor. */
  lemma AtPlace(ins: Word, base: Word, i: nat)
    requires i < 15 && BitAt(ins, i) == 1
    ensures var address := Moved(ins, base, i);
      var next := Next(ins, address);
      && next == Moved(ins, base, i + 1)
      && (if Before(ins) then next else address) == Place(ins, base, Rank(ins, i))
  {
    hide BitAt, Wrap, Up, Before;
    ModeBits(ins);
    var b: int, r := base, Rank(ins, i);
    WrapWrap(b + r, 1);
    WrapWrap(b - r, -1);
  }

  lemma {:induction false} StoreListPlaces(s: State, ins: Word, base: Word, i: nat, m: nat)
    requires i <= 15 && Rank(ins, i) <= m && StopsAt(|s.mem|, ins, base, m)
    ensures var (t, r) := StoreList(s, ins, Moved(ins, base, i), i);
      && t == s.(mem := t.mem) && Placed(s, ins, base, i, m, t.mem)
      && r == if m == Count(ins) then Ret(0) else if Place(ins, base, m) == |s.mem| then Lost else Ret(-1)
    decreases 15 - i
  {
    hide BitAt, ReadReg, Place, Moved, Next, Admit, WriteBytes, Before;
    var address := Moved(ins, base, i);
    if i == 15 {
    } else if BitAt(ins, i) == 0 {
      assert Moved(ins, base, i + 1) == address by { SameMoved(ins, base, i); }
      StoreListPlaces(s, ins, base, i + 1, m);
      PlacedSkip(s, ins, base, i, m, StoreList(s, ins, address, i + 1).0.mem);
    } else {
      AtPlace(ins, base, i);
      var at := Place(ins, base, Rank(ins, i));
      ByteAdmitted(|s.mem|, at);
      RankGrows(ins, i + 1, 15);
      if Rank(ins, i) < m {
        var b := s.regs[i] % 0x100;
        ByteAt(s, at, b);
        assert ToByte(ReadReg(s, i)) == b by { LowByte(s, i); }
        var s' := WriteBytes(s, at, [b]);
        StoreListPlaces(s', ins, base, i + 1, m);
        PlacedMore(s, s', ins, base, i, m, StoreList(s', ins, Next(ins, address), i + 1).0.mem);
      } else {
        NoneStored(ins, i, m);
      }
    }
  }

  lemma SameMoved(ins: Word, base: Word, i: nat)
    requires BitAt(ins, i) == 0
    ensures Moved(ins, base, i + 1) == Moved(ins, base, i)
  {
  }

  lemma LowByte(s: State, i: Reg)
    requires i < 15
    ensures ToByte(ReadReg(s, i)) == s.regs[i] % 0x100
  {
  }

  lemma NoneStored(ins: Word, i: nat, m: nat)
    requires m <= Rank(ins, i)
    ensures forall r: Reg :: !Stored(ins, i, m, r)
  {
    hide BitAt;
    forall r: Reg | i <= r
      ensures Rank(ins, i) <= Rank(ins, r)
    {
      RankGrows(ins, i, r);
    }
  }

  lemma ByteAdmitted(size: nat, at: Word)
    ensures Admit(size, at, 1) == if at < size then Done else if at == size then Stray else Refused
  {
    assert Cell(at, 0) == at;
  }

  /** One byte written inside the memory. */
  lemma ByteAt(s: State, at: Word, b: Byte)
    requires at < |s.mem|
    ensures WriteBytes(s, at, [b]) == s.(mem := s.mem[at := b])
  {
    assert Cell(at, 0) == at;
    StoreIs(s.mem, s.mem[at := b], at, [b]);
  }

  lemma PlacedSkip(s: State, ins: Word, base: Word, i: nat, m: nat, mem: seq<Byte>)
    requires i < 15 && BitAt(ins, i) == 0 && Placed(s, ins, base, i + 1, m, mem)
    ensures Placed(s, ins, base, i, m, mem)
  {
    hide BitAt, Place, Rank;
    assert forall r: Reg :: Stored(ins, i, m, r) <==> Stored(ins, i + 1, m, r);
    forall k: nat | k < |mem| && !PlaceOf(ins, base, i, m, k)
      ensures mem[k] == s.mem[k]
    {
      assert !PlaceOf(ins, base, i + 1, m, k);
    }
  }

  lemma PlacedMore(s: State, s': State, ins: Word, base: Word, i: nat, m: nat, mem: seq<Byte>)
    requires i < 15 && BitAt(ins, i) == 1 && Rank(ins, i) < m && Placed(s', ins, base, i + 1, m, mem)
    requires var k := Place(ins, base, Rank(ins, i)); k < |s.mem| && s' == s.(mem := s.mem[k := s.regs[i] % 0x100])
    ensures Placed(s, ins, base, i, m, mem)
  {
    hide BitAt, Place;
    var at := Place(ins, base, Rank(ins, i));
    forall r: Reg | Stored(ins, i + 1, m, r)
      ensures Place(ins, base, Rank(ins, r)) != at
    {
      RankGrows(ins, i, r);
      PlacesApart(ins, base, Rank(ins, i), Rank(ins, r));
    }
    assert !PlaceOf(ins, base, i + 1, m, at);
    forall k: nat | k < |mem| && !PlaceOf(ins, base, i, m, k)
      ensures mem[k] == s.mem[k]
    {
      var r: Reg := i;
      assert Stored(ins, i, m, r);
      assert k != Place(ins, base, Rank(ins, r));
      assert !PlaceOf(ins, base, i + 1, m, k);
    }
  }

  /** stm, from every state: every listed register whose rank is below m leaves its low byte at its
      place, and no other byte and no register changes, where m is the rank of the first place
      outside the memory, or the number of listed registers. Bit 22 turns the whole instruction off. */
  lemma StmPlaces(s: State, ins: Word, m: nat)
    requires StopsAt(|s.mem|, ins, Base(s, ins), m)
    ensures var (t, r), on := Stm(s, ins), ins / 0x40_0000 % 2 == 0;
      && t.regs == s.regs && t.cycles == s.cycles
      && (on ==> Placed(s, ins, Base(s, ins), 0, m, t.mem))
      && (on && ins != 0 ==>
            r == if m == Count(ins) then Ret(0) else if Place(ins, Base(s, ins), m) == |s.mem| then Lost else Ret(-1))
      && (!on ==> t == s && r == Ret(0))
  {
    hide BitAt, StoreList, Place;
    ModeBits(ins);
    if ins == 0 {
      NoneListed(15);
      NoneStored(ins, 0, m);
    } else {
      StoreListPlaces(s, ins, Base(s, ins), 0, m);
    }
  }

  lemma {:induction false} NoneListed(i: nat)
    ensures Rank(0, i) == 0
  {
    if i > 0 {
      NoneListed(i - 1);
      ZeroBits(i - 1);
    }
  }

  /** Every transfer stops somewhere, and at one rank only. */
  lemma StopsSomewhere(size: nat, ins: Word, base: Word) returns (m: nat)
    ensures StopsAt(size, ins, base, m)
    ensures forall m': nat :: StopsAt(size, ins, base, m') ==> m' == m
  {
    hide Place, Rank;
    m := 0;
    while m < Count(ins) && Place(ins, base, m) < size
      invariant m <= Count(ins) && forall k: nat :: k < m ==> Place(ins, base, k) < size
    {
      m := m + 1;
    }
  }

  /** The places are distinct and fill a block: a word is the place of a listed register if and only
      if it is one of the Count(ins) words from Lowest on, modulo 2^32. */
  lemma PlacesAreBlock(ins: Word, base: Word, at: Word)
    ensures PlaceOf(ins, base, 0, Count(ins), at) <==> Wrap(at - Lowest(ins, base, Count(ins))) < Count(ins)
    ensures (forall r: Reg, q: Reg :: r < q < 15 && BitAt(ins, r) == 1 && BitAt(ins, q) == 1
              ==> Place(ins, base, Rank(ins, r)) != Place(ins, base, Rank(ins, q)))
  {
    hide BitAt, Place, Wrap;
    forall r: Reg, q: Reg | r < q < 15 && BitAt(ins, r) == 1 && BitAt(ins, q) == 1
      ensures Place(ins, base, Rank(ins, r)) != Place(ins, base, Rank(ins, q))
    {
      RankGrows(ins, r, q);
      PlacesApart(ins, base, Rank(ins, r), Rank(ins, q));
    }
    var low, n := Lowest(ins, base, Count(ins)), Count(ins);
    if PlaceOf(ins, base, 0, n, at) {
      var r: Reg :| Stored(ins, 0, n, r) && at == Place(ins, base, Rank(ins, r));
      FromLowest(ins, base, n, Rank(ins, r));
    }
    if Wrap(at - low) < n {
      var rank := if ins / 0x80_0000 % 2 == 1 then Wrap(at - low) else n - 1 - Wrap(at - low);
      FromLowest(ins, base, n, rank);
      WrapWrap(at - low, low);
      WrapWrap(Wrap(at - low) - n, n);
      SameDistance(at, Place(ins, base, rank), low);
      var r := Unrank(ins, rank, 15);
    }
  }

  /** How far a place is from the lowest one: its rank, counted from the other end when going down. */
  lemma FromLowest(ins: Word, base: Word, n: nat, k: nat)
    requires k < n <= 15
    ensures Wrap(Place(ins, base, k) - Lowest(ins, base, n)) == if ins / 0x80_0000 % 2 == 1 then k else n - 1 - k
  {
    hide Wrap;
    var b: int, low := base, Lowest(ins, base, n);
    WrapWrap(b + k + 1, -low);
    WrapWrap(b + k, -low);
    WrapWrap(b - k - 1, -low);
    WrapWrap(b - k, -low);
    WrapInside(k);
    WrapInside(n - 1 - k);
  }

  lemma WrapInside(k: int)
    requires 0 <= k < WORD
    ensures Wrap(k) == k
  {
  }

  lemma SameDistance(x: Word, y: Word, low: int)
    requires Wrap(x - low) == Wrap(y - low)
    ensures x == y
  {
    hide Wrap;
    WrapWrap(x - low, low);
    WrapWrap(y - low, low);
    WrapInside(x);
    WrapInside(y);
  }

  /** Every rank is some listed register's. */
  lemma {:induction false} Unrank(ins: Word, k: nat, i: nat) returns (r: Reg)
    requires k < Rank(ins, i) && i <= 15
    ensures r < i && BitAt(ins, r) == 1 && Rank(ins, r) == k
  {
    if k < Rank(ins, i - 1) {
      r := Unrank(ins, k, i - 1);
    } else {
      r := i - 1;
    }
  }
}
