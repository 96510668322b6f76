/** Numbers of n limbs added and subtracted by sequences of instructions joined by the C flag. */
module MultiLimb {
  import opened Words
  import opened Machine
  import opened Alu
  import opened DataProcessing
  import opened ManualFlags
  import opened CarryChain

  /** n flag-setting instructions, each with the state before and after it. Between two of them
      everything but the C flag may be reloaded. */
  datatype Run = Run(ins: seq<Word>, pre: seq<State>, post: seq<State>)

  function OpAt(first: Opcode, next: Opcode, i: nat): Opcode {
    if i == 0 then first else next
  }

  /** The run executes first once and then next, S = 1 and rd not the pc throughout. */
  ghost predicate Chain(p: Platform, first: Opcode, next: Opcode, run: Run)
    ensures Chain(p, first, next, run) ==> 0 < |run.ins| == |run.pre| == |run.post|
  {
    && 0 < |run.ins| == |run.pre| == |run.post|
    && (forall i :: 0 <= i < |run.ins| ==> IsLimb(p, OpAt(first, next, i), run.ins[i], run.pre[i], run.post[i]))
    && (forall i :: 0 < i < |run.ins| ==> StateFlags(run.pre[i]).c == StateFlags(run.post[i - 1]).c)
  }

  ghost predicate IsLimb(p: Platform, op: Opcode, ins: Word, pre: State, post: State) {
    OpcodeOf(ins) == op && SetsOf(ins) == 1 && RdOf(ins) != 15 && post == Process(p, pre, ins)
  }

  /** The limbs read from rn, the second operands, the limbs left in rd, and the C flags. */
  function First(run: Run): (s: seq<Word>)
    requires |run.ins| == |run.pre|
    ensures |s| == |run.ins|
  {
    seq(|run.ins|, i requires 0 <= i < |run.ins| => ReadReg(run.pre[i], RnOf(run.ins[i])))
  }

  function Second(p: Platform, run: Run): (s: seq<Word>)
    requires |run.ins| == |run.pre|
    ensures |s| == |run.ins|
  {
    seq(|run.ins|, i requires 0 <= i < |run.ins| => Operand(p, run.pre[i], run.ins[i]).0)
  }

  function Results(run: Run): (s: seq<Word>)
    requires |run.ins| == |run.post|
    ensures |s| == |run.ins|
  {
    seq(|run.ins|, i requires 0 <= i < |run.ins| => run.post[i].regs[RdOf(run.ins[i])])
  }

  function Carries(run: Run, c0: Bit): (s: seq<Bit>)
    ensures |s| == |run.post| + 1
  {
    seq(|run.post| + 1, i requires 0 <= i <= |run.post| => if i == 0 then c0 else StateFlags(run.post[i - 1]).c)
  }

  function FinalCarry(run: Run): Bit
    requires |run.post| > 0
  {
    StateFlags(run.post[|run.post| - 1]).c
  }

  //////////////////////////////////////////////////////////////////////////////
  // One limb
  //////////////////////////////////////////////////////////////////////////////

  /** The addition that an operation performs: subtraction adds the complement. */
  function Augend(op: Opcode, a: Word, b: Word): Word {
    if op == 3 || op == 7 then b else a
  }

  function Addend(op: Opcode, a: Word, b: Word): Word {
    if op == 4 || op == 5 then b else if op == 2 || op == 6 then Not(b) else Not(a)
  }

  /** What the code's carry lacks. */
  function Missing(op: Opcode, a: Word, b: Word, c: Bit): int {
    ManualCarry(op, a, b, c, 0) - CarryFlag(op, a, b, c, 0)
  }

  lemma LimbEquation(op: Opcode, a: Word, b: Word, c: Bit, sc: Bit)
    requires 2 <= op < 8
    ensures var cin := if op == 4 then 0 else if op < 4 then 1 else c;
      DigitSum(Augend(op, a, b), Addend(op, a, b), cin, Result(op, a, b, c), CarryFlag(op, a, b, c, sc), Missing(op, a, b, c))
    ensures Missing(op, a, b, c) in {-1, 0, 1} && (op < 5 ==> Missing(op, a, b, c) == 0)
  {
    hide Result, ManualCarry, Wrap;
    ExactDigit(op, a, b, c);
    if op < 5 { CarryAgrees(op, a, b, c, 0); }
  }

  /** The result and the manual's carry are the two digits of the exact sum. */
  lemma ExactDigit(op: Opcode, a: Word, b: Word, c: Bit)
    requires 2 <= op < 8
    ensures var cin := if op == 4 then 0 else if op < 4 then 1 else c;
      DigitSum(Augend(op, a, b), Addend(op, a, b), cin, Result(op, a, b, c), ManualCarry(op, a, b, c, 0), 0)
  {
    hide Wrap;
    var x: int, y: int, nc: int := a, b, 1 - c;
    match op
    case 2 => WrapOnce(x - y);
    case 3 => WrapOnce(y - x);
    case 4 => WrapOnce(x + y);
    case 5 => WrapOnce(x + y + 1 - nc);
    case 6 => WrapOnce(x - y - nc);
    case 7 => WrapOnce(y - x - nc);
  }

  lemma WrapOnce(t: int)
    requires 0 <= t + WORD && t < 2 * WORD
    ensures Wrap(t) == if t < 0 then t + WORD else if t < WORD then t else t - WORD
  {
  }

  /** The carry table of one family: whether limb i passes on the right carry when it gets c. */
  predicate Passes(op: Opcode, a: Word, b: Word, c: Bit) {
    match op
    case 5 => !(b == MAX && c == 1)
    case 6 => BorrowChainOk(a, b, 1 - c)
    case 7 => BorrowChainOk(b, a, 1 - c)
    case _ => true
  }

  //////////////////////////////////////////////////////////////////////////////
  // All limbs
  //////////////////////////////////////////////////////////////////////////////

  function Errors(p: Platform, next: Opcode, run: Run, c: seq<Bit>): (e: seq<int>)
    requires |run.ins| == |run.pre| && |c| == |run.ins| + 1
    ensures |e| == |run.ins|
  {
    seq(|run.ins|, i requires 0 <= i < |run.ins| =>
      if i == 0 then 0 else Missing(next, First(run)[i], Second(p, run)[i], c[i]))
  }

  function Augends(p: Platform, op: Opcode, run: Run): (s: seq<Word>)
    requires |run.ins| == |run.pre|
    ensures |s| == |run.ins|
  {
    if op == 7 then Second(p, run) else First(run)
  }

  function Addends(p: Platform, op: Opcode, run: Run): (s: seq<Word>)
    requires |run.ins| == |run.pre|
    ensures |s| == |run.ins|
  {
    if op == 5 then Second(p, run) else if op == 6 then Complement(Second(p, run)) else Complement(First(run))
  }

  predicate Pair(first: Opcode, next: Opcode) {
    (first == 4 && next == 5) || (first == 2 && next == 6) || (first == 3 && next == 7)
  }

  function CarryIn(first: Opcode): Bit {
    if first == 4 then 0 else 1
  }

  lemma ChainAdds(p: Platform, first: Opcode, next: Opcode, run: Run)
    requires Pair(first, next) && Chain(p, first, next, run)
    ensures var c := Carries(run, CarryIn(first));
      Adds(Augends(p, next, run), Addends(p, next, run), Results(run), c, Errors(p, next, run, c))
  {
    var c := Carries(run, CarryIn(first));
    var e := Errors(p, next, run, c);
    forall i {:trigger e[i]} | 0 <= i < |run.ins|
      ensures e[i] in {-1, 0, 1}
      ensures DigitSum(Augends(p, next, run)[i], Addends(p, next, run)[i], c[i], Results(run)[i], c[i + 1], e[i])
    {
      LimbOfChain(p, first, next, run, i);
    }
  }

  lemma LimbOfChain(p: Platform, first: Opcode, next: Opcode, run: Run, i: nat)
    requires Pair(first, next) && Chain(p, first, next, run) && i < |run.ins|
    ensures var c := Carries(run, CarryIn(first));
      var e := Errors(p, next, run, c);
      && e[i] in {-1, 0, 1}
      && DigitSum(Augends(p, next, run)[i], Addends(p, next, run)[i], c[i], Results(run)[i], c[i + 1], e[i])
  {
    hide Operand, ReadReg, StateFlags, Result, CarryFlag, DigitSum, Missing, Process, First, Second, Results, Carries, Errors, Chain, Complement;
    var ins, pre, op := run.ins[i], run.pre[i], OpAt(first, next, i);
    LimbAt(p, first, next, run, i);
    var (b, sc) := Operand(p, pre, ins);
    var a, c := ReadReg(pre, RnOf(ins)), StateFlags(pre).c;
    ProcessEffect(p, pre, ins);
    LimbEquation(op, a, b, c, sc);
    ComplementAt(First(run), i);
    ComplementAt(Second(p, run), i);
  }

  lemma ComplementAt(s: seq<Word>, i: nat)
    requires i < |s|
    ensures Complement(s)[i] == Not(s[i])
  {
  }

  /** Limb i, unfolded. */
  lemma LimbAt(p: Platform, first: Opcode, next: Opcode, run: Run, i: nat)
    requires Chain(p, first, next, run) && i < |run.ins|
    ensures IsLimb(p, OpAt(first, next, i), run.ins[i], run.pre[i], run.post[i])
    ensures First(run)[i] == ReadReg(run.pre[i], RnOf(run.ins[i])) && Second(p, run)[i] == Operand(p, run.pre[i], run.ins[i]).0
    ensures Results(run)[i] == run.post[i].regs[RdOf(run.ins[i])]
    ensures var c := Carries(run, CarryIn(first));
      && c[i] == (if i == 0 then CarryIn(first) else StateFlags(run.pre[i]).c)
      && c[i + 1] == StateFlags(run.post[i]).c
      && Errors(p, next, run, c)[i] == if i == 0 then 0 else Missing(next, First(run)[i], Second(p, run)[i], c[i])
  {
    hide Operand, ReadReg, StateFlags, Missing, Process, IsLimb, Errors, First, Second;
    ReadAt(p, run, i);
    ErrorAt(p, next, run, Carries(run, CarryIn(first)), i);
  }

  lemma ReadAt(p: Platform, run: Run, i: nat)
    requires |run.ins| == |run.pre| && i < |run.ins|
    ensures First(run)[i] == ReadReg(run.pre[i], RnOf(run.ins[i])) && Second(p, run)[i] == Operand(p, run.pre[i], run.ins[i]).0
  {
    hide Operand, ReadReg;
  }

  lemma ErrorAt(p: Platform, next: Opcode, run: Run, c: seq<Bit>, i: nat)
    requires |run.ins| == |run.pre| && |c| == |run.ins| + 1 && i < |run.ins|
    ensures Errors(p, next, run, c)[i] == if i == 0 then 0 else Missing(next, First(run)[i], Second(p, run)[i], c[i])
  {
    hide Missing, First, Second;
  }

  /** The wrong carries are exactly those of limbs that do not pass on the exact carry. */
  lemma {:induction false} NoneMissing(p: Platform, first: Opcode, next: Opcode, run: Run, m: nat)
    requires Pair(first, next) && Chain(p, first, next, run) && m <= |run.ins|
    ensures var c := Carries(run, CarryIn(first));
      (forall i :: 0 <= i < m ==> Errors(p, next, run, c)[i] == 0) <==> (forall i :: 1 <= i < m ==> PassesExact(p, first, next, run, i))
  {
    hide Errors, PassesExact, Adds, Chain, Carries, First, Second;
    var c := Carries(run, CarryIn(first));
    var e := Errors(p, next, run, c);
    if m == 0 {
    } else if m == 1 {
      FirstRight(p, next, run, c);
    } else {
      var k := m - 1;
      NoneMissing(p, first, next, run, k);
      if forall i :: 0 <= i < k ==> e[i] == 0 {
        LimbMissing(p, first, next, run, k);
      }
    }
  }

  lemma FirstRight(p: Platform, next: Opcode, run: Run, c: seq<Bit>)
    requires 0 < |run.ins| == |run.pre| && |c| == |run.ins| + 1
    ensures Errors(p, next, run, c)[0] == 0
  {
  }

  lemma LimbMissing(p: Platform, first: Opcode, next: Opcode, run: Run, k: nat)
    requires Pair(first, next) && Chain(p, first, next, run) && 0 < k < |run.ins|
    requires forall i :: 0 <= i < k ==> Errors(p, next, run, Carries(run, CarryIn(first)))[i] == 0
    ensures Errors(p, next, run, Carries(run, CarryIn(first)))[k] == 0 <==> PassesExact(p, first, next, run, k)
  {
    hide Missing, Passes, Adds, Base, Sum, First, Second, Results, Carries, Errors, Chain, Complement;
    var c := Carries(run, CarryIn(first));
    assert c[0] == CarryIn(first) by { LimbAt(p, first, next, run, 0); }
    LimbAt(p, first, next, run, k);
    ChainAdds(p, first, next, run);
    TrueCarry(Augends(p, next, run), Addends(p, next, run), Results(run), c, Errors(p, next, run, c), k);
    MissingIff(next, First(run)[k], Second(p, run)[k], c[k]);
  }

  lemma MissingIff(next: Opcode, a: Word, b: Word, c: Bit)
    ensures Missing(next, a, b, c) == 0 <==> Passes(next, a, b, c)
  {
    CarryAgrees(next, a, b, c, 0);
  }

  ghost predicate PassesExact(p: Platform, first: Opcode, next: Opcode, run: Run, i: nat)
    requires |run.ins| == |run.pre| && i < |run.ins|
  {
    var x, y := Augends(p, next, run), Addends(p, next, run);
    Passes(next, First(run)[i], Second(p, run)[i], ToBit(Sum(x, i) + Sum(y, i) + CarryIn(first) >= Base(i)))
  }

  //////////////////////////////////////////////////////////////////////////////
  // Addition and subtraction
  //////////////////////////////////////////////////////////////////////////////

  /** No limb after the first is all ones under an exact carry. */
  ghost predicate NoCarryLost(a: seq<Word>, b: seq<Word>, n: nat)
    requires n <= |a| == |b|
  {
    forall i :: 1 <= i < n ==> !(b[i] == MAX && Sum(a, i) + Sum(b, i) >= Base(i))
  }

  /** ADD and then ADCs. The result and the final C flag are the exact sum of two n-limb numbers
      if and only if no carry is lost; modulo 2^(32n) the last limb does not matter. */
  lemma Addition(p: Platform, run: Run)
    requires Chain(p, 4, 5, run)
    ensures var a, b, r, n := First(run), Second(p, run), Results(run), |run.ins|;
      && (Sum(r, n) + Base(n) * FinalCarry(run) == Sum(a, n) + Sum(b, n) <==> NoCarryLost(a, b, n))
      && (Sum(r, n) == (Sum(a, n) + Sum(b, n)) % Base(n) <==> NoCarryLost(a, b, n - 1))
  {
    hide Sum, Base, Adds, PassesExact, Errors, First, Second, Results, Chain;
    var c, n := Carries(run, 0), |run.ins|;
    ChainAdds(p, 4, 5, run);
    assert c[n] == FinalCarry(run) && c[0] == 0;
    ExactSum(First(run), Second(p, run), Results(run), c, Errors(p, 5, run, c));
    ModularSum(First(run), Second(p, run), Results(run), c, Errors(p, 5, run, c));
    NoneMissing(p, 4, 5, run, n);
    NoneMissing(p, 4, 5, run, n - 1);
    forall i | 1 <= i < n
      ensures PassesExact(p, 4, 5, run, i) <==> !(Second(p, run)[i] == MAX && Sum(First(run), i) + Sum(Second(p, run), i) >= Base(i))
    {
      PassesAddition(p, run, i);
    }
  }

  lemma PassesAddition(p: Platform, run: Run, i: nat)
    requires |run.ins| == |run.pre| && i < |run.ins|
    ensures PassesExact(p, 4, 5, run, i) <==> !(Second(p, run)[i] == MAX && Sum(First(run), i) + Sum(Second(p, run), i) >= Base(i))
  {
    hide Sum, Base, First, Second;
  }

  /** No limb after the first mistakes a borrow, given the exact borrow into it. */
  ghost predicate NoBorrowLost(a: seq<Word>, b: seq<Word>, n: nat)
    requires n <= |a| == |b|
  {
    forall i :: 1 <= i < n ==> BorrowChainOk(a[i], b[i], ToBit(Sum(a, i) < Sum(b, i)))
  }

  /** The difference x - y in n limbs, where x and y are the operands of SUB and SBC, or those of
      RSB and RSC exchanged. C = 0 stands for a borrow. */
  lemma Subtraction(p: Platform, first: Opcode, next: Opcode, run: Run)
    requires (first == 2 && next == 6) || (first == 3 && next == 7)
    requires Chain(p, first, next, run)
    ensures var x := if first == 2 then First(run) else Second(p, run);
      var y := if first == 2 then Second(p, run) else First(run);
      var r, n := Results(run), |run.ins|;
      && (Sum(r, n) + Base(n) * FinalCarry(run) == Sum(x, n) - Sum(y, n) + Base(n) <==> NoBorrowLost(x, y, n))
      && (Sum(r, n) == (Sum(x, n) - Sum(y, n)) % Base(n) <==> NoBorrowLost(x, y, n - 1))
  {
    hide Sum, Base, Adds, PassesExact, Errors, First, Second, Results, Chain, BorrowChainOk, Complement;
    var x := if first == 2 then First(run) else Second(p, run);
    var y := if first == 2 then Second(p, run) else First(run);
    var c, r, n := Carries(run, 1), Results(run), |run.ins|;
    ChainAdds(p, first, next, run);
    assert c[n] == FinalCarry(run) && c[0] == 1;
    ExactSum(x, Complement(y), r, c, Errors(p, next, run, c));
    ModularSum(x, Complement(y), r, c, Errors(p, next, run, c));
    NoneMissing(p, first, next, run, n);
    NoneMissing(p, first, next, run, n - 1);
    SumComplement(y, n);
    ModBase(Sum(x, n) - Sum(y, n), Base(n));
    forall i | 1 <= i < n
      ensures PassesExact(p, first, next, run, i) <==> BorrowChainOk(x[i], y[i], ToBit(Sum(x, i) < Sum(y, i)))
    {
      PassesSubtraction(p, first, next, run, x, y, i);
    }
  }

  lemma PassesSubtraction(p: Platform, first: Opcode, next: Opcode, run: Run, x: seq<Word>, y: seq<Word>, i: nat)
    requires |run.ins| == |run.pre| && i < |run.ins|
    requires (first == 2 && next == 6 && x == First(run) && y == Second(p, run))
          || (first == 3 && next == 7 && y == First(run) && x == Second(p, run))
    ensures PassesExact(p, first, next, run, i) <==> BorrowChainOk(x[i], y[i], ToBit(Sum(x, i) < Sum(y, i)))
  {
    hide Sum, Base, First, Second, BorrowChainOk, Complement;
    SumComplement(y, i);
  }

  lemma ModBase(t: int, b: nat)
    requires b > 0
    ensures (t + b) % b == t % b
  {
    DivUnique(t + b, b, t / b + 1, t % b);
  }

  /** Two limbs: the 64-bit difference is right for all operands, with either pair. */
  lemma TwoLimbDifference(p: Platform, first: Opcode, next: Opcode, run: Run)
    requires (first == 2 && next == 6) || (first == 3 && next == 7)
    requires Chain(p, first, next, run) && |run.ins| == 2
    ensures var x := if first == 2 then First(run) else Second(p, run);
      var y := if first == 2 then Second(p, run) else First(run);
      var r := Results(run);
      var lo: int, hi: int, xlo: int, xhi: int, ylo: int, yhi: int := r[0], r[1], x[0], x[1], y[0], y[1];
      hi * WORD + lo == ((xhi * WORD + xlo) - (yhi * WORD + ylo)) % (WORD * WORD)
  {
    hide First, Second, Results, Chain, NoBorrowLost;
    Subtraction(p, first, next, run);
    assert NoBorrowLost(if first == 2 then First(run) else Second(p, run), if first == 2 then Second(p, run) else First(run), 1) by { NothingLost(First(run), Second(p, run)); }
    TwoLimbs(First(run));
    TwoLimbs(Second(p, run));
    TwoLimbs(Results(run));
    assert Base(2) == WORD * WORD;
  }

  lemma NothingLost(a: seq<Word>, b: seq<Word>)
    requires 1 <= |a| == |b|
    ensures NoBorrowLost(a, b, 1) && NoBorrowLost(b, a, 1)
  {
  }

  lemma TwoLimbs(s: seq<Word>)
    requires |s| == 2
    ensures var lo: int, hi: int := s[0], s[1]; Sum(s, 2) == hi * WORD + lo
  {
    assert Sum(s, 1) == s[0] * Base(0);
  }
}
