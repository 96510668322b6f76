/** Sums of digit sequences in base 2^32 in which a carry may be wrong. */
module CarryChain {
  import opened Words

  function Base(n: nat): (b: nat)
    ensures b > 0
  {
    if n == 0 then 1 else WORD * Base(n - 1)
  }

  /** The number written by the n low digits, least significant first. */
  function Sum(digits: seq<int>, n: nat): int
    requires n <= |digits|
  {
    if n == 0 then 0 else Sum(digits, n - 1) + digits[n - 1] * Base(n - 1)
  }

  predicate DigitSum(x: int, y: int, cin: int, r: int, cout: int, e: int) {
    r + WORD * cout + WORD * e == x + y + cin
  }

  /** x + y + c[0] digit by digit: c[i] enters digit i, and e[i] is what its carry out lacks. */
  ghost predicate Adds(x: seq<Word>, y: seq<Word>, r: seq<Word>, c: seq<Bit>, e: seq<int>) {
    && |x| == |y| == |r| == |e| && |c| == |x| + 1
    && forall i {:trigger e[i]} :: 0 <= i < |x| ==>
      e[i] in {-1, 0, 1} && DigitSum(x[i], y[i], c[i], r[i], c[i + 1], e[i])
  }

  /** Every wrong carry is missing from the result with its exact weight. */
  lemma {:induction false} Balance(x: seq<Word>, y: seq<Word>, r: seq<Word>, c: seq<Bit>, e: seq<int>, n: nat)
    requires Adds(x, y, r, c, e) && n <= |x|
    ensures Sum(r, n) + Base(n) * c[n] + WORD * Sum(e, n) == Sum(x, n) + Sum(y, n) + c[0]
  {
    if n == 0 {
    } else {
      var k := n - 1;
      Balance(x, y, r, c, e, k);
      var b: int, d: int := Base(k), e[k];
      var rk: int, xk: int, yk: int, c0: int, c1: int := r[k], x[k], y[k], c[k], c[n];
      Weigh(b, rk, c1, d, xk, yk, c0);
    }
  }

  lemma Weigh(b: int, r: int, c1: int, e: int, x: int, y: int, c0: int)
    requires r + WORD * c1 + WORD * e == x + y + c0
    ensures r * b + (WORD * b) * c1 + WORD * (e * b) == x * b + y * b + b * c0
  {
    calc {
      r * b + (WORD * b) * c1 + WORD * (e * b);
      (r + WORD * c1 + WORD * e) * b;
      (x + y + c0) * b;
      x * b + y * b + b * c0;
    }
  }

  lemma {:induction false} SumBound(s: seq<Word>, n: nat)
    requires n <= |s|
    ensures 0 <= Sum(s, n) < Base(n)
  {
    if n == 0 {
    } else {
      SumBound(s, n - 1);
      var d: int := s[n - 1];
      MulMono(Base(n - 1), d + 1, WORD);
      MulMono(Base(n - 1), 0, d);
      assert Base(n - 1) * (d + 1) == d * Base(n - 1) + Base(n - 1);
    }
  }

  /** Sums of carries with signs: below the next weight, and zero only when every carry is. */
  lemma {:induction false} ErrorBound(e: seq<int>, n: nat)
    requires n <= |e| && forall i :: 0 <= i < |e| ==> e[i] in {-1, 0, 1}
    ensures 0 < Base(n) + Sum(e, n) && Sum(e, n) < Base(n)
    ensures Sum(e, n) == 0 <==> forall i :: 0 <= i < n ==> e[i] == 0
  {
    if n == 0 {
    } else {
      ErrorBound(e, n - 1);
      var d, b := e[n - 1], Base(n - 1);
      if d == 1 {
        assert d * b == b;
      } else if d == -1 {
        assert d * b + b == 0;
      }
    }
  }

  /** With no wrong carry before digit n, the carry into it is the one of the exact sum. */
  lemma TrueCarry(x: seq<Word>, y: seq<Word>, r: seq<Word>, c: seq<Bit>, e: seq<int>, n: nat)
    requires Adds(x, y, r, c, e) && n <= |x| && forall i :: 0 <= i < n ==> e[i] == 0
    ensures c[n] == 1 <==> Sum(x, n) + Sum(y, n) + c[0] >= Base(n)
  {
    hide Sum, Base, Adds;
    AddsBounds(x, y, r, c, e);
    Balance(x, y, r, c, e, n);
    ErrorBound(e, n);
    SumBound(r, n);
    if c[n] == 1 {
      assert Base(n) * c[n] == Base(n);
    } else {
      assert Base(n) * c[n] == 0;
    }
  }

  lemma AddsBounds(x: seq<Word>, y: seq<Word>, r: seq<Word>, c: seq<Bit>, e: seq<int>)
    requires Adds(x, y, r, c, e)
    ensures |x| == |y| == |r| == |e| && |c| == |x| + 1
    ensures forall i :: 0 <= i < |e| ==> e[i] in {-1, 0, 1}
  {
  }

  /** The sum with its final carry is exact if and only if no carry was wrong. */
  lemma ExactSum(x: seq<Word>, y: seq<Word>, r: seq<Word>, c: seq<Bit>, e: seq<int>)
    requires Adds(x, y, r, c, e)
    ensures var n := |x|;
      Sum(r, n) + Base(n) * c[n] == Sum(x, n) + Sum(y, n) + c[0] <==> forall i :: 0 <= i < n ==> e[i] == 0
  {
    Balance(x, y, r, c, e, |x|);
    ErrorBound(e, |x|);
  }

  /** The sum modulo 2^(32n) is exact if and only if no carry between two digits was wrong. */
  lemma ModularSum(x: seq<Word>, y: seq<Word>, r: seq<Word>, c: seq<Bit>, e: seq<int>)
    requires Adds(x, y, r, c, e) && |x| > 0
    ensures var n := |x|;
      Sum(r, n) == (Sum(x, n) + Sum(y, n) + c[0]) % Base(n) <==> forall i :: 0 <= i < n - 1 ==> e[i] == 0
  {
    hide Sum, Adds;
    var n := |x|;
    AddsBounds(x, y, r, c, e);
    Balance(x, y, r, c, e, n);
    ErrorBound(e, n - 1);
    SumBound(r, n);
    var total: int := Sum(x, n) + Sum(y, n) + c[0];
    var w, cn: int, last := WORD * Sum(e, n - 1), c[n], e[n - 1];
    assert Sum(e, n) == Sum(e, n - 1) + last * Base(n - 1) by { SumMore(e, n); }
    Collect(Sum(r, n), Base(n - 1), cn, last, Sum(e, n - 1), total);
    Residue(Sum(r, n), Base(n), cn + last, w, total);
  }

  lemma SumMore(s: seq<int>, n: nat)
    requires 0 < n <= |s|
    ensures Sum(s, n) == Sum(s, n - 1) + s[n - 1] * Base(n - 1)
  {
  }

  lemma Collect(r: int, b: int, cn: int, last: int, rest: int, total: int)
    requires r + (WORD * b) * cn + WORD * (rest + last * b) == total
    ensures r + (WORD * b) * (cn + last) + WORD * rest == total
  {
    assert (WORD * b) * (cn + last) == (WORD * b) * cn + WORD * (last * b);
  }

  lemma Residue(r: int, b: nat, k: int, w: int, total: int)
    requires 0 <= r < b && 0 < b + w && w < b && r + b * k + w == total
    ensures r == total % b <==> w == 0
  {
    if w == 0 {
      DivUnique(total, b, k, r);
    } else if r == total % b {
      var q := total / b;
      assert total == b * q + r;
      assert w == b * (q - k);
      if q > k {
        MulMono(b, 1, q - k);
      } else {
        MulMono(b, q - k, if q == k then 0 else -1);
      }
    }
  }

  /** The digits of the complement. */
  function Complement(s: seq<Word>): (t: seq<Word>)
    ensures |t| == |s|
  {
    seq(|s|, i requires 0 <= i < |s| => Not(s[i]))
  }

  lemma {:induction false} SumComplement(s: seq<Word>, n: nat)
    requires n <= |s|
    ensures Sum(Complement(s), n) == Base(n) - 1 - Sum(s, n)
  {
    if n == 0 {
    } else {
      SumComplement(s, n - 1);
      var d: int, b := s[n - 1], Base(n - 1);
      assert (0xFFFF_FFFF - d) * b == WORD * b - b - d * b;
    }
  }
}
