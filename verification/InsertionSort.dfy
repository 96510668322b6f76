/** The sort of Examples/insertion_sort.c, on an array of any length: the inner loop walks down
    to 0 every time and swaps neighbours that are out of order. */
module InsertionSort {

  //////////////////////////////////////////////////////////////////////////////
  // Inversions
  //////////////////////////////////////////////////////////////////////////////

  /** How many of the first k elements exceed x. */
  function Above(s: seq<int>, k: nat, x: int): nat
    requires k <= |s|
  {
    if k == 0 then 0 else Above(s, k - 1, x) + if s[k - 1] > x then 1 else 0
  }

  /** The pairs (i, j) with i < j < k and s[i] > s[j]. */
  function Inversions(s: seq<int>, k: nat): nat
    requires k <= |s|
  {
    if k == 0 then 0 else Inversions(s, k - 1) + Above(s, k - 1, s[k - 1])
  }

  function Swap<T>(s: seq<T>, j: nat): (t: seq<T>)
    requires 0 < j < |s|
    ensures |t| == |s|
  {
    s[j - 1 := s[j]][j := s[j - 1]]
  }

  predicate Sorted(s: seq<int>, lo: nat, hi: nat)
    requires lo <= hi <= |s|
  {
    forall x, y :: lo <= x < y < hi ==> s[x] <= s[y]
  }

  lemma {:induction false} AboveSwap(s: seq<int>, j: nat, k: nat, x: int)
    requires 0 < j < |s| && k <= |s| && k != j
    ensures Above(Swap(s, j), k, x) == Above(s, k, x)
  {
    if k < j {
      AbovePrefix(s, Swap(s, j), k, x);
    } else if k == j + 1 {
      AbovePrefix(s, Swap(s, j), j - 1, x);
    } else {
      AboveSwap(s, j, k - 1, x);
    }
  }

  lemma {:induction false} AbovePrefix(s: seq<int>, t: seq<int>, k: nat, x: int)
    requires k <= |s| == |t| && s[..k] == t[..k]
    ensures Above(s, k, x) == Above(t, k, x)
  {
    if k == 0 {
    } else {
      assert s[..k][k - 1] == t[..k][k - 1];
      assert s[..k - 1] == s[..k][..k - 1] && t[..k - 1] == t[..k][..k - 1];
      AbovePrefix(s, t, k - 1, x);
    }
  }

  lemma {:induction false} InversionsPrefix(s: seq<int>, t: seq<int>, k: nat)
    requires k <= |s| == |t| && s[..k] == t[..k]
    ensures Inversions(s, k) == Inversions(t, k)
  {
    if k == 0 {
    } else {
      assert s[..k][k - 1] == t[..k][k - 1];
      assert s[..k - 1] == s[..k][..k - 1] && t[..k - 1] == t[..k][..k - 1];
      InversionsPrefix(s, t, k - 1);
      AbovePrefix(s, t, k - 1, s[k - 1]);
    }
  }

  /** Swapping two neighbours that are out of order removes exactly one inversion. */
  lemma {:induction false} SwapRemovesOne(s: seq<int>, j: nat, k: nat)
    requires 0 < j < k <= |s| && s[j - 1] > s[j]
    ensures Inversions(s, k) == Inversions(Swap(s, j), k) + 1
  {
    var t := Swap(s, j);
    if k == j + 1 {
      InversionsPrefix(s, t, j - 1);
      AbovePrefix(s, t, j - 1, s[j]);
      AbovePrefix(s, t, j - 1, s[j - 1]);
    } else {
      SwapRemovesOne(s, j, k - 1);
      AboveSwap(s, j, k - 1, s[k - 1]);
    }
  }

  lemma {:induction false} SortedHasNone(s: seq<int>, k: nat)
    requires k <= |s| && Sorted(s, 0, k)
    ensures Inversions(s, k) == 0
  {
    if k == 0 {
    } else {
      SortedHasNone(s, k - 1);
      NoneAbove(s, k - 1, s[k - 1]);
    }
  }

  lemma {:induction false} NoneAbove(s: seq<int>, k: nat, x: int)
    requires k <= |s| && forall i :: 0 <= i < k ==> s[i] <= x
    ensures Above(s, k, x) == 0
  {
    if k == 0 {
    } else {
      NoneAbove(s, k - 1, x);
    }
  }

  //////////////////////////////////////////////////////////////////////////////
  // Permutation and stability
  //////////////////////////////////////////////////////////////////////////////

  /** from[k] is the original position of the element now at k: a permutation that keeps equal
      keys in order. */
  ghost predicate StableFrom(original: seq<int>, s: seq<int>, from: seq<nat>) {
    && |s| == |original| == |from|
    && (forall k :: 0 <= k < |s| ==> from[k] < |s| && s[k] == original[from[k]])
    && (forall x, y :: 0 <= x < y < |s| ==> from[x] != from[y])
    && (forall x, y :: 0 <= x < y < |s| && s[x] == s[y] ==> from[x] < from[y])
  }

  lemma StableSwap(original: seq<int>, s: seq<int>, from: seq<nat>, j: nat)
    requires StableFrom(original, s, from) && 0 < j < |s| && s[j - 1] > s[j]
    ensures StableFrom(original, Swap(s, j), Swap(from, j))
  {
    var t, g := Swap(s, j), Swap(from, j);
    forall x, y | 0 <= x < y < |t| && t[x] == t[y]
      ensures g[x] < g[y]
    {
    }
  }

  lemma MultisetSwap(s: seq<int>, j: nat)
    requires 0 < j < |s|
    ensures multiset(Swap(s, j)) == multiset(s)
  {
  }

  /** A sorted stable rearrangement is unique: together with the postcondition of Sort this pins
      down the resulting array. */
  lemma StableSortUnique(original: seq<int>, s: seq<int>, f: seq<nat>, t: seq<int>, g: seq<nat>)
    requires StableFrom(original, s, f) && Sorted(s, 0, |s|) && StableFrom(original, t, g) && Sorted(t, 0, |t|)
    ensures s == t && f == g
  {
    FromSame(original, s, f, t, g, |s|);
  }

  lemma {:induction false} FromSame(original: seq<int>, s: seq<int>, f: seq<nat>, t: seq<int>, g: seq<nat>, n: nat)
    requires StableFrom(original, s, f) && Sorted(s, 0, |s|) && StableFrom(original, t, g) && Sorted(t, 0, |t|)
    requires n <= |s|
    ensures forall i :: 0 <= i < n ==> f[i] == g[i]
  {
    if n == 0 {
    } else {
      var k := n - 1;
      FromSame(original, s, f, t, g, k);
      NotBefore(original, s, f, t, g, k);
      NotBefore(original, t, g, s, f, k);
    }
  }

  /** Where two such arrays agree below k, the element at k of the first is not after that of the
      second in the order by key and original position. */
  lemma NotBefore(original: seq<int>, s: seq<int>, f: seq<nat>, t: seq<int>, g: seq<nat>, k: nat)
    requires StableFrom(original, s, f) && Sorted(s, 0, |s|) && StableFrom(original, t, g) && Sorted(t, 0, |t|)
    requires k < |s| && forall i :: 0 <= i < k ==> f[i] == g[i]
    ensures s[k] < t[k] || (s[k] == t[k] && f[k] <= g[k])
  {
    var m := Position(original, s, f, g[k]);
  }

  /** Every original position occurs in a permutation of the positions. */
  lemma Position(original: seq<int>, s: seq<int>, f: seq<nat>, v: nat) returns (m: nat)
    requires StableFrom(original, s, f) && v < |s|
    ensures m < |s| && f[m] == v
  {
    if v !in f { Pigeonhole(f, Below(|s|) - {v}); }
    m :| m < |f| && f[m] == v;
  }

  function Below(n: nat): (s: set<nat>)
    ensures |s| == n && forall i: nat :: i in s <==> i < n
  {
    if n == 0 then {} else Below(n - 1) + {n - 1}
  }

  lemma {:induction false} Pigeonhole(f: seq<nat>, values: set<nat>)
    requires forall x :: 0 <= x < |f| ==> f[x] in values
    requires forall x, y :: 0 <= x < y < |f| ==> f[x] != f[y]
    ensures |f| <= |values|
  {
    if f == [] {
    } else {
      Pigeonhole(f[1..], values - {f[0]});
    }
  }

  //////////////////////////////////////////////////////////////////////////////
  // The sort
  //////////////////////////////////////////////////////////////////////////////

  /** What holds at every point of the sort: s is a stable rearrangement of the original, and the
      swaps so far are the inversions removed so far. */
  ghost predicate Tracks(original: seq<int>, s: seq<int>, from: seq<nat>, swaps: nat) {
    && multiset(s) == multiset(original)
    && StableFrom(original, s, from)
    && swaps + Inversions(s, |s|) == Inversions(original, |original|)
  }

  lemma TracksSwap(original: seq<int>, s: seq<int>, from: seq<nat>, swaps: nat, j: nat)
    requires Tracks(original, s, from, swaps) && 0 < j < |s| && s[j - 1] > s[j]
    ensures |from| == |s| && Tracks(original, Swap(s, j), Swap(from, j), swaps + 1)
  {
    SwapRemovesOne(s, j, |s|);
    StableSwap(original, s, from, j);
    MultisetSwap(s, j);
  }

  /** The inner loop at j: two sorted parts of s[..i + 1], and everything before j is at most
      everything after it. */
  ghost predicate Walks(s: seq<int>, i: nat, j: nat)
    requires j <= i < |s|
  {
    Sorted(s, 0, j) && Sorted(s, j, i + 1) && forall x, y :: 0 <= x < j < y <= i ==> s[x] <= s[y]
  }

  lemma WalksDown(s: seq<int>, i: nat, j: nat)
    requires 0 < j <= i < |s| && Walks(s, i, j)
    ensures Walks(if s[j - 1] > s[j] then Swap(s, j) else s, i, j - 1)
  {
  }

  /** a is sorted, each element comes from position from[k] with equal keys in order, the number of
      swaps is the number of inversions of the initial array, and the inner body runs once for
      every pair of positions. */
  method Sort(a: array<int>) returns (ghost from: seq<nat>, ghost swaps: nat, ghost rounds: nat)
    modifies a
    ensures Sorted(a[..], 0, a.Length)
    ensures multiset(a[..]) == multiset(old(a[..]))
    ensures StableFrom(old(a[..]), a[..], from)
    ensures swaps == Inversions(old(a[..]), a.Length)
    ensures 2 * rounds == a.Length * (a.Length - 1)
  {
    hide Walks, Tracks, Inversions, StableFrom, Sorted;
    var size := a.Length;
    ghost var original := a[..];
    from, swaps, rounds := seq(size, k requires 0 <= k < size => k), 0, 0;
    var i := 0;
    TracksStart(original, from);
    SortedStart(original);
    while i < size
      invariant 0 <= i <= size
      invariant Sorted(a[..], 0, i)
      invariant Tracks(original, a[..], from, swaps)
      invariant 2 * rounds == i * (i - 1)
    {
      var j := i;
      ghost var start := rounds;
      assert Walks(a[..], i, i) by { WalksStart(a[..], i); }
      while j > 0
        invariant 0 <= j <= i
        invariant Walks(a[..], i, j)
        invariant Tracks(original, a[..], from, swaps)
        invariant rounds == start + (i - j)
      {
        ghost var s := a[..];
        WalksDown(s, i, j);
        if a[j - 1] > a[j] {
          TracksSwap(original, s, from, swaps, j);
          var tmp := a[j - 1];
          a[j - 1] := a[j];
          a[j] := tmp;
          assert a[..] == Swap(s, j);
          from := Swap(from, j);
          swaps := swaps + 1;
        }
        j := j - 1;
        rounds := rounds + 1;
      }
      WalksEnd(a[..], i);
      Triangle(i);
      i := i + 1;
    }
    TracksEnd(original, a[..], from, swaps);
  }

  lemma TracksStart(original: seq<int>, from: seq<nat>)
    requires |from| == |original| && forall k :: 0 <= k < |from| ==> from[k] == k
    ensures Tracks(original, original, from, 0)
  {
  }

  lemma SortedStart(s: seq<int>)
    ensures Sorted(s, 0, 0)
  {
  }

  lemma TracksEnd(original: seq<int>, s: seq<int>, from: seq<nat>, swaps: nat)
    requires Tracks(original, s, from, swaps) && Sorted(s, 0, |s|)
    ensures multiset(s) == multiset(original) && StableFrom(original, s, from)
    ensures swaps == Inversions(original, |original|)
  {
    SortedHasNone(s, |s|);
  }

  lemma Triangle(i: int)
    ensures i * (i - 1) + 2 * i == (i + 1) * (i + 1 - 1)
  {
  }

  lemma WalksStart(s: seq<int>, i: nat)
    requires i < |s| && Sorted(s, 0, i)
    ensures Walks(s, i, i)
  {
  }

  lemma WalksEnd(s: seq<int>, i: nat)
    requires i < |s| && Walks(s, i, 0)
    ensures Sorted(s, 0, i + 1)
  {
  }
}
