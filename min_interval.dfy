/** The script at the end of mulseg.py, without its reading and printing:
    build the multiplicative tree, and when it recorded a span `L`, scan
    every window of `L` consecutive elements with a rolling product and
    keep the 1-indexed windows whose product is divisible by `K`. */
module MinInterval {
  import opened Wrappers
  import opened Layout
  import opened MulSeg

  /** The windows among the first `m` (window `i` is `a[i-1 .. i+L-2]`,
      written 1-indexed as `(i, i + L - 1)`) whose product is divisible by
      `K`, in order of their first index. */
  function Windows(a: seq<int>, L: int, K: int, m: int): seq<(int, int)>
    requires K >= 1 && 1 <= L <= |a| && 0 <= m <= |a| - L + 1
    decreases m
  {
    if m == 0 then []
    else Windows(a, L, K, m - 1) +
         (if Prod(a, m - 1, m + L - 2) % K == 0 then [(m, m + L - 1)] else [])
  }

  /** A pair is reported exactly when it is a window of length `L` among
      the first `m` whose product is divisible by `K`. */
  lemma {:induction false} WindowsMembers(a: seq<int>, L: int, K: int, m: int, x: int, y: int)
    requires K >= 1 && 1 <= L <= |a| && 0 <= m <= |a| - L + 1
    ensures (x, y) in Windows(a, L, K, m) <==>
            1 <= x <= m && y == x + L - 1 && Prod(a, x - 1, x + L - 2) % K == 0
    decreases m
  {
    if m > 0 {
      WindowsMembers(a, L, K, m - 1, x, y);
    }
  }

  /** The reported windows are strictly ascending by first index, and all
      first indices are at most `m`: sorting them changes nothing. */
  lemma {:induction false} WindowsAscending(a: seq<int>, L: int, K: int, m: int)
    requires K >= 1 && 1 <= L <= |a| && 0 <= m <= |a| - L + 1
    ensures forall i :: 0 <= i < |Windows(a, L, K, m)| ==> 1 <= Windows(a, L, K, m)[i].0 <= m
    ensures forall i, j :: 0 <= i < j < |Windows(a, L, K, m)| ==>
              Windows(a, L, K, m)[i].0 < Windows(a, L, K, m)[j].0
    decreases m
  {
    if m > 0 {
      WindowsAscending(a, L, K, m - 1);
    }
  }

  /** Dividing a product by one of its nonzero factors gives the other
      exactly; Python 2's floor division and Dafny's `/` agree on it. */
  lemma ExactDivision(x: int, y: int)
    requires x != 0
    ensures (x * y) / x == y
  {
    var q, r := (x * y) / x, (x * y) % x;
    assert x * (y - q) == r;
    if y - q >= 1 || y - q <= -1 {
      if x > 0 {
        assert false;
      } else {
        assert false;
      }
    }
  }

  /** The rolling-product scan of mulseg.py:139-150. The first loop
      multiplies the first `L` elements; the second reports window `i` when
      its product is divisible by `K`, divides out `a[i]` and multiplies in
      `a[i + L]`. Every element must be nonzero, or the division fails. The
      final `sort()` is left out: the list is already strictly ascending
      (`WindowsAscending`). */
  method ScanWindows(a: seq<int>, L: int, K: int) returns (found: seq<(int, int)>)
    requires K >= 1 && 1 <= L <= |a|
    requires forall i :: 0 <= i < |a| ==> a[i] != 0
    ensures found == Windows(a, L, K, |a| - L + 1)
  {
    var product := 1;
    var i := 0;
    while i < L
      invariant 0 <= i <= L
      invariant product == Prod(a, 0, i - 1)
    {
      product := product * a[i];
      i := i + 1;
    }
    found := [];
    i := 0;
    while i < |a| - L + 1
      invariant 0 <= i <= |a| - L + 1
      invariant i <= |a| - L ==> product == Prod(a, i, i + L - 1)
      invariant found == Windows(a, L, K, i)
    {
      if product % K == 0 {
        found := found + [(i + 1, i + 1 + L - 1)];
      }
      ProdSplit(a, i, i, i + L - 1);
      LeafIsProduct(a, i);
      ExactDivision(a[i], Prod(a, i + 1, i + L - 1));
      product := product / a[i];
      if i != |a| - L {
        product := product * a[i + L];
      }
      i := i + 1;
    }
  }

  /** The script without input and output: `None` for "NONE", otherwise
      the recorded span and the windows found. */
  method Solve(a: seq<int>, K: int) returns (answer: Option<(int, seq<(int, int)>)>)
    requires K >= 1 && |a| >= 1
    requires forall i :: 0 <= i < |a| ==> a[i] != 0
    ensures answer.None? <==> !HasZeroBlock(a, K, 0, |a| - 1)
    ensures answer.Some? ==>
      var (L, found) := answer.value;
      && L == IntervalAfterBuild(a, K, 0, 0, |a| - 1)
      && 1 <= L <= |a|
      && found == Windows(a, L, K, |a| - L + 1)
  {
    IntervalZeroIff(a, K, 0, 0, |a| - 1);
    IntervalInRange(a, K);
    var st := new SegmentTree(a, K);
    if st.possibleInterval == 0 {
      answer := None;
    } else {
      var found := ScanWindows(a, st.possibleInterval, K);
      answer := Some((st.possibleInterval, found));
    }
  }

  /** Over `[1, 3, 2, 6, 4]` with `K = 6` the fourth element is divisible
      by 6, so the recorded span is 1. */
  lemma SixSpanExample()
    ensures IntervalAfterBuild([1, 3, 2, 6, 4], 6, 0, 0, 4) == 1
    ensures HasZeroBlock([1, 3, 2, 6, 4], 6, 0, 4)
  {
    ZeroLeafGivesOne([1, 3, 2, 6, 4], 6, 0, 0, 4, 3);
    IntervalZeroIff([1, 3, 2, 6, 4], 6, 0, 0, 4);
  }

  /** Over `[1, 3, 2, 6, 4]` with `K = 6` the only window of length 1 whose
      product is divisible by 6 is the fourth. */
  lemma SixWindowsExample()
    ensures Windows([1, 3, 2, 6, 4], 1, 6, 5) == [(4, 4)]
  {
    var a := [1, 3, 2, 6, 4];
    LeafIsProduct(a, 0);
    assert Windows(a, 1, 6, 1) == [] by { assert Windows(a, 1, 6, 0) == []; }
    LeafIsProduct(a, 1);
    assert Windows(a, 1, 6, 2) == [];
    LeafIsProduct(a, 2);
    assert Windows(a, 1, 6, 3) == [];
    LeafIsProduct(a, 3);
    assert Windows(a, 1, 6, 4) == [(4, 4)];
    LeafIsProduct(a, 4);
  }

  /** One step of `FiveExample`: a node has no block whose product is 0
      modulo `K` when its own product is not and its halves have none. */
  lemma NoZeroBlockAt(a: seq<int>, K: int, lo: int, hi: int)
    requires K >= 1 && 0 <= lo <= hi < |a|
    requires Prod(a, lo, hi) % K != 0
    requires lo < hi ==> !HasZeroBlock(a, K, lo, (lo + hi) / 2) && !HasZeroBlock(a, K, (lo + hi) / 2 + 1, hi)
    ensures !HasZeroBlock(a, K, lo, hi)
  {
  }

  /** Over `[1, 2, 3, 4]` no block of the tree has a product divisible by 5. */
  lemma FiveExample()
    ensures !HasZeroBlock([1, 2, 3, 4], 5, 0, 3)
  {
    var b := [1, 2, 3, 4];
    LeafIsProduct(b, 0);
    NoZeroBlockAt(b, 5, 0, 0);
    LeafIsProduct(b, 1);
    NoZeroBlockAt(b, 5, 1, 1);
    assert Prod(b, 0, 1) == 2;
    NoZeroBlockAt(b, 5, 0, 1);
    LeafIsProduct(b, 2);
    NoZeroBlockAt(b, 5, 2, 2);
    LeafIsProduct(b, 3);
    NoZeroBlockAt(b, 5, 3, 3);
    assert Prod(b, 2, 3) == 12 by { ProdSplit(b, 2, 2, 3); }
    NoZeroBlockAt(b, 5, 2, 3);
    assert Prod(b, 0, 3) == 24 by { ProdSplit(b, 0, 1, 3); }
    NoZeroBlockAt(b, 5, 0, 3);
  }

  /** A run of the script with `K = 6` over `[1, 3, 2, 6, 4]`: span 1 and
      the single window `[4, 4]`. */
  method DemoSix() returns (six: Option<(int, seq<(int, int)>)>)
    ensures six == Some((1, [(4, 4)]))
  {
    six := Solve([1, 3, 2, 6, 4], 6);
    SixSpanExample();
    assert six.Some? && six.value.0 == 1;
    SixWindowsExample();
  }

  /** A run of the script with `K = 5` over `[1, 2, 3, 4]`: "NONE". */
  method DemoFive() returns (five: Option<(int, seq<(int, int)>)>)
    ensures five == None
  {
    five := Solve([1, 2, 3, 4], 5);
    FiveExample();
  }

  /** The recorded span is not always the shortest window whose product is
      divisible by `K`: over `[2, 1, 3, 2, 3]` with `K = 6` the node
      `[0, 2]` (product 6) is recorded before the shorter node `[3, 4]` is
      built, and the window `a[2..3]` (printed as `[3, 4]`) has length 2. */
  lemma RecordedSpanNotShortest()
    ensures IntervalAfterBuild([2, 1, 3, 2, 3], 6, 0, 0, 4) == 3
    ensures Prod([2, 1, 3, 2, 3], 2, 3) % 6 == 0
  {
    var a := [2, 1, 3, 2, 3];
    assert Prod(a, 0, 1) == 2;
    assert Prod(a, 0, 2) == 6;
    assert Prod(a, 3, 4) == 6;
    assert Prod(a, 2, 3) == 6;
    assert IntervalAfterBuild(a, 6, 0, 0, 1) == 0 by {
      assert IntervalAfterBuild(a, 6, 0, 0, 0) == 0;
      assert IntervalAfterBuild(a, 6, 0, 1, 1) == 0;
    }
    assert IntervalAfterBuild(a, 6, 0, 0, 2) == 3 by {
      assert IntervalAfterBuild(a, 6, 0, 2, 2) == 0;
    }
    assert IntervalAfterBuild(a, 6, 3, 3, 4) == 3 by {
      assert IntervalAfterBuild(a, 6, 3, 3, 3) == 3;
      assert IntervalAfterBuild(a, 6, 3, 4, 4) == 3;
    }
  }
}
