/** The implicit heap layout shared by both segment trees: the root sits at
    index 0, the children of index `i` at `2i+1` and `2i+2`, and the node
    covering `[lo, hi]` is split at `(lo + hi) / 2`. */
module Layout {

  function Pow2(d: nat): (p: nat)
    ensures p >= 1
  {
    if d == 0 then 1 else 2 * Pow2(d - 1)
  }

  lemma {:induction false} Pow2Monotone(c: nat, d: nat)
    requires c <= d
    ensures Pow2(c) <= Pow2(d)
    decreases d
  {
    if c < d {
      Pow2Monotone(c, d - 1);
    }
  }

  /** `ceil(log2 n)` computed on integers: the least `d` with `2^d >= n`. */
  function CeilLog2(n: nat): (d: nat)
    ensures Pow2(d) >= n
    ensures d > 0 ==> Pow2(d - 1) < n
  {
    if n <= 1 then 0 else 1 + CeilLog2((n + 1) / 2)
  }

  /** Number of slots `int(2 * (2 ** ceil(log(n, 2))) - 1)`: a complete
      binary tree over `2^ceil(log2 n)` leaves. */
  function TreeSize(n: nat): (size: nat)
    requires n >= 1
    ensures size == 2 * Pow2(CeilLog2(n)) - 1
    ensures 2 * n - 1 <= size < 4 * n - 1
  {
    2 * Pow2(CeilLog2(n)) - 1
  }

  /** Every slot that a traversal of the node `idx` covering `[lo, hi]`
      visits (build, query and update all follow the same shape) is below
      `size`. An empty range visits nothing. */
  ghost predicate Fits(idx: nat, lo: int, hi: int, size: nat)
    decreases hi - lo, size
  {
    lo > hi ||
    (idx < size &&
     (lo == hi || (Fits(2 * idx + 1, lo, (lo + hi) / 2, size) &&
                   Fits(2 * idx + 2, (lo + hi) / 2 + 1, hi, size))))
  }

  /** A node covering at most `2^d` leaves reaches at most `d` levels down,
      so it visits no index above `(idx + 2) * 2^d - 2`. */
  lemma {:induction false} FitsWithin(idx: nat, lo: int, hi: int, d: nat, size: nat)
    requires lo <= hi ==> hi - lo + 1 <= Pow2(d)
    requires (idx + 2) * Pow2(d) - 2 < size
    ensures Fits(idx, lo, hi, size)
    decreases hi - lo
  {
    if lo < hi {
      var mid := (lo + hi) / 2;
      assert d > 0;
      var p := Pow2(d - 1);
      assert Pow2(d) == 2 * p;
      assert (idx + 2) * Pow2(d) == (2 * idx + 4) * p;
      assert (2 * idx + 1 + 2) * p <= (2 * idx + 4) * p;
      FitsWithin(2 * idx + 1, lo, mid, d - 1, size);
      FitsWithin(2 * idx + 2, mid + 1, hi, d - 1, size);
    } else if lo == hi {
      assert idx + 2 <= (idx + 2) * Pow2(d);
    }
  }

  /** The padded size keeps every visited index in bounds, for any n >= 1. */
  lemma TreeSizeFits(n: nat)
    requires n >= 1
    ensures Fits(0, 0, n - 1, TreeSize(n))
  {
    FitsWithin(0, 0, n - 1, CeilLog2(n), TreeSize(n));
  }

  /** On a power of two, the padded size is exactly `2n - 1`. */
  lemma {:induction false} TreeSizeOfPowerOfTwo(d: nat)
    ensures TreeSize(Pow2(d)) == 2 * Pow2(d) - 1
  {
    var c := CeilLog2(Pow2(d));
    if c < d {
      Pow2Monotone(c, d - 1);
    } else if c > d {
      Pow2Monotone(d, c - 1);
    }
  }

  /** Slot `j` lies in the heap subtree rooted at slot `i`: following
      parents `(j - 1) / 2` from `j` reaches `i`. */
  ghost predicate Descends(j: nat, i: nat)
    decreases j
  {
    j == i || (j > i && Descends((j - 1) / 2, i))
  }

  lemma {:induction false} DescendsChild(j: nat, i: nat)
    requires Descends(j, 2 * i + 1) || Descends(j, 2 * i + 2)
    ensures Descends(j, i) && j != i
    decreases j
  {
    if j != 2 * i + 1 && j != 2 * i + 2 {
      DescendsChild((j - 1) / 2, i);
    }
  }

  /** Two ancestors of one slot are ordered by ancestry. */
  lemma {:induction false} DescendsChain(j: nat, a: nat, b: nat)
    requires Descends(j, a) && Descends(j, b) && a <= b
    ensures Descends(b, a)
    decreases j
  {
    if j != b && j != a {
      DescendsChain((j - 1) / 2, a, b);
    } else if j == a {
      assert j == b;
    }
  }

  /** The subtrees of two siblings share no slot. */
  lemma SiblingsDisjoint(j: nat, i: nat)
    ensures !(Descends(j, 2 * i + 1) && Descends(j, 2 * i + 2))
  {
    if Descends(j, 2 * i + 1) && Descends(j, 2 * i + 2) {
      DescendsChain(j, 2 * i + 1, 2 * i + 2);
      assert false;
    }
  }

  /** `u` equals `t` on every slot of the subtree rooted at `idx`. */
  ghost predicate AgreeOn<N>(t: seq<N>, u: seq<N>, idx: nat)
  {
    |t| == |u| && forall j :: 0 <= j < |t| && Descends(j, idx) ==> u[j] == t[j]
  }

  /** `u` equals `t` on every slot outside the subtree rooted at `idx`. */
  ghost predicate OnlySubtreeChanged<N>(t: seq<N>, u: seq<N>, idx: nat)
  {
    |t| == |u| && forall j :: 0 <= j < |t| && !Descends(j, idx) ==> u[j] == t[j]
  }

  lemma AgreeOnChildren<N>(t: seq<N>, u: seq<N>, i: nat)
    requires AgreeOn(t, u, i)
    ensures AgreeOn(t, u, 2 * i + 1) && AgreeOn(t, u, 2 * i + 2)
  {
    forall j | 0 <= j < |t| && (Descends(j, 2 * i + 1) || Descends(j, 2 * i + 2))
      ensures u[j] == t[j]
    {
      DescendsChild(j, i);
    }
  }

  /** Changing only the left subtree of `i` keeps the right one. */
  lemma SiblingKept<N>(t: seq<N>, u: seq<N>, i: nat)
    requires OnlySubtreeChanged(t, u, 2 * i + 1)
    ensures AgreeOn(t, u, 2 * i + 2)
  {
    forall j | 0 <= j < |t| && Descends(j, 2 * i + 2)
      ensures u[j] == t[j]
    {
      SiblingsDisjoint(j, i);
    }
  }

  /** Rebuilding the left subtree of `i`, then the right one, then writing
      slot `i` changes nothing outside the subtree of `i`, keeps the
      rebuilt left subtree, and keeps the rebuilt right subtree. */
  lemma SubtreesComposed<N>(t0: seq<N>, t1: seq<N>, t2: seq<N>, i: nat, x: N)
    requires i < |t2|
    requires OnlySubtreeChanged(t0, t1, 2 * i + 1)
    requires OnlySubtreeChanged(t1, t2, 2 * i + 2)
    ensures OnlySubtreeChanged(t0, t2[i := x], i)
    ensures AgreeOn(t1, t2[i := x], 2 * i + 1)
    ensures AgreeOn(t2, t2[i := x], 2 * i + 2)
  {
    var t3 := t2[i := x];
    forall j | 0 <= j < |t0| && !Descends(j, i)
      ensures t3[j] == t0[j]
    {
      if Descends(j, 2 * i + 1) || Descends(j, 2 * i + 2) {
        DescendsChild(j, i);
      }
    }
    forall j | 0 <= j < |t1| && Descends(j, 2 * i + 1)
      ensures t3[j] == t1[j]
    {
      SiblingsDisjoint(j, i);
      DescendsChild(j, i);
    }
    forall j | 0 <= j < |t2| && Descends(j, 2 * i + 2)
      ensures t3[j] == t2[j]
    {
      DescendsChild(j, i);
    }
  }

  /** `[x, y]` is the range of some node of the tree over `[lo, hi]`: the
      ranges that build visits (a node's "dyadic block"). */
  ghost predicate IsBlock(lo: int, hi: int, x: int, y: int)
    decreases hi - lo
  {
    lo <= hi &&
    ((x == lo && y == hi) ||
     (lo < hi && (IsBlock(lo, (lo + hi) / 2, x, y) || IsBlock((lo + hi) / 2 + 1, hi, x, y))))
  }

  function Max(a: int, b: int): int { if a >= b then a else b }

  function Min(a: int, b: int): int { if a <= b then a else b }

  /** Number of positions shared by `[x, y]` and `[qs, qe]`. */
  function Overlap(x: int, y: int, qs: int, qe: int): nat
  {
    if Max(x, qs) <= Min(y, qe) then Min(y, qe) - Max(x, qs) + 1 else 0
  }

  /** The element values after `update(qs, qe, v)`: `v` added to every
      position in `[qs, qe]`. */
  function AddRange(s: seq<int>, qs: int, qe: int, v: int): (s': seq<int>)
    ensures |s'| == |s|
    ensures forall i :: 0 <= i < |s| ==> s'[i] == if qs <= i <= qe then s[i] + v else s[i]
  {
    seq(|s|, i requires 0 <= i < |s| => if qs <= i <= qe then s[i] + v else s[i])
  }
}
