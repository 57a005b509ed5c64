/** The multiplicative segment tree of mulseg.py: every node holds the
    product of the elements it covers modulo `K` and the number of leaves it
    covers. While building, the tree records in `possibleInterval` 1 if some
    element is 0 modulo `K`, and otherwise the span of the first inner node,
    in post-order, whose product is 0 modulo `K` (0 if there is none). */
module MulSeg {
  import opened Wrappers
  import opened Layout

  /** Division by `K >= 1` has a unique quotient and remainder. */
  lemma ModUnique(x: int, K: int, q: int, r: int)
    requires K >= 1 && x == K * q + r && 0 <= r < K
    ensures x % K == r
  {
    var q0, r0 := x / K, x % K;
    assert K * (q - q0) == r0 - r;
    if q - q0 >= 1 {
      assert false;
    } else if q - q0 <= -1 {
      assert false;
    }
  }

  lemma MulModLeft(a: int, b: int, K: int)
    requires K >= 1
    ensures ((a % K) * b) % K == (a * b) % K
  {
    var q, r := a / K, a % K;
    var rb := r * b;
    assert a * b == K * (q * b) + rb;
    ModUnique(a * b, K, q * b + rb / K, rb % K);
  }

  /** Reducing either factor first does not change a product modulo `K`. */
  lemma MulMod(a: int, b: int, K: int)
    requires K >= 1
    ensures ((a % K) * (b % K)) % K == (a * b) % K
  {
    MulModLeft(a, b % K, K);
    MulModLeft(b, a, K);
    assert (b % K) * a == a * (b % K);
    assert b * a == a * b;
  }

  lemma ModOfMod(a: int, K: int)
    requires K >= 1
    ensures (a % K) % K == a % K
  {
    ModUnique(a % K, K, 0, a % K);
  }

  /** A node: `val` is the aggregate, `length` the number of leaves covered. */
  datatype Node = Node(val: int, length: nat)

  /** Combines two (possibly absent) children; an absent child counts as
      `Node(1, 0)`, the identity of the product. The result is reduced
      modulo `K` even when a child is not. */
  function Merge(left: Option<Node>, right: Option<Node>, K: int): (m: Node)
    requires K >= 1
    ensures 0 <= m.val < K
    ensures left.Some? && right.Some? ==>
      m.val == (left.value.val * right.value.val) % K &&
      m.length == left.value.length + right.value.length
  {
    var l := if left.None? then Node(1, 0) else left.value;
    var r := if right.None? then Node(1, 0) else right.value;
    Node((l.val * r.val) % K, l.length + r.length)
  }

  /** An absent child leaves the other one, reduced modulo `K`. */
  lemma MergeWithAbsent(left: Option<Node>, right: Option<Node>, K: int)
    requires K >= 1
    ensures left.None? && right.Some? ==> Merge(left, right, K) == Node(right.value.val % K, right.value.length)
    ensures left.Some? && right.None? ==> Merge(left, right, K) == Node(left.value.val % K, left.value.length)
    ensures left.None? && right.None? ==> Merge(left, right, K) == Node(1 % K, 0)
  {
  }

  /** Merging is associative, so partial query results can be regrouped. */
  lemma MergeAssociative(a: Option<Node>, b: Option<Node>, c: Option<Node>, K: int)
    requires K >= 1
    ensures Merge(Some(Merge(a, b, K)), c, K) == Merge(a, Some(Merge(b, c, K)), K)
  {
    var x := if a.None? then 1 else a.value.val;
    var y := if b.None? then 1 else b.value.val;
    var z := if c.None? then 1 else c.value.val;
    calc {
      Merge(Some(Merge(a, b, K)), c, K).val;
      (((x * y) % K) * z) % K;
      { MulModLeft(x * y, z, K); }
      ((x * y) * z) % K;
      { assert (x * y) * z == x * (y * z); }
      (x * (y * z)) % K;
      { MulModLeft(y * z, x, K); assert (y * z) * x == x * (y * z); assert ((y * z) % K) * x == x * ((y * z) % K); }
      (x * ((y * z) % K)) % K;
      Merge(a, Some(Merge(b, c, K)), K).val;
    }
  }

  /** Product of `s[lo..hi]`, both ends included; 1 for an empty range. */
  function Prod(s: seq<int>, lo: int, hi: int): int
    requires lo > hi || (0 <= lo && hi < |s|)
    decreases hi - lo, s
  {
    if lo > hi then 1 else Prod(s, lo, hi - 1) * s[hi]
  }

  lemma LeafIsProduct(s: seq<int>, i: int)
    requires 0 <= i < |s|
    ensures Prod(s, i, i) == s[i]
  {
  }

  /** A range product splits at any point `m` of the range. */
  lemma {:induction false} ProdSplit(s: seq<int>, lo: int, m: int, hi: int)
    requires 0 <= lo && lo - 1 <= m <= hi < |s|
    ensures Prod(s, lo, hi) == Prod(s, lo, m) * Prod(s, m + 1, hi)
    decreases hi - m
  {
    if m < hi {
      ProdSplit(s, lo, m, hi - 1);
      calc {
        Prod(s, lo, hi);
        Prod(s, lo, hi - 1) * s[hi];
        (Prod(s, lo, m) * Prod(s, m + 1, hi - 1)) * s[hi];
        Prod(s, lo, m) * (Prod(s, m + 1, hi - 1) * s[hi]);
      }
    }
  }

  /** The leaf values a fresh tree holds: `arr[i] % K`. */
  function Reduced(a: seq<int>, K: int): (r: seq<int>)
    requires K >= 1
    ensures |r| == |a|
    ensures forall i :: 0 <= i < |a| ==> r[i] == a[i] % K
  {
    seq(|a|, i requires 0 <= i < |a| => a[i] % K)
  }

  /** Reducing the elements first leaves every range product modulo `K` unchanged. */
  lemma {:induction false} ReducedProd(a: seq<int>, K: int, lo: int, hi: int)
    requires K >= 1 && (lo > hi || (0 <= lo && hi < |a|))
    ensures Prod(Reduced(a, K), lo, hi) % K == Prod(a, lo, hi) % K
    decreases hi - lo
  {
    if lo <= hi {
      var r := Reduced(a, K);
      ReducedProd(a, K, lo, hi - 1);
      calc {
        Prod(r, lo, hi) % K;
        (Prod(r, lo, hi - 1) * (a[hi] % K)) % K;
        { MulMod(Prod(r, lo, hi - 1), a[hi] % K, K); ModOfMod(a[hi], K); }
        ((Prod(r, lo, hi - 1) % K) * (a[hi] % K)) % K;
        ((Prod(a, lo, hi - 1) % K) * (a[hi] % K)) % K;
        { MulMod(Prod(a, lo, hi - 1), a[hi], K); }
        (Prod(a, lo, hi - 1) * a[hi]) % K;
      }
    }
  }

  /** The tree invariant for the node `idx` covering `[lo, hi]` over the
      current leaf values `s`: a leaf is `Node(s[lo], 1)`, an inner node the
      merge of its two children, and every visited slot exists. */
  ghost predicate Consistent(t: seq<Node>, idx: nat, lo: int, hi: int, s: seq<int>, K: int)
    requires K >= 1
    decreases hi - lo, t
  {
    lo > hi ||
    (0 <= lo && hi < |s| && idx < |t| &&
     if lo == hi then t[idx] == Node(s[lo], 1)
     else
       Consistent(t, 2 * idx + 1, lo, (lo + hi) / 2, s, K) &&
       Consistent(t, 2 * idx + 2, (lo + hi) / 2 + 1, hi, s, K) &&
       t[idx] == Merge(Some(t[2 * idx + 1]), Some(t[2 * idx + 2]), K))
  }

  /** The abstraction: a consistent node spans its range and is congruent
      to the range's product modulo `K`; an inner node is exactly that
      product reduced modulo `K` (a leaf keeps its value unreduced). */
  lemma {:induction false} NodeHoldsRangeProduct(t: seq<Node>, idx: nat, lo: int, hi: int, s: seq<int>, K: int)
    requires K >= 1 && Consistent(t, idx, lo, hi, s, K) && lo <= hi
    ensures idx < |t| && t[idx].length == hi - lo + 1
    ensures t[idx].val % K == Prod(s, lo, hi) % K
    ensures lo < hi ==> t[idx].val == Prod(s, lo, hi) % K
    decreases hi - lo
  {
    if lo < hi {
      var mid := (lo + hi) / 2;
      var l, r := t[2 * idx + 1], t[2 * idx + 2];
      NodeHoldsRangeProduct(t, 2 * idx + 1, lo, mid, s, K);
      NodeHoldsRangeProduct(t, 2 * idx + 2, mid + 1, hi, s, K);
      ProdSplit(s, lo, mid, hi);
      calc {
        t[idx].val;
        (l.val * r.val) % K;
        { MulMod(l.val, r.val, K); }
        ((l.val % K) * (r.val % K)) % K;
        ((Prod(s, lo, mid) % K) * (Prod(s, mid + 1, hi) % K)) % K;
        { MulMod(Prod(s, lo, mid), Prod(s, mid + 1, hi), K); }
        Prod(s, lo, hi) % K;
      }
      ModOfMod(Prod(s, lo, hi), K);
    }
  }

  /** After the left subtree of `idx` was rebuilt (`t0` to `t1`) and then
      the right one (`t1` to `t2`), writing the merge of the two children
      into slot `idx` makes the node consistent and changes nothing outside
      its subtree. */
  lemma Recombined(t0: seq<Node>, t1: seq<Node>, t2: seq<Node>, idx: nat, lo: int, hi: int, s: seq<int>, K: int)
    requires K >= 1 && 0 <= lo < hi < |s| && idx < |t2|
    requires Consistent(t1, 2 * idx + 1, lo, (lo + hi) / 2, s, K) && OnlySubtreeChanged(t0, t1, 2 * idx + 1)
    requires Consistent(t2, 2 * idx + 2, (lo + hi) / 2 + 1, hi, s, K) && OnlySubtreeChanged(t1, t2, 2 * idx + 2)
    ensures 2 * idx + 2 < |t2|
    ensures var t3 := t2[idx := Merge(Some(t2[2 * idx + 1]), Some(t2[2 * idx + 2]), K)];
      Consistent(t3, idx, lo, hi, s, K) && OnlySubtreeChanged(t0, t3, idx)
  {
    var mid := (lo + hi) / 2;
    var t3 := t2[idx := Merge(Some(t2[2 * idx + 1]), Some(t2[2 * idx + 2]), K)];
    SubtreesComposed(t0, t1, t2, idx, t3[idx]);
    ConsistentKept(t1, t3, 2 * idx + 1, lo, mid, s, K);
    ConsistentKept(t2, t3, 2 * idx + 2, mid + 1, hi, s, K);
  }

  /** Two backing lists of the same size whose nodes span the same number
      of elements, slot by slot. */
  ghost predicate SameLengths(t: seq<Node>, u: seq<Node>)
  {
    |t| == |u| && forall j :: 0 <= j < |t| ==> u[j].length == t[j].length
  }

  /** Recomputing a parent from children whose lengths are unchanged keeps
      the parent's length. */
  lemma MergedLengthKept(t0: seq<Node>, t1: seq<Node>, t2: seq<Node>, idx: nat, K: int)
    requires K >= 1 && 2 * idx + 2 < |t0| && SameLengths(t0, t1) && SameLengths(t1, t2)
    requires t0[idx] == Merge(Some(t0[2 * idx + 1]), Some(t0[2 * idx + 2]), K)
    ensures SameLengths(t0, t2[idx := Merge(Some(t2[2 * idx + 1]), Some(t2[2 * idx + 2]), K)])
  {
  }

  /** The leaf step of `_update`: adding `v` to a leaf inside the updated
      range keeps it consistent with the updated values and its length. */
  lemma LeafUpdated(t: seq<Node>, idx: nat, i: int, s: seq<int>, s': seq<int>, v: int, K: int)
    requires K >= 1 && Consistent(t, idx, i, i, s, K)
    requires |s'| == |s| && 0 <= i < |s| && s'[i] == s[i] + v
    ensures idx < |t|
    ensures var u := t[idx := t[idx].(val := t[idx].val + v)];
      Consistent(u, idx, i, i, s', K)
  {
  }

  /** Every slot a consistent node visits exists. */
  lemma {:induction false} ConsistentFits(t: seq<Node>, idx: nat, lo: int, hi: int, s: seq<int>, K: int)
    requires K >= 1 && Consistent(t, idx, lo, hi, s, K)
    ensures Fits(idx, lo, hi, |t|)
    decreases hi - lo
  {
    if lo < hi {
      ConsistentFits(t, 2 * idx + 1, lo, (lo + hi) / 2, s, K);
      ConsistentFits(t, 2 * idx + 2, (lo + hi) / 2 + 1, hi, s, K);
    }
  }

  /** The backing list after `_update(idx, lo, hi, qs, qe, v)`: a node outside
      `[qs, qe]` (or an empty query) is left alone, a leaf gets `v` added to
      its value (not reduced), an inner node updates its left subtree, then
      its right one, then takes the merge of its children. */
  function UpdatedTree(t: seq<Node>, idx: nat, lo: int, hi: int, qs: int, qe: int, v: int, K: int): (u: seq<Node>)
    requires K >= 1 && Fits(idx, lo, hi, |t|) && lo <= hi
    ensures |u| == |t|
    decreases hi - lo, t
  {
    if qs > hi || qe < lo || qs > qe then t
    else if lo == hi then t[idx := t[idx].(val := t[idx].val + v)]
    else
      var mid := (lo + hi) / 2;
      var t1 := UpdatedTree(t, 2 * idx + 1, lo, mid, qs, qe, v, K);
      var t2 := UpdatedTree(t1, 2 * idx + 2, mid + 1, hi, qs, qe, v, K);
      t2[idx := Merge(Some(t2[2 * idx + 1]), Some(t2[2 * idx + 2]), K)]
  }

  /** Updating a consistent node leaves it consistent with the updated leaf
      values `s'` (`v` added inside `[qs, qe]`, as `AddRange` states). */
  lemma {:induction false} UpdatedTreeConsistent(t: seq<Node>, idx: nat, lo: int, hi: int, qs: int, qe: int, v: int, s: seq<int>, s': seq<int>, K: int)
    requires K >= 1 && Consistent(t, idx, lo, hi, s, K) && lo <= hi
    requires |s'| == |s| && forall i :: 0 <= i < |s| ==> s'[i] == if qs <= i <= qe then s[i] + v else s[i]
    ensures Fits(idx, lo, hi, |t|)
    ensures Consistent(UpdatedTree(t, idx, lo, hi, qs, qe, v, K), idx, lo, hi, s', K)
    decreases hi - lo, 2
  {
    ConsistentFits(t, idx, lo, hi, s, K);
    if qs > hi || qe < lo || qs > qe {
      ConsistentSameRange(t, idx, lo, hi, s, s', K);
    } else if lo == hi {
      LeafUpdated(t, idx, lo, s, s', v, K);
    } else {
      InnerUpdated(t, idx, lo, hi, qs, qe, v, s, s', K);
    }
  }

  /** The inner-node case of `UpdatedTreeConsistent`: update the left
      subtree, then the right one, then merge. */
  lemma {:induction false} InnerUpdated(t: seq<Node>, idx: nat, lo: int, hi: int, qs: int, qe: int, v: int, s: seq<int>, s': seq<int>, K: int)
    requires K >= 1 && Consistent(t, idx, lo, hi, s, K) && lo < hi
    requires !(qs > hi || qe < lo || qs > qe)
    requires |s'| == |s| && forall i :: 0 <= i < |s| ==> s'[i] == if qs <= i <= qe then s[i] + v else s[i]
    requires Fits(idx, lo, hi, |t|)
    ensures Consistent(UpdatedTree(t, idx, lo, hi, qs, qe, v, K), idx, lo, hi, s', K)
    decreases hi - lo, 1
  {
    var mid := (lo + hi) / 2;
    var t1 := UpdatedTree(t, 2 * idx + 1, lo, mid, qs, qe, v, K);
    LeftHalfUpdated(t, idx, lo, hi, qs, qe, v, s, s', K);
    UpdatedTreeLocal(t, 2 * idx + 1, lo, mid, qs, qe, v, K);
    RightHalfMerged(t, t1, idx, lo, hi, qs, qe, v, s, s', K);
  }

  /** The second half of `InnerUpdated`: once the left subtree is updated,
      updating the right one and merging the children makes the node
      consistent with the updated leaf values. */
  lemma {:induction false} RightHalfMerged(t: seq<Node>, t1: seq<Node>, idx: nat, lo: int, hi: int, qs: int, qe: int, v: int, s: seq<int>, s': seq<int>, K: int)
    requires K >= 1 && 0 <= lo < hi < |s| && Fits(idx, lo, hi, |t1|)
    requires |s'| == |s| && forall i :: 0 <= i < |s| ==> s'[i] == if qs <= i <= qe then s[i] + v else s[i]
    requires Consistent(t1, 2 * idx + 1, lo, (lo + hi) / 2, s', K) && OnlySubtreeChanged(t, t1, 2 * idx + 1)
    requires Consistent(t1, 2 * idx + 2, (lo + hi) / 2 + 1, hi, s, K)
    ensures var t2 := UpdatedTree(t1, 2 * idx + 2, (lo + hi) / 2 + 1, hi, qs, qe, v, K);
      2 * idx + 2 < |t2| && Consistent(t2[idx := Merge(Some(t2[2 * idx + 1]), Some(t2[2 * idx + 2]), K)], idx, lo, hi, s', K)
    decreases hi - lo, 0
  {
    var mid := (lo + hi) / 2;
    var t2 := UpdatedTree(t1, 2 * idx + 2, mid + 1, hi, qs, qe, v, K);
    UpdatedTreeConsistent(t1, 2 * idx + 2, mid + 1, hi, qs, qe, v, s, s', K);
    UpdatedTreeLocal(t1, 2 * idx + 2, mid + 1, hi, qs, qe, v, K);
    Recombined(t, t1, t2, idx, lo, hi, s', K);
  }

  /** The first half of `InnerUpdated`: the left subtree becomes consistent
      with the updated leaf values and the untouched right subtree stays
      consistent with the old ones. */
  lemma {:induction false} LeftHalfUpdated(t: seq<Node>, idx: nat, lo: int, hi: int, qs: int, qe: int, v: int, s: seq<int>, s': seq<int>, K: int)
    requires K >= 1 && Consistent(t, idx, lo, hi, s, K) && lo < hi
    requires |s'| == |s| && forall i :: 0 <= i < |s| ==> s'[i] == if qs <= i <= qe then s[i] + v else s[i]
    ensures Fits(2 * idx + 1, lo, (lo + hi) / 2, |t|)
    ensures var t1 := UpdatedTree(t, 2 * idx + 1, lo, (lo + hi) / 2, qs, qe, v, K);
      && Consistent(t1, 2 * idx + 1, lo, (lo + hi) / 2, s', K)
      && Consistent(t1, 2 * idx + 2, (lo + hi) / 2 + 1, hi, s, K)
    decreases hi - lo, 0
  {
    var mid := (lo + hi) / 2;
    UpdatedTreeConsistent(t, 2 * idx + 1, lo, mid, qs, qe, v, s, s', K);
    var t1 := UpdatedTree(t, 2 * idx + 1, lo, mid, qs, qe, v, K);
    UpdatedTreeLocal(t, 2 * idx + 1, lo, mid, qs, qe, v, K);
    SiblingKept(t, t1, idx);
    ConsistentKept(t, t1, 2 * idx + 2, mid + 1, hi, s, K);
  }

  /** Updating a node writes only inside its subtree. */
  lemma {:induction false} UpdatedTreeLocal(t: seq<Node>, idx: nat, lo: int, hi: int, qs: int, qe: int, v: int, K: int)
    requires K >= 1 && Fits(idx, lo, hi, |t|) && lo <= hi
    ensures OnlySubtreeChanged(t, UpdatedTree(t, idx, lo, hi, qs, qe, v, K), idx)
    decreases hi - lo
  {
    if qs > hi || qe < lo || qs > qe {
    } else if lo == hi {
      assert Descends(idx, idx);
    } else {
      var mid := (lo + hi) / 2;
      var t1 := UpdatedTree(t, 2 * idx + 1, lo, mid, qs, qe, v, K);
      UpdatedTreeLocal(t, 2 * idx + 1, lo, mid, qs, qe, v, K);
      var t2 := UpdatedTree(t1, 2 * idx + 2, mid + 1, hi, qs, qe, v, K);
      UpdatedTreeLocal(t1, 2 * idx + 2, mid + 1, hi, qs, qe, v, K);
      SubtreesComposed(t, t1, t2, idx, Merge(Some(t2[2 * idx + 1]), Some(t2[2 * idx + 2]), K));
    }
  }

  /** Updating a consistent node changes no `length` anywhere in the list:
      leaves keep theirs and a recomputed parent adds its children's. */
  lemma {:induction false} UpdatedTreeKeepsLengths(t: seq<Node>, idx: nat, lo: int, hi: int, qs: int, qe: int, v: int, s: seq<int>, K: int)
    requires K >= 1 && Consistent(t, idx, lo, hi, s, K) && lo <= hi
    ensures Fits(idx, lo, hi, |t|)
    ensures SameLengths(t, UpdatedTree(t, idx, lo, hi, qs, qe, v, K))
    decreases hi - lo
  {
    ConsistentFits(t, idx, lo, hi, s, K);
    if !(qs > hi || qe < lo || qs > qe) && lo < hi {
      var mid := (lo + hi) / 2;
      var t1 := UpdatedTree(t, 2 * idx + 1, lo, mid, qs, qe, v, K);
      UpdatedTreeLocal(t, 2 * idx + 1, lo, mid, qs, qe, v, K);
      SiblingKept(t, t1, idx);
      ConsistentKept(t, t1, 2 * idx + 2, mid + 1, hi, s, K);
      UpdatedTreeKeepsLengths(t, 2 * idx + 1, lo, mid, qs, qe, v, s, K);
      var t2 := UpdatedTree(t1, 2 * idx + 2, mid + 1, hi, qs, qe, v, K);
      UpdatedTreeKeepsLengths(t1, 2 * idx + 2, mid + 1, hi, qs, qe, v, s, K);
      MergedLengthKept(t, t1, t2, idx, K);
    }
  }

  /** A freshly built inner node holds the product of `arr[lo..hi]` modulo `K`. */
  lemma BuiltNodeIsProduct(t: seq<Node>, idx: nat, lo: int, hi: int, a: seq<int>, K: int)
    requires K >= 1 && lo < hi && Consistent(t, idx, lo, hi, Reduced(a, K), K)
    ensures idx < |t| && t[idx].val == Prod(a, lo, hi) % K
  {
    NodeHoldsRangeProduct(t, idx, lo, hi, Reduced(a, K), K);
    ReducedProd(a, K, lo, hi);
  }

  /** Consistency depends only on the slots of the node's own subtree. */
  lemma {:induction false} ConsistentKept(t: seq<Node>, u: seq<Node>, idx: nat, lo: int, hi: int, s: seq<int>, K: int)
    requires K >= 1 && Consistent(t, idx, lo, hi, s, K) && AgreeOn(t, u, idx)
    ensures Consistent(u, idx, lo, hi, s, K)
    decreases hi - lo
  {
    if lo < hi {
      AgreeOnChildren(t, u, idx);
      ConsistentKept(t, u, 2 * idx + 1, lo, (lo + hi) / 2, s, K);
      ConsistentKept(t, u, 2 * idx + 2, (lo + hi) / 2 + 1, hi, s, K);
    }
  }

  /** ... and only on the leaf values of the node's own range. */
  lemma {:induction false} ConsistentSameRange(t: seq<Node>, idx: nat, lo: int, hi: int, s: seq<int>, s': seq<int>, K: int)
    requires K >= 1 && Consistent(t, idx, lo, hi, s, K) && |s'| == |s|
    requires forall i :: lo <= i <= hi && 0 <= i < |s| ==> s'[i] == s[i]
    ensures Consistent(t, idx, lo, hi, s', K)
    decreases hi - lo
  {
    if lo < hi {
      ConsistentSameRange(t, 2 * idx + 1, lo, (lo + hi) / 2, s, s', K);
      ConsistentSameRange(t, 2 * idx + 2, (lo + hi) / 2 + 1, hi, s, s', K);
    }
  }

  /** The part of `[qs, qe]` inside `[lo, hi]` multiplies out to the parts
      inside the two halves of `[lo, hi]`. */
  lemma ClippedProdSplit(s: seq<int>, lo: int, mid: int, hi: int, qs: int, qe: int)
    requires 0 <= lo <= mid < hi < |s|
    ensures Prod(s, Max(qs, lo), Min(qe, hi))
         == Prod(s, Max(qs, lo), Min(qe, mid)) * Prod(s, Max(qs, mid + 1), Min(qe, hi))
  {
    var x, y := Max(qs, lo), Min(qe, hi);
    if x <= mid < y {
      ProdSplit(s, x, mid, y);
    }
  }

  /** Factors congruent modulo `K` give products congruent modulo `K`. */
  lemma CongruentProduct(x: int, y: int, x': int, y': int, K: int)
    requires K >= 1 && x % K == x' % K && y % K == y' % K
    ensures (x * y) % K == (x' * y') % K
    ensures ((x * y) % K) % K == (x' * y') % K
  {
    MulMod(x, y, K);
    MulMod(x', y', K);
    ModOfMod(x * y, K);
  }

  /** The partial-overlap step of `QueryTree`: merging the children's
      answers gives the answer for the parent. */
  lemma PartialQueryMerged(left: Option<Node>, right: Option<Node>, s: seq<int>, lo: int, hi: int, qs: int, qe: int, K: int)
    requires K >= 1 && 0 <= lo < hi < |s| && qs <= hi && qe >= lo
    requires left.None? <==> qs > (lo + hi) / 2 || qe < lo
    requires right.None? <==> qs > hi || qe < (lo + hi) / 2 + 1
    requires left.Some? ==> left.value.length == Overlap(lo, (lo + hi) / 2, qs, qe) &&
                            left.value.val % K == Prod(s, Max(qs, lo), Min(qe, (lo + hi) / 2)) % K
    requires right.Some? ==> right.value.length == Overlap((lo + hi) / 2 + 1, hi, qs, qe) &&
                             right.value.val % K == Prod(s, Max(qs, (lo + hi) / 2 + 1), Min(qe, hi)) % K
    ensures Merge(left, right, K).length == Overlap(lo, hi, qs, qe)
    ensures Merge(left, right, K).val == Prod(s, Max(qs, lo), Min(qe, hi)) % K
    ensures Merge(left, right, K).val % K == Prod(s, Max(qs, lo), Min(qe, hi)) % K
  {
    var mid := (lo + hi) / 2;
    ClippedProdSplit(s, lo, mid, hi, qs, qe);
    CongruentProduct(if left.None? then 1 else left.value.val,
                     if right.None? then 1 else right.value.val,
                     Prod(s, Max(qs, lo), Min(qe, mid)), Prod(s, Max(qs, mid + 1), Min(qe, hi)), K);
  }

  /** `_query`: the node covering `[lo, hi]` classifies itself against the
      queried range `[qs, qe]` as disjoint (absent), fully contained (the
      node itself) or partially overlapping (merge of both children). The
      result spans the part of `[qs, qe]` inside `[lo, hi]` and holds its
      product modulo `K`; only a leaf returned as it is stays unreduced. */
  function QueryTree(t: seq<Node>, idx: nat, lo: int, hi: int, qs: int, qe: int, K: int, ghost s: seq<int>): (r: Option<Node>)
    requires K >= 1 && Consistent(t, idx, lo, hi, s, K) && lo <= hi
    ensures r.None? <==> qs > hi || qe < lo
    ensures r.Some? ==> r.value.length == Overlap(lo, hi, qs, qe)
    ensures r.Some? ==> r.value.val % K == Prod(s, Max(qs, lo), Min(qe, hi)) % K
    ensures r.Some? ==> r.value.val == if lo == hi then s[lo] else Prod(s, Max(qs, lo), Min(qe, hi)) % K
    decreases hi - lo, t
  {
    if qs > hi || qe < lo then None
    else if lo >= qs && hi <= qe then
      NodeHoldsRangeProduct(t, idx, lo, hi, s, K);
      Some(t[idx])
    else
      var mid := (lo + hi) / 2;
      var left := QueryTree(t, 2 * idx + 1, lo, mid, qs, qe, K, s);
      var right := QueryTree(t, 2 * idx + 2, mid + 1, hi, qs, qe, K, s);
      PartialQueryMerged(left, right, s, lo, hi, qs, qe, K);
      Some(Merge(left, right, K))
  }

  /** The value of `possible_interval` after `_build_tree` has visited the
      node covering `[lo, hi]` of the tree over `a`, starting from `p`.
      Nodes are visited in post-order, left before right. A leaf whose
      product is 0 modulo `K` sets it to 1 whatever it was; an inner node
      whose product is 0 modulo `K` sets it to its span only while it is
      still 0. */
  function IntervalAfterBuild(a: seq<int>, K: int, p: nat, lo: int, hi: int): (r: nat)
    requires K >= 1 && (lo > hi || (0 <= lo && hi < |a|))
    ensures p != 0 ==> r != 0
    decreases hi - lo, a
  {
    if lo > hi then p
    else if lo == hi then (if Prod(a, lo, hi) % K == 0 then 1 else p)
    else
      var mid := (lo + hi) / 2;
      var q := IntervalAfterBuild(a, K, IntervalAfterBuild(a, K, p, lo, mid), mid + 1, hi);
      if Prod(a, lo, hi) % K == 0 && q == 0 then hi - lo + 1 else q
  }

  /** Some node of the tree over `[lo, hi]` has a product that is 0 modulo `K`. */
  ghost predicate HasZeroBlock(a: seq<int>, K: int, lo: int, hi: int)
    requires K >= 1 && (lo > hi || (0 <= lo && hi < |a|))
    decreases hi - lo, a
  {
    lo <= hi &&
    (Prod(a, lo, hi) % K == 0 ||
     (lo < hi && (HasZeroBlock(a, K, lo, (lo + hi) / 2) || HasZeroBlock(a, K, (lo + hi) / 2 + 1, hi))))
  }

  /** The recorded interval stays 0 exactly when it started at 0 and no
      node visited has a product that is 0 modulo `K`. */
  lemma {:induction false} IntervalZeroIff(a: seq<int>, K: int, p: nat, lo: int, hi: int)
    requires K >= 1 && (lo > hi || (0 <= lo && hi < |a|))
    ensures IntervalAfterBuild(a, K, p, lo, hi) == 0 <==> p == 0 && !HasZeroBlock(a, K, lo, hi)
    decreases hi - lo
  {
    if lo < hi {
      var mid := (lo + hi) / 2;
      IntervalZeroIff(a, K, p, lo, mid);
      IntervalZeroIff(a, K, IntervalAfterBuild(a, K, p, lo, mid), mid + 1, hi);
    }
  }

  /** A recorded interval that differs from the starting value is the span
      of a visited node whose product is 0 modulo `K`. */
  lemma {:induction false} IntervalWitness(a: seq<int>, K: int, p: nat, lo: int, hi: int)
    requires K >= 1 && (lo > hi || (0 <= lo && hi < |a|))
    ensures var r := IntervalAfterBuild(a, K, p, lo, hi);
      r != p ==> exists x, y :: IsBlock(lo, hi, x, y) && 0 <= x <= y < |a| &&
                                Prod(a, x, y) % K == 0 && r == y - x + 1
    decreases hi - lo, 1
  {
    var r := IntervalAfterBuild(a, K, p, lo, hi);
    if lo == hi && r != p {
      assert IsBlock(lo, hi, lo, hi);
    } else if lo < hi && r != p {
      InnerWitness(a, K, p, lo, hi);
    }
  }

  /** The inner-node case of `IntervalWitness`: the value comes from the
      node itself, from its right subtree or from its left subtree. */
  lemma {:induction false} InnerWitness(a: seq<int>, K: int, p: nat, lo: int, hi: int)
    requires K >= 1 && 0 <= lo < hi < |a|
    requires IntervalAfterBuild(a, K, p, lo, hi) != p
    ensures var r := IntervalAfterBuild(a, K, p, lo, hi);
      exists x, y :: IsBlock(lo, hi, x, y) && 0 <= x <= y < |a| && Prod(a, x, y) % K == 0 && r == y - x + 1
    decreases hi - lo, 0
  {
    var mid := (lo + hi) / 2;
    var r := IntervalAfterBuild(a, K, p, lo, hi);
    var q1 := IntervalAfterBuild(a, K, p, lo, mid);
    var q := IntervalAfterBuild(a, K, q1, mid + 1, hi);
    if r != q {
      assert IsBlock(lo, hi, lo, hi);
    } else if q != q1 {
      IntervalWitness(a, K, q1, mid + 1, hi);
      var x, y :| IsBlock(mid + 1, hi, x, y) && 0 <= x <= y < |a| && Prod(a, x, y) % K == 0 && q == y - x + 1;
      assert IsBlock(lo, hi, x, y);
    } else {
      IntervalWitness(a, K, p, lo, mid);
      var x, y :| IsBlock(lo, mid, x, y) && 0 <= x <= y < |a| && Prod(a, x, y) % K == 0 && q1 == y - x + 1;
      assert IsBlock(lo, hi, x, y);
    }
  }

  /** Once the recorded interval is 1 it stays 1. */
  lemma {:induction false} OneStaysOne(a: seq<int>, K: int, lo: int, hi: int)
    requires K >= 1 && (lo > hi || (0 <= lo && hi < |a|))
    ensures IntervalAfterBuild(a, K, 1, lo, hi) == 1
    decreases hi - lo
  {
    if lo < hi {
      var mid := (lo + hi) / 2;
      OneStaysOne(a, K, lo, mid);
      OneStaysOne(a, K, mid + 1, hi);
    }
  }

  /** A leaf records 1 when its element is 0 modulo `K` and otherwise
      keeps what was recorded. */
  lemma IntervalAtLeaf(a: seq<int>, K: int, p: nat, i: int)
    requires K >= 1 && 0 <= i < |a|
    ensures IntervalAfterBuild(a, K, p, i, i) == if a[i] % K == 0 then 1 else p
  {
    LeafIsProduct(a, i);
  }

  /** One inner node of `_build_tree`: after both subtrees have recorded
      `q`, the node records its span if the value it holds (its product
      modulo `K`) is 0 and nothing was recorded yet. */
  lemma IntervalAtInner(t: seq<Node>, idx: nat, a: seq<int>, K: int, p: nat, lo: int, hi: int)
    requires K >= 1 && 0 <= lo < hi < |a| && Consistent(t, idx, lo, hi, Reduced(a, K), K)
    ensures idx < |t|
    ensures var q := IntervalAfterBuild(a, K, IntervalAfterBuild(a, K, p, lo, (lo + hi) / 2), (lo + hi) / 2 + 1, hi);
      IntervalAfterBuild(a, K, p, lo, hi) == if t[idx].val == 0 && q == 0 then hi - lo + 1 else q
  {
    BuiltNodeIsProduct(t, idx, lo, hi, a, K);
  }

  /** An inner node leaves a nonzero value recorded by its subtrees as it is. */
  lemma InnerKeepsRecorded(a: seq<int>, K: int, p: nat, lo: int, hi: int)
    requires K >= 1 && 0 <= lo < hi < |a|
    requires IntervalAfterBuild(a, K, IntervalAfterBuild(a, K, p, lo, (lo + hi) / 2), (lo + hi) / 2 + 1, hi) != 0
    ensures IntervalAfterBuild(a, K, p, lo, hi)
         == IntervalAfterBuild(a, K, IntervalAfterBuild(a, K, p, lo, (lo + hi) / 2), (lo + hi) / 2 + 1, hi)
  {
  }

  /** An element that is 0 modulo `K` forces the recorded interval to 1:
      its leaf sets 1, later leaves can only set 1 again, and an inner node
      never overwrites a nonzero value. */
  lemma {:induction false} ZeroLeafGivesOne(a: seq<int>, K: int, p: nat, lo: int, hi: int, i: int)
    requires K >= 1 && 0 <= lo <= i <= hi < |a| && a[i] % K == 0
    ensures IntervalAfterBuild(a, K, p, lo, hi) == 1
    decreases hi - lo
  {
    if lo == hi {
      IntervalAtLeaf(a, K, p, i);
    } else {
      var mid := (lo + hi) / 2;
      if i <= mid {
        ZeroLeafGivesOne(a, K, p, lo, mid, i);
        OneStaysOne(a, K, mid + 1, hi);
      } else {
        ZeroLeafGivesOne(a, K, IntervalAfterBuild(a, K, p, lo, mid), mid + 1, hi, i);
      }
      InnerKeepsRecorded(a, K, p, lo, hi);
    }
  }

  /** A nonzero recorded interval after construction is a span between 1
      and the array's length. */
  lemma IntervalInRange(a: seq<int>, K: int)
    requires K >= 1 && |a| >= 1
    ensures var r := IntervalAfterBuild(a, K, 0, 0, |a| - 1);
      r != 0 ==> 1 <= r <= |a|
  {
    IntervalWitness(a, K, 0, 0, |a| - 1);
  }

  /** What `possible_interval` holds after construction over a nonempty
      array: 0 exactly when no node of the tree has a product that is 0
      modulo `K`; otherwise the span of such a node, between 1 and `|a|`;
      and 1 whenever some element is 0 modulo `K`. */
  lemma PossibleInterval(a: seq<int>, K: int)
    requires K >= 1 && |a| >= 1
    ensures var r := IntervalAfterBuild(a, K, 0, 0, |a| - 1);
      && (r == 0 <==> !HasZeroBlock(a, K, 0, |a| - 1))
      && (r != 0 ==> 1 <= r <= |a|)
      && (r != 0 ==> exists x, y :: IsBlock(0, |a| - 1, x, y) && 0 <= x <= y < |a| &&
                                    Prod(a, x, y) % K == 0 && r == y - x + 1)
      && ((exists i :: 0 <= i < |a| && a[i] % K == 0) ==> r == 1)
  {
    IntervalZeroIff(a, K, 0, 0, |a| - 1);
    IntervalWitness(a, K, 0, 0, |a| - 1);
    if i :| 0 <= i < |a| && a[i] % K == 0 {
      ZeroLeafGivesOne(a, K, 0, 0, |a| - 1, i);
    }
  }

  /** The multiplicative tree of mulseg.py. `tree` is the backing list,
      `Leaves` the leaf values it currently represents (`arr[i] % K` after
      construction, then raised by `Update` without reduction), and
      `possibleInterval` the span recorded while building. */
  class SegmentTree {
    const arr: seq<int>
    const n: nat
    const K: int
    const tree: array<Node>
    var possibleInterval: nat
    ghost var Leaves: seq<int>

    ghost predicate Valid()
      reads this, tree
    {
      K >= 1 && n == |arr| >= 1 && |Leaves| == n &&
      tree.Length == TreeSize(n) && Fits(0, 0, n - 1, tree.Length) &&
      Consistent(tree[..], 0, 0, n - 1, Leaves, K)
    }

    /** `__init__`: sizes the list with the padded `TreeSize`, starts
        `possible_interval` at 0 and builds. `K` is the modulus the script
        reads, passed in. An empty array is refused (`log(0)` fails), and so
        is `K < 1` (`% 0` fails). */
    constructor (arr: seq<int>, K: int)
      requires |arr| >= 1 && K >= 1
      ensures Valid() && fresh(tree)
      ensures this.arr == arr && this.K == K && Leaves == Reduced(arr, K)
      ensures possibleInterval == IntervalAfterBuild(arr, K, 0, 0, |arr| - 1)
    {
      this.arr := arr;
      n := |arr|;
      this.K := K;
      tree := new Node[TreeSize(|arr|)](_ => Node(1, 0));
      possibleInterval := 0;
      Leaves := Reduced(arr, K);
      new;
      TreeSizeFits(n);
      BuildTree(0, 0, n - 1);
    }

    /** `_build_tree`: fills the leaves of `[lo, hi]` with `arr[i] % K`, every
        parent with the merge of its children, and updates `possibleInterval`
        as `IntervalAfterBuild` says: a leaf that is 0 modulo `K` sets 1, and
        an inner node whose product is 0 modulo `K` sets its span only while
        nothing is recorded. */
    method BuildTree(idx: nat, lo: int, hi: int)
      requires K >= 1 && (lo > hi || (0 <= lo && hi < |arr|))
      requires Fits(idx, lo, hi, tree.Length)
      modifies tree, this`possibleInterval
      ensures Consistent(tree[..], idx, lo, hi, Reduced(arr, K), K)
      ensures OnlySubtreeChanged(old(tree[..]), tree[..], idx)
      ensures possibleInterval == IntervalAfterBuild(arr, K, old(possibleInterval), lo, hi)
      decreases hi - lo
    {
      if lo > hi {
        return;
      }
      if lo == hi {
        tree[idx] := Node(arr[lo] % K, 1);
        IntervalAtLeaf(arr, K, possibleInterval, lo);
        if tree[idx].val == 0 {
          possibleInterval := 1;
        }
        return;
      }
      var mid := (lo + hi) / 2;
      ghost var t0, p0 := tree[..], possibleInterval;
      BuildTree(2 * idx + 1, lo, mid);
      ghost var t1 := tree[..];
      BuildTree(2 * idx + 2, mid + 1, hi);
      ghost var t2 := tree[..];
      Recombined(t0, t1, t2, idx, lo, hi, Reduced(arr, K), K);
      ghost var t3 := t2[idx := Merge(Some(t2[2 * idx + 1]), Some(t2[2 * idx + 2]), K)];
      IntervalAtInner(t3, idx, arr, K, p0, lo, hi);
      tree[idx] := Merge(Some(tree[2 * idx + 1]), Some(tree[2 * idx + 2]), K);
      assert tree[..] == t3;
      if tree[idx].val == 0 {
        if possibleInterval == 0 {
          possibleInterval := hi - lo + 1;
        }
      }
    }

    /** `query`: the product modulo `K` of the leaves in `[qs, qe]` clipped
        to the array, except that a one-element tree returns its leaf as it
        is. The range must meet the array: otherwise `_query` returns `None`
        at the root and reading `.val` fails. On a tree no update has
        touched, the result is the product of `arr[qs..qe]` modulo `K`. */
    method Query(qs: int, qe: int) returns (r: int)
      requires Valid()
      requires qs <= n - 1 && qe >= 0
      ensures r % K == Prod(Leaves, Max(qs, 0), Min(qe, n - 1)) % K
      ensures r == if n == 1 then Leaves[0] else Prod(Leaves, Max(qs, 0), Min(qe, n - 1)) % K
      ensures Leaves == Reduced(arr, K) ==> r == Prod(arr, Max(qs, 0), Min(qe, n - 1)) % K
    {
      var node := QueryTree(tree[..], 0, 0, n - 1, qs, qe, K, Leaves);
      r := node.value.val;
      if Leaves == Reduced(arr, K) {
        ReducedProd(arr, K, Max(qs, 0), Min(qe, n - 1));
      }
    }

    /** `_update`: adds `v` to every leaf of `[lo, hi]` inside `[qs, qe]`
        (without reducing it) and recomputes the parents on the way back up. */
    method UpdateAt(idx: nat, lo: int, hi: int, qs: int, qe: int, v: int)
      requires K >= 1 && Fits(idx, lo, hi, tree.Length) && lo <= hi
      modifies tree
      ensures tree[..] == UpdatedTree(old(tree[..]), idx, lo, hi, qs, qe, v, K)
      decreases hi - lo
    {
      if qs > hi || qe < lo || qs > qe {
        return;
      }
      if lo == hi {
        tree[idx] := tree[idx].(val := tree[idx].val + v);
        return;
      }
      var mid := (lo + hi) / 2;
      UpdateAt(2 * idx + 1, lo, mid, qs, qe, v);
      UpdateAt(2 * idx + 2, mid + 1, hi, qs, qe, v);
      ghost var t2 := tree[..];
      tree[idx] := Merge(Some(tree[2 * idx + 1]), Some(tree[2 * idx + 2]), K);
      assert tree[..] == t2[idx := tree[idx]];
    }

    /** `update`: adds `v` to the leaves in `[qs, qe]` (positions outside the
        array are ignored) and keeps the tree consistent; `possibleInterval`
        and every `length` stay as they were. */
    method Update(qs: int, qe: int, v: int)
      requires Valid()
      modifies this`Leaves, tree
      ensures Valid()
      ensures Leaves == AddRange(old(Leaves), qs, qe, v)
      ensures possibleInterval == old(possibleInterval)
      ensures tree[..] == UpdatedTree(old(tree[..]), 0, 0, n - 1, qs, qe, v, K)
      ensures forall j :: 0 <= j < tree.Length ==> tree[j].length == old(tree[j].length)
    {
      UpdatedTreeConsistent(tree[..], 0, 0, n - 1, qs, qe, v, Leaves, AddRange(Leaves, qs, qe, v), K);
      UpdatedTreeKeepsLengths(tree[..], 0, 0, n - 1, qs, qe, v, Leaves, K);
      UpdateAt(0, 0, n - 1, qs, qe, v);
      Leaves := AddRange(Leaves, qs, qe, v);
      assert SameLengths(old(tree[..]), tree[..]);
    }
  }
}
