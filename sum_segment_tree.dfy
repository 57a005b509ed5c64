/** The additive segment tree of segment-tree.py: every node holds the sum
    of the array elements it covers, without lazy propagation. */
module SumSegTree {
  import opened Wrappers
  import opened Layout

  datatype Node = Node(val: int)

  /** Combines two (possibly absent) children; an absent child counts as
      `Node(0)`, the identity of addition. */
  function Merge(left: Option<Node>, right: Option<Node>): (m: Node)
    ensures left.None? && right.Some? ==> m == right.value
    ensures left.Some? && right.None? ==> m == left.value
    ensures left.None? && right.None? ==> m == Node(0)
    ensures left.Some? && right.Some? ==> m.val == left.value.val + right.value.val
  {
    var l := if left.None? then Node(0) else left.value;
    var r := if right.None? then Node(0) else right.value;
    Node(l.val + r.val)
  }

  /** Merging is associative, so partial query results can be regrouped. */
  lemma MergeAssociative(a: Option<Node>, b: Option<Node>, c: Option<Node>)
    ensures Merge(Some(Merge(a, b)), c) == Merge(a, Some(Merge(b, c)))
  {
  }

  /** Sum of `s[lo..hi]`, both ends included; 0 for an empty range. */
  function Sum(s: seq<int>, lo: int, hi: int): int
    requires lo > hi || (0 <= lo && hi < |s|)
    decreases hi - lo, s
  {
    if lo > hi then 0 else Sum(s, lo, hi - 1) + s[hi]
  }

  /** A range sum splits at any point `m` of the range. */
  lemma {:induction false} SumSplit(s: seq<int>, lo: int, m: int, hi: int)
    requires 0 <= lo && lo - 1 <= m <= hi < |s|
    ensures Sum(s, lo, hi) == Sum(s, lo, m) + Sum(s, m + 1, hi)
    decreases hi - m
  {
    if m < hi {
      SumSplit(s, lo, m, hi - 1);
    }
  }

  /** The tree invariant for the node `idx` covering `[lo, hi]` over the
      current element values `s`: a leaf holds its element, an inner node
      holds the merge of its two children, and every visited slot exists. */
  ghost predicate Consistent(t: seq<Node>, idx: nat, lo: int, hi: int, s: seq<int>)
    decreases hi - lo, t
  {
    lo > hi ||
    (0 <= lo && hi < |s| && idx < |t| &&
     if lo == hi then t[idx] == Node(s[lo])
     else
       Consistent(t, 2 * idx + 1, lo, (lo + hi) / 2, s) &&
       Consistent(t, 2 * idx + 2, (lo + hi) / 2 + 1, hi, s) &&
       t[idx] == Merge(Some(t[2 * idx + 1]), Some(t[2 * idx + 2])))
  }

  /** The abstraction: a consistent node holds the sum of the range it covers. */
  lemma {:induction false} NodeHoldsRangeSum(t: seq<Node>, idx: nat, lo: int, hi: int, s: seq<int>)
    requires Consistent(t, idx, lo, hi, s) && lo <= hi
    ensures idx < |t| && t[idx].val == Sum(s, lo, hi)
    decreases hi - lo
  {
    if lo < hi {
      var mid := (lo + hi) / 2;
      NodeHoldsRangeSum(t, 2 * idx + 1, lo, mid, s);
      NodeHoldsRangeSum(t, 2 * idx + 2, mid + 1, hi, s);
      SumSplit(s, lo, mid, hi);
    }
  }

  /** Consistency depends only on the slots of the node's own subtree. */
  lemma {:induction false} ConsistentKept(t: seq<Node>, u: seq<Node>, idx: nat, lo: int, hi: int, s: seq<int>)
    requires Consistent(t, idx, lo, hi, s) && AgreeOn(t, u, idx)
    ensures Consistent(u, idx, lo, hi, s)
    decreases hi - lo
  {
    if lo < hi {
      AgreeOnChildren(t, u, idx);
      ConsistentKept(t, u, 2 * idx + 1, lo, (lo + hi) / 2, s);
      ConsistentKept(t, u, 2 * idx + 2, (lo + hi) / 2 + 1, hi, s);
    }
  }

  /** After the left subtree of `idx` was rebuilt (`t0` to `t1`) and then
      the right one (`t1` to `t2`), writing the merge of the two children
      into slot `idx` makes the node consistent and changes nothing outside
      its subtree. */
  lemma Recombined(t0: seq<Node>, t1: seq<Node>, t2: seq<Node>, idx: nat, lo: int, hi: int, s: seq<int>)
    requires 0 <= lo < hi < |s| && idx < |t2|
    requires Consistent(t1, 2 * idx + 1, lo, (lo + hi) / 2, s) && OnlySubtreeChanged(t0, t1, 2 * idx + 1)
    requires Consistent(t2, 2 * idx + 2, (lo + hi) / 2 + 1, hi, s) && OnlySubtreeChanged(t1, t2, 2 * idx + 2)
    ensures 2 * idx + 2 < |t2|
    ensures var t3 := t2[idx := Merge(Some(t2[2 * idx + 1]), Some(t2[2 * idx + 2]))];
      Consistent(t3, idx, lo, hi, s) && OnlySubtreeChanged(t0, t3, idx)
  {
    var mid := (lo + hi) / 2;
    var t3 := t2[idx := Merge(Some(t2[2 * idx + 1]), Some(t2[2 * idx + 2]))];
    SubtreesComposed(t0, t1, t2, idx, t3[idx]);
    ConsistentKept(t1, t3, 2 * idx + 1, lo, mid, s);
    ConsistentKept(t2, t3, 2 * idx + 2, mid + 1, hi, s);
  }

  /** ... and only on the elements of the node's own range. */
  lemma {:induction false} ConsistentSameRange(t: seq<Node>, idx: nat, lo: int, hi: int, s: seq<int>, s': seq<int>)
    requires Consistent(t, idx, lo, hi, s) && |s'| == |s|
    requires forall i :: lo <= i <= hi && 0 <= i < |s| ==> s'[i] == s[i]
    ensures Consistent(t, idx, lo, hi, s')
    decreases hi - lo
  {
    if lo < hi {
      ConsistentSameRange(t, 2 * idx + 1, lo, (lo + hi) / 2, s, s');
      ConsistentSameRange(t, 2 * idx + 2, (lo + hi) / 2 + 1, hi, s, s');
    }
  }

  /** The part of `[qs, qe]` inside `[lo, hi]` sums to the parts inside the
      two halves of `[lo, hi]`. */
  lemma ClippedSumSplit(s: seq<int>, lo: int, mid: int, hi: int, qs: int, qe: int)
    requires 0 <= lo <= mid < hi < |s|
    ensures Sum(s, Max(qs, lo), Min(qe, hi))
         == Sum(s, Max(qs, lo), Min(qe, mid)) + Sum(s, Max(qs, mid + 1), Min(qe, hi))
  {
    var x, y := Max(qs, lo), Min(qe, hi);
    if x <= mid < y {
      SumSplit(s, x, mid, y);
    }
  }

  /** `_query`: the node covering `[lo, hi]` classifies itself against the
      queried range `[qs, qe]` as disjoint (absent), fully contained (the
      node itself) or partially overlapping (merge of both children). The
      result is the sum over the part of `[qs, qe]` inside `[lo, hi]`. */
  function QueryTree(t: seq<Node>, idx: nat, lo: int, hi: int, qs: int, qe: int, ghost s: seq<int>): (r: Option<Node>)
    requires Consistent(t, idx, lo, hi, s) && lo <= hi
    ensures r.None? <==> qs > hi || qe < lo
    ensures r.Some? ==> r.value.val == Sum(s, Max(qs, lo), Min(qe, hi))
    decreases hi - lo, t
  {
    if qs > hi || qe < lo then None
    else if lo >= qs && hi <= qe then
      NodeHoldsRangeSum(t, idx, lo, hi, s);
      Some(t[idx])
    else
      var mid := (lo + hi) / 2;
      var left := QueryTree(t, 2 * idx + 1, lo, mid, qs, qe, s);
      var right := QueryTree(t, 2 * idx + 2, mid + 1, hi, qs, qe, s);
      ClippedSumSplit(s, lo, mid, hi, qs, qe);
      Some(Merge(left, right))
  }

  /** After adding `v` over `[qs, qe]`, any range sum grows by `v` times the
      number of its positions inside `[qs, qe]`. */
  lemma {:induction false} AddRangeSum(s: seq<int>, qs: int, qe: int, v: int, x: int, y: int)
    requires x > y || (0 <= x && y < |s|)
    ensures Sum(AddRange(s, qs, qe, v), x, y) == Sum(s, x, y) + v * Overlap(x, y, qs, qe)
    decreases y - x
  {
    if x <= y {
      AddRangeSum(s, qs, qe, v, x, y - 1);
      if qs <= y <= qe {
        assert Overlap(x, y, qs, qe) == Overlap(x, y - 1, qs, qe) + 1;
      } else {
        assert Overlap(x, y, qs, qe) == Overlap(x, y - 1, qs, qe);
      }
    }
  }

  /** An update whose range is empty or misses `[0, |s| - 1]` changes no element. */
  lemma AddRangeOutside(s: seq<int>, qs: int, qe: int, v: int)
    requires qs > qe || qs > |s| - 1 || qe < 0
    ensures AddRange(s, qs, qe, v) == s
  {
  }

  /** Every slot a consistent node visits exists. */
  lemma {:induction false} ConsistentFits(t: seq<Node>, idx: nat, lo: int, hi: int, s: seq<int>)
    requires Consistent(t, idx, lo, hi, s)
    ensures Fits(idx, lo, hi, |t|)
    decreases hi - lo
  {
    if lo < hi {
      ConsistentFits(t, 2 * idx + 1, lo, (lo + hi) / 2, s);
      ConsistentFits(t, 2 * idx + 2, (lo + hi) / 2 + 1, hi, s);
    }
  }

  /** The backing list after `_update(idx, lo, hi, qs, qe, v)`: a node outside
      `[qs, qe]` (or an empty query) is left alone, a leaf gets `v` added, an
      inner node updates its left subtree, then its right one, then takes
      the merge of its children. An empty node range is only reached when
      it is pruned; otherwise `_update` would split it forever. */
  function UpdatedTree(t: seq<Node>, idx: nat, lo: int, hi: int, qs: int, qe: int, v: int): (u: seq<Node>)
    requires Fits(idx, lo, hi, |t|)
    requires lo <= hi || qs > hi || qe < lo || qs > qe
    ensures |u| == |t|
    decreases hi - lo, t
  {
    if qs > hi || qe < lo || qs > qe then t
    else if lo == hi then t[idx := Node(t[idx].val + v)]
    else
      var mid := (lo + hi) / 2;
      var t1 := UpdatedTree(t, 2 * idx + 1, lo, mid, qs, qe, v);
      var t2 := UpdatedTree(t1, 2 * idx + 2, mid + 1, hi, qs, qe, v);
      t2[idx := Merge(Some(t2[2 * idx + 1]), Some(t2[2 * idx + 2]))]
  }

  /** Updating a consistent node leaves it consistent with the updated
      element values `s'` (`v` added inside `[qs, qe]`, as `AddRange`
      states) and changes nothing outside its subtree. */
  lemma {:induction false} UpdatedTreeConsistent(t: seq<Node>, idx: nat, lo: int, hi: int, qs: int, qe: int, v: int, s: seq<int>, s': seq<int>)
    requires Consistent(t, idx, lo, hi, s)
    requires lo <= hi || qs > hi || qe < lo || qs > qe
    requires |s'| == |s| && forall i :: 0 <= i < |s| ==> s'[i] == if qs <= i <= qe then s[i] + v else s[i]
    ensures Fits(idx, lo, hi, |t|)
    ensures Consistent(UpdatedTree(t, idx, lo, hi, qs, qe, v), idx, lo, hi, s')
    ensures OnlySubtreeChanged(t, UpdatedTree(t, idx, lo, hi, qs, qe, v), idx)
    decreases hi - lo
  {
    ConsistentFits(t, idx, lo, hi, s);
    if qs > hi || qe < lo || qs > qe {
      ConsistentSameRange(t, idx, lo, hi, s, s');
    } else if lo < hi {
      var mid := (lo + hi) / 2;
      var t1 := UpdatedTree(t, 2 * idx + 1, lo, mid, qs, qe, v);
      UpdatedTreeConsistent(t, 2 * idx + 1, lo, mid, qs, qe, v, s, s');
      SiblingKept(t, t1, idx);
      ConsistentKept(t, t1, 2 * idx + 2, mid + 1, hi, s);
      var t2 := UpdatedTree(t1, 2 * idx + 2, mid + 1, hi, qs, qe, v);
      UpdatedTreeConsistent(t1, 2 * idx + 2, mid + 1, hi, qs, qe, v, s, s');
      Recombined(t, t1, t2, idx, lo, hi, s');
      assert UpdatedTree(t, idx, lo, hi, qs, qe, v) == t2[idx := Merge(Some(t2[2 * idx + 1]), Some(t2[2 * idx + 2]))];
    } else {
      assert UpdatedTree(t, idx, lo, hi, qs, qe, v) == t[idx := Node(t[idx].val + v)];
      assert Descends(idx, idx);
    }
  }

  /** The additive tree of segment-tree.py. `tree` is the backing list,
      `Elements` the element values it currently represents: `arr` after
      construction, changed by `Update` (`arr` itself is never changed). */
  class SegmentTree {
    const arr: seq<int>
    const n: nat
    const tree: array<Node>
    ghost var Elements: seq<int>

    ghost predicate Valid()
      reads this, tree
    {
      n == |arr| && |Elements| == n &&
      tree.Length == SlotCount(n) && Fits(0, 0, n - 1, tree.Length) &&
      Consistent(tree[..], 0, 0, n - 1, Elements)
    }

    constructor (arr: seq<int>)
      ensures Valid() && fresh(tree)
      ensures this.arr == arr && Elements == arr
    {
      this.arr := arr;
      n := |arr|;
      tree := new Node[SlotCount(|arr|)](_ => Node(0));
      Elements := arr;
      new;
      if n >= 1 {
        TreeSizeFits(n);
        assert Fits(0, 0, n - 1, tree.Length);
      }
      BuildTree(0, 0, n - 1);
      assert Consistent(tree[..], 0, 0, n - 1, Elements);
    }

    /** `_build_tree`: fills the leaves of `[lo, hi]` from `arr` and every
        parent from its children, touching only the subtree of `idx`. */
    method BuildTree(idx: nat, lo: int, hi: int)
      requires lo > hi || (0 <= lo && hi < |arr|)
      requires Fits(idx, lo, hi, tree.Length)
      modifies tree
      ensures Consistent(tree[..], idx, lo, hi, arr)
      ensures OnlySubtreeChanged(old(tree[..]), tree[..], idx)
      decreases hi - lo
    {
      if lo > hi {
        return;
      }
      if lo == hi {
        tree[idx] := Node(arr[lo]);
        return;
      }
      var mid := (lo + hi) / 2;
      ghost var t0 := tree[..];
      BuildTree(2 * idx + 1, lo, mid);
      ghost var t1 := tree[..];
      BuildTree(2 * idx + 2, mid + 1, hi);
      ghost var t2 := tree[..];
      Recombined(t0, t1, t2, idx, lo, hi, arr);
      tree[idx] := Merge(Some(tree[2 * idx + 1]), Some(tree[2 * idx + 2]));
      assert tree[..] == t2[idx := tree[idx]];
    }

    /** `query`: the sum of the elements in `[qs, qe]` clipped to the array.
        The range must meet the array: otherwise `_query` returns `None` at
        the root and reading `.val` fails. */
    method Query(qs: int, qe: int) returns (r: int)
      requires Valid()
      requires n >= 1 && qs <= n - 1 && qe >= 0
      ensures r == Sum(Elements, Max(qs, 0), Min(qe, n - 1))
      ensures 0 <= qs <= qe < n ==> r == Sum(Elements, qs, qe)
    {
      var node := QueryTree(tree[..], 0, 0, n - 1, qs, qe, Elements);
      r := node.value.val;
    }

    /** `_update`: adds `v` to every leaf of `[lo, hi]` inside `[qs, qe]` and
        recomputes the parents on the way back up. */
    method UpdateAt(idx: nat, lo: int, hi: int, qs: int, qe: int, v: int)
      requires Fits(idx, lo, hi, tree.Length)
      requires lo <= hi || qs > hi || qe < lo || qs > qe
      modifies tree
      ensures tree[..] == UpdatedTree(old(tree[..]), idx, lo, hi, qs, qe, v)
      decreases hi - lo
    {
      if qs > hi || qe < lo || qs > qe {
        return;
      }
      if lo == hi {
        tree[idx] := Node(tree[idx].val + v);
        return;
      }
      var mid := (lo + hi) / 2;
      UpdateAt(2 * idx + 1, lo, mid, qs, qe, v);
      UpdateAt(2 * idx + 2, mid + 1, hi, qs, qe, v);
      ghost var t2 := tree[..];
      tree[idx] := Merge(Some(tree[2 * idx + 1]), Some(tree[2 * idx + 2]));
      assert tree[..] == t2[idx := tree[idx]];
    }

    /** `update`: adds `v` to the elements in `[qs, qe]` (positions outside
        the array are ignored) and keeps the tree consistent. On an empty
        array only a range the root prunes is allowed: for any other,
        `_update` keeps splitting `[0, -1]` into itself and never returns
        normally. */
    method Update(qs: int, qe: int, v: int)
      requires Valid()
      requires n >= 1 || qs > qe || qs > n - 1 || qe < 0
      modifies this, tree
      ensures Valid()
      ensures Elements == AddRange(old(Elements), qs, qe, v)
      ensures tree[..] == UpdatedTree(old(tree[..]), 0, 0, n - 1, qs, qe, v)
    {
      ghost var t, s := tree[..], Elements;
      UpdatedTreeConsistent(t, 0, 0, n - 1, qs, qe, v, s, AddRange(s, qs, qe, v));
      ghost var u := UpdatedTree(t, 0, 0, n - 1, qs, qe, v);
      UpdateAt(0, 0, n - 1, qs, qe, v);
      assert tree[..] == u;
      Elements := AddRange(s, qs, qe, v);
      assert Consistent(tree[..], 0, 0, n - 1, Elements);
    }
  }

  /** Slots allocated for `n` elements: the padded size of `TreeSize`, and
      none for an empty array. */
  function SlotCount(n: nat): (size: nat)
    ensures n >= 1 ==> size == TreeSize(n)
    ensures n == 0 ==> size == 0
  {
    if n == 0 then 0 else TreeSize(n)
  }

  /** The size segment-tree.py allocates: `2 * len(arr) - 1`. */
  function AsWrittenSize(n: nat): int
  {
    2 * n - 1
  }

  /** For six elements the build writes slot 11, beyond the 11 slots
      (0 to 10) of `2 * len(arr) - 1`: the node `[3, 4]` sits at slot 5, and
      its left leaf `[3, 3]` at slot 11 is the first write out of range. */
  lemma AsWrittenSizeTooSmall()
    ensures !Fits(0, 0, 5, AsWrittenSize(6))
  {
    assert AsWrittenSize(6) == 11;
    assert !Fits(5, 3, 4, 11) by {
      assert !Fits(11, 3, 3, 11);
    }
    assert !Fits(2, 3, 5, 11);
  }

  /** When the length is a power of two, `2 * len(arr) - 1` is the padded
      size, so every visited slot exists. */
  lemma AsWrittenSizeFitsPowersOfTwo(d: nat)
    ensures AsWrittenSize(Pow2(d)) == SlotCount(Pow2(d))
    ensures Fits(0, 0, Pow2(d) - 1, AsWrittenSize(Pow2(d)))
  {
    TreeSizeOfPowerOfTwo(d);
    TreeSizeFits(Pow2(d));
  }

  /** The five elements of the demonstration fit in `2 * 5 - 1` slots, so
      it builds as written. */
  lemma AsWrittenSizeFitsDemo()
    ensures Fits(0, 0, 4, AsWrittenSize(5))
  {
  }

  /** The demonstration at the end of segment-tree.py. */
  method Demo() returns (q01: int, q03: int, q04: int, q12: int)
    ensures q01 == 4 && q03 == 12 && q04 == 16 && q12 == 5
  {
    var st := new SegmentTree([1, 3, 2, 6, 4]);
    q01 := st.Query(0, 1);
    q03 := st.Query(0, 3);
    q04 := st.Query(0, 4);
    q12 := st.Query(1, 2);
  }
}
