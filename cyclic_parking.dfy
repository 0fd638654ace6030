/**
 * Cyclic parking (algorithms/cyclic_parking/main.cpp).
 *
 * Slots 1..n sit around a ring. A car arriving at slot e takes the first free
 * slot from e onwards, wrapping round to slot 1 when there is none; a car
 * leaving slot e frees it. A minimum segment tree over the slots answers both
 * questions: a free slot i (counting from zero) holds i + 1 and an occupied
 * one holds `MAX_VALUE`.
 */
module CyclicParking {

  const MAX_VALUE: int := 200000

  // ---------------------------------------------------------------------------
  // Range minima

  function Min(a: int, b: int): int {
    if a <= b then a else b
  }

  function Max(a: int, b: int): int {
    if a >= b then a else b
  }

  /** The minimum of `values[l..r]` (both ends included), or `MAX_VALUE` when the range is empty. */
  function RangeMin(values: seq<int>, l: int, r: int): (m: int)
    requires 0 <= l && r < |values|
    ensures l > r ==> m == MAX_VALUE
    ensures l <= r ==> m <= values[r]
    decreases r - l
  {
    if l > r then MAX_VALUE else Min(RangeMin(values, l, r - 1), values[r])
  }

  predicate Bounded(values: seq<int>) {
    forall k :: 0 <= k < |values| ==> values[k] <= MAX_VALUE
  }

  /** `RangeMin` is a lower bound of the range and, for a non-empty range, one of its values. */
  lemma {:induction false} RangeMinIsMinimum(values: seq<int>, l: int, r: int)
    requires 0 <= l && r < |values| && Bounded(values)
    ensures RangeMin(values, l, r) <= MAX_VALUE
    ensures forall k :: l <= k <= r ==> RangeMin(values, l, r) <= values[k]
    ensures l <= r ==> exists k :: l <= k <= r && values[k] == RangeMin(values, l, r)
    decreases r - l
  {
    if l <= r {
      RangeMinIsMinimum(values, l, r - 1);
    }
  }

  /** The minimum of a range is the smaller of the minima of its two parts. */
  lemma {:induction false} RangeMinSplit(values: seq<int>, l: int, m: int, r: int)
    requires 0 <= l && l - 1 <= m <= r < |values| && Bounded(values)
    ensures RangeMin(values, l, r) == Min(RangeMin(values, l, m), RangeMin(values, m + 1, r))
    decreases r - m
  {
    if m < r {
      RangeMinSplit(values, l, m, r - 1);
    } else {
      RangeMinIsMinimum(values, l, r);
    }
  }

  // ---------------------------------------------------------------------------
  // Tree shape

  /** `v` is `u` or one of its ancestors: the parent of node `u` is `u / 2`. */
  ghost predicate Ancestor(v: nat, u: nat)
    decreases u
  {
    u >= 1 && (u == v || (u > v && Ancestor(v, u / 2)))
  }

  lemma {:induction false} AncestorBelow(v: nat, u: nat)
    requires Ancestor(v, u)
    ensures v <= u
    decreases u
  {
    if u != v {
      AncestorBelow(v, u / 2);
    }
  }

  /** A descendant of a child is a descendant of the parent. */
  lemma {:induction false} AncestorOfChild(v: nat, c: nat, u: nat)
    requires v >= 1 && (c == 2 * v || c == 2 * v + 1) && Ancestor(c, u)
    ensures Ancestor(v, u)
    decreases u
  {
    if u != c {
      AncestorOfChild(v, c, u / 2);
    }
  }

  /** The two subtrees of a node share no node. */
  lemma {:induction false} ChildrenDisjoint(v: nat, u: nat)
    requires v >= 1
    ensures !(Ancestor(2 * v, u) && Ancestor(2 * v + 1, u))
    decreases u
  {
    if Ancestor(2 * v, u) && Ancestor(2 * v + 1, u) {
      if u == 2 * v + 1 {
        AncestorBelow(2 * v, u / 2);
      } else if u != 2 * v {
        ChildrenDisjoint(v, u / 2);
      }
    }
  }

  /**
   * Node `v` and its subtree describe `values[tl..tr]`: every node holds the
   * minimum of the range it covers, and the children split that range at
   * `tl + (tr - tl) / 2`.
   */
  ghost predicate Represents(t: seq<int>, values: seq<int>, v: nat, tl: int, tr: int)
    requires 0 <= tl <= tr < |values|
    decreases tr - tl
  {
    var middle := tl + (tr - tl) / 2;
    && 1 <= v < |t|
    && t[v] == RangeMin(values, tl, tr)
    && (tl < tr ==> Represents(t, values, 2 * v, tl, middle) && Represents(t, values, 2 * v + 1, middle + 1, tr))
  }

  /** `Represents` looks only at the subtree of `v`. */
  lemma {:induction false} RepresentsFrame(t1: seq<int>, t2: seq<int>, values: seq<int>, v: nat, tl: int, tr: int)
    requires 0 <= tl <= tr < |values| && |t1| == |t2|
    requires forall u :: 0 <= u < |t1| && Ancestor(v, u) ==> t1[u] == t2[u]
    requires Represents(t1, values, v, tl, tr)
    ensures Represents(t2, values, v, tl, tr)
    decreases tr - tl
  {
    assert Ancestor(v, v);
    if tl < tr {
      var middle := tl + (tr - tl) / 2;
      forall u | 0 <= u < |t1| && Ancestor(2 * v, u) ensures t1[u] == t2[u] {
        AncestorOfChild(v, 2 * v, u);
      }
      forall u | 0 <= u < |t1| && Ancestor(2 * v + 1, u) ensures t1[u] == t2[u] {
        AncestorOfChild(v, 2 * v + 1, u);
      }
      RepresentsFrame(t1, t2, values, 2 * v, tl, middle);
      RepresentsFrame(t1, t2, values, 2 * v + 1, middle + 1, tr);
    }
  }

  lemma MulMonotone(p: int, x: int, y: int)
    requires p >= 0 && x <= y
    ensures p * x <= p * y
  {
    assert p * y - p * x == p * (y - x);
  }

  /** A node holding the smaller of its children's minima describes the union of their ranges. */
  lemma Combine(t: seq<int>, values: seq<int>, v: nat, tl: int, middle: int, tr: int)
    requires 0 <= tl < tr < |values| && Bounded(values) && 1 <= v < |t|
    requires middle == tl + (tr - tl) / 2
    requires Represents(t, values, 2 * v, tl, middle)
    requires Represents(t, values, 2 * v + 1, middle + 1, tr)
    requires t[v] == Min(t[2 * v], t[2 * v + 1])
    ensures Represents(t, values, v, tl, tr)
  {
    RangeMinSplit(values, tl, middle, tr);
  }

  /** The children of a node at `level` sit at `2 * level` and cover at most half its range. */
  lemma ChildLevels(level: nat, left: int, middle: int, right: int, size: int)
    requires left < right && middle == left + (right - left) / 2
    requires 1 <= level && level * (right - left) < size
    ensures 4 * level <= 4 * size
    ensures (2 * level) * (middle - left) < size
    ensures (2 * level) * (right - middle - 1) < size
  {
    MulMonotone(level, 1, right - left);
    MulMonotone(level, 2 * (middle - left), right - left);
    MulMonotone(level, 2 * (right - middle - 1), right - left);
    assert (2 * level) * (middle - left) == level * (2 * (middle - left));
    assert (2 * level) * (right - middle - 1) == level * (2 * (right - middle - 1));
  }

  // ---------------------------------------------------------------------------
  // build_segment_tree, get_min, update

  /**
   * `build_segment_tree`: fills the subtree of `vertexIndex` from
   * `massive[left..right]`, touching no node outside that subtree. The ghost
   * `level` is the power of two at the node's depth; with it the indices stay
   * below `4 * |massive|`.
   */
  method BuildSegmentTree(tree: array<int>, massive: seq<int>, vertexIndex: nat, left: int, right: int, ghost level: nat)
    requires 0 <= left <= right < |massive| && Bounded(massive)
    requires tree.Length == 4 * |massive|
    requires 1 <= level <= vertexIndex < 2 * level <= tree.Length && level * (right - left) < |massive|
    modifies tree
    ensures Represents(tree[..], massive, vertexIndex, left, right)
    ensures forall u :: 0 <= u < tree.Length && !Ancestor(vertexIndex, u) ==> tree[u] == old(tree[u])
    decreases right - left
  {
    if left == right {
      tree[vertexIndex] := massive[left];
    } else {
      var middle := left + (right - left) / 2;
      ChildLevels(level, left, middle, right, |massive|);
      ghost var t0 := tree[..];
      BuildSegmentTree(tree, massive, 2 * vertexIndex, left, middle, 2 * level);
      ghost var t1 := tree[..];
      BuildSegmentTree(tree, massive, 2 * vertexIndex + 1, middle + 1, right, 2 * level);
      ghost var t2 := tree[..];
      tree[vertexIndex] := Min(tree[2 * vertexIndex], tree[2 * vertexIndex + 1]);
      BuildStep(t0, t1, t2, tree[..], massive, vertexIndex, left, middle, right);
    }
  }

  /**
   * The step of `build_segment_tree` after both children are built: each
   * child's subtree survived the other's construction, so the node describes
   * its whole range, and only the subtree of `v` changed.
   */
  lemma BuildStep(t0: seq<int>, t1: seq<int>, t2: seq<int>, t3: seq<int>, values: seq<int>, v: nat, tl: int, tm: int, tr: int)
    requires 0 <= tl < tr < |values| && tm == tl + (tr - tl) / 2 && Bounded(values)
    requires 1 <= v && 2 * v + 1 < |t0| == |t1| == |t2|
    requires Represents(t1, values, 2 * v, tl, tm)
    requires forall u :: 0 <= u < |t0| && !Ancestor(2 * v, u) ==> t1[u] == t0[u]
    requires Represents(t2, values, 2 * v + 1, tm + 1, tr)
    requires forall u :: 0 <= u < |t0| && !Ancestor(2 * v + 1, u) ==> t2[u] == t1[u]
    requires t3 == t2[v := Min(t2[2 * v], t2[2 * v + 1])]
    ensures Represents(t3, values, v, tl, tr)
    ensures forall u :: 0 <= u < |t0| && !Ancestor(v, u) ==> t3[u] == t0[u]
  {
    assert Ancestor(v, v);
    forall u | 0 <= u < |t0| && Ancestor(2 * v, u) ensures t1[u] == t3[u] {
      ChildrenDisjoint(v, u);
      AncestorBelow(2 * v, u);
    }
    forall u | 0 <= u < |t0| && Ancestor(2 * v + 1, u) ensures t2[u] == t3[u] {
      AncestorBelow(2 * v + 1, u);
    }
    RepresentsFrame(t1, t3, values, 2 * v, tl, tm);
    RepresentsFrame(t2, t3, values, 2 * v + 1, tm + 1, tr);
    Combine(t3, values, v, tl, tm, tr);
    forall u | 0 <= u < |t0| && !Ancestor(v, u) ensures t3[u] == t0[u] {
      if Ancestor(2 * v, u) {
        AncestorOfChild(v, 2 * v, u);
      }
      if Ancestor(2 * v + 1, u) {
        AncestorOfChild(v, 2 * v + 1, u);
      }
    }
  }

  /**
   * `get_min`: the minimum over the leaves `left..right` inside the node's
   * range `treeLeft..treeRight`, or `MAX_VALUE` when `left > right`. The ghost
   * `values` are the leaves the tree describes.
   */
  function GetMin(tree: array<int>, vertexIndex: nat, treeLeft: int, treeRight: int, left: int, right: int, ghost values: seq<int>): (r: int)
    requires 0 <= treeLeft <= treeRight < |values| && Bounded(values)
    requires left > right || (treeLeft <= left && right <= treeRight)
    requires Represents(tree[..], values, vertexIndex, treeLeft, treeRight)
    reads tree
    ensures r == if left > right then MAX_VALUE else RangeMin(values, left, right)
    decreases treeRight - treeLeft
  {
    if left > right then MAX_VALUE
    else if treeLeft == left && treeRight == right then tree[vertexIndex]
    else
      var treeMiddle := treeLeft + (treeRight - treeLeft) / 2;
      var lower := GetMin(tree, 2 * vertexIndex, treeLeft, treeMiddle, left, Min(right, treeMiddle), values);
      var upper := GetMin(tree, 2 * vertexIndex + 1, treeMiddle + 1, treeRight, Max(left, treeMiddle + 1), right, values);
      RangeMinIsMinimum(values, left, right);
      if left <= treeMiddle then
        RangeMinSplit(values, left, Min(right, treeMiddle), right);
        Min(lower, upper)
      else
        Min(lower, upper)
  }

  /**
   * `update`: sets leaf `position` to `newValue` and recomputes the minima on
   * the path above it. The tree then describes the leaves with that one leaf
   * changed, and no node outside the subtree of `vertexIndex` is touched.
   */
  method Update(tree: array<int>, vertexIndex: nat, treeLeft: int, treeRight: int, position: int, newValue: int, ghost values: seq<int>)
    requires 0 <= treeLeft <= position <= treeRight < |values|
    requires Represents(tree[..], values, vertexIndex, treeLeft, treeRight)
    requires Bounded(values) && newValue <= MAX_VALUE
    modifies tree
    ensures Represents(tree[..], values[position := newValue], vertexIndex, treeLeft, treeRight)
    ensures forall u :: 0 <= u < tree.Length && !Ancestor(vertexIndex, u) ==> tree[u] == old(tree[u])
    decreases treeRight - treeLeft
  {
    ghost var changed := values[position := newValue];
    if treeLeft == treeRight {
      tree[vertexIndex] := newValue;
      assert RangeMin(changed, treeLeft, treeRight) == newValue by {
        assert RangeMin(changed, treeLeft, treeLeft - 1) == MAX_VALUE;
      }
    } else {
      var treeMiddle := treeLeft + (treeRight - treeLeft) / 2;
      ghost var t0 := tree[..];
      if position <= treeMiddle {
        Update(tree, 2 * vertexIndex, treeLeft, treeMiddle, position, newValue, values);
      } else {
        Update(tree, 2 * vertexIndex + 1, treeMiddle + 1, treeRight, position, newValue, values);
      }
      ghost var t1 := tree[..];
      tree[vertexIndex] := Min(tree[2 * vertexIndex], tree[2 * vertexIndex + 1]);
      UpdateStep(t0, t1, tree[..], values, changed, position, vertexIndex, treeLeft, treeMiddle, treeRight);
    }
  }

  /**
   * The step of `update` above the child that was updated: the untouched
   * sibling still describes its unchanged leaves, so the recomputed node
   * describes the changed leaves, and only the subtree of `v` changed.
   */
  lemma UpdateStep(t0: seq<int>, t1: seq<int>, t2: seq<int>, values: seq<int>, changed: seq<int>, position: int,
                   v: nat, tl: int, tm: int, tr: int)
    requires 0 <= tl <= position <= tr < |values| && tl < tr && tm == tl + (tr - tl) / 2
    requires |changed| == |values| && Bounded(changed) && changed == values[position := changed[position]]
    requires 1 <= v && 2 * v + 1 < |t0| == |t1|
    requires Represents(t0, values, v, tl, tr)
    requires position <= tm ==> Represents(t1, changed, 2 * v, tl, tm)
    requires position > tm ==> Represents(t1, changed, 2 * v + 1, tm + 1, tr)
    requires var c := if position <= tm then 2 * v else 2 * v + 1;
      forall u :: 0 <= u < |t0| && !Ancestor(c, u) ==> t1[u] == t0[u]
    requires t2 == t1[v := Min(t1[2 * v], t1[2 * v + 1])]
    ensures Represents(t2, changed, v, tl, tr)
    ensures forall u :: 0 <= u < |t0| && !Ancestor(v, u) ==> t2[u] == t0[u]
  {
    var c, sibling := 2 * v, 2 * v + 1;
    if position > tm {
      c, sibling := sibling, c;
    }
    assert Ancestor(v, v);
    forall u | 0 <= u < |t0| && Ancestor(sibling, u) ensures t0[u] == t2[u] {
      ChildrenDisjoint(v, u);
      AncestorBelow(sibling, u);
    }
    forall u | 0 <= u < |t0| && Ancestor(c, u) ensures t1[u] == t2[u] {
      AncestorBelow(c, u);
    }
    if position <= tm {
      RepresentsFrame(t1, t2, changed, 2 * v, tl, tm);
      RepresentsFrame(t0, t2, values, 2 * v + 1, tm + 1, tr);
      RepresentsOther(t2, values, changed, 2 * v + 1, tm + 1, tr);
    } else {
      RepresentsFrame(t1, t2, changed, 2 * v + 1, tm + 1, tr);
      RepresentsFrame(t0, t2, values, 2 * v, tl, tm);
      RepresentsOther(t2, values, changed, 2 * v, tl, tm);
    }
    Combine(t2, changed, v, tl, tm, tr);
    forall u | 0 <= u < |t0| && !Ancestor(v, u) ensures t2[u] == t0[u] {
      if Ancestor(c, u) {
        AncestorOfChild(v, c, u);
      }
    }
  }

  /** A subtree describes any leaves that agree with its own on its range. */
  lemma {:induction false} RepresentsOther(t: seq<int>, values: seq<int>, other: seq<int>, v: nat, tl: int, tr: int)
    requires 0 <= tl <= tr < |values| == |other|
    requires forall k :: tl <= k <= tr ==> values[k] == other[k]
    requires Represents(t, values, v, tl, tr)
    ensures Represents(t, other, v, tl, tr)
    decreases tr - tl
  {
    RangeMinAgree(values, other, tl, tr);
    if tl < tr {
      var middle := tl + (tr - tl) / 2;
      RepresentsOther(t, values, other, 2 * v, tl, middle);
      RepresentsOther(t, values, other, 2 * v + 1, middle + 1, tr);
    }
  }

  lemma {:induction false} RangeMinAgree(values: seq<int>, other: seq<int>, l: int, r: int)
    requires 0 <= l && r < |values| == |other|
    requires forall k :: l <= k <= r ==> values[k] == other[k]
    ensures RangeMin(values, l, r) == RangeMin(other, l, r)
    decreases r - l
  {
    if l <= r {
      RangeMinAgree(values, other, l, r - 1);
    }
  }

  // ---------------------------------------------------------------------------
  // get_answers

  /** The leaves for a parking state: free slot i holds i + 1, an occupied one `MAX_VALUE`. */
  function Encode(occupied: seq<bool>): (values: seq<int>)
    ensures |values| == |occupied|
    ensures forall i :: 0 <= i < |occupied| ==> values[i] == if occupied[i] then MAX_VALUE else i + 1
  {
    if |occupied| == 0 then []
    else
      var last := |occupied| - 1;
      Encode(occupied[..last]) + [if occupied[last] then MAX_VALUE else last + 1]
  }

  /** The first free slot in `lo..hi`, or -1 when all of them are taken. */
  function FirstFree(occupied: seq<bool>, lo: int, hi: int): (r: int)
    requires 0 <= lo && hi < |occupied|
    ensures r == -1 || (lo <= r <= hi && !occupied[r])
    ensures r == -1 ==> forall i :: lo <= i <= hi ==> occupied[i]
    ensures r != -1 ==> forall i :: lo <= i < r ==> occupied[i]
    decreases hi - lo
  {
    if lo > hi then -1 else if !occupied[lo] then lo else FirstFree(occupied, lo + 1, hi)
  }

  /** On encoded leaves, the range minimum names the first free slot of the range. */
  lemma EncodedMin(occupied: seq<bool>, lo: int, hi: int)
    requires 0 <= lo && hi < |occupied| < MAX_VALUE
    ensures Bounded(Encode(occupied))
    ensures var f := FirstFree(occupied, lo, hi);
      RangeMin(Encode(occupied), lo, hi) == if f == -1 then MAX_VALUE else f + 1
  {
    var values := Encode(occupied);
    var f := FirstFree(occupied, lo, hi);
    RangeMinIsMinimum(values, lo, hi);
    if lo <= hi {
      var k :| lo <= k <= hi && values[k] == RangeMin(values, lo, hi);
      if f != -1 {
        assert values[f] == f + 1;
        forall j | lo <= j <= hi ensures values[j] >= f + 1 {
        }
      }
    }
  }

  datatype Outcome = Outcome(answer: int, occupied: seq<bool>)

  /** A car arriving at slot `e` (numbered from 1). */
  function Arrive(occupied: seq<bool>, e: int): Outcome
    requires 1 <= e <= |occupied|
  {
    var f := FirstFree(occupied, e - 1, |occupied| - 1);
    if f != -1 then Outcome(f + 1, occupied[f := true])
    else
      var g := FirstFree(occupied, 0, e - 2);
      if g != -1 then Outcome(g + 1, occupied[g := true]) else Outcome(-1, occupied)
  }

  /** A car leaving slot `e`. */
  function Depart(occupied: seq<bool>, e: int): Outcome
    requires 1 <= e <= |occupied|
  {
    if occupied[e - 1] then Outcome(0, occupied[e - 1 := false]) else Outcome(-2, occupied)
  }

  /**
   * An arriving car takes the first free slot from `e` on, or else the first
   * free slot before `e`; that slot becomes occupied and no other changes.
   * With no free slot, the answer is -1 and nothing changes.
   */
  lemma ArriveSpec(occupied: seq<bool>, e: int)
    requires 1 <= e <= |occupied|
    ensures var o := Arrive(occupied, e);
      && |o.occupied| == |occupied|
      && (o.answer == -1 <==> forall i :: 0 <= i < |occupied| ==> occupied[i])
      && (o.answer == -1 ==> o.occupied == occupied)
      && (o.answer != -1 ==>
            && 1 <= o.answer <= |occupied| && !occupied[o.answer - 1]
            && o.occupied == occupied[o.answer - 1 := true]
            && (o.answer >= e ==> forall i :: e - 1 <= i < o.answer - 1 ==> occupied[i])
            && (o.answer < e ==>
                  (forall i :: e - 1 <= i < |occupied| ==> occupied[i]) &&
                  (forall i :: 0 <= i < o.answer - 1 ==> occupied[i])))
  {
    var f := FirstFree(occupied, e - 1, |occupied| - 1);
    if f == -1 {
      var g := FirstFree(occupied, 0, e - 2);
      if g == -1 {
        forall i | 0 <= i < |occupied| ensures occupied[i] {
          if i < e - 1 {
          }
        }
      }
    }
  }

  /**
   * A leaving car frees slot `e` and the answer is 0; when slot `e` is already
   * free the answer is -2 and nothing changes.
   */
  lemma DepartSpec(occupied: seq<bool>, e: int)
    requires 1 <= e <= |occupied|
    ensures var o := Depart(occupied, e);
      && (o.answer == 0 <==> occupied[e - 1]) && (o.answer == -2 <==> !occupied[e - 1])
      && o.occupied == occupied[e - 1 := false]
  {
  }

  /** An event is `e` for an arrival at slot `e` and `-e` for a departure from it. */
  predicate ValidEvent(n: int, event: int) {
    (1 <= event <= n) || (1 <= -event <= n)
  }

  function Step(occupied: seq<bool>, event: int): Outcome
    requires ValidEvent(|occupied|, event)
  {
    if event > 0 then Arrive(occupied, event) else Depart(occupied, -event)
  }

  /** The answers to the events and the parking state after them, starting with every slot free. */
  function Run(n: nat, events: seq<int>): (r: (seq<int>, seq<bool>))
    requires forall i :: 0 <= i < |events| ==> ValidEvent(n, events[i])
    ensures |r.0| == |events| && |r.1| == n
  {
    if |events| == 0 then ([], seq(n, _ => false))
    else
      var before := Run(n, events[..|events| - 1]);
      var o := Step(before.1, events[|events| - 1]);
      (before.0 + [o.answer], o.occupied)
  }

  /** Occupying or freeing one slot changes one leaf of the encoding. */
  lemma EncodeUpdate(occupied: seq<bool>, p: int, taken: bool)
    requires 0 <= p < |occupied|
    ensures Encode(occupied[p := taken]) == Encode(occupied)[p := if taken then MAX_VALUE else p + 1]
  {
  }

  /**
   * A range-minimum query on the tree of a parking state: one more than the
   * first free slot of `lo..hi`, or `MAX_VALUE` when every slot there is taken.
   */
  method FindFree(tree: array<int>, n: int, lo: int, hi: int, ghost occupied: seq<bool>) returns (m: int)
    requires 0 <= lo && hi < n == |occupied| < MAX_VALUE && 1 <= n
    requires Represents(tree[..], Encode(occupied), 1, 0, n - 1)
    ensures var f := FirstFree(occupied, lo, hi); m == if f == -1 then MAX_VALUE else f + 1
  {
    EncodedMin(occupied, 0, n - 1);
    if lo <= hi {
      EncodedMin(occupied, lo, hi);
    }
    m := GetMin(tree, 1, 0, n - 1, lo, hi, Encode(occupied));
  }

  /** Marks slot `p` taken or free, keeping the tree in step with the parking state. */
  method SetSlot(tree: array<int>, n: int, p: int, taken: bool, ghost occupied: seq<bool>)
    requires 0 <= p < n == |occupied| < MAX_VALUE
    requires Represents(tree[..], Encode(occupied), 1, 0, n - 1)
    modifies tree
    ensures Represents(tree[..], Encode(occupied[p := taken]), 1, 0, n - 1)
  {
    EncodedMin(occupied, 0, n - 1);
    EncodeUpdate(occupied, p, taken);
    Update(tree, 1, 0, n - 1, p, if taken then MAX_VALUE else p + 1, Encode(occupied));
  }

  /** The arrival branch of `get_answers`. */
  method ServeArrival(tree: array<int>, n: int, event: int, ghost occupied: seq<bool>) returns (answer: int, ghost after: seq<bool>)
    requires 1 <= event <= n == |occupied| < MAX_VALUE
    requires Represents(tree[..], Encode(occupied), 1, 0, n - 1)
    modifies tree
    ensures Arrive(occupied, event) == Outcome(answer, after)
    ensures Represents(tree[..], Encode(after), 1, 0, n - 1)
  {
    var minElement := FindFree(tree, n, event - 1, n - 1, occupied);
    if minElement == MAX_VALUE {
      minElement := FindFree(tree, n, 0, event - 2, occupied);
    }
    if minElement == MAX_VALUE {
      answer, after := -1, occupied;
    } else {
      answer := minElement;
      SetSlot(tree, n, minElement - 1, true, occupied);
      after := occupied[minElement - 1 := true];
    }
  }

  /** The departure branch of `get_answers`. */
  method ServeDeparture(tree: array<int>, n: int, event: int, ghost occupied: seq<bool>) returns (answer: int, ghost after: seq<bool>)
    requires 1 <= event <= n == |occupied| < MAX_VALUE
    requires Represents(tree[..], Encode(occupied), 1, 0, n - 1)
    modifies tree
    ensures Depart(occupied, event) == Outcome(answer, after)
    ensures Represents(tree[..], Encode(after), 1, 0, n - 1)
  {
    var minElement := FindFree(tree, n, event - 1, n - 1, occupied);
    if minElement != event {
      answer := 0;
      SetSlot(tree, n, event - 1, false, occupied);
      after := occupied[event - 1 := false];
    } else {
      answer, after := -2, occupied;
    }
  }

  /** One event of `get_answers`: an arrival for a positive event, a departure otherwise. */
  method ServeEvent(tree: array<int>, n: int, event: int, ghost occupied: seq<bool>) returns (answer: int, ghost after: seq<bool>)
    requires n == |occupied| < MAX_VALUE && ValidEvent(n, event)
    requires Represents(tree[..], Encode(occupied), 1, 0, n - 1)
    modifies tree
    ensures Step(occupied, event) == Outcome(answer, after)
    ensures Represents(tree[..], Encode(after), 1, 0, n - 1)
  {
    if event > 0 {
      answer, after := ServeArrival(tree, n, event, occupied);
    } else {
      answer, after := ServeDeparture(tree, n, -event, occupied);
    }
  }

  /**
   * `get_answers`: builds the tree over the free slots 1..n and answers the
   * events one after another; the answers are those of `Run`.
   */
  method GetAnswers(n: int, events: seq<int>) returns (answers: seq<int>)
    requires 1 <= n < MAX_VALUE
    requires forall i :: 0 <= i < |events| ==> ValidEvent(n, events[i])
    ensures answers == Run(n, events).0
  {
    var parkingSlots := seq(n, i => i + 1);
    ghost var occupied: seq<bool> := seq(n, _ => false);
    assert Encode(occupied) == parkingSlots;
    var tree := new int[4 * n];
    BuildSegmentTree(tree, parkingSlots, 1, 0, n - 1, 1);
    answers := [];
    for i := 0 to |events|
      invariant answers == Run(n, events[..i]).0 && occupied == Run(n, events[..i]).1
      invariant Represents(tree[..], Encode(occupied), 1, 0, n - 1)
    {
      assert events[..i + 1][..i] == events[..i];
      var answer;
      answer, occupied := ServeEvent(tree, n, events[i], occupied);
      answers := answers + [answer];
    }
    assert events[..|events|] == events;
  }
}
