/**
 * The k-th order statistic of a sliding window (algorithms/K_statistics/main.cpp).
 *
 * The window `[left, right]` of the input is split between two heaps of
 * positions: a max-heap with the k smallest values and a min-heap with the
 * rest, so the max-heap's top is the k-th smallest value. Each position
 * records which heap holds it and its slot there (`heap_index`), which the
 * heaps write through their observer; that is how `L` finds the slot of the
 * position leaving the window.
 *
 * Iterators into the vector of `HeapElement`s are modelled as positions in
 * it, and the vector itself as the class `HeapElements`, one sequence per
 * field.
 */
module KStatistics {

  /** `Heap<...>::invalid_index`. */
  const INVALID_INDEX: int := -1

  // ---------------------------------------------------------------------------
  // Comparators

  /** `MinHeapCompare`: the smaller value first, the earlier position first among equal values. */
  function MinHeapCompare(values: seq<int>, first: int, second: int): (r: bool)
    requires 0 <= first < |values| && 0 <= second < |values|
    ensures first == second ==> r
    ensures values[first] < values[second] ==> r
    ensures r ==> values[first] <= values[second]
  {
    if values[first] == values[second] then first <= second else values[first] < values[second]
  }

  /** `MaxHeapCompare`: the larger value first, the earlier position first among equal values. */
  function MaxHeapCompare(values: seq<int>, first: int, second: int): (r: bool)
    requires 0 <= first < |values| && 0 <= second < |values|
    ensures first == second ==> r
    ensures values[first] > values[second] ==> r
    ensures r ==> values[first] >= values[second]
  {
    if values[first] == values[second] then first <= second else values[first] > values[second]
  }

  /** The comparator of the max-heap when `max`, of the min-heap otherwise: `first` goes above `second`. */
  function Compare(max: bool, values: seq<int>, first: int, second: int): (r: bool)
    requires 0 <= first < |values| && 0 <= second < |values|
    ensures first == second ==> r
    ensures r ==> if max then values[first] >= values[second] else values[first] <= values[second]
  {
    if max then MaxHeapCompare(values, first, second) else MinHeapCompare(values, first, second)
  }

  /** Both comparators are total orders on positions: reflexive, antisymmetric, transitive and total. */
  lemma CompareIsTotalOrder(max: bool, values: seq<int>, a: int, b: int, c: int)
    requires 0 <= a < |values| && 0 <= b < |values| && 0 <= c < |values|
    ensures Compare(max, values, a, a)
    ensures Compare(max, values, a, b) && Compare(max, values, b, a) ==> a == b
    ensures Compare(max, values, a, b) && Compare(max, values, b, c) ==> Compare(max, values, a, c)
    ensures Compare(max, values, a, b) || Compare(max, values, b, a)
  {
  }

  /** The max-heap puts larger values above, the min-heap smaller ones. */
  lemma CompareValues(max: bool, values: seq<int>, a: int, b: int)
    requires 0 <= a < |values| && 0 <= b < |values|
    ensures Compare(max, values, a, b) ==> if max then values[a] >= values[b] else values[a] <= values[b]
    ensures (if max then values[a] > values[b] else values[a] < values[b]) ==> Compare(max, values, a, b)
  {
  }

  // ---------------------------------------------------------------------------
  // Heap order, on the sequence of positions in heap slots

  /** `Parent`: the slot above `index`, or `INVALID_INDEX` for the root. */
  function Parent(index: int): (r: int)
    ensures index > 0 ==> 0 <= r < index && (index == 2 * r + 1 || index == 2 * r + 2)
    ensures index == 0 ==> r == INVALID_INDEX
  {
    if index != 0 then (index - 1) / 2 else INVALID_INDEX
  }

  /** Every slot holds a position of the vector of `n` elements. */
  ghost predicate InStore(e: seq<int>, n: int) {
    forall k :: 0 <= k < |e| ==> 0 <= e[k] < n
  }

  /** Every slot's parent goes above it. */
  ghost predicate Ordered(max: bool, values: seq<int>, e: seq<int>) {
    && InStore(e, |values|)
    && forall k :: 1 <= k < |e| ==> Compare(max, values, e[Parent(k)], e[k])
  }

  /** Heap order except between slot `i` and its parent; `i`'s parent goes above `i`'s children. */
  ghost predicate UpReady(max: bool, values: seq<int>, e: seq<int>, i: int) {
    && InStore(e, |values|) && 0 <= i < |e|
    && (forall k :: 1 <= k < |e| && k != i ==> Compare(max, values, e[Parent(k)], e[k]))
    && (i > 0 ==> forall k :: 1 <= k < |e| && Parent(k) == i ==> Compare(max, values, e[Parent(i)], e[k]))
  }

  /** Heap order except between slot `i` and its children; `i`'s parent goes above `i`'s children. */
  ghost predicate DownReady(max: bool, values: seq<int>, e: seq<int>, i: int) {
    && InStore(e, |values|) && 0 <= i
    && (forall k :: 1 <= k < |e| && Parent(k) != i ==> Compare(max, values, e[Parent(k)], e[k]))
    && (0 < i < |e| ==> forall k :: 1 <= k < |e| && Parent(k) == i ==> Compare(max, values, e[Parent(i)], e[k]))
  }

  function Swap(e: seq<int>, i: int, j: int): (r: seq<int>)
    requires 0 <= i < |e| && 0 <= j < |e|
    ensures |r| == |e| && r[i] == e[j] && r[j] == e[i]
    ensures forall k :: 0 <= k < |e| && k != i && k != j ==> r[k] == e[k]
    ensures multiset(r) == multiset(e)
  {
    var t := e[i := e[j]];
    assert multiset(t) == multiset(e) - multiset{e[i]} + multiset{e[j]};
    t[j := e[i]]
  }

  /** One step of `SiftUp`: swap with the parent when the comparator says so, then move to the parent. */
  lemma SiftUpStep(max: bool, values: seq<int>, e: seq<int>, i: int)
    requires UpReady(max, values, e, i) && i > 0
    ensures Compare(max, values, e[i], e[Parent(i)]) ==> UpReady(max, values, Swap(e, i, Parent(i)), Parent(i))
    ensures !Compare(max, values, e[i], e[Parent(i)]) ==> UpReady(max, values, e, Parent(i))
  {
    var p := Parent(i);
    if Compare(max, values, e[i], e[p]) {
      var s := Swap(e, i, p);
      forall k | 1 <= k < |s| && k != p ensures Compare(max, values, s[Parent(k)], s[k]) {
        if k == i {
        } else if Parent(k) == i {
        } else if Parent(k) == p {
          CompareIsTotalOrder(max, values, e[i], e[p], e[k]);
        }
      }
      if p > 0 {
        forall k | 1 <= k < |s| && Parent(k) == p ensures Compare(max, values, s[Parent(p)], s[k]) {
          CompareIsTotalOrder(max, values, e[Parent(p)], e[p], e[k]);
          if k == i {
            CompareIsTotalOrder(max, values, e[Parent(p)], e[p], e[i]);
          }
        }
      }
    } else {
      CompareIsTotalOrder(max, values, e[i], e[p], e[i]);
      if p > 0 {
        forall k | 1 <= k < |e| && Parent(k) == p ensures Compare(max, values, e[Parent(p)], e[k]) {
          CompareIsTotalOrder(max, values, e[Parent(p)], e[p], e[k]);
        }
      }
    }
  }

  /** One step of `SiftDown`: swap with the child that goes first unless slot `i` already goes above it. */
  lemma SiftDownStep(max: bool, values: seq<int>, e: seq<int>, i: int, c: int)
    requires DownReady(max, values, e, i) && 0 <= i && 1 <= c < |e| && Parent(c) == i
    requires forall k :: 1 <= k < |e| && Parent(k) == i ==> Compare(max, values, e[c], e[k])
    ensures !Compare(max, values, e[i], e[c]) ==> DownReady(max, values, Swap(e, i, c), c)
    ensures Compare(max, values, e[i], e[c]) ==> DownReady(max, values, e, c)
  {
    if !Compare(max, values, e[i], e[c]) {
      var s := Swap(e, i, c);
      CompareIsTotalOrder(max, values, e[i], e[c], e[i]);
      forall k | 1 <= k < |s| && Parent(k) != c ensures Compare(max, values, s[Parent(k)], s[k]) {
        if k == i {
        } else if Parent(k) == i && k != c {
        }
      }
      forall k | 1 <= k < |s| && Parent(k) == c ensures Compare(max, values, s[Parent(c)], s[k]) {
      }
    } else {
      forall k | 1 <= k < |e| && Parent(k) != c ensures Compare(max, values, e[Parent(k)], e[k]) {
        if Parent(k) == i {
          CompareIsTotalOrder(max, values, e[i], e[c], e[k]);
        }
      }
      forall k | 1 <= k < |e| && Parent(k) == c ensures Compare(max, values, e[Parent(c)], e[k]) {
      }
    }
  }

  /** Ready at the root means ordered. */
  lemma UpReadyRoot(max: bool, values: seq<int>, e: seq<int>)
    requires UpReady(max, values, e, 0)
    ensures Ordered(max, values, e)
  {
  }

  /** Ready at a slot without children means ordered. */
  lemma DownReadyLeaf(max: bool, values: seq<int>, e: seq<int>, i: int)
    requires DownReady(max, values, e, i) && 2 * i + 1 >= |e|
    ensures Ordered(max, values, e)
  {
  }

  /** In an ordered heap the root goes above every slot. */
  lemma {:induction false} RootFirst(max: bool, values: seq<int>, e: seq<int>, k: int)
    requires Ordered(max, values, e) && 0 <= k < |e|
    ensures Compare(max, values, e[0], e[k])
    decreases k
  {
    if k == 0 {
      CompareIsTotalOrder(max, values, e[0], e[0], e[0]);
    } else {
      RootFirst(max, values, e, Parent(k));
      CompareIsTotalOrder(max, values, e[0], e[Parent(k)], e[k]);
    }
  }

  // ---------------------------------------------------------------------------
  // Slot tokens

  /**
   * Every position in a slot other than `d` has its slot as `heap_index`; if
   * `d` is in the heap, its `heap_index` names one of its slots.
   */
  ghost predicate Tokens(e: seq<int>, heapIndex: seq<int>, d: int) {
    && InStore(e, |heapIndex|)
    && (forall k :: 0 <= k < |e| && e[k] != d ==> heapIndex[e[k]] == k)
    && (d in e ==> 0 <= d < |heapIndex| && 0 <= heapIndex[d] < |e| && e[heapIndex[d]] == d)
  }

  /** Every position in the heap has its slot as `heap_index`. */
  ghost predicate Synced(e: seq<int>, heapIndex: seq<int>) {
    Tokens(e, heapIndex, INVALID_INDEX)
  }

  /** `d` is in at most one slot. */
  ghost predicate Unique(e: seq<int>, d: int) {
    forall k, k' :: 0 <= k < |e| && 0 <= k' < |e| && e[k] == d && e[k'] == d ==> k == k'
  }

  /** Synced heaps hold every position once. */
  lemma SyncedDistinct(e: seq<int>, heapIndex: seq<int>, d: int)
    requires Synced(e, heapIndex)
    ensures Unique(e, d)
  {
  }

  lemma SyncedTokens(e: seq<int>, heapIndex: seq<int>, d: int)
    requires Synced(e, heapIndex)
    ensures Tokens(e, heapIndex, d)
  {
    if d in e {
      var k :| 0 <= k < |e| && e[k] == d;
    }
  }

  /** Tokens right for all but `d`, and `d` in at most one slot: tokens right for all. */
  lemma TokensUnique(e: seq<int>, heapIndex: seq<int>, d: int)
    requires Tokens(e, heapIndex, d) && Unique(e, d)
    ensures Synced(e, heapIndex)
  {
  }

  /** `SwapElements` keeps the tokens: both moved positions are told their new slots. */
  lemma SwapTokens(e: seq<int>, heapIndex: seq<int>, d: int, i: int, j: int)
    requires Tokens(e, heapIndex, d) && 0 <= i < |e| && 0 <= j < |e|
    ensures Tokens(Swap(e, i, j), heapIndex[e[i] := j][e[j] := i], d)
  {
    var s, h := Swap(e, i, j), heapIndex[e[i] := j][e[j] := i];
    forall k | 0 <= k < |s| && s[k] != d ensures h[s[k]] == k {
      if k != i && k != j {
        assert e[k] != e[i] || k == i;
        assert e[k] != e[j] || k == j;
      }
    }
    if d in s {
      var k :| 0 <= k < |s| && s[k] == d;
      assert d in e by {
        assert s[k] == e[if k == i then j else if k == j then i else k];
      }
    }
  }

  /** Swapping two slots keeps a position in at most one slot. */
  lemma SwapUnique(e: seq<int>, d: int, i: int, j: int)
    requires Unique(e, d) && 0 <= i < |e| && 0 <= j < |e|
    ensures Unique(Swap(e, i, j), d)
  {
    var s := Swap(e, i, j);
    forall k, k' | 0 <= k < |s| && 0 <= k' < |s| && s[k] == d && s[k'] == d ensures k == k' {
      assert s[k] == e[if k == i then j else if k == j then i else k];
      assert s[k'] == e[if k' == i then j else if k' == j then i else k'];
    }
  }

  /**
   * The state `SiftUp` works on during `erase`: the top `d` is copied into
   * slot `i` and is in no other slot but the root; its `heap_index` names
   * slot `i`, or, once `i` is the root, the child the last swap left it in.
   */
  ghost predicate Pulling(max: bool, values: seq<int>, e: seq<int>, heapIndex: seq<int>, i: int, d: int) {
    && InStore(e, |values|) && 0 <= d < |values| && d < |heapIndex| && 0 <= i < |e|
    && e[0] == d && e[i] == d
    && (forall k :: 0 <= k < |e| ==> Compare(max, values, d, e[k]))
    && (if i > 0 then (heapIndex[d] == i && forall k :: 0 <= k < |e| && e[k] == d ==> k == 0 || k == i)
        else (&& 1 <= heapIndex[d] <= 2 && heapIndex[d] < |e| && e[heapIndex[d]] == d
              && forall k :: 0 <= k < |e| && e[k] == d ==> k == 0 || k == heapIndex[d]))
  }

  /** While pulling, the comparator always asks for the swap, and the swap keeps pulling. */
  lemma PullingStep(max: bool, values: seq<int>, e: seq<int>, heapIndex: seq<int>, i: int, d: int)
    requires Pulling(max, values, e, heapIndex, i, d) && i > 0 && InStore(e, |heapIndex|)
    ensures Compare(max, values, e[i], e[Parent(i)])
    ensures Pulling(max, values, Swap(e, i, Parent(i)), heapIndex[e[i] := Parent(i)][e[Parent(i)] := i], Parent(i), d)
  {
    var p := Parent(i);
    var s := Swap(e, i, p);
    forall k | 0 <= k < |s| ensures Compare(max, values, d, s[k]) {
      assert s[k] == e[if k == i then p else if k == p then i else k];
    }
  }

  /**
   * The state `SiftDown(0)` starts from in `pop` during `erase`: the top `d`
   * sits in a child of the root without its `heap_index`, the other tokens
   * are right, and `d` goes above every slot.
   */
  ghost predicate Pending(max: bool, values: seq<int>, e: seq<int>, heapIndex: seq<int>, d: int) {
    && InStore(e, |values|) && InStore(e, |heapIndex|) && 0 <= d < |values| && d < |heapIndex|
    && (forall k :: 0 <= k < |e| && e[k] != d ==> heapIndex[e[k]] == k)
    && d in e
    && (forall k :: 0 <= k < |e| && e[k] == d ==> 1 <= k <= 2)
    && (forall k :: 0 <= k < |e| ==> Compare(max, values, d, e[k]))
  }

  /** From the pending state the first step of `SiftDown(0)` swaps `d` into the root and repairs its token. */
  lemma PendingStep(max: bool, values: seq<int>, e: seq<int>, heapIndex: seq<int>, d: int, c: int)
    requires Pending(max, values, e, heapIndex, d) && 1 <= c < |e| && Parent(c) == 0
    requires forall k :: 1 <= k < |e| && Parent(k) == 0 ==> Compare(max, values, e[c], e[k])
    ensures e[c] == d && !Compare(max, values, e[0], e[c])
    ensures Tokens(Swap(e, 0, c), heapIndex[e[0] := c][e[c] := 0], d)
  {
    var t :| 0 <= t < |e| && e[t] == d;
    CompareIsTotalOrder(max, values, e[c], d, e[0]);
    CompareIsTotalOrder(max, values, d, e[c], e[0]);
    assert Parent(t) == 0;
    var s, h := Swap(e, 0, c), heapIndex[e[0] := c][e[c] := 0];
    forall k | 0 <= k < |s| && s[k] != d ensures h[s[k]] == k {
      if k != 0 && k != c {
        assert e[k] != e[0];
      }
    }
  }

  /** `pop`'s move of the last slot into the root, on the sequence: the top leaves, nothing else changes. */
  lemma PopFront(e: seq<int>)
    requires |e| >= 1
    ensures multiset(e[0 := e[|e| - 1]][..|e| - 1]) == multiset(e) - multiset{e[0]}
  {
    var last := |e| - 1;
    if last > 0 {
      assert e == [e[0]] + e[1..last] + [e[last]];
      assert e[0 := e[last]][..last] == [e[last]] + e[1..last];
    }
  }

  /** Only the tokens of positions in `e0` differ between `heapIndex0` and `heapIndex`. */
  ghost predicate Outside(heapIndex: seq<int>, heapIndex0: seq<int>, e0: seq<int>) {
    && |heapIndex| == |heapIndex0|
    && forall j :: 0 <= j < |heapIndex| && j !in e0 ==> heapIndex[j] == heapIndex0[j]
  }

  /** The invariant of the loop of `SiftUp`, started from slots `e0` and tokens `heapIndex0`. */
  ghost predicate SiftUpState(max: bool, values: seq<int>, e0: seq<int>, heapIndex0: seq<int>,
                              e: seq<int>, heapIndex: seq<int>, r: int, d: int, pulling: bool) {
    && |heapIndex| == |values| && UpReady(max, values, e, r) && Tokens(e, heapIndex, d)
    && multiset(e) == multiset(e0) && Outside(heapIndex, heapIndex0, e0)
    && (pulling ==> Pulling(max, values, e, heapIndex, r, d))
  }

  /** One iteration of `SiftUp` keeps its invariant. */
  lemma SiftUpNext(max: bool, values: seq<int>, e0: seq<int>, heapIndex0: seq<int>,
                   e: seq<int>, heapIndex: seq<int>, r: int, d: int, pulling: bool)
    requires SiftUpState(max, values, e0, heapIndex0, e, heapIndex, r, d, pulling) && r > 0
    ensures var p := Parent(r);
      var swap := Compare(max, values, e[r], e[p]);
      SiftUpState(max, values, e0, heapIndex0, if swap then Swap(e, r, p) else e,
                  if swap then heapIndex[e[r] := p][e[p] := r] else heapIndex, p, d, pulling)
  {
    var p := Parent(r);
    SiftUpStep(max, values, e, r);
    if pulling {
      PullingStep(max, values, e, heapIndex, r, d);
    }
    if Compare(max, values, e[r], e[p]) {
      SwapTokens(e, heapIndex, d, r, p);
      assert e[r] in multiset(e0) && e[p] in multiset(e0);
    }
  }

  /** The invariant of the loop of `SiftDown`, started from slots `e0` and tokens `heapIndex0`. */
  ghost predicate SiftDownState(max: bool, values: seq<int>, e0: seq<int>, heapIndex0: seq<int>,
                                e: seq<int>, heapIndex: seq<int>, i: int, d: int, unique: bool) {
    && |heapIndex| == |values| && DownReady(max, values, e, i)
    && (Tokens(e, heapIndex, d) || (i == 0 && Pending(max, values, e, heapIndex, d)))
    && multiset(e) == multiset(e0) && Outside(heapIndex, heapIndex0, e0)
    && (unique ==> Unique(e, d))
  }

  /** The child of `i` that `SiftDown` picks: the right one when it goes above the left one. */
  function ChosenChild(max: bool, values: seq<int>, e: seq<int>, i: int): (c: int)
    requires InStore(e, |values|) && 0 <= i && 2 * i + 1 < |e|
    ensures 1 <= c < |e| && Parent(c) == i
    ensures forall k :: 1 <= k < |e| && Parent(k) == i ==> Compare(max, values, e[c], e[k])
  {
    var l, r := 2 * i + 1, 2 * i + 2;
    CompareIsTotalOrder(max, values, e[l], e[l], e[l]);
    if r < |e| then
      CompareIsTotalOrder(max, values, e[l], e[r], e[r]);
      if Compare(max, values, e[l], e[r]) then l else r
    else l
  }

  /** One iteration of `SiftDown` keeps its invariant. */
  lemma SiftDownNext(max: bool, values: seq<int>, e0: seq<int>, heapIndex0: seq<int>,
                     e: seq<int>, heapIndex: seq<int>, i: int, d: int, unique: bool)
    requires SiftDownState(max, values, e0, heapIndex0, e, heapIndex, i, d, unique) && 2 * i + 1 < |e|
    ensures var c := ChosenChild(max, values, e, i);
      var swap := !Compare(max, values, e[i], e[c]);
      SiftDownState(max, values, e0, heapIndex0, if swap then Swap(e, i, c) else e,
                    if swap then heapIndex[e[i] := c][e[c] := i] else heapIndex, c, d, unique)
  {
    var c := ChosenChild(max, values, e, i);
    SiftDownStep(max, values, e, i, c);
    if !Tokens(e, heapIndex, d) {
      PendingStep(max, values, e, heapIndex, d, c);
    } else if !Compare(max, values, e[i], e[c]) {
      SwapTokens(e, heapIndex, d, i, c);
    }
    if !Compare(max, values, e[i], e[c]) {
      if unique {
        SwapUnique(e, d, i, c);
      }
      assert e[i] in multiset(e0) && e[c] in multiset(e0);
    }
  }

  /** At a slot without children `SiftDown` stops with the heap ordered and the tokens right. */
  lemma SiftDownLeaf(max: bool, values: seq<int>, e0: seq<int>, heapIndex0: seq<int>,
                     e: seq<int>, heapIndex: seq<int>, i: int, d: int, unique: bool)
    requires SiftDownState(max, values, e0, heapIndex0, e, heapIndex, i, d, unique) && 2 * i + 1 >= |e|
    ensures Ordered(max, values, e) && Tokens(e, heapIndex, d)
  {
    DownReadyLeaf(max, values, e, i);
  }

  /** Tokens that differ from `heapIndex0` only within `e1`, which lies within `e0`, differ only within `e0`. */
  lemma OutsideTrans(heapIndex2: seq<int>, heapIndex1: seq<int>, heapIndex0: seq<int>, e1: seq<int>, e0: seq<int>)
    requires Outside(heapIndex2, heapIndex1, e1) && Outside(heapIndex1, heapIndex0, e0)
    requires forall x :: x in e1 ==> x in e0
    ensures Outside(heapIndex2, heapIndex0, e0)
  {
  }

  /** `erase`'s copy of the top into slot `index`, on the order: only the edge above `index` may be broken. */
  lemma EraseOrder(max: bool, values: seq<int>, e: seq<int>, index: int)
    requires Ordered(max, values, e) && 0 <= index < |e|
    ensures UpReady(max, values, e[index := e[0]], index)
    ensures var e1 := e[index := e[0]]; forall k :: 0 <= k < |e1| ==> Compare(max, values, e[0], e1[k])
  {
    var top, e1 := e[0], e[index := e[0]];
    forall k | 0 <= k < |e| ensures Compare(max, values, top, e1[k]) {
      RootFirst(max, values, e, k);
      CompareIsTotalOrder(max, values, top, top, top);
    }
    forall k | 1 <= k < |e1| && k != index ensures Compare(max, values, e1[Parent(k)], e1[k]) {
      if Parent(k) == index {
        RootFirst(max, values, e, k);
      }
    }
    if index > 0 {
      forall k | 1 <= k < |e1| && Parent(k) == index ensures Compare(max, values, e1[Parent(index)], e1[k]) {
        CompareIsTotalOrder(max, values, e[Parent(index)], e[index], e[k]);
      }
    }
  }

  /** `erase`'s copy of the top into slot `index`, on the tokens: the copy owns the top's token. */
  lemma EraseTokens(e: seq<int>, heapIndex: seq<int>, index: int)
    requires Synced(e, heapIndex) && 0 <= index < |e|
    ensures var e1, h1 := e[index := e[0]], heapIndex[e[0] := index];
      && Tokens(e1, h1, e[0]) && Outside(h1, heapIndex, e)
      && h1[e[0]] == index
      && (forall k :: 0 <= k < |e1| && e1[k] == e[0] ==> k == 0 || k == index)
  {
    var top, e1, h1 := e[0], e[index := e[0]], heapIndex[e[0] := index];
    forall k | 0 <= k < |e1| && e1[k] != top ensures h1[e1[k]] == k {
      assert e1[k] == e[k];
    }
  }

  /** `erase`'s copy of the top into slot `index` leaves `SiftUp` ready there, pulling the copy when `index > 0`. */
  lemma EraseReady(max: bool, values: seq<int>, e: seq<int>, heapIndex: seq<int>, index: int)
    requires |heapIndex| == |values| && Ordered(max, values, e) && Synced(e, heapIndex) && 0 <= index < |e|
    ensures var e1, h1 := e[index := e[0]], heapIndex[e[0] := index];
      && SiftUpState(max, values, e1, h1, e1, h1, index, e[0], index > 0)
      && multiset(e1) == multiset(e) - multiset{e[index]} + multiset{e[0]}
      && Outside(h1, heapIndex, e)
      && (forall x :: x in e1 ==> x in e)
      && (index == 0 ==> e1 == e && h1 == heapIndex)
  {
    var top, e1, h1 := e[0], e[index := e[0]], heapIndex[e[0] := index];
    EraseOrder(max, values, e, index);
    EraseTokens(e, heapIndex, index);
    assert forall x :: x in e1 ==> x == top || x in e;
    if index == 0 {
      assert e1 == e;
    }
  }

  /** `push`'s append and notification leave `SiftUp` ready at the new last slot. */
  lemma PushReady(max: bool, values: seq<int>, e: seq<int>, heapIndex: seq<int>, value: int)
    requires |heapIndex| == |values| && Ordered(max, values, e) && Synced(e, heapIndex)
    requires 0 <= value < |values| && value !in e
    ensures var e1, h1 := e + [value], heapIndex[value := |e|];
      SiftUpState(max, values, e1, h1, e1, h1, |e|, INVALID_INDEX, false)
  {
    var e1, h1 := e + [value], heapIndex[value := |e|];
    forall k | 0 <= k < |e1| && e1[k] != INVALID_INDEX ensures h1[e1[k]] == k {
      if k < |e| {
        assert e1[k] == e[k] != value;
      }
    }
  }

  /**
   * The state `pop` starts from: a heap whose tokens are right but for the
   * top's, which names a slot holding the top; a second copy of the top may
   * sit only there, in a child of the root.
   */
  ghost predicate Poppable(max: bool, values: seq<int>, e: seq<int>, heapIndex: seq<int>) {
    && |heapIndex| == |values| && Ordered(max, values, e) && |e| > 0
    && Tokens(e, heapIndex, e[0])
    && forall k :: 0 < k < |e| && e[k] == e[0] ==> k == heapIndex[e[0]] && k <= 2
  }

  /** The slots after `pop` moved the last slot into the root. */
  function PopSlots(e: seq<int>): (r: seq<int>)
    requires |e| > 0
    ensures |r| == |e| - 1 && multiset(r) == multiset(e) - multiset{e[0]}
    ensures forall k :: 0 < k < |r| ==> r[k] == e[k]
    ensures |r| > 0 ==> r[0] == e[|e| - 1]
  {
    PopFront(e);
    e[0 := e[|e| - 1]][..|e| - 1]
  }

  /** The tokens after `pop` told the top it left and the last slot its new place. */
  function PopTokens(e: seq<int>, heapIndex: seq<int>): (r: seq<int>)
    requires |e| > 0 && InStore(e, |heapIndex|)
    ensures Outside(r, heapIndex, e)
  {
    if |e| > 1 then heapIndex[e[0] := INVALID_INDEX][e[|e| - 1] := 0] else heapIndex[e[0] := INVALID_INDEX]
  }

  /** `pop`'s move of the last slot into the root, on the order: only the edges below the root may be broken. */
  lemma PopOrder(max: bool, values: seq<int>, e: seq<int>)
    requires Ordered(max, values, e) && |e| > 0
    ensures DownReady(max, values, PopSlots(e), 0)
  {
  }

  /** `pop`'s move, on the tokens: right for all but the top, which is out, at the root alone, or pending. */
  lemma PopTokensRight(max: bool, values: seq<int>, e: seq<int>, heapIndex: seq<int>)
    requires Poppable(max, values, e, heapIndex)
    ensures var e1, h1, top := PopSlots(e), PopTokens(e, heapIndex), e[0];
      && (Tokens(e1, h1, top) || Pending(max, values, e1, h1, top))
      && Unique(e1, top)
      && (top !in e1 ==> h1[top] == INVALID_INDEX)
  {
    var e1, h1, top, last := PopSlots(e), PopTokens(e, heapIndex), e[0], |e| - 1;
    forall k | 0 <= k < |e1| && e1[k] != top ensures h1[e1[k]] == k {
      if k > 0 {
        assert e[k] != e[last] || k == last;
      }
    }
    forall k, k' | 0 <= k < |e1| && 0 <= k' < |e1| && e1[k] == top && e1[k'] == top ensures k == k' {
      assert k > 0 ==> e[k] == top;
      assert k' > 0 ==> e[k'] == top;
    }
    if top in e1 && e1[0] != top {
      forall k | 0 <= k < |e1| ensures Compare(max, values, top, e1[k]) {
        RootFirst(max, values, e, if k == 0 then last else k);
      }
      assert Pending(max, values, e1, h1, top);
    }
  }

  /** `pop`'s move leaves `SiftDown(0)` ready. */
  lemma PopReady(max: bool, values: seq<int>, e: seq<int>, heapIndex: seq<int>)
    requires Poppable(max, values, e, heapIndex)
    ensures var e1, h1 := PopSlots(e), PopTokens(e, heapIndex);
      SiftDownState(max, values, e1, h1, e1, h1, 0, e[0], true)
  {
    PopOrder(max, values, e);
    PopTokensRight(max, values, e, heapIndex);
  }

  /** After `pop`'s `SiftDown`: the heap is valid, the top is gone and told so, nothing outside changed. */
  lemma PopDone(max: bool, values: seq<int>, e0: seq<int>, heapIndex0: seq<int>, e: seq<int>, heapIndex: seq<int>)
    requires Poppable(max, values, e0, heapIndex0)
    requires var e1, h1 := PopSlots(e0), PopTokens(e0, heapIndex0);
      && |heapIndex| == |values| && Ordered(max, values, e) && Tokens(e, heapIndex, e0[0]) && Unique(e, e0[0])
      && multiset(e) == multiset(e1) && Outside(heapIndex, h1, e1)
    ensures Ordered(max, values, e) && Synced(e, heapIndex)
    ensures multiset(e) == multiset(e0) - multiset{e0[0]}
    ensures Outside(heapIndex, heapIndex0, e0)
    ensures e0[0] !in e ==> heapIndex[e0[0]] == INVALID_INDEX
  {
    var e1 := PopSlots(e0);
    TokensUnique(e, heapIndex, e0[0]);
    PopTokensRight(max, values, e0, heapIndex0);
    assert forall x :: x in e1 ==> x in multiset(e0);
    assert e0[0] !in e ==> e0[0] !in multiset(e1);
  }

  // ---------------------------------------------------------------------------
  // The elements and the heaps

  /** The vector of `HeapElement`s, one sequence per field; a position is an index into them. */
  class HeapElements {
    /** `value`: set once, never changed. */
    const values: seq<int>
    /** `min_heap`. */
    var minHeap: seq<bool>
    /** `max_heap`. */
    var maxHeap: seq<bool>
    /** `heap_index`. */
    var heapIndex: seq<int>

    /** The elements built from the input, in no heap and with `invalid_index`. */
    constructor(input: seq<int>)
      ensures values == input
      ensures |minHeap| == |maxHeap| == |heapIndex| == |input|
      ensures forall j :: 0 <= j < |input| ==> !minHeap[j] && !maxHeap[j] && heapIndex[j] == INVALID_INDEX
    {
      var minFlags, maxFlags, indices := [], [], [];
      for i := 0 to |input|
        invariant |minFlags| == |maxFlags| == |indices| == i
        invariant forall j :: 0 <= j < i ==> !minFlags[j] && !maxFlags[j] && indices[j] == INVALID_INDEX
      {
        minFlags, maxFlags, indices := minFlags + [false], maxFlags + [false], indices + [INVALID_INDEX];
      }
      values := input;
      minHeap, maxHeap, heapIndex := minFlags, maxFlags, indices;
    }
  }

  /** `Heap<Iterator, Compare>` with `ValueIndexObserver`, which writes `heap_index` in `store`. */
  class Heap {
    /** `MaxHeapCompare` when set, `MinHeapCompare` otherwise. */
    const max: bool
    /** The elements whose `heap_index` the observer writes. */
    const store: HeapElements
    /** `elements_`. */
    var elements: seq<int>

    constructor(max: bool, store: HeapElements)
      ensures this.max == max && this.store == store && elements == []
    {
      this.max := max;
      this.store := store;
      elements := [];
    }

    /** Heap order, and every position's `heap_index` is its slot. */
    ghost predicate Valid()
      reads this, store`heapIndex
    {
      && |store.heapIndex| == |store.values|
      && Ordered(max, store.values, elements)
      && Synced(elements, store.heapIndex)
    }

    function Size(): (r: int)
      reads this
      ensures r == |elements|
    {
      |elements|
    }

    /** The position in slot 0: one of the heap's positions. */
    function Top(): (r: int)
      requires |elements| > 0
      reads this
      ensures r in elements
    {
      elements[0]
    }

    /** The top of a valid heap goes above every position in it. */
    lemma TopFirst(k: int)
      requires Valid() && 0 <= k < |elements|
      ensures Compare(max, store.values, Top(), elements[k])
    {
      RootFirst(max, store.values, elements, k);
    }

    function LeftSon(index: int): (r: int)
      reads this
      requires index >= 0
      ensures r == INVALID_INDEX || r == 2 * index + 1 < |elements|
    {
      if 2 * index + 1 < |elements| then 2 * index + 1 else INVALID_INDEX
    }

    function RightSon(index: int): (r: int)
      reads this
      requires index >= 0
      ensures r == INVALID_INDEX || r == 2 * index + 2 < |elements|
    {
      if 2 * index + 2 < |elements| then 2 * index + 2 else INVALID_INDEX
    }

    function CompareElements(first: int, second: int): bool
      reads this
      requires 0 <= first < |elements| && 0 <= second < |elements| && InStore(elements, |store.values|)
    {
      Compare(max, store.values, elements[first], elements[second])
    }

    /** `NotifyIndexChange` through `ValueIndexObserver`. */
    method NotifyIndexChange(element: int, newIndex: int)
      requires 0 <= element < |store.heapIndex|
      modifies store`heapIndex
      ensures store.heapIndex == old(store.heapIndex)[element := newIndex]
    {
      store.heapIndex := store.heapIndex[element := newIndex];
    }

    /** `SwapElements`: tells both positions their new slots, then exchanges them. */
    method SwapElements(first: int, second: int)
      requires 0 <= first < |elements| && 0 <= second < |elements| && InStore(elements, |store.heapIndex|)
      modifies this`elements, store`heapIndex
      ensures elements == Swap(old(elements), first, second)
      ensures store.heapIndex == old(store.heapIndex)[old(elements[first]) := second][old(elements[second]) := first]
    {
      NotifyIndexChange(elements[first], second);
      NotifyIndexChange(elements[second], first);
      elements := Swap(elements, first, second);
    }

    /** `push(value)`: appends `value`, tells it its slot and sifts it up; returns the root. */
    method Push(value: int) returns (r: int)
      requires Valid() && 0 <= value < |store.values| && value !in elements
      modifies this`elements, store`heapIndex
      ensures Valid() && r == 0
      ensures multiset(elements) == multiset(old(elements)) + multiset{value}
      ensures Outside(store.heapIndex, old(store.heapIndex), old(elements) + [value])
    {
      PushReady(max, store.values, elements, store.heapIndex, value);
      elements := elements + [value];
      NotifyIndexChange(value, |elements| - 1);
      r := SiftUp(|elements| - 1, INVALID_INDEX, false);
    }

    /**
     * `pop()`: the top is told it left, the last slot moves into the root and
     * is sifted down. Within `erase` the top may also sit in a child of the
     * root, and then keeps its place there.
     */
    method Pop()
      requires Poppable(max, store.values, elements, store.heapIndex)
      modifies this`elements, store`heapIndex
      ensures Valid()
      ensures multiset(elements) == multiset(old(elements)) - multiset{old(elements)[0]}
      ensures Outside(store.heapIndex, old(store.heapIndex), old(elements))
      ensures old(elements)[0] !in elements ==> store.heapIndex[old(elements)[0]] == INVALID_INDEX
    {
      ghost var e0, h0 := elements, store.heapIndex;
      ghost var top := elements[0];
      PopReady(max, store.values, elements, store.heapIndex);
      NotifyIndexChange(elements[0], INVALID_INDEX);
      if |elements| > 1 {
        elements := elements[0 := elements[|elements| - 1]];
        NotifyIndexChange(elements[0], 0);
        assert store.heapIndex == PopTokens(e0, h0);
      } else {
        assert elements == e0[0 := e0[|e0| - 1]] && store.heapIndex == PopTokens(e0, h0);
      }
      elements := elements[..|elements| - 1];
      assert elements == PopSlots(e0);
      SiftDown(0, top, true);
      PopDone(max, store.values, old(elements), old(store.heapIndex), elements, store.heapIndex);
    }

    /**
     * `erase(index)`: copies the top into slot `index`, sifts that copy up to
     * the root and pops it, which leaves every position but the one at
     * `index`.
     */
    method Erase(index: int)
      requires Valid() && 0 <= index < |elements|
      modifies this`elements, store`heapIndex
      ensures Valid()
      ensures multiset(elements) == multiset(old(elements)) - multiset{old(elements)[index]}
      ensures Outside(store.heapIndex, old(store.heapIndex), old(elements))
    {
      ghost var top := elements[0];
      EraseReady(max, store.values, elements, store.heapIndex, index);
      elements := elements[index := elements[0]];
      NotifyIndexChange(elements[index], index);
      ghost var e1, h1 := elements, store.heapIndex;
      var _ := SiftUp(index, top, index > 0);
      ghost var e2, h2 := elements, store.heapIndex;
      assert forall x :: x in e2 ==> x in multiset(e1);
      Pop();
      OutsideTrans(h2, h1, old(store.heapIndex), e1, old(elements));
      OutsideTrans(store.heapIndex, h2, old(store.heapIndex), e2, old(elements));
    }

    /**
     * `SiftUp(index)`: walks from `index` to the root, swapping with the
     * parent whenever the comparator puts the slot above it; returns the root.
     * With `pulling`, it carries the copy of the top that `erase` wrote.
     */
    method SiftUp(index: int, ghost d: int, ghost pulling: bool) returns (r: int)
      requires SiftUpState(max, store.values, elements, store.heapIndex, elements, store.heapIndex, index, d, pulling)
      requires pulling ==> index > 0
      modifies this`elements, store`heapIndex
      ensures r == 0 && Ordered(max, store.values, elements)
      ensures SiftUpState(max, store.values, old(elements), old(store.heapIndex), elements, store.heapIndex, 0, d, pulling)
      ensures index == 0 ==> elements == old(elements) && store.heapIndex == old(store.heapIndex)
    {
      r := index;
      while true
        invariant SiftUpState(max, store.values, old(elements), old(store.heapIndex), elements, store.heapIndex, r, d, pulling)
        invariant index == 0 ==> elements == old(elements) && store.heapIndex == old(store.heapIndex)
        decreases r
      {
        var parent := Parent(r);
        if parent == INVALID_INDEX {
          break;
        }
        SiftUpNext(max, store.values, old(elements), old(store.heapIndex), elements, store.heapIndex, r, d, pulling);
        if CompareElements(r, parent) {
          SwapElements(r, parent);
        }
        r := parent;
      }
      UpReadyRoot(max, store.values, elements);
    }

    /**
     * `SiftDown(index)`: walks from `index` to a leaf, towards the child that
     * goes first, swapping whenever that child goes above the slot. From
     * `Pending` at the root, its first swap brings `d` up and repairs its token.
     */
    method SiftDown(index: int, ghost d: int, ghost unique: bool)
      requires SiftDownState(max, store.values, elements, store.heapIndex, elements, store.heapIndex, index, d, unique)
      modifies this`elements, store`heapIndex
      ensures Ordered(max, store.values, elements) && Tokens(elements, store.heapIndex, d)
      ensures multiset(elements) == multiset(old(elements)) && Outside(store.heapIndex, old(store.heapIndex), old(elements))
      ensures unique ==> Unique(elements, d)
    {
      var i := index;
      while true
        invariant SiftDownState(max, store.values, old(elements), old(store.heapIndex), elements, store.heapIndex, i, d, unique)
        decreases |elements| - i
      {
        var leftIndex := LeftSon(i);
        var rightIndex := RightSon(i);
        if leftIndex == INVALID_INDEX && rightIndex == INVALID_INDEX {
          break;
        }
        var swapIndex: int;
        if leftIndex != INVALID_INDEX && rightIndex == INVALID_INDEX {
          swapIndex := leftIndex;
        } else if leftIndex != INVALID_INDEX && rightIndex != INVALID_INDEX {
          if CompareElements(leftIndex, rightIndex) {
            swapIndex := leftIndex;
          } else {
            swapIndex := rightIndex;
          }
        } else {
          swapIndex := rightIndex;
        }
        assert swapIndex == ChosenChild(max, store.values, elements, i);
        SiftDownNext(max, store.values, old(elements), old(store.heapIndex), elements, store.heapIndex, i, d, unique);
        if !CompareElements(i, swapIndex) {
          SwapElements(i, swapIndex);
        }
        i := swapIndex;
      }
      SiftDownLeaf(max, store.values, old(elements), old(store.heapIndex), elements, store.heapIndex, i, d, unique);
    }
  }

  // ---------------------------------------------------------------------------
  // The k-th order statistic of a window

  /** Positions `l..r` of the window whose values are below `v`. */
  ghost function Below(values: seq<int>, l: int, r: int, v: int): set<int> {
    set j | 0 <= j < |values| && l <= j <= r && values[j] < v
  }

  /** Positions `l..r` of the window whose values are at most `v`. */
  ghost function AtMost(values: seq<int>, l: int, r: int, v: int): set<int> {
    set j | 0 <= j < |values| && l <= j <= r && values[j] <= v
  }

  /** `v` is the `k`-th smallest value among positions `l..r`: fewer than `k` below it, at least `k` up to it. */
  ghost predicate IsKth(values: seq<int>, l: int, r: int, k: int, v: int) {
    && |Below(values, l, r, v)| < k <= |AtMost(values, l, r, v)|
    && exists j :: 0 <= j < |values| && l <= j <= r && values[j] == v
  }

  /** The answer to a command: the `k`-th smallest value when the window `l..r` has `k` elements, else -1. */
  ghost predicate Answers(values: seq<int>, l: int, r: int, k: int, s: int) {
    if r - l + 1 >= k then IsKth(values, l, r, k, s) else s == -1
  }

  lemma {:induction false} SubsetCard(a: set<int>, b: set<int>)
    requires a <= b
    ensures |a| <= |b|
    decreases |b|
  {
    if a != {} {
      if forall y :: y !in a {
        assert false;
      }
      var x :| x in a;
      SubsetCard(a - {x}, b - {x});
    }
  }

  /** The `k`-th smallest value is unique. */
  lemma IsKthUnique(values: seq<int>, l: int, r: int, k: int, v: int, w: int)
    requires IsKth(values, l, r, k, v) && IsKth(values, l, r, k, w)
    ensures v == w
  {
    if v < w {
      SubsetCard(AtMost(values, l, r, v), Below(values, l, r, w));
    } else if w < v {
      SubsetCard(AtMost(values, l, r, w), Below(values, l, r, v));
    }
  }

  function Min(a: int, b: int): int {
    if a <= b then a else b
  }

  /** The top of an ordered heap has the largest value in the max-heap, the smallest in the min-heap. */
  lemma TopValue(max: bool, values: seq<int>, e: seq<int>, t: int)
    requires Ordered(max, values, e) && 0 <= t < |e|
    ensures if max then values[e[t]] <= values[e[0]] else values[e[0]] <= values[e[t]]
  {
    RootFirst(max, values, e, t);
    CompareValues(max, values, e[0], e[t]);
  }

  /** No position in two slots. */
  ghost predicate Distinct(e: seq<int>) {
    forall a, b :: 0 <= a < |e| && 0 <= b < |e| && a != b ==> e[a] != e[b]
  }

  lemma {:induction false} DistinctCount(e: seq<int>, x: int)
    requires Distinct(e)
    ensures multiset(e)[x] <= 1
  {
    if e != [] {
      var p := e[..|e| - 1];
      assert e == p + [e[|e| - 1]];
      DistinctCount(p, x);
      assert x == e[|e| - 1] ==> x !in p;
    }
  }

  /**
   * How `GetKthStatistics` splits the window `l..r` between the heaps: each
   * position of the window is in exactly one of them, as its flags say; no
   * position past `right` is flagged; the max-heap holds `min(k, size)` of
   * them, none with a value above any of the min-heap's.
   */
  ghost predicate Split(values: seq<int>, minFlags: seq<bool>, maxFlags: seq<bool>, l: int, r: int, k: int,
                        minE: seq<int>, maxE: seq<int>) {
    && |minFlags| == |values| && |maxFlags| == |values| && k >= 1
    && 0 <= l <= r + 1 && r < |values|
    && (forall t :: 0 <= t < |minE| ==> l <= minE[t] <= r && minFlags[minE[t]] && !maxFlags[minE[t]])
    && (forall t :: 0 <= t < |maxE| ==> l <= maxE[t] <= r && maxFlags[maxE[t]] && !minFlags[maxE[t]])
    && (forall j :: l <= j <= r ==> j in minE || j in maxE)
    && (forall j :: r < j < |values| ==> !minFlags[j] && !maxFlags[j])
    && |minE| + |maxE| == r - l + 1
    && |maxE| == Min(k, r - l + 1)
    && (forall a, b :: 0 <= a < |maxE| && 0 <= b < |minE| ==> values[maxE[a]] <= values[minE[b]])
  }

  /** The start: position 0 alone, in the max-heap. */
  lemma SplitStart(values: seq<int>, minFlags: seq<bool>, maxFlags: seq<bool>, k: int, maxE: seq<int>)
    requires |values| >= 1 && k >= 1 && |minFlags| == |maxFlags| == |values|
    requires forall j :: 0 <= j < |values| ==> !minFlags[j] && !maxFlags[j]
    requires multiset(maxE) == multiset{0}
    ensures Split(values, minFlags, maxFlags[0 := true], 0, 0, k, [], maxE)
  {
    assert |maxE| == |multiset(maxE)| == 1;
    assert maxE[0] in multiset(maxE);
  }

  /** After adding `x` to a heap: its slots are `x` and the old ones. */
  lemma Added(e: seq<int>, e': seq<int>, x: int)
    requires multiset(e') == multiset(e) + multiset{x}
    ensures |e'| == |e| + 1 && x in e'
    ensures forall t :: 0 <= t < |e'| ==> e'[t] == x || e'[t] in e
    ensures forall y :: y in e ==> y in e'
  {
    assert |multiset(e')| == |e'|;
    forall t | 0 <= t < |e'| ensures e'[t] == x || e'[t] in e {
      assert e'[t] in multiset(e');
    }
    forall y | y in e ensures y in e' {
      assert y in multiset(e);
      assert y in multiset(e');
    }
    assert x in multiset(e');
  }

  /** After removing `x` from a heap without repeats: its slots are the old ones but `x`. */
  lemma Removed(e: seq<int>, e': seq<int>, x: int)
    requires x in e && Distinct(e) && multiset(e') == multiset(e) - multiset{x}
    ensures |e'| == |e| - 1 && x !in e'
    ensures forall t :: 0 <= t < |e'| ==> e'[t] != x && e'[t] in e
    ensures forall y :: y in e && y != x ==> y in e'
  {
    assert x in multiset(e);
    DistinctCount(e, x);
    assert |multiset(e')| == |e'|;
    forall t | 0 <= t < |e'| ensures e'[t] != x && e'[t] in e {
      assert e'[t] in multiset(e');
    }
    forall y | y in e && y != x ensures y in e' {
      assert y in multiset(e);
      assert y in multiset(e');
    }
  }

  /** After replacing `x` by `z` in a heap without repeats. */
  lemma Replaced(e: seq<int>, e': seq<int>, x: int, z: int)
    requires x in e && z !in e && Distinct(e) && multiset(e') == multiset(e) - multiset{x} + multiset{z}
    ensures |e'| == |e| && z in e'
    ensures forall t :: 0 <= t < |e'| ==> e'[t] == z || (e'[t] != x && e'[t] in e)
    ensures forall y :: y in e && y != x ==> y in e'
  {
    assert x in multiset(e);
    DistinctCount(e, x);
    assert |multiset(e')| == |e'|;
    forall t | 0 <= t < |e'| ensures e'[t] == z || (e'[t] != x && e'[t] in e) {
      assert e'[t] in multiset(e');
    }
    forall y | y in e && y != x ensures y in e' {
      assert y in multiset(e);
      assert y in multiset(e');
    }
    assert z in multiset(e');
  }

  /** `R` while the max-heap is short of `k`: the new position joins it, and the min-heap is empty. */
  lemma SplitRightToMax(values: seq<int>, minFlags: seq<bool>, maxFlags: seq<bool>, l: int, r: int, right: int, k: int,
                        minE: seq<int>, maxE: seq<int>, maxE': seq<int>)
    requires Split(values, minFlags, maxFlags, l, r, k, minE, maxE) && right == r + 1 < |values| && |maxE| < k
    requires multiset(maxE') == multiset(maxE) + multiset{right}
    ensures Split(values, minFlags, maxFlags[right := true], l, right, k, minE, maxE')
  {
    Added(maxE, maxE', right);
  }

  /**
   * `R` when the new value is below the max-heap's top: the top moves to the
   * min-heap and the new position joins the max-heap.
   */
  lemma SplitRightSwap(values: seq<int>, minFlags: seq<bool>, maxFlags: seq<bool>, l: int, r: int, right: int, k: int,
                       minE: seq<int>, maxE: seq<int>, minFlags': seq<bool>, maxFlags': seq<bool>, minE': seq<int>, maxE': seq<int>)
    requires Split(values, minFlags, maxFlags, l, r, k, minE, maxE) && right == r + 1 < |values| && |maxE| >= k
    requires Distinct(maxE)
    requires Ordered(true, values, maxE) && values[right] < values[maxE[0]]
    requires minFlags' == minFlags[maxE[0] := true] && maxFlags' == maxFlags[maxE[0] := false][right := true]
    requires multiset(minE') == multiset(minE) + multiset{maxE[0]}
    requires multiset(maxE') == multiset(maxE) - multiset{maxE[0]} + multiset{right}
    ensures Split(values, minFlags', maxFlags', l, right, k, minE', maxE')
  {
    var top := maxE[0];
    Added(minE, minE', top);
    Replaced(maxE, maxE', top, right);
    forall a, b | 0 <= a < |maxE'| && 0 <= b < |minE'| ensures values[maxE'[a]] <= values[minE'[b]] {
      var x, y := maxE'[a], minE'[b];
      if x != right {
        var t :| 0 <= t < |maxE| && maxE[t] == x;
        TopValue(true, values, maxE, t);
      }
      if y != top {
        var t :| 0 <= t < |minE| && minE[t] == y;
        assert values[top] <= values[minE[t]];
      }
    }
  }

  /** `R` otherwise: the new position joins the min-heap. */
  lemma SplitRightToMin(values: seq<int>, minFlags: seq<bool>, maxFlags: seq<bool>, l: int, r: int, right: int, k: int,
                        minE: seq<int>, maxE: seq<int>, minE': seq<int>)
    requires Split(values, minFlags, maxFlags, l, r, k, minE, maxE) && right == r + 1 < |values| && |maxE| >= k
    requires Ordered(true, values, maxE) && !(values[right] < values[maxE[0]])
    requires multiset(minE') == multiset(minE) + multiset{right}
    ensures Split(values, minFlags[right := true], maxFlags[right := false], l, right, k, minE', maxE)
  {
    Added(minE, minE', right);
    forall a, b | 0 <= a < |maxE| && 0 <= b < |minE'| ensures values[maxE[a]] <= values[minE'[b]] {
      TopValue(true, values, maxE, a);
    }
  }

  /** `L` when the left position is in the min-heap: it leaves it. */
  lemma SplitLeftFromMin(values: seq<int>, minFlags: seq<bool>, maxFlags: seq<bool>, l: int, r: int, k: int,
                         minE: seq<int>, maxE: seq<int>, minE': seq<int>)
    requires Split(values, minFlags, maxFlags, l, r, k, minE, maxE) && l <= r && minFlags[l]
    requires Distinct(minE) && Distinct(maxE)
    requires multiset(minE') == multiset(minE) - multiset{l}
    ensures Split(values, minFlags, maxFlags, l + 1, r, k, minE', maxE)
  {
    assert l in minE && l !in maxE;
    Removed(minE, minE', l);
  }

  /** `L` when the left position is in the max-heap and the min-heap is empty: it leaves the max-heap. */
  lemma SplitLeftFromMax(values: seq<int>, minFlags: seq<bool>, maxFlags: seq<bool>, l: int, r: int, k: int,
                         minE: seq<int>, maxE: seq<int>, maxE': seq<int>)
    requires Split(values, minFlags, maxFlags, l, r, k, minE, maxE) && l <= r && !minFlags[l] && |minE| == 0
    requires Distinct(minE) && Distinct(maxE)
    requires multiset(maxE') == multiset(maxE) - multiset{l}
    ensures Split(values, minFlags, maxFlags, l + 1, r, k, minE, maxE')
  {
    assert l in maxE;
    Removed(maxE, maxE', l);
  }

  /**
   * `L` when the left position is in the max-heap and the min-heap is not
   * empty: it leaves the max-heap, and the min-heap's top moves over.
   */
  lemma SplitLeftRefill(values: seq<int>, minFlags: seq<bool>, maxFlags: seq<bool>, l: int, r: int, k: int,
                        minE: seq<int>, maxE: seq<int>, minE': seq<int>, maxE': seq<int>)
    requires Split(values, minFlags, maxFlags, l, r, k, minE, maxE) && l <= r && !minFlags[l] && |minE| > 0
    requires Distinct(minE) && Distinct(maxE)
    requires Ordered(false, values, minE)
    requires multiset(minE') == multiset(minE) - multiset{minE[0]}
    requires multiset(maxE') == multiset(maxE) - multiset{l} + multiset{minE[0]}
    ensures Split(values, minFlags[minE[0] := false], maxFlags[minE[0] := true], l + 1, r, k, minE', maxE')
  {
    var top := minE[0];
    assert l in maxE && top !in maxE && top != l;
    Removed(minE, minE', top);
    Replaced(maxE, maxE', l, top);
    forall a, b | 0 <= a < |maxE'| && 0 <= b < |minE'| ensures values[maxE'[a]] <= values[minE'[b]] {
      var x, y := maxE'[a], minE'[b];
      var t :| 0 <= t < |minE| && minE[t] == y;
      TopValue(false, values, minE, t);
      if x != top {
        var u :| 0 <= u < |maxE| && maxE[u] == x;
      }
    }
  }

  /** A sequence without repeats has as many distinct elements as entries. */
  lemma {:induction false} DistinctCard(e: seq<int>)
    requires Distinct(e)
    ensures |set x | x in e| == |e|
  {
    if e != [] {
      var p := e[..|e| - 1];
      DistinctCard(p);
      assert (set x | x in e) == (set x | x in p) + {e[|e| - 1]};
    }
  }

  /** From the split, the max-heap's top is the `k`-th smallest value of the window once it has `k` elements. */
  lemma KthOfSplit(values: seq<int>, minFlags: seq<bool>, maxFlags: seq<bool>, l: int, r: int, k: int,
                   minE: seq<int>, maxE: seq<int>)
    requires Split(values, minFlags, maxFlags, l, r, k, minE, maxE)
    requires Ordered(true, values, maxE) && Distinct(maxE)
    ensures Answers(values, l, r, k, if |maxE| >= k then values[maxE[0]] else -1)
  {
    if |maxE| >= k {
      var v := values[maxE[0]];
      var m := set x | x in maxE;
      DistinctCard(maxE);
      forall j | j in m ensures j in AtMost(values, l, r, v) {
        var t :| 0 <= t < |maxE| && maxE[t] == j;
        TopValue(true, values, maxE, t);
      }
      SubsetCard(m, AtMost(values, l, r, v));
      assert Below(values, l, r, v) <= m - {maxE[0]};
      SubsetCard(Below(values, l, r, v), m - {maxE[0]});
    }
  }

  // ---------------------------------------------------------------------------
  // GetKthStatistics

  /** Synced heaps hold no position twice. */
  lemma SyncedDistinctSlots(e: seq<int>, heapIndex: seq<int>)
    requires Synced(e, heapIndex)
    ensures Distinct(e)
  {
  }

  /** In a synced heap a position's token names its slot. */
  lemma SlotOf(e: seq<int>, heapIndex: seq<int>, x: int)
    requires Synced(e, heapIndex) && x in e
    ensures 0 <= heapIndex[x] < |e| && e[heapIndex[x]] == x
  {
    var t :| 0 <= t < |e| && e[t] == x;
  }

  /** Every slot of `a` holds a position of `b` when `a`'s multiset lies within `b`'s. */
  lemma Within(a: seq<int>, b: seq<int>)
    requires multiset(a) <= multiset(b)
    ensures forall t :: 0 <= t < |a| ==> a[t] in b
  {
    forall t | 0 <= t < |a| ensures a[t] in b {
      assert a[t] in multiset(a);
    }
  }

  /** A valid heap is ready for `pop`. */
  lemma SyncedPoppable(max: bool, values: seq<int>, e: seq<int>, heapIndex: seq<int>)
    requires |heapIndex| == |values| && Ordered(max, values, e) && Synced(e, heapIndex) && |e| > 0
    ensures Poppable(max, values, e, heapIndex)
  {
    SyncedTokens(e, heapIndex, e[0]);
  }

  /** One heap's operation changes only its own positions' tokens, so the other heap stays synced. */
  lemma SyncedFrame(e: seq<int>, heapIndex: seq<int>, heapIndex': seq<int>, e0: seq<int>)
    requires Synced(e, heapIndex) && Outside(heapIndex', heapIndex, e0)
    requires forall t :: 0 <= t < |e| ==> e[t] !in e0
    ensures Synced(e, heapIndex')
  {
  }

  /** The heaps of a split share no position, and hold none past `right`. */
  lemma SplitApart(values: seq<int>, minFlags: seq<bool>, maxFlags: seq<bool>, l: int, r: int, k: int,
                   minE: seq<int>, maxE: seq<int>)
    requires Split(values, minFlags, maxFlags, l, r, k, minE, maxE)
    ensures forall t :: 0 <= t < |minE| ==> minE[t] !in maxE
    ensures forall t :: 0 <= t < |maxE| ==> maxE[t] !in minE
    ensures forall j :: r < j ==> j !in minE && j !in maxE
  {
  }

  /** The state of `GetKthStatistics` between commands, on the window `l..r`. */
  ghost predicate Window(store: HeapElements, minHeap: Heap, maxHeap: Heap, l: int, r: int, k: int)
    reads store, minHeap, maxHeap
  {
    && minHeap != maxHeap && minHeap.store == store && maxHeap.store == store
    && !minHeap.max && maxHeap.max
    && minHeap.Valid() && maxHeap.Valid()
    && Split(store.values, store.minHeap, store.maxHeap, l, r, k, minHeap.elements, maxHeap.elements)
  }

  /** `R`'s push into the max-heap: the new position is flagged and pushed, and the min-heap stays valid. */
  method PushToMax(store: HeapElements, minHeap: Heap, maxHeap: Heap, right: int)
    requires minHeap != maxHeap && minHeap.store == store && maxHeap.store == store
    requires minHeap.Valid() && maxHeap.Valid() && |store.maxHeap| == |store.values|
    requires 0 <= right < |store.values| && right !in maxHeap.elements && right !in minHeap.elements
    requires forall t :: 0 <= t < |minHeap.elements| ==> minHeap.elements[t] !in maxHeap.elements
    modifies store`maxHeap, store`heapIndex, maxHeap
    ensures minHeap.Valid() && maxHeap.Valid()
    ensures multiset(maxHeap.elements) == multiset(old(maxHeap.elements)) + multiset{right}
    ensures store.maxHeap == old(store.maxHeap)[right := true]
  {
    ghost var hi0, maxE0 := store.heapIndex, maxHeap.elements;
    store.maxHeap := store.maxHeap[right := true];
    var _ := maxHeap.Push(right);
    SyncedFrame(minHeap.elements, hi0, store.heapIndex, maxE0 + [right]);
  }

  /** `R` while the max-heap is short of `k`: the new position is pushed into it. */
  method RightToMax(store: HeapElements, minHeap: Heap, maxHeap: Heap, ghost l: int, ghost r: int, right: int, k: int)
    requires Window(store, minHeap, maxHeap, l, r, k) && right == r + 1 < |store.values|
    requires maxHeap.Size() < k
    modifies store`maxHeap, store`heapIndex, maxHeap
    ensures Window(store, minHeap, maxHeap, l, right, k)
  {
    ghost var minF0, maxF0, minE0, maxE0 := store.minHeap, store.maxHeap, minHeap.elements, maxHeap.elements;
    SplitApart(store.values, minF0, maxF0, l, r, k, minE0, maxE0);
    PushToMax(store, minHeap, maxHeap, right);
    SplitRightToMax(store.values, minF0, maxF0, l, r, right, k, minE0, maxE0, maxHeap.elements);
  }

  /**
   * The move both commands make between the heaps: `from`'s top is popped,
   * its flags are turned to `to`'s, and it is pushed into `to`.
   */
  method MoveTop(store: HeapElements, from: Heap, to: Heap) returns (value: int)
    requires from != to && from.store == store && to.store == store && from.max != to.max
    requires from.Valid() && to.Valid() && |from.elements| > 0
    requires |store.minHeap| == |store.values| && |store.maxHeap| == |store.values|
    requires forall t :: 0 <= t < |from.elements| ==> from.elements[t] !in to.elements
    requires forall t :: 0 <= t < |to.elements| ==> to.elements[t] !in from.elements
    modifies store`minHeap, store`maxHeap, store`heapIndex, from, to
    ensures from.Valid() && to.Valid()
    ensures value == old(from.elements[0])
    ensures multiset(from.elements) == multiset(old(from.elements)) - multiset{value} && value !in from.elements
    ensures multiset(to.elements) == multiset(old(to.elements)) + multiset{value}
    ensures store.maxHeap == old(store.maxHeap)[value := to.max]
    ensures store.minHeap == old(store.minHeap)[value := !to.max]
    ensures forall t :: 0 <= t < |from.elements| ==> from.elements[t] !in to.elements
    ensures forall t :: 0 <= t < |to.elements| ==> to.elements[t] !in from.elements
    ensures forall x :: x !in old(from.elements) && x !in old(to.elements) ==> x !in from.elements && x !in to.elements
  {
    ghost var hi0, fromE0, toE0 := store.heapIndex, from.elements, to.elements;
    value := from.Top();
    SyncedPoppable(from.max, store.values, fromE0, hi0);
    from.Pop();
    ghost var hi1, fromE1 := store.heapIndex, from.elements;
    SyncedFrame(toE0, hi0, hi1, fromE0);
    SyncedDistinctSlots(fromE0, hi0);
    Removed(fromE0, fromE1, value);
    if to.max {
      store.maxHeap := store.maxHeap[value := true];
      store.minHeap := store.minHeap[value := false];
    } else {
      store.maxHeap := store.maxHeap[value := false];
      store.minHeap := store.minHeap[value := true];
    }
    var _ := to.Push(value);
    SyncedFrame(fromE1, hi1, store.heapIndex, toE0 + [value]);
    Added(toE0, to.elements, value);
  }

  /** `R` when the new value is below the max-heap's top: the top moves to the min-heap, the new position to the max-heap. */
  method RightSwap(store: HeapElements, minHeap: Heap, maxHeap: Heap, ghost l: int, ghost r: int, right: int, k: int)
    requires Window(store, minHeap, maxHeap, l, r, k) && right == r + 1 < |store.values|
    requires maxHeap.Size() >= k && store.values[right] < store.values[maxHeap.Top()]
    modifies store`minHeap, store`maxHeap, store`heapIndex, minHeap, maxHeap
    ensures Window(store, minHeap, maxHeap, l, right, k)
  {
    ghost var minF0, maxF0, minE0, maxE0 := store.minHeap, store.maxHeap, minHeap.elements, maxHeap.elements;
    SyncedDistinctSlots(maxE0, store.heapIndex);
    SplitApart(store.values, minF0, maxF0, l, r, k, minE0, maxE0);
    var _ := MoveTop(store, maxHeap, minHeap);
    PushToMax(store, minHeap, maxHeap, right);
    SplitRightSwap(store.values, minF0, maxF0, l, r, right, k, minE0, maxE0, store.minHeap, store.maxHeap, minHeap.elements, maxHeap.elements);
  }

  /** `R` otherwise: the new position is pushed into the min-heap. */
  method RightToMin(store: HeapElements, minHeap: Heap, maxHeap: Heap, ghost l: int, ghost r: int, right: int, k: int)
    requires Window(store, minHeap, maxHeap, l, r, k) && right == r + 1 < |store.values|
    requires maxHeap.Size() >= k && !(store.values[right] < store.values[maxHeap.Top()])
    modifies store`minHeap, store`maxHeap, store`heapIndex, minHeap
    ensures Window(store, minHeap, maxHeap, l, right, k)
  {
    ghost var hi0, minF0, maxF0, minE0, maxE0 := store.heapIndex, store.minHeap, store.maxHeap, minHeap.elements, maxHeap.elements;
    SplitApart(store.values, minF0, maxF0, l, r, k, minE0, maxE0);
    store.maxHeap := store.maxHeap[right := false];
    store.minHeap := store.minHeap[right := true];
    var _ := minHeap.Push(right);
    SyncedFrame(maxE0, hi0, store.heapIndex, minE0 + [right]);
    SplitRightToMin(store.values, minF0, maxF0, l, r, right, k, minE0, maxE0, minHeap.elements);
  }

  /** `L`: the left position leaves its heap; if that was the max-heap, the min-heap's top moves over. */
  method LeftCommand(store: HeapElements, minHeap: Heap, maxHeap: Heap, left: int, ghost r: int, k: int)
    requires Window(store, minHeap, maxHeap, left, r, k) && left <= r
    modifies store`minHeap, store`maxHeap, store`heapIndex, minHeap, maxHeap
    ensures Window(store, minHeap, maxHeap, left + 1, r, k)
  {
    if store.minHeap[left] {
      LeftFromMin(store, minHeap, maxHeap, left, r, k);
    } else {
      LeftFromMax(store, minHeap, maxHeap, left, r, k);
    }
  }

  /** `L` when the left position is in the min-heap: it is erased there. */
  method LeftFromMin(store: HeapElements, minHeap: Heap, maxHeap: Heap, left: int, ghost r: int, k: int)
    requires Window(store, minHeap, maxHeap, left, r, k) && left <= r && store.minHeap[left]
    modifies minHeap, store`heapIndex
    ensures Window(store, minHeap, maxHeap, left + 1, r, k)
  {
    ghost var hi0, minF0, maxF0, minE0, maxE0 := store.heapIndex, store.minHeap, store.maxHeap, minHeap.elements, maxHeap.elements;
    SyncedDistinctSlots(minE0, store.heapIndex);
    SyncedDistinctSlots(maxE0, store.heapIndex);
    SplitApart(store.values, minF0, maxF0, left, r, k, minE0, maxE0);
    assert left in minE0;
    SlotOf(minE0, hi0, left);
    minHeap.Erase(store.heapIndex[left]);
    SyncedFrame(maxE0, hi0, store.heapIndex, minE0);
    SplitLeftFromMin(store.values, minF0, maxF0, left, r, k, minE0, maxE0, minHeap.elements);
  }

  /** `L` when the left position is in the max-heap: it is erased there, and the min-heap's top moves over. */
  method LeftFromMax(store: HeapElements, minHeap: Heap, maxHeap: Heap, left: int, ghost r: int, k: int)
    requires Window(store, minHeap, maxHeap, left, r, k) && left <= r && !store.minHeap[left]
    modifies store`minHeap, store`maxHeap, store`heapIndex, minHeap, maxHeap
    ensures Window(store, minHeap, maxHeap, left + 1, r, k)
  {
    ghost var hi0, minF0, maxF0, minE0, maxE0 := store.heapIndex, store.minHeap, store.maxHeap, minHeap.elements, maxHeap.elements;
    SyncedDistinctSlots(minE0, store.heapIndex);
    SyncedDistinctSlots(maxE0, store.heapIndex);
    SplitApart(store.values, minF0, maxF0, left, r, k, minE0, maxE0);
    assert left in maxE0;
    SlotOf(maxE0, hi0, left);
    maxHeap.Erase(store.heapIndex[left]);
    ghost var hi1, maxE1 := store.heapIndex, maxHeap.elements;
    SyncedFrame(minE0, hi0, hi1, maxE0);
    if minHeap.Size() > 0 {
      Within(maxE1, maxE0);
      var _ := MoveTop(store, minHeap, maxHeap);
      SplitLeftRefill(store.values, minF0, maxF0, left, r, k, minE0, maxE0, minHeap.elements, maxHeap.elements);
    } else {
      SplitLeftFromMax(store.values, minF0, maxF0, left, r, k, minE0, maxE0, maxE1);
    }
  }

  /** The number of `R` commands in `commands`: how far `right` has moved. */
  function Rights(commands: seq<char>): (r: nat)
    ensures r <= |commands|
  {
    if commands == [] then 0
    else Rights(commands[..|commands| - 1]) + (if commands[|commands| - 1] == 'R' then 1 else 0)
  }

  /** The number of other commands in `commands`: how far `left` has moved. */
  function Lefts(commands: seq<char>): nat {
    |commands| - Rights(commands)
  }

  /** No `R` moves `right` past the last element, and no `L` leaves the window empty before it. */
  ghost predicate Commandable(n: int, commands: seq<char>) {
    forall i :: 0 <= i < |commands| ==>
      if commands[i] == 'R' then Rights(commands[..i]) + 1 < n else Lefts(commands[..i]) <= Rights(commands[..i])
  }

  /** One more command moves `right` for `R` and `left` otherwise. */
  lemma PrefixCounts(commands: seq<char>, i: int)
    requires 0 <= i < |commands|
    ensures commands[i] == 'R' ==> Rights(commands[..i + 1]) == Rights(commands[..i]) + 1 && Lefts(commands[..i + 1]) == Lefts(commands[..i])
    ensures commands[i] != 'R' ==> Rights(commands[..i + 1]) == Rights(commands[..i]) && Lefts(commands[..i + 1]) == Lefts(commands[..i]) + 1
  {
    assert commands[..i + 1][..i] == commands[..i];
  }

  /** One command of the loop of `GetKthStatistics`. */
  method Step(store: HeapElements, minHeap: Heap, maxHeap: Heap, left: int, right: int, k: int, command: char)
    returns (left': int, right': int)
    requires Window(store, minHeap, maxHeap, left, right, k)
    requires if command == 'R' then right + 1 < |store.values| else left <= right
    modifies store`minHeap, store`maxHeap, store`heapIndex, minHeap, maxHeap
    ensures Window(store, minHeap, maxHeap, left', right', k)
    ensures command == 'R' ==> left' == left && right' == right + 1
    ensures command != 'R' ==> left' == left + 1 && right' == right
  {
    left', right' := left, right;
    if command == 'R' {
      right' := right' + 1;
      if maxHeap.Size() < k {
        RightToMax(store, minHeap, maxHeap, left, right, right', k);
      } else if store.values[right'] < store.values[maxHeap.Top()] {
        RightSwap(store, minHeap, maxHeap, left, right, right', k);
      } else {
        RightToMin(store, minHeap, maxHeap, left, right, right', k);
      }
    } else {
      LeftCommand(store, minHeap, maxHeap, left, right, k);
      left' := left' + 1;
    }
  }

  /** The answer after a command: the max-heap's top once it holds `k` positions, -1 before. */
  method Answer(store: HeapElements, minHeap: Heap, maxHeap: Heap, ghost l: int, ghost r: int, k: int) returns (s: int)
    requires Window(store, minHeap, maxHeap, l, r, k)
    ensures Answers(store.values, l, r, k, s)
  {
    SyncedDistinctSlots(maxHeap.elements, store.heapIndex);
    KthOfSplit(store.values, store.minHeap, store.maxHeap, l, r, k, minHeap.elements, maxHeap.elements);
    if maxHeap.Size() >= k {
      s := store.values[maxHeap.Top()];
    } else {
      s := -1;
    }
  }

  /** Command number `i` of the loop of `GetKthStatistics` and the statistic printed after it. */
  method Advance(store: HeapElements, minHeap: Heap, maxHeap: Heap, commands: seq<char>, i: int,
                 left: int, right: int, k: int)
    returns (left': int, right': int, answer: int)
    requires 0 <= i < |commands| && Commandable(|store.values|, commands)
    requires Window(store, minHeap, maxHeap, left, right, k)
    requires left == Lefts(commands[..i]) && right == Rights(commands[..i])
    modifies store`minHeap, store`maxHeap, store`heapIndex, minHeap, maxHeap
    ensures Window(store, minHeap, maxHeap, left', right', k)
    ensures left' == Lefts(commands[..i + 1]) && right' == Rights(commands[..i + 1])
    ensures Answers(store.values, left', right', k, answer)
  {
    PrefixCounts(commands, i);
    left', right' := Step(store, minHeap, maxHeap, left, right, k, commands[i]);
    answer := Answer(store, minHeap, maxHeap, left', right', k);
  }

  /** The state before the first command: position 0 flagged and pushed into the max-heap. */
  method Start(input: seq<int>, k: int) returns (store: HeapElements, minHeap: Heap, maxHeap: Heap)
    requires |input| >= 1 && k >= 1
    ensures fresh(store) && fresh(minHeap) && fresh(maxHeap)
    ensures store.values == input && Window(store, minHeap, maxHeap, 0, 0, k)
  {
    store := new HeapElements(input);
    minHeap := new Heap(false, store);
    maxHeap := new Heap(true, store);
    var right := 0;
    ghost var flags0 := store.maxHeap;
    store.maxHeap := store.maxHeap[right := true];
    var _ := maxHeap.Push(right);
    SplitStart(input, store.minHeap, flags0, k, maxHeap.elements);
  }

  /** The first `|statistics|` commands have been answered correctly. */
  ghost predicate AnsweredSoFar(values: seq<int>, commands: seq<char>, k: int, statistics: seq<int>)
  {
    |statistics| <= |commands| &&
    forall i :: 0 <= i < |statistics| ==>
      Answers(values, Lefts(commands[..i + 1]), Rights(commands[..i + 1]), k, statistics[i])
  }

  /** A correct answer to the next command extends the answers so far. */
  lemma AnsweredNext(values: seq<int>, commands: seq<char>, k: int, statistics: seq<int>, answer: int)
    requires AnsweredSoFar(values, commands, k, statistics) && |statistics| < |commands|
    requires Answers(values, Lefts(commands[..|statistics| + 1]), Rights(commands[..|statistics| + 1]), k, answer)
    ensures AnsweredSoFar(values, commands, k, statistics + [answer])
  {
    var s := statistics + [answer];
    forall i | 0 <= i < |s|
      ensures Answers(values, Lefts(commands[..i + 1]), Rights(commands[..i + 1]), k, s[i])
    {
      if i < |statistics| {
        assert s[i] == statistics[i];
      }
    }
  }

  /**
   * `GetKthStatistics`: starts with the window holding position 0, then for
   * each command moves `right` (`R`) or `left` (otherwise) and answers with
   * the `k`-th smallest value of the window, or -1 while it has fewer than
   * `k` elements.
   */
  method GetKthStatistics(input: seq<int>, commands: seq<char>, kOrder: int) returns (statistics: seq<int>)
    requires |input| >= 1 && kOrder >= 1 && Commandable(|input|, commands)
    ensures |statistics| == |commands|
    ensures forall i :: 0 <= i < |commands| ==>
      Answers(input, Lefts(commands[..i + 1]), Rights(commands[..i + 1]), kOrder, statistics[i])
  {
    statistics := [];
    var elements, minHeap, maxHeap := Start(input, kOrder);
    var left, right := 0, 0;
    for commandNumber := 0 to |commands|
      invariant fresh(elements) && fresh(minHeap) && fresh(maxHeap)
      invariant Window(elements, minHeap, maxHeap, left, right, kOrder)
      invariant left == Lefts(commands[..commandNumber]) && right == Rights(commands[..commandNumber])
      invariant |statistics| == commandNumber && AnsweredSoFar(input, commands, kOrder, statistics)
    {
      var answer;
      left, right, answer := Advance(elements, minHeap, maxHeap, commands, commandNumber, left, right, kOrder);
      AnsweredNext(input, commands, kOrder, statistics, answer);
      statistics := statistics + [answer];
    }
  }
}
