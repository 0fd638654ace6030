/**
 * A memory manager over the cells 1..memorySize (algorithms/memory_manager/main.cpp).
 *
 * Memory is a list of segments in address order. Free segments also sit in
 * a binary max-heap ordered by size, the leftmost first among equal sizes;
 * each segment records its heap slot, or `NULL_INDEX` when it is not in the
 * heap, and that is how allocated segments are recognised. `Allocate` cuts a
 * request from the front of the heap's top; `Free` merges a segment with its
 * free neighbours and puts the result back in the heap.
 *
 * List iterators are modelled as integer handles: `order` is the list in
 * address order, `segments` maps a handle to its bounds, and `heapIndex`
 * maps it to the `heap_index` field of the same list node.
 */
module MemoryManager {

  /** `kNullIndex`, `static_cast<size_t>(-1)`. */
  const NULL_INDEX: int := -1
  /** The handle `undefined_handle()` returns, the list's `end()`. */
  const UNDEFINED_HANDLE: int := -1

  type Handle = int

  /** A list node's bounds `[left, right)`; its `heap_index` is kept in `MemoryManager.heapIndex`. */
  datatype MemorySegment = MemorySegment(left: int, right: int)

  function Size(segment: MemorySegment): int {
    segment.right - segment.left
  }

  /** `Unite`: the smallest segment covering both. */
  function Unite(first: MemorySegment, second: MemorySegment): (r: MemorySegment)
    ensures r.left <= first.left && r.left <= second.left && r.right >= first.right && r.right >= second.right
    ensures (r.left == first.left || r.left == second.left) && (r.right == first.right || r.right == second.right)
  {
    MemorySegment(if first.left <= second.left then first.left else second.left,
                  if first.right >= second.right then first.right else second.right)
  }

  /**
   * `MemorySegmentSizeCompare(first, second)`: `first` ranks below `second`,
   * smaller first and, among equal sizes, further right (or the same left).
   */
  predicate Less(first: MemorySegment, second: MemorySegment) {
    if Size(first) == Size(second) then first.left >= second.left else Size(first) < Size(second)
  }

  /** Not ranking below is a strict order on (size, leftness), so it is transitive. */
  lemma NotLessTransitive(a: MemorySegment, b: MemorySegment, c: MemorySegment)
    requires !Less(a, b) && !Less(b, c)
    ensures !Less(a, c)
  {
  }

  lemma LessAsymmetric(a: MemorySegment, b: MemorySegment)
    requires Less(a, b) && a.left != b.left
    ensures !Less(b, a)
  {
  }

  // ---------------------------------------------------------------------------
  // Heap order, on the sequence of segments in heap slots

  function Parent(k: int): int {
    (k - 1) / 2
  }

  /** No child outranks its parent. */
  ghost predicate Ordered(keys: seq<MemorySegment>) {
    forall k :: 1 <= k < |keys| ==> !Less(keys[Parent(k)], keys[k])
  }

  /**
   * Ready for sifting up from `i`: ordered except possibly between `i` and
   * its parent, and the parent of `i` outranks the children of `i`.
   */
  ghost predicate UpReady(keys: seq<MemorySegment>, i: int) {
    && 0 <= i < |keys|
    && (forall k :: 1 <= k < |keys| && k != i ==> !Less(keys[Parent(k)], keys[k]))
    && (i >= 1 ==> forall k :: 1 <= k < |keys| && Parent(k) == i ==> !Less(keys[Parent(i)], keys[k]))
  }

  /**
   * Ready for sifting down from `i`: ordered except possibly at the edges
   * touching `i`, and the parent of `i` outranks the children of `i`.
   */
  ghost predicate DownReady(keys: seq<MemorySegment>, i: int) {
    && 0 <= i < |keys|
    && (forall k :: 1 <= k < |keys| && k != i && Parent(k) != i ==> !Less(keys[Parent(k)], keys[k]))
    && (i >= 1 ==> forall k :: 1 <= k < |keys| && Parent(k) == i ==> !Less(keys[Parent(i)], keys[k]))
  }

  ghost predicate DistinctLefts(keys: seq<MemorySegment>) {
    forall a, b :: 0 <= a < b < |keys| ==> keys[a].left != keys[b].left
  }

  function Swap<T>(s: seq<T>, i: int, j: int): (r: seq<T>)
    requires 0 <= i < |s| && 0 <= j < |s|
    ensures |r| == |s| && r[i] == s[j] && r[j] == s[i]
    ensures forall k :: 0 <= k < |s| && k != i && k != j ==> r[k] == s[k]
  {
    s[i := s[j]][j := s[i]]
  }

  lemma MultisetSwap<T>(s: seq<T>, i: int, j: int)
    requires 0 <= i < |s| && 0 <= j < |s|
    ensures multiset(Swap(s, i, j)) == multiset(s)
  {
    var t := s[i := s[j]];
    assert multiset(t) == multiset(s) - multiset{s[i]} + multiset{s[j]};
    assert multiset(t[j := s[i]]) == multiset(t) - multiset{t[j]} + multiset{s[i]};
  }

  /** The root of an ordered heap outranks every other slot: `top()` is the best free segment. */
  lemma {:induction false} TopIsBest(keys: seq<MemorySegment>, k: int)
    requires Ordered(keys) && 1 <= k < |keys|
    ensures !Less(keys[0], keys[k])
    decreases k
  {
    if Parent(k) > 0 {
      TopIsBest(keys, Parent(k));
      NotLessTransitive(keys[0], keys[Parent(k)], keys[k]);
    }
  }

  /** One turn of `SiftUp`'s loop: after the optional swap with the parent, the parent is ready. */
  lemma SiftUpStep(keys: seq<MemorySegment>, i: int)
    requires UpReady(keys, i) && i >= 1 && DistinctLefts(keys)
    ensures var p := Parent(i);
      UpReady(if Less(keys[p], keys[i]) then Swap(keys, i, p) else keys, p)
  {
    var p := Parent(i);
    var next := if Less(keys[p], keys[i]) then Swap(keys, i, p) else keys;
    if Less(keys[p], keys[i]) {
      LessAsymmetric(keys[p], keys[i]);
      forall k | 1 <= k < |next| && k != p ensures !Less(next[Parent(k)], next[k]) {
        if Parent(k) == p && k != i {
          NotLessTransitive(keys[i], keys[p], keys[k]);
        }
      }
      if p >= 1 {
        forall k | 1 <= k < |next| && Parent(k) == p ensures !Less(next[Parent(p)], next[k]) {
          if k != i {
            NotLessTransitive(keys[Parent(p)], keys[p], keys[k]);
          }
        }
      }
    } else {
      if p >= 1 {
        forall k | 1 <= k < |next| && Parent(k) == p ensures !Less(next[Parent(p)], next[k]) {
          NotLessTransitive(keys[Parent(p)], keys[p], keys[k]);
        }
      }
    }
  }

  /** After the last turn of `SiftUp`'s loop the heap is ordered. */
  lemma UpReadyAtRoot(keys: seq<MemorySegment>)
    requires UpReady(keys, 0)
    ensures Ordered(keys)
  {
  }

  /** The child `SiftDown` swaps with outranks its sibling and the parent it replaces. */
  ghost predicate Dominates(keys: seq<MemorySegment>, i: int, d: int) {
    && 0 <= i < d < |keys| && Parent(d) == i
    && Less(keys[i], keys[d])
    && forall k :: 1 <= k < |keys| && Parent(k) == i ==> !Less(keys[d], keys[k]) || k == d
  }

  /** A swap with the dominating child leaves that child ready for sifting down. */
  lemma SiftDownSwap(keys: seq<MemorySegment>, i: int, d: int)
    requires DownReady(keys, i) && Dominates(keys, i, d) && DistinctLefts(keys)
    ensures DownReady(Swap(keys, i, d), d)
  {
    var next := Swap(keys, i, d);
    LessAsymmetric(keys[i], keys[d]);
    forall k | 1 <= k < |next| && k != d && Parent(k) != d ensures !Less(next[Parent(k)], next[k]) {
      if k == i {
        assert !Less(keys[Parent(i)], keys[d]);
      }
    }
    forall k | 1 <= k < |next| && Parent(k) == d ensures !Less(next[i], next[k]) {
      assert k != i && k != d && k != Parent(k);
    }
  }

  /**
   * Back from sifting down the dominating child `d`, which changed only the
   * subtree of `d`: slot `i` is ready for sifting up, the segment now at `i`
   * does not outrank its parent, and only the subtree of `i` has changed.
   */
  lemma SiftDownReturn(before: seq<MemorySegment>, after: seq<MemorySegment>, i: int, d: int)
    requires DownReady(before, i) && Dominates(before, i, d) && DistinctLefts(before)
    requires |after| == |before|
    requires forall k :: 0 <= k < |after| && !InSubtree(k, d) ==> after[k] == Swap(before, i, d)[k]
    requires UpReady(after, d) && (after[d] == before[i] || !Less(after[i], after[d]))
    ensures UpReady(after, i)
    ensures i >= 1 ==> !Less(after[Parent(i)], after[i])
    ensures forall k :: 0 <= k < |after| && !InSubtree(k, i) ==> after[k] == before[k]
  {
    var swapped := Swap(before, i, d);
    assert InSubtree(d, i);
    forall k | 0 <= k < |after| && !InSubtree(k, i) ensures after[k] == before[k] {
      if InSubtree(k, d) {
        SubtreeOfChild(k, i, d);
      }
    }
    forall k | 0 <= k < |after| && (k == Parent(i) || Parent(k) == i) && k != d
      ensures after[k] == swapped[k]
    {
      if InSubtree(k, d) {
        SubtreeAbove(k, d);
        if k != d {
          SubtreeAbove(Parent(k), d);
        }
      }
    }
    LessAsymmetric(before[i], before[d]);
    if i >= 1 {
      forall k | 1 <= k < |after| && Parent(k) == i ensures !Less(after[Parent(i)], after[k]) {
        if k == d {
          if after[d] == before[i] {
            NotLessTransitive(after[Parent(i)], before[d], before[i]);
          } else {
            NotLessTransitive(after[Parent(i)], before[d], after[d]);
          }
        }
      }
    }
  }

  /** Slot `k` lies in the subtree rooted at slot `root`. */
  ghost predicate InSubtree(k: int, root: int)
    decreases k
  {
    k == root || (k > root >= 0 && InSubtree(Parent(k), root))
  }

  lemma {:induction false} SubtreeAbove(k: int, root: int)
    requires InSubtree(k, root)
    ensures k >= root
    decreases k
  {
    if k != root {
      SubtreeAbove(Parent(k), root);
    }
  }

  /** The subtree of a child lies inside the subtree of its parent. */
  lemma {:induction false} SubtreeOfChild(k: int, i: int, d: int)
    requires 0 <= i < d && Parent(d) == i && InSubtree(k, d)
    ensures InSubtree(k, i)
    decreases k
  {
    if k != d {
      SubtreeOfChild(Parent(k), i, d);
    }
  }

  /** Erasing slot `i` of an ordered heap by moving the last slot there leaves `i` ready for sifting down. */
  lemma EraseReady(keys: seq<MemorySegment>, i: int)
    requires Ordered(keys) && 0 <= i < |keys| - 1
    ensures DownReady(keys[i := keys[|keys| - 1]][..|keys| - 1], i)
  {
    var next := keys[i := keys[|keys| - 1]][..|keys| - 1];
    if i >= 1 {
      forall k | 1 <= k < |next| && Parent(k) == i ensures !Less(next[Parent(i)], next[k]) {
        NotLessTransitive(keys[Parent(i)], keys[i], keys[k]);
      }
    }
  }

  /** No swap: `i` outranks both children, so it is ready for sifting up. */
  lemma SiftDownStop(keys: seq<MemorySegment>, i: int)
    requires DownReady(keys, i)
    requires forall k :: 1 <= k < |keys| && Parent(k) == i ==> !Less(keys[i], keys[k])
    ensures UpReady(keys, i)
  {
  }

  /** The heap slots and node tokens after `Erase(index)` as the source writes it, and where it then sifts. */
  datatype EraseEffect = EraseEffect(elements: seq<Handle>, tokens: map<Handle, int>, siftAt: int)

  /**
   * `Erase(index)` line by line: the erased node's token is cleared, then,
   * whenever the heap has more than one slot, the last slot is copied into
   * `index` and its node told its slot is `index`; the last slot is dropped
   * and both sifts start at `index`. When `index` is the last slot the copy
   * is the erased node itself, so its token is set back to `index`, and the
   * sifts start one past the end of the heap.
   */
  function EraseAsWritten(elements: seq<Handle>, tokens: map<Handle, int>, index: int): (r: EraseEffect)
    requires 0 <= index < |elements|
    ensures |r.elements| == |elements| - 1 && r.siftAt == index
  {
    var last := |elements| - 1;
    var cleared := tokens[elements[index] := NULL_INDEX];
    if last > 0 then EraseEffect(elements[index := elements[last]][..last], cleared[elements[last] := index], index)
    else EraseEffect(elements[..last], cleared, index)
  }

  /**
   * Erasing the last of two or more slots as written leaves the erased node
   * with the token of a slot instead of `NULL_INDEX`, and starts `SiftUp` at
   * a slot past the end that has a parent, so its first comparison reads
   * past the end of the heap.
   */
  lemma EraseLastSlotAsWritten(elements: seq<Handle>, tokens: map<Handle, int>)
    requires |elements| >= 2
    ensures var r := EraseAsWritten(elements, tokens, |elements| - 1);
      && r.tokens[elements[|elements| - 1]] == |elements| - 1 != NULL_INDEX
      && r.siftAt == |r.elements| && r.siftAt >= 1 && 0 <= Parent(r.siftAt) < |r.elements|
  {
  }

  // ---------------------------------------------------------------------------
  // The list in address order, as blocks

  /** One list node seen from outside: its bounds and whether it is free. */
  datatype Block = Block(left: int, right: int, free: bool)

  function Extent(block: Block): MemorySegment {
    MemorySegment(block.left, block.right)
  }

  /** The blocks of the list `order`, free exactly when their handle is in `free`. */
  ghost function View(order: seq<Handle>, segments: map<Handle, MemorySegment>, free: set<Handle>): (r: seq<Block>)
    ensures |r| == |order|
  {
    seq(|order|, i requires 0 <= i < |order| =>
      if order[i] in segments then Block(segments[order[i]].left, segments[order[i]].right, order[i] in free)
      else Block(0, 0, false))
  }


  /** The blocks cover `[left, right)` in address order, contiguously and without empty blocks. */
  ghost predicate Tiles(blocks: seq<Block>, left: int, right: int) {
    && |blocks| >= 1
    && blocks[0].left == left
    && blocks[|blocks| - 1].right == right
    && (forall i :: 0 <= i < |blocks| ==> blocks[i].left < blocks[i].right)
    && (forall i :: 0 <= i < |blocks| - 1 ==> Abut(blocks, i))
  }

  /*
   * `Abut`, `NotBothFree` and `Before` name the facts that `Tiles`,
   * `Coalesced` and `Increasing` quantify over, so that the solver
   * instantiates those quantifiers only where a proof mentions them.
   */

  /** Block `i` ends where block `i + 1` starts. */
  ghost predicate Abut(blocks: seq<Block>, i: int)
    requires 0 <= i < |blocks| - 1
  {
    blocks[i].right == blocks[i + 1].left
  }

  /** Blocks `i` and `i + 1` are not both free. */
  ghost predicate NotBothFree(blocks: seq<Block>, i: int)
    requires 0 <= i < |blocks| - 1
  {
    !(blocks[i].free && blocks[i + 1].free)
  }

  /** Block `a` starts before block `b`. */
  ghost predicate Before(blocks: seq<Block>, a: int, b: int)
    requires 0 <= a < |blocks| && 0 <= b < |blocks|
  {
    blocks[a].left < blocks[b].left
  }

  /** The list tiles the managed cells `[1, memorySize + 1)`. */
  ghost predicate Tiling(blocks: seq<Block>, memorySize: int) {
    Tiles(blocks, 1, memorySize + 1)
  }

  /** No two neighbouring blocks are both free. */
  ghost predicate Coalesced(blocks: seq<Block>) {
    forall i :: 0 <= i < |blocks| - 1 ==> NotBothFree(blocks, i)
  }

  ghost predicate Increasing(blocks: seq<Block>) {
    forall a, b :: 0 <= a < b < |blocks| ==> Before(blocks, a, b)
  }

  lemma {:induction false} TilesGap(blocks: seq<Block>, left: int, right: int, a: int, b: int)
    requires Tiles(blocks, left, right) && 0 <= a < b < |blocks|
    ensures blocks[a].right <= blocks[b].left
    decreases b - a
  {
    assert Abut(blocks, a);
    if a + 1 < b {
      TilesGap(blocks, left, right, a + 1, b);
    }
  }

  /** In a tiling every block starts after the ones before it. */
  lemma TilingIncreasing(blocks: seq<Block>, memorySize: int)
    requires Tiling(blocks, memorySize)
    ensures Increasing(blocks)
  {
    forall a, b | 0 <= a < b < |blocks| ensures Before(blocks, a, b) {
      TilesGap(blocks, 1, memorySize + 1, a, b);
    }
  }

  /** Blocks `lo..hi` of the list replaced by `middle`. */
  function Replace(blocks: seq<Block>, lo: int, hi: int, middle: seq<Block>): (r: seq<Block>)
    requires 0 <= lo <= hi < |blocks|
    ensures |r| == |blocks| - (hi + 1 - lo) + |middle|
  {
    blocks[..lo] + (middle + blocks[hi + 1..])
  }

  lemma ReplaceAt(blocks: seq<Block>, lo: int, hi: int, middle: seq<Block>)
    requires 0 <= lo <= hi < |blocks|
    ensures var r := Replace(blocks, lo, hi, middle);
      forall k :: 0 <= k < |r| ==>
        r[k] == if k < lo then blocks[k] else if k < lo + |middle| then middle[k - lo] else blocks[k - |middle| + (hi + 1 - lo)]
  {
  }

  lemma TilesConcat(first: seq<Block>, second: seq<Block>, left: int, middle: int, right: int)
    requires Tiles(first, left, middle) && Tiles(second, middle, right)
    ensures Tiles(first + second, left, right)
  {
    var r := first + second;
    forall i | 0 <= i < |r| - 1 ensures Abut(r, i) {
      if i + 1 < |first| {
        assert Abut(first, i);
        assert r[i] == first[i] && r[i + 1] == first[i + 1];
      } else if i + 1 == |first| {
        assert r[i] == first[i] && r[i + 1] == second[0];
      } else {
        assert Abut(second, i - |first|);
        assert r[i] == second[i - |first|] && r[i + 1] == second[i + 1 - |first|];
      }
    }
  }

  lemma TilesSlice(blocks: seq<Block>, left: int, right: int, lo: int, hi: int)
    requires Tiles(blocks, left, right) && 0 <= lo < hi <= |blocks|
    ensures Tiles(blocks[lo..hi], blocks[lo].left, blocks[hi - 1].right)
  {
    var r := blocks[lo..hi];
    assert forall i :: 0 <= i < |r| ==> r[i] == blocks[lo + i];
    forall i | 0 <= i < |r| - 1 ensures Abut(r, i) {
      assert Abut(blocks, lo + i);
    }
  }

  /** Replacing blocks by a tiling of the same cells keeps the tiling. */
  lemma ReplaceTiles(blocks: seq<Block>, left: int, right: int, lo: int, hi: int, middle: seq<Block>)
    requires Tiles(blocks, left, right) && 0 <= lo <= hi < |blocks|
    requires Tiles(middle, blocks[lo].left, blocks[hi].right)
    ensures Tiles(Replace(blocks, lo, hi, middle), left, right)
  {
    var before, after := blocks[..lo], blocks[hi + 1..];
    var tail := middle + after;
    if hi + 1 < |blocks| {
      TilesSlice(blocks, left, right, hi + 1, |blocks|);
      assert blocks[hi + 1..|blocks|] == after;
      assert Abut(blocks, hi);
      TilesConcat(middle, after, blocks[lo].left, blocks[hi].right, right);
    } else {
      assert tail == middle;
    }
    assert Tiles(tail, blocks[lo].left, right);
    if lo > 0 {
      TilesSlice(blocks, left, right, 0, lo);
      assert blocks[0..lo] == before;
      assert Abut(blocks, lo - 1);
      TilesConcat(before, tail, left, blocks[lo].left, right);
    } else {
      assert before + tail == tail;
    }
    assert before + tail == Replace(blocks, lo, hi, middle);
  }

  /**
   * Replacing blocks by coalesced ones keeps the list coalesced when each end
   * of `middle` that meets a free neighbour is allocated.
   */
  lemma ReplaceCoalesced(blocks: seq<Block>, lo: int, hi: int, middle: seq<Block>)
    requires Coalesced(blocks) && 0 <= lo <= hi < |blocks| && Coalesced(middle) && |middle| >= 1
    requires lo > 0 && blocks[lo - 1].free ==> !middle[0].free
    requires hi + 1 < |blocks| && blocks[hi + 1].free ==> !middle[|middle| - 1].free
    ensures Coalesced(Replace(blocks, lo, hi, middle))
  {
    var r := Replace(blocks, lo, hi, middle);
    var shift := |middle| - (hi + 1 - lo);
    ReplaceAt(blocks, lo, hi, middle);
    forall i | 0 <= i < |r| - 1 ensures NotBothFree(r, i) {
      if i >= lo + |middle| {
        assert NotBothFree(blocks, i - shift);
        assert r[i] == blocks[i - shift] && r[i + 1] == blocks[i + 1 - shift];
      } else if i + 1 == lo + |middle| {
        assert r[i] == middle[|middle| - 1] && r[i + 1] == blocks[hi + 1];
      } else if i >= lo {
        assert NotBothFree(middle, i - lo);
        assert r[i] == middle[i - lo] && r[i + 1] == middle[i + 1 - lo];
      } else if i + 1 == lo {
        assert r[i + 1] == middle[0];
      } else {
        assert NotBothFree(blocks, i);
      }
    }
  }

  /** Block `b` is free and outranks every other free block: the one `top()` names. */
  ghost predicate IsBest(blocks: seq<Block>, b: int) {
    && 0 <= b < |blocks| && blocks[b].free
    && forall i :: 0 <= i < |blocks| && blocks[i].free && i != b ==> !Less(Extent(blocks[b]), Extent(blocks[i]))
  }

  /** The longest free block, the leftmost among equal lengths, or -1 when no block is free. */
  function BestFree(blocks: seq<Block>): (b: int)
    requires Increasing(blocks)
    ensures -1 <= b < |blocks|
    ensures b == -1 ==> forall i :: 0 <= i < |blocks| ==> !blocks[i].free
    ensures b >= 0 ==> IsBest(blocks, b)
    decreases |blocks|
  {
    if |blocks| == 0 then -1
    else
      var last := |blocks| - 1;
      assert forall a, b :: 0 <= a < b < last ==> Before(blocks, a, b) && Before(blocks[..last], a, b) == Before(blocks, a, b);
      var b := BestFree(blocks[..last]);
      assert b != -1 ==> Before(blocks, b, last);
      if blocks[last].free && (b == -1 || Less(Extent(blocks[b]), Extent(blocks[last]))) then
        assert forall i :: 0 <= i < last && blocks[i].free && b != -1 ==>
          !Less(Extent(blocks[last]), Extent(blocks[b])) && (i == b || !Less(Extent(blocks[b]), Extent(blocks[i])));
        last
      else
        b
  }

  /** At most one block is best. */
  lemma BestUnique(blocks: seq<Block>, x: int, y: int)
    requires Increasing(blocks) && IsBest(blocks, x) && IsBest(blocks, y)
    ensures x == y
  {
    var first, second := if x < y then x else y, if x < y then y else x;
    assert Before(blocks, first, second) || first == second;
  }

  /** The blocks a successful allocation of `size` cells leaves in place of `block`: `[L, L + size)`, then the free rest. */
  function CarvedBlocks(block: Block, size: int): seq<Block> {
    [Block(block.left, block.left + size, false)]
    + (if Size(Extent(block)) != size then [Block(block.left + size, block.right, true)] else [])
  }

  /** The outcome of an allocation on blocks: where it starts, when it succeeded, and the blocks afterwards. */
  datatype Allocation = Allocation(success: bool, position: int, blocks: seq<Block>)

  /** What `Allocate(size)` does to the blocks. */
  function AllocateSpec(blocks: seq<Block>, size: int): (r: Allocation)
    requires Increasing(blocks)
    ensures !r.success ==> r.blocks == blocks
    ensures r.success ==> exists b :: (IsBest(blocks, b) && r.position == blocks[b].left
      && Size(Extent(blocks[b])) >= size && r.blocks == Replace(blocks, b, b, CarvedBlocks(blocks[b], size)))
  {
    var b := BestFree(blocks);
    if b == -1 || Size(Extent(blocks[b])) < size then Allocation(false, 0, blocks)
    else Allocation(true, blocks[b].left, Replace(blocks, b, b, CarvedBlocks(blocks[b], size)))
  }

  /** What `Free` does to the allocated block `i`: one free block covering it and its free neighbours. */
  function FreeSpec(blocks: seq<Block>, i: int): (r: seq<Block>)
    requires 0 <= i < |blocks|
  {
    var lo := if i > 0 && blocks[i - 1].free then i - 1 else i;
    var hi := if i + 1 < |blocks| && blocks[i + 1].free then i + 1 else i;
    Replace(blocks, lo, hi, [Block(blocks[lo].left, blocks[hi].right, true)])
  }

  /** Carving a free block keeps the tiling of memory and leaves no two free blocks adjacent. */
  lemma CarveKeepsLayout(blocks: seq<Block>, memorySize: int, b: int, size: int)
    requires Tiling(blocks, memorySize) && Coalesced(blocks) && 0 <= b < |blocks| && blocks[b].free
    requires 1 <= size <= Size(Extent(blocks[b]))
    ensures var r := Replace(blocks, b, b, CarvedBlocks(blocks[b], size));
      Tiling(r, memorySize) && Coalesced(r) && Increasing(r)
  {
    var middle := CarvedBlocks(blocks[b], size);
    assert |middle| == 2 ==> Abut(middle, 0) && NotBothFree(middle, 0);
    ReplaceTiles(blocks, 1, memorySize + 1, b, b, middle);
    assert b + 1 < |blocks| ==> NotBothFree(blocks, b);
    ReplaceCoalesced(blocks, b, b, middle);
    TilingIncreasing(Replace(blocks, b, b, middle), memorySize);
  }

  /** `Allocate` keeps the tiling of memory and leaves no two free blocks adjacent. */
  lemma AllocateKeepsLayout(blocks: seq<Block>, memorySize: int, size: int)
    requires Tiling(blocks, memorySize) && Coalesced(blocks) && Increasing(blocks) && size >= 1
    ensures Tiling(AllocateSpec(blocks, size).blocks, memorySize) && Coalesced(AllocateSpec(blocks, size).blocks)
  {
    var b := BestFree(blocks);
    if b != -1 && Size(Extent(blocks[b])) >= size {
      CarveKeepsLayout(blocks, memorySize, b, size);
    }
  }

  /** `Allocate(size)` fails exactly when no free block has `size` cells. */
  lemma AllocateFailsIffNoFit(blocks: seq<Block>, size: int)
    requires Increasing(blocks)
    ensures !AllocateSpec(blocks, size).success <==>
      forall i :: 0 <= i < |blocks| && blocks[i].free ==> Size(Extent(blocks[i])) < size
  {
    var b := BestFree(blocks);
    if b != -1 {
      forall i | 0 <= i < |blocks| && blocks[i].free ensures Size(Extent(blocks[i])) <= Size(Extent(blocks[b])) {
      }
    }
  }

  /** Freeing keeps the tiling of memory and leaves no two free blocks adjacent. */
  lemma FreeKeepsLayout(blocks: seq<Block>, memorySize: int, i: int)
    requires Tiling(blocks, memorySize) && Coalesced(blocks) && 0 <= i < |blocks| && !blocks[i].free
    ensures Tiling(FreeSpec(blocks, i), memorySize) && Coalesced(FreeSpec(blocks, i))
  {
    var lo := if i > 0 && blocks[i - 1].free then i - 1 else i;
    var hi := if i + 1 < |blocks| && blocks[i + 1].free then i + 1 else i;
    var middle := [Block(blocks[lo].left, blocks[hi].right, true)];
    if lo < hi {
      TilesGap(blocks, 1, memorySize + 1, lo, hi);
    }
    ReplaceTiles(blocks, 1, memorySize + 1, lo, hi, middle);
    assert lo > 0 ==> NotBothFree(blocks, lo - 1);
    assert hi + 1 < |blocks| ==> NotBothFree(blocks, hi);
    ReplaceCoalesced(blocks, lo, hi, middle);
  }

  /** Freeing a block just carved from a free block with allocated neighbours restores the list. */
  lemma CarveThenFree(blocks: seq<Block>, b: int, size: int)
    requires 0 <= b < |blocks| && blocks[b].free && 1 <= size <= Size(Extent(blocks[b]))
    requires b > 0 ==> !blocks[b - 1].free
    requires b + 1 < |blocks| ==> !blocks[b + 1].free
    ensures FreeSpec(Replace(blocks, b, b, CarvedBlocks(blocks[b], size)), b) == blocks
  {
    if size == Size(Extent(blocks[b])) {
      CarveWholeThenFree(blocks, b, size);
    } else {
      CarvePartThenFree(blocks, b, size);
    }
  }

  /** `CarveThenFree` when the whole block was allocated: `Free` marks it free again. */
  lemma CarveWholeThenFree(blocks: seq<Block>, b: int, size: int)
    requires 0 <= b < |blocks| && blocks[b].free && 1 <= size == Size(Extent(blocks[b]))
    requires b > 0 ==> !blocks[b - 1].free
    requires b + 1 < |blocks| ==> !blocks[b + 1].free
    ensures FreeSpec(Replace(blocks, b, b, CarvedBlocks(blocks[b], size)), b) == blocks
  {
    var middle := [Block(blocks[b].left, blocks[b].left + size, false)];
    assert CarvedBlocks(blocks[b], size) == middle;
    var r := Replace(blocks, b, b, middle);
    ReplaceAt(blocks, b, b, middle);
    var back := FreeSpec(r, b);
    assert back == Replace(r, b, b, [Block(blocks[b].left, blocks[b].right, true)]);
    ReplaceAt(r, b, b, [Block(blocks[b].left, blocks[b].right, true)]);
    forall k | 0 <= k < |blocks| ensures back[k] == blocks[k] {
    }
  }

  /** `CarveThenFree` when a free rest was left: `Free` merges the two halves again. */
  lemma CarvePartThenFree(blocks: seq<Block>, b: int, size: int)
    requires 0 <= b < |blocks| && blocks[b].free && 1 <= size < Size(Extent(blocks[b]))
    requires b > 0 ==> !blocks[b - 1].free
    requires b + 1 < |blocks| ==> !blocks[b + 1].free
    ensures FreeSpec(Replace(blocks, b, b, CarvedBlocks(blocks[b], size)), b) == blocks
  {
    var middle := [Block(blocks[b].left, blocks[b].left + size, false), Block(blocks[b].left + size, blocks[b].right, true)];
    assert CarvedBlocks(blocks[b], size) == middle;
    var r := Replace(blocks, b, b, middle);
    ReplaceAt(blocks, b, b, middle);
    var back := FreeSpec(r, b);
    assert back == Replace(r, b, b + 1, [Block(blocks[b].left, blocks[b].right, true)]);
    ReplaceAt(r, b, b + 1, [Block(blocks[b].left, blocks[b].right, true)]);
    forall k | 0 <= k < |blocks| ensures back[k] == blocks[k] {
      if k > b {
        assert back[k] == r[k + 1];
      }
    }
  }

  /** Freeing what `Allocate` just handed out restores the blocks as they were. */
  lemma FreeAfterAllocate(blocks: seq<Block>, memorySize: int, size: int)
    requires Tiling(blocks, memorySize) && Coalesced(blocks) && Increasing(blocks) && size >= 1
    requires AllocateSpec(blocks, size).success
    ensures FreeSpec(AllocateSpec(blocks, size).blocks, BestFree(blocks)) == blocks
  {
    var b := BestFree(blocks);
    assert b > 0 ==> NotBothFree(blocks, b - 1);
    assert b + 1 < |blocks| ==> NotBothFree(blocks, b);
    CarveThenFree(blocks, b, size);
  }

  /** A coalesced tiling whose blocks are all free is one free block over the whole of memory. */
  lemma AllFreeIsWhole(blocks: seq<Block>, memorySize: int)
    requires Tiling(blocks, memorySize) && Coalesced(blocks)
    requires forall i :: 0 <= i < |blocks| ==> blocks[i].free
    ensures blocks == [Block(1, memorySize + 1, true)]
  {
    if |blocks| > 1 {
      FreePairNotCoalesced(blocks);
      assert false;
    }
  }

  lemma FreePairNotCoalesced(blocks: seq<Block>)
    requires |blocks| > 1 && blocks[0].free && blocks[1].free
    ensures !Coalesced(blocks)
  {
    assert !NotBothFree(blocks, 0);
  }

  /** The number of free cells. */
  function FreeCells(blocks: seq<Block>): (cells: int)
    ensures |blocks| == 0 ==> cells == 0
    decreases |blocks|
  {
    if |blocks| == 0 then 0
    else FreeCells(blocks[..|blocks| - 1]) + (if blocks[|blocks| - 1].free then Size(Extent(blocks[|blocks| - 1])) else 0)
  }

  lemma {:induction false} FreeCellsAppend(a: seq<Block>, b: seq<Block>)
    ensures FreeCells(a + b) == FreeCells(a) + FreeCells(b)
    decreases |b|
  {
    if |b| > 0 {
      assert (a + b)[..|a + b| - 1] == a + b[..|b| - 1];
      FreeCellsAppend(a, b[..|b| - 1]);
    } else {
      assert a + b == a;
    }
  }

  /** Replacing blocks changes the free cells by the difference between old and new blocks. */
  lemma FreeCellsReplace(blocks: seq<Block>, lo: int, hi: int, middle: seq<Block>)
    requires 0 <= lo <= hi < |blocks|
    ensures FreeCells(Replace(blocks, lo, hi, middle)) == FreeCells(blocks) - FreeCells(blocks[lo..hi + 1]) + FreeCells(middle)
  {
    assert blocks == blocks[..lo] + blocks[lo..hi + 1] + blocks[hi + 1..];
    FreeCellsAppend(blocks[..lo] + blocks[lo..hi + 1], blocks[hi + 1..]);
    FreeCellsAppend(blocks[..lo], blocks[lo..hi + 1]);
    FreeCellsAppend(blocks[..lo], middle + blocks[hi + 1..]);
    FreeCellsAppend(middle, blocks[hi + 1..]);
  }

  lemma FreeCellsOne(block: Block)
    ensures FreeCells([block]) == if block.free then Size(Extent(block)) else 0
  {
    assert [block][..0] == [];
  }

  lemma FreeCellsTwo(first: Block, second: Block)
    ensures FreeCells([first, second]) == FreeCells([first]) + FreeCells([second])
  {
    FreeCellsAppend([first], [second]);
    assert [first] + [second] == [first, second];
  }

  /** Carving `size` cells from a free block takes `size` free cells. */
  lemma CarveCells(blocks: seq<Block>, b: int, size: int)
    requires 0 <= b < |blocks| && blocks[b].free && size <= Size(Extent(blocks[b]))
    ensures FreeCells(Replace(blocks, b, b, CarvedBlocks(blocks[b], size))) == FreeCells(blocks) - size
  {
    var block := blocks[b];
    FreeCellsReplace(blocks, b, b, CarvedBlocks(block, size));
    assert blocks[b..b + 1] == [block];
    FreeCellsOne(block);
    FreeCellsOne(Block(block.left, block.left + size, false));
    if Size(Extent(block)) != size {
      FreeCellsTwo(Block(block.left, block.left + size, false), Block(block.left + size, block.right, true));
      FreeCellsOne(Block(block.left + size, block.right, true));
    }
  }

  /** A successful `Allocate(size)` takes exactly `size` free cells. */
  lemma AllocateUsesCells(blocks: seq<Block>, size: int)
    requires Increasing(blocks) && AllocateSpec(blocks, size).success
    ensures FreeCells(AllocateSpec(blocks, size).blocks) == FreeCells(blocks) - size
  {
    CarveCells(blocks, BestFree(blocks), size);
  }

  lemma FreeCellsAt(blocks: seq<Block>, lo: int, hi: int)
    requires 0 <= lo <= hi <= |blocks| && hi <= lo + 1
    ensures FreeCells(blocks[lo..hi]) == if lo < hi && blocks[lo].free then Size(Extent(blocks[lo])) else 0
  {
    if lo < hi {
      assert blocks[lo..hi] == [blocks[lo]];
      FreeCellsOne(blocks[lo]);
    }
  }

  /** The cells of the free neighbours `lo..hi` that `Free` merges with the allocated block `i`. */
  lemma FreeCellsAround(blocks: seq<Block>, i: int, lo: int, hi: int)
    requires 0 <= i < |blocks| && !blocks[i].free
    requires i > 0 ==> blocks[i - 1].right == blocks[i].left
    requires i + 1 < |blocks| ==> blocks[i].right == blocks[i + 1].left
    requires lo == if i > 0 && blocks[i - 1].free then i - 1 else i
    requires hi == if i + 1 < |blocks| && blocks[i + 1].free then i + 1 else i
    ensures FreeCells(blocks[lo..hi + 1]) + Size(Extent(blocks[i])) == blocks[hi].right - blocks[lo].left
  {
    FreeCellsSkip(blocks, lo, i, hi);
    FreeCellsAt(blocks, lo, i);
    FreeCellsAt(blocks, i + 1, hi + 1);
  }

  /** An allocated block `i` adds no free cells to a run around it. */
  lemma FreeCellsSkip(blocks: seq<Block>, lo: int, i: int, hi: int)
    requires 0 <= lo <= i <= hi < |blocks| && !blocks[i].free
    ensures FreeCells(blocks[lo..hi + 1]) == FreeCells(blocks[lo..i]) + FreeCells(blocks[i + 1..hi + 1])
  {
    assert blocks[lo..hi + 1] == blocks[lo..i] + blocks[i..i + 1] + blocks[i + 1..hi + 1];
    FreeCellsAppend(blocks[lo..i] + blocks[i..i + 1], blocks[i + 1..hi + 1]);
    FreeCellsAppend(blocks[lo..i], blocks[i..i + 1]);
    FreeCellsAt(blocks, i, i + 1);
  }

  /** In a tiling a block starts where its left neighbour ends and ends where its right neighbour starts. */
  lemma Neighbours(blocks: seq<Block>, memorySize: int, i: int)
    requires Tiling(blocks, memorySize) && 0 <= i < |blocks|
    ensures i > 0 ==> blocks[i - 1].right == blocks[i].left
    ensures i + 1 < |blocks| ==> blocks[i].right == blocks[i + 1].left
  {
    assert i > 0 ==> Abut(blocks, i - 1);
    assert i + 1 < |blocks| ==> Abut(blocks, i);
  }

  /** `Free` returns exactly the cells of the freed block to the free pool. */
  lemma FreeReturnsCells(blocks: seq<Block>, memorySize: int, i: int)
    requires Tiling(blocks, memorySize) && 0 <= i < |blocks| && !blocks[i].free
    ensures FreeCells(FreeSpec(blocks, i)) == FreeCells(blocks) + Size(Extent(blocks[i]))
  {
    Neighbours(blocks, memorySize, i);
    var lo := if i > 0 && blocks[i - 1].free then i - 1 else i;
    var hi := if i + 1 < |blocks| && blocks[i + 1].free then i + 1 else i;
    FreeSpecCells(blocks, i, lo, hi);
    FreeCellsAround(blocks, i, lo, hi);
  }

  /** The free cells after `Free`: those of the merged run `lo..hi` are replaced by the cells it spans. */
  lemma FreeSpecCells(blocks: seq<Block>, i: int, lo: int, hi: int)
    requires 0 <= i < |blocks|
    requires lo == if i > 0 && blocks[i - 1].free then i - 1 else i
    requires hi == if i + 1 < |blocks| && blocks[i + 1].free then i + 1 else i
    ensures FreeCells(FreeSpec(blocks, i)) == FreeCells(blocks) - FreeCells(blocks[lo..hi + 1]) + (blocks[hi].right - blocks[lo].left)
  {
    var merged := Block(blocks[lo].left, blocks[hi].right, true);
    FreeCellsReplace(blocks, lo, hi, [merged]);
    FreeCellsOne(merged);
  }

  /**
   * `AppendIfFree` on blocks: when the neighbour `j` of the allocated block
   * `i` is free, the two become one allocated block covering both.
   */
  function Absorb(blocks: seq<Block>, i: int, j: int): (r: seq<Block>)
    requires 0 <= i < |blocks| && 0 <= j < |blocks| && (j == i + 1 || j == i - 1)
  {
    if !blocks[j].free then blocks
    else
      var lo := if j < i then j else i;
      var united := Unite(Extent(blocks[i]), Extent(blocks[j]));
      Replace(blocks, lo, lo + 1, [Block(united.left, united.right, false)])
  }

  /**
   * Absorbing a free neighbour of an allocated block keeps the tiling and
   * leaves no two free blocks adjacent; the two blocks become one allocated
   * block covering both.
   */
  lemma AbsorbKeepsLayout(blocks: seq<Block>, memorySize: int, i: int, j: int)
    requires Tiling(blocks, memorySize) && Coalesced(blocks)
    requires 0 <= i < |blocks| && 0 <= j < |blocks| && (j == i + 1 || j == i - 1) && !blocks[i].free
    ensures Tiling(Absorb(blocks, i, j), memorySize) && Coalesced(Absorb(blocks, i, j)) && Increasing(Absorb(blocks, i, j))
    ensures blocks[j].free ==> var lo := if j < i then j else i;
      Absorb(blocks, i, j) == blocks[..lo] + [Block(blocks[lo].left, blocks[lo + 1].right, false)] + blocks[lo + 2..]
  {
    if blocks[j].free {
      var lo := if j < i then j else i;
      AbsorbFreeLayout(blocks, memorySize, i, j, lo);
    } else {
      assert Absorb(blocks, i, j) == blocks;
      TilingIncreasing(blocks, memorySize);
    }
  }

  /** `AbsorbKeepsLayout` when the neighbour is free. */
  lemma AbsorbFreeLayout(blocks: seq<Block>, memorySize: int, i: int, j: int, lo: int)
    requires Tiling(blocks, memorySize) && Coalesced(blocks)
    requires 0 <= i < |blocks| && 0 <= j < |blocks| && (j == i + 1 || j == i - 1) && blocks[j].free
    requires lo == if j < i then j else i
    ensures var r := Absorb(blocks, i, j);
      Tiling(r, memorySize) && Coalesced(r) && Increasing(r) &&
      r == blocks[..lo] + [Block(blocks[lo].left, blocks[lo + 1].right, false)] + blocks[lo + 2..]
  {
    AbsorbMerges(blocks, memorySize, i, j, lo);
    MergeKeepsLayout(blocks, memorySize, lo);
  }

  /** `Absorb` of a free neighbour replaces the pair `lo, lo + 1` by one allocated block covering both. */
  lemma AbsorbMerges(blocks: seq<Block>, memorySize: int, i: int, j: int, lo: int)
    requires Tiling(blocks, memorySize)
    requires 0 <= i < |blocks| && 0 <= j < |blocks| && (j == i + 1 || j == i - 1) && blocks[j].free
    requires lo == if j < i then j else i
    ensures var middle := [Block(blocks[lo].left, blocks[lo + 1].right, false)];
      Absorb(blocks, i, j) == Replace(blocks, lo, lo + 1, middle) &&
      Absorb(blocks, i, j) == blocks[..lo] + middle + blocks[lo + 2..]
  {
    assert Abut(blocks, lo);
    var middle := [Block(blocks[lo].left, blocks[lo + 1].right, false)];
    assert blocks[..lo] + (middle + blocks[lo + 2..]) == blocks[..lo] + middle + blocks[lo + 2..];
  }

  /** Merging the touching blocks `lo` and `lo + 1` into one allocated block keeps the layout. */
  lemma MergeKeepsLayout(blocks: seq<Block>, memorySize: int, lo: int)
    requires Tiling(blocks, memorySize) && Coalesced(blocks) && 0 <= lo < |blocks| - 1
    ensures var r := Replace(blocks, lo, lo + 1, [Block(blocks[lo].left, blocks[lo + 1].right, false)]);
      Tiling(r, memorySize) && Coalesced(r) && Increasing(r)
  {
    var middle := [Block(blocks[lo].left, blocks[lo + 1].right, false)];
    assert Abut(blocks, lo);
    ReplaceTiles(blocks, 1, memorySize + 1, lo, lo + 1, middle);
    ReplaceCoalesced(blocks, lo, lo + 1, middle);
    TilingIncreasing(Replace(blocks, lo, lo + 1, middle), memorySize);
  }

  /** `Absorb` of a free neighbour: the two blocks become one allocated block covering both. */
  lemma AbsorbShape(blocks: seq<Block>, i: int, j: int)
    requires 0 <= i < |blocks| && 0 <= j < |blocks| && (j == i + 1 || j == i - 1)
    requires var lo := if j < i then j else i;
      blocks[lo].left < blocks[lo].right == blocks[lo + 1].left < blocks[lo + 1].right
    ensures var lo := if j < i then j else i;
      Absorb(blocks, i, j) ==
        if blocks[j].free then blocks[..lo] + [Block(blocks[lo].left, blocks[lo + 1].right, false)] + blocks[lo + 2..]
        else blocks
  {
  }

  /** The first step of `Free` on blocks: block `i` absorbs its right neighbour when that is free. */
  lemma AbsorbRight(blocks: seq<Block>, i: int)
    requires 0 <= i < |blocks| && !blocks[i].free && blocks[i].left < blocks[i].right
    requires i + 1 < |blocks| ==> blocks[i].right == blocks[i + 1].left < blocks[i + 1].right
    ensures var hi := if i + 1 < |blocks| && blocks[i + 1].free then i + 1 else i;
      (if i + 1 < |blocks| then Absorb(blocks, i, i + 1) else blocks)
        == blocks[..i] + [Block(blocks[i].left, blocks[hi].right, false)] + blocks[hi + 1..]
  {
    if i + 1 < |blocks| {
      AbsorbShape(blocks, i, i + 1);
    }
    assert blocks == blocks[..i] + [blocks[i]] + blocks[i + 1..];
  }

  /** The second step of `Free` on blocks: the result of the first absorbs the left neighbour when that is free. */
  lemma AbsorbLeft(blocks: seq<Block>, i: int, r1: seq<Block>)
    requires 0 <= i < |blocks| && blocks[i].left < blocks[i].right
    requires i > 0 ==> blocks[i - 1].left < blocks[i - 1].right == blocks[i].left
    requires var hi := if i + 1 < |blocks| && blocks[i + 1].free then i + 1 else i;
      blocks[i].right <= blocks[hi].right && r1 == blocks[..i] + [Block(blocks[i].left, blocks[hi].right, false)] + blocks[hi + 1..]
    ensures i < |r1| && (i > 0 ==> r1[i - 1] == blocks[i - 1])
    ensures var lo := if i > 0 && blocks[i - 1].free then i - 1 else i;
      var hi := if i + 1 < |blocks| && blocks[i + 1].free then i + 1 else i;
      (if i > 0 then Absorb(r1, i, i - 1) else r1)
        == blocks[..lo] + [Block(blocks[lo].left, blocks[hi].right, false)] + blocks[hi + 1..]
  {
    var hi := if i + 1 < |blocks| && blocks[i + 1].free then i + 1 else i;
    assert r1[i] == Block(blocks[i].left, blocks[hi].right, false);
    if i > 0 {
      assert r1[i - 1] == blocks[i - 1];
      AbsorbShape(r1, i, i - 1);
      if blocks[i - 1].free {
        assert r1[..i - 1] == blocks[..i - 1];
        assert r1[i + 1..] == blocks[hi + 1..];
      }
    }
  }

  /** The last step of `Free` on blocks: the merged block is marked free, as `FreeSpec` has it. */
  lemma MarkMerged(blocks: seq<Block>, i: int, r2: seq<Block>)
    requires 0 <= i < |blocks|
    requires var lo := if i > 0 && blocks[i - 1].free then i - 1 else i;
      var hi := if i + 1 < |blocks| && blocks[i + 1].free then i + 1 else i;
      r2 == blocks[..lo] + [Block(blocks[lo].left, blocks[hi].right, false)] + blocks[hi + 1..]
    ensures var lo := if i > 0 && blocks[i - 1].free then i - 1 else i;
      0 <= lo < |r2| && r2[lo := Block(r2[lo].left, r2[lo].right, true)] == FreeSpec(blocks, i)
  {
    var lo := if i > 0 && blocks[i - 1].free then i - 1 else i;
    var hi := if i + 1 < |blocks| && blocks[i + 1].free then i + 1 else i;
    var freed := Block(blocks[lo].left, blocks[hi].right, true);
    assert r2[lo := freed] == blocks[..lo] + ([freed] + blocks[hi + 1..]);
  }

  /**
   * `Free` on blocks: absorbing the right neighbour, then the left one, and
   * marking the result free frees block `i` as `FreeSpec` does.
   */
  lemma FreeByAbsorbing(blocks: seq<Block>, memorySize: int, i: int)
    requires Tiling(blocks, memorySize) && 0 <= i < |blocks| && !blocks[i].free
    ensures var r1 := if i + 1 < |blocks| then Absorb(blocks, i, i + 1) else blocks;
      && i < |r1| && (i > 0 ==> r1[i - 1] == blocks[i - 1])
      && var r2 := if i > 0 then Absorb(r1, i, i - 1) else r1;
      && var k := if i > 0 && blocks[i - 1].free then i - 1 else i;
      && 0 <= k < |r2| && r2[k := Block(r2[k].left, r2[k].right, true)] == FreeSpec(blocks, i)
  {
    assert i > 0 ==> Abut(blocks, i - 1);
    assert i + 1 < |blocks| ==> Abut(blocks, i);
    AbsorbRight(blocks, i);
    var r1 := if i + 1 < |blocks| then Absorb(blocks, i, i + 1) else blocks;
    AbsorbLeft(blocks, i, r1);
    MarkMerged(blocks, i, if i > 0 then Absorb(r1, i, i - 1) else r1);
  }

  /** No two handles of `handles` name segments that start at the same cell. */
  ghost predicate DistinctOn(handles: set<Handle>, segments: map<Handle, MemorySegment>) {
    forall g, h :: g in handles && h in handles && g != h ==> LeftsApart(segments, g, h)
  }

  /** The segments of `g` and `h`, when both exist, start at different cells. */
  ghost predicate LeftsApart(segments: map<Handle, MemorySegment>, g: Handle, h: Handle) {
    g in segments && h in segments ==> segments[g].left != segments[h].left
  }

  lemma DistinctOnSubset(smaller: set<Handle>, larger: set<Handle>, segments: map<Handle, MemorySegment>)
    requires smaller <= larger && DistinctOn(larger, segments)
    ensures DistinctOn(smaller, segments)
  {
  }

  lemma DistinctOnAdd(handles: set<Handle>, handle: Handle, segments: map<Handle, MemorySegment>)
    requires DistinctOn(handles, segments) && handle in segments
    requires forall g :: g in handles && g != handle ==> LeftsApart(segments, g, handle)
    ensures DistinctOn(handles + {handle}, segments)
  {
    forall g, h | g in handles + {handle} && h in handles + {handle} && g != h ensures LeftsApart(segments, g, h) {
      if h == handle {
      } else if g == handle {
        assert LeftsApart(segments, h, g);
      }
    }
  }

  /** No handle occurs twice in the list. */
  ghost predicate Distinct(order: seq<Handle>) {
    forall i, j :: 0 <= i < j < |order| ==> Apart(order, i, j)
  }

  /**
   * Positions `i` and `j` hold different handles. Stating `Distinct` through
   * it keeps the solver from comparing every pair of positions it meets.
   */
  ghost predicate Apart(order: seq<Handle>, i: int, j: int)
    requires 0 <= i < |order| && 0 <= j < |order|
  {
    order[i] != order[j]
  }

  /** The position of a list node: what an iterator denotes. */
  function IndexOf(order: seq<Handle>, h: Handle): (i: int)
    requires h in order
    ensures 0 <= i < |order| && order[i] == h
  {
    if order[0] == h then 0 else 1 + IndexOf(order[1..], h)
  }

  lemma {:induction false} IndexOfUnique(order: seq<Handle>, h: Handle, i: int)
    requires Distinct(order) && 0 <= i < |order| && order[i] == h
    ensures IndexOf(order, h) == i
  {
    if i > 0 {
      DistinctAt(order, 0, i);
      var tail := order[1..];
      forall a, b | 0 <= a < b < |tail| ensures Apart(tail, a, b) {
        assert Apart(order, a + 1, b + 1);
      }
      IndexOfUnique(tail, h, i - 1);
    }
  }

  /** Different positions of a list without repeats hold different handles. */
  lemma DistinctAt(order: seq<Handle>, i: int, j: int)
    requires Distinct(order) && 0 <= i < |order| && 0 <= j < |order| && i != j
    ensures order[i] != order[j]
  {
    if i < j {
      assert Apart(order, i, j);
    } else {
      assert Apart(order, j, i);
    }
  }

  /** Erasing position `p` of the list moves the later handles one position forward. */
  lemma IndexOfRemoved(order: seq<Handle>, p: int, i: int)
    requires 0 <= p < |order| && 0 <= i < |order| && i != p && Distinct(order[..p] + order[p + 1..])
    ensures var o := order[..p] + order[p + 1..];
      order[i] in o && IndexOf(o, order[i]) == if p < i then i - 1 else i
  {
    var o := order[..p] + order[p + 1..];
    var q := if p < i then i - 1 else i;
    assert o[q] == order[i];
    IndexOfUnique(o, order[i], q);
  }

  /** Every handle of the list has a segment. */
  ghost predicate Covered(order: seq<Handle>, segments: map<Handle, MemorySegment>) {
    forall i :: 0 <= i < |order| ==> order[i] in segments
  }

  /** Inserting a node before position `p` inserts its block there. */
  lemma ViewInsert(order: seq<Handle>, segments: map<Handle, MemorySegment>, free: set<Handle>,
                   p: int, h: Handle, segment: MemorySegment)
    requires 0 <= p <= |order| && h !in segments && Covered(order, segments)
    ensures View(order[..p] + [h] + order[p..], segments[h := segment], free) ==
      View(order, segments, free)[..p] + [Block(segment.left, segment.right, h in free)] + View(order, segments, free)[p..]
  {
    var o := order[..p] + [h] + order[p..];
    var s := segments[h := segment];
    var v := View(order, segments, free);
    var r := v[..p] + [Block(segment.left, segment.right, h in free)] + v[p..];
    forall k | 0 <= k < |o| ensures View(o, s, free)[k] == r[k] {
      if k < p {
        assert o[k] == order[k] && order[k] != h;
      } else if k > p {
        assert o[k] == order[k - 1] && order[k - 1] != h;
      }
    }
  }

  /** Erasing the node at position `p` erases its block. */
  lemma ViewRemove(order: seq<Handle>, segments: map<Handle, MemorySegment>, free: set<Handle>, p: int)
    requires 0 <= p < |order| && Distinct(order) && Covered(order, segments)
    ensures View(order[..p] + order[p + 1..], segments - {order[p]}, free) ==
      View(order, segments, free)[..p] + View(order, segments, free)[p + 1..]
  {
    var o := order[..p] + order[p + 1..];
    var s := segments - {order[p]};
    var v := View(order, segments, free);
    forall k | 0 <= k < |o| ensures View(o, s, free)[k] == (v[..p] + v[p + 1..])[k] {
      if k < p {
        DistinctAt(order, k, p);
        assert o[k] == order[k];
      } else {
        DistinctAt(order, k + 1, p);
        assert o[k] == order[k + 1];
      }
    }
  }

  /** Changing the segment of one node changes its block only. */
  lemma ViewSet(order: seq<Handle>, segments: map<Handle, MemorySegment>, free: set<Handle>,
                h: Handle, segment: MemorySegment)
    requires h in order && Distinct(order) && Covered(order, segments)
    ensures View(order, segments[h := segment], free) ==
      View(order, segments, free)[IndexOf(order, h) := Block(segment.left, segment.right, h in free)]
  {
    var p := IndexOf(order, h);
    forall k | 0 <= k < |order| && k != p ensures order[k] != h {
      DistinctAt(order, k, p);
    }
  }

  /** Moving one node into or out of the heap changes the flag of its block only. */
  lemma ViewMark(order: seq<Handle>, segments: map<Handle, MemorySegment>, free: set<Handle>,
                 free': set<Handle>, h: Handle)
    requires h in order && Distinct(order) && Covered(order, segments) && free' - {h} == free - {h}
    ensures View(order, segments, free') ==
      View(order, segments, free)[IndexOf(order, h) := Block(segments[h].left, segments[h].right, h in free')]
  {
    var p := IndexOf(order, h);
    forall k | 0 <= k < |order| && k != p ensures (order[k] in free' <==> order[k] in free) {
      DistinctAt(order, k, p);
      assert order[k] in free' <==> order[k] in free' - {h};
      assert order[k] in free <==> order[k] in free - {h};
    }
  }

  /**
   * The blocks after the first step of a successful `Allocate` that carves
   * block `b`: the allocated block `[L, L + size)` is inserted before it and
   * it leaves the heap.
   */
  function Popped(blocks: seq<Block>, b: int, size: int): seq<Block>
    requires 0 <= b < |blocks|
  {
    (blocks[..b] + [Block(blocks[b].left, blocks[b].left + size, false)] + blocks[b..])[b + 1 := blocks[b].(free := false)]
  }

  /**
   * The second step of a successful `Allocate` that carves the free block
   * `b`, `[L, R)`, when it is longer than `size`: it becomes the free rest
   * `[L + size, R)`. The carved layout keeps the tiling with no two free
   * blocks adjacent, and so does the one before the rest goes back into
   * the heap.
   */
  lemma CarveFrontSteps(blocks: seq<Block>, memorySize: int, b: int, size: int, segment: MemorySegment, rest: MemorySegment)
    requires Tiling(blocks, memorySize) && Coalesced(blocks) && 0 <= b < |blocks|
    requires blocks[b] == Block(segment.left, segment.right, true) && 1 <= size < Size(segment)
    requires rest == MemorySegment(segment.left + size, segment.right)
    ensures var r := Popped(blocks, b, size)[b + 1 := Block(rest.left, rest.right, true)];
      && r == Replace(blocks, b, b, CarvedBlocks(blocks[b], size))
      && Tiling(r, memorySize) && Coalesced(r) && Increasing(r)
    ensures Increasing(Popped(blocks, b, size)[b + 1 := Block(rest.left, rest.right, false)])
  {
    var popped := Popped(blocks, b, size);
    assert popped[..b + 1] == blocks[..b] + [Block(segment.left, segment.left + size, false)];
    assert popped[b + 2..] == blocks[b + 1..];
    CarveKeepsLayout(blocks, memorySize, b, size);
    var middle := [Block(segment.left, segment.left + size, false), Block(segment.left + size, segment.right, false)];
    assert Abut(middle, 0);
    ReplaceTiles(blocks, 1, memorySize + 1, b, b, middle);
    TilingIncreasing(Replace(blocks, b, b, middle), memorySize);
    assert popped[b + 1 := Block(segment.left + size, segment.right, false)] == Replace(blocks, b, b, middle);
  }

  /**
   * The second step of a successful `Allocate` that carves the free block
   * `b` of exactly `size` cells: its node is erased. The carved layout keeps
   * the tiling with no two free blocks adjacent.
   */
  lemma TakeWholeLayout(blocks: seq<Block>, memorySize: int, b: int, size: int, popped: seq<Block>, final: seq<Block>)
    requires Tiling(blocks, memorySize) && Coalesced(blocks) && 0 <= b < |blocks| && blocks[b].free
    requires 1 <= size == Size(Extent(blocks[b]))
    requires popped == Popped(blocks, b, size) && final == popped[..b + 1] + popped[b + 2..]
    ensures final == Replace(blocks, b, b, CarvedBlocks(blocks[b], size))
    ensures Tiling(final, memorySize) && Coalesced(final) && Increasing(final)
  {
    assert popped[..b + 1] == blocks[..b] + [Block(blocks[b].left, blocks[b].left + size, false)];
    assert popped[b + 2..] == blocks[b + 1..];
    CarveKeepsLayout(blocks, memorySize, b, size);
  }

  /**
   * The steps of `AppendIfFree` when `appending` (block `j`) is free: it
   * leaves the heap, `remaining` (block `i`) becomes the union of the two,
   * and block `j` is erased. The result is `Absorb`, which keeps the layout.
   */
  lemma AbsorbSteps(blocks: seq<Block>, memorySize: int, i: int, j: int, u: MemorySegment,
                    marked: seq<Block>, united: seq<Block>, final: seq<Block>)
    requires Tiling(blocks, memorySize) && Coalesced(blocks)
    requires 0 <= i < |blocks| && 0 <= j < |blocks| && (j == i + 1 || j == i - 1) && !blocks[i].free && blocks[j].free
    requires u == Unite(Extent(blocks[i]), Extent(blocks[j]))
    requires marked == blocks[j := Block(blocks[j].left, blocks[j].right, false)]
    requires united == marked[i := Block(u.left, u.right, false)] && final == united[..j] + united[j + 1..]
    ensures final == Absorb(blocks, i, j)
    ensures Tiling(final, memorySize) && Coalesced(final) && Increasing(final)
  {
    var lo := if j < i then j else i;
    assert Abut(blocks, lo);
    AbsorbKeepsLayout(blocks, memorySize, i, j);
    AbsorbStepsShape(blocks, i, j, lo, u, marked, united, final);
  }

  /** The list `AppendIfFree`'s steps leave: blocks `lo` and `lo + 1` replaced by their union. */
  lemma AbsorbStepsShape(blocks: seq<Block>, i: int, j: int, lo: int, u: MemorySegment,
                         marked: seq<Block>, united: seq<Block>, final: seq<Block>)
    requires 0 <= i < |blocks| && 0 <= j < |blocks| && (j == i + 1 || j == i - 1)
    requires lo == if j < i then j else i
    requires blocks[lo].left < blocks[lo].right == blocks[lo + 1].left < blocks[lo + 1].right
    requires u == Unite(Extent(blocks[i]), Extent(blocks[j]))
    requires marked == blocks[j := Block(blocks[j].left, blocks[j].right, false)]
    requires united == marked[i := Block(u.left, u.right, false)] && final == united[..j] + united[j + 1..]
    ensures final == blocks[..lo] + [Block(blocks[lo].left, blocks[lo + 1].right, false)] + blocks[lo + 2..]
  {
    var merged := Block(blocks[lo].left, blocks[lo + 1].right, false);
    assert Block(u.left, u.right, false) == merged;
    if j == i + 1 {
      assert united[..j] == blocks[..i] + [merged];
      assert united[j + 1..] == blocks[i + 2..];
    } else {
      assert united[..j] == blocks[..j];
      assert united[j + 1..] == [merged] + blocks[i + 1..];
    }
  }

  /**
   * Heap slots and `heap_index` fields agree: every heap element is a list
   * node whose `heap_index` names its slot, and every other node's
   * `heap_index` is `NULL_INDEX`.
   */
  ghost predicate TokensOf(elements: seq<Handle>, segments: map<Handle, MemorySegment>, heapIndex: map<Handle, int>,
                          free: set<Handle>) {
    && heapIndex.Keys == segments.Keys
    && (forall h :: h in free ==> h in heapIndex && heapIndex[h] != NULL_INDEX)
    && (forall k :: 0 <= k < |elements| ==> elements[k] in free && elements[k] in heapIndex && heapIndex[elements[k]] == k)
    && (forall h :: h in heapIndex && heapIndex[h] != NULL_INDEX ==>
          h in free && 0 <= heapIndex[h] < |elements| && elements[heapIndex[h]] == h)
  }

  /** A new node out of the heap keeps the slots and fields in agreement. */
  lemma TokensAdd(elements: seq<Handle>, segments: map<Handle, MemorySegment>, heapIndex: map<Handle, int>,
                  free: set<Handle>, h: Handle, segment: MemorySegment)
    requires TokensOf(elements, segments, heapIndex, free) && h !in segments
    ensures TokensOf(elements, segments[h := segment], heapIndex[h := NULL_INDEX], free)
    ensures forall k :: 0 <= k < |elements| ==> elements[k] != h
  {
    forall k | 0 <= k < |elements| ensures elements[k] != h {
      assert elements[k] in heapIndex;
    }
  }

  /** Dropping a node out of the heap keeps the slots and fields in agreement. */
  lemma TokensDrop(elements: seq<Handle>, segments: map<Handle, MemorySegment>, heapIndex: map<Handle, int>,
                  free: set<Handle>, h: Handle)
    requires TokensOf(elements, segments, heapIndex, free) && h in heapIndex && heapIndex[h] == NULL_INDEX
    ensures TokensOf(elements, segments - {h}, heapIndex - {h}, free)
    ensures forall k :: 0 <= k < |elements| ==> elements[k] != h
  {
    forall k | 0 <= k < |elements| ensures elements[k] != h {
      assert heapIndex[elements[k]] == k;
    }
  }

  lemma TokensSlot(elements: seq<Handle>, segments: map<Handle, MemorySegment>, heapIndex: map<Handle, int>,
                  free: set<Handle>, h: Handle)
    requires TokensOf(elements, segments, heapIndex, free) && h in heapIndex && heapIndex[h] != NULL_INDEX
    ensures 0 <= heapIndex[h] < |elements| && elements[heapIndex[h]] == h
  {
  }

  /** With the heap empty, every `heap_index` is `NULL_INDEX`. */
  lemma TokensEmpty(elements: seq<Handle>, segments: map<Handle, MemorySegment>, heapIndex: map<Handle, int>,
                    free: set<Handle>)
    requires TokensOf(elements, segments, heapIndex, free) && |elements| == 0
    ensures forall h :: h in heapIndex ==> heapIndex[h] == NULL_INDEX
  {
  }

  /**
   * `Erase`'s first half keeps the slots and fields in agreement: the erased
   * node's `heap_index` is cleared, the last slot moves into the hole and
   * its node is told its new slot.
   */
  lemma TokensRemoveSlot(elements: seq<Handle>, segments: map<Handle, MemorySegment>, heapIndex: map<Handle, int>,
                         free: set<Handle>, index: int)
    requires TokensOf(elements, segments, heapIndex, free) && 0 <= index < |elements|
    ensures var last, erased := |elements| - 1, elements[index];
      var cleared := heapIndex[erased := NULL_INDEX];
      if index < last then
        TokensOf(elements[index := elements[last]][..last], segments, cleared[elements[last] := index], free - {erased})
      else
        TokensOf(elements[..last], segments, cleared, free - {erased})
  {
    var last, erased := |elements| - 1, elements[index];
    var cleared := heapIndex[erased := NULL_INDEX];
    if index < last {
      var e, hi := elements[index := elements[last]][..last], cleared[elements[last] := index];
      forall k | 0 <= k < |e| ensures e[k] in free - {erased} && e[k] in hi && hi[e[k]] == k {
        assert k != index ==> e[k] == elements[k] && heapIndex[elements[k]] == k;
        assert heapIndex[elements[last]] == last;
      }
      forall h | h in hi && hi[h] != NULL_INDEX
        ensures h in free - {erased} && 0 <= hi[h] < |e| && e[hi[h]] == h
      {
        assert h != erased;
        if h != elements[last] {
          assert heapIndex[h] != last;
        }
      }
    } else {
      var e := elements[..last];
      forall h | h in cleared && cleared[h] != NULL_INDEX
        ensures h in free - {erased} && 0 <= cleared[h] < |e| && e[cleared[h]] == h
      {
        assert heapIndex[h] != last;
      }
    }
  }

  /** Every allocated segment of `segments0` is in `segments`, unchanged, and not in `free`. */
  ghost predicate KeepsOf(segments0: map<Handle, MemorySegment>, free0: set<Handle>,
                          segments: map<Handle, MemorySegment>, free: set<Handle>) {
    forall g :: g in segments0 && g !in free0 ==> g in segments && segments[g] == segments0[g] && g !in free
  }

  /** Carving the front of the free `top` into the new `handle` keeps the allocated segments. */
  lemma CarveFrontKeeps(segments0: map<Handle, MemorySegment>, free0: set<Handle>, top: Handle, handle: Handle,
                        taken: MemorySegment, rest: MemorySegment)
    requires top in free0 && handle !in segments0
    ensures KeepsOf(segments0, free0, segments0[handle := taken][top := rest], free0 - {top} + {top})
  {
  }

  /** `remaining` absorbing the free `appending` keeps the allocated segments other than `remaining`. */
  lemma AbsorbKeeps(segments0: map<Handle, MemorySegment>, free0: set<Handle>, remaining: Handle, appending: Handle,
                    united: MemorySegment)
    requires appending in free0 && remaining !in free0
    ensures KeepsOf(segments0, free0 + {remaining}, segments0[remaining := united] - {appending}, free0 - {appending})
    ensures remaining in segments0[remaining := united] - {appending} && remaining !in free0 - {appending}
  {
  }

  /** Two steps that each keep the allocated segments other than `h` keep them together. */
  lemma KeepsTrans(segments0: map<Handle, MemorySegment>, free0: set<Handle>,
                   segments1: map<Handle, MemorySegment>, free1: set<Handle>,
                   segments2: map<Handle, MemorySegment>, free2: set<Handle>, h: Handle)
    requires KeepsOf(segments0, free0 + {h}, segments1, free1) && KeepsOf(segments1, free1 + {h}, segments2, free2)
    ensures KeepsOf(segments0, free0 + {h}, segments2, free2)
  {
  }

  /** Marking `h` free keeps the allocated segments other than `h`. */
  lemma KeepsRelease(segments0: map<Handle, MemorySegment>, free0: set<Handle>,
                     segments: map<Handle, MemorySegment>, free: set<Handle>, h: Handle)
    requires KeepsOf(segments0, free0 + {h}, segments, free)
    ensures KeepsOf(segments0, free0 + {h}, segments, free + {h})
  {
  }

  /** Handing the whole free `top` over to the new `handle` keeps the allocated segments. */
  lemma TakeWholeKeeps(segments0: map<Handle, MemorySegment>, free0: set<Handle>, top: Handle, handle: Handle,
                       taken: MemorySegment)
    requires top in free0 && handle !in segments0
    ensures KeepsOf(segments0, free0, segments0[handle := taken] - {top}, free0 - {top})
  {
  }

  /** The list holds each handle once, exactly the handles with a segment, all below `next`. */
  ghost predicate HandlesOf(order: seq<Handle>, segments: map<Handle, MemorySegment>, next: Handle) {
    && Distinct(order) && Covered(order, segments)
    && (forall h :: h in segments <==> h in order)
    && 0 <= next
    && (forall h :: h in segments ==> 0 <= h < next)
  }

  lemma HandlesInsert(order: seq<Handle>, segments: map<Handle, MemorySegment>, next: Handle, p: int, segment: MemorySegment)
    requires HandlesOf(order, segments, next) && 0 <= p <= |order|
    ensures next !in segments
    ensures HandlesOf(order[..p] + [next] + order[p..], segments[next := segment], next + 1)
  {
    var o := order[..p] + [next] + order[p..];
    assert forall k :: 0 <= k < |o| ==> if k < p then o[k] == order[k] else if k == p then o[k] == next else o[k] == order[k - 1];
    forall h ensures h in segments[next := segment] <==> h in o {
      if h in order {
        var i :| 0 <= i < |order| && order[i] == h;
        assert o[if i < p then i else i + 1] == h;
      }
    }
    forall i, j | 0 <= i < j < |o| ensures Apart(o, i, j) {
      if i != p && j != p {
        DistinctAt(order, if i < p then i else i - 1, if j < p then j else j - 1);
      } else {
        var q := if i == p then j else i;
        assert o[q] == order[if q < p then q else q - 1];
      }
    }
  }

  lemma HandlesRemove(order: seq<Handle>, segments: map<Handle, MemorySegment>, next: Handle, p: int)
    requires HandlesOf(order, segments, next) && 0 <= p < |order|
    ensures HandlesOf(order[..p] + order[p + 1..], segments - {order[p]}, next)
  {
    var o := order[..p] + order[p + 1..];
    assert forall k :: 0 <= k < |o| ==> o[k] == order[if k < p then k else k + 1];
    forall h ensures h in segments - {order[p]} <==> h in o {
      if h in order && h != order[p] {
        var i :| 0 <= i < |order| && order[i] == h;
        assert o[if i < p then i else i - 1] == h;
      }
      if h in o {
        var k :| 0 <= k < |o| && o[k] == h;
        DistinctAt(order, if k < p then k else k + 1, p);
      }
    }
    forall i, j | 0 <= i < j < |o| ensures Apart(o, i, j) {
      DistinctAt(order, if i < p then i else i + 1, if j < p then j else j + 1);
    }
  }

  // ---------------------------------------------------------------------------
  // The manager

  class MemoryManager {
    /** The contents of the list nodes, by handle. */
    var segments: map<Handle, MemorySegment>
    /** The `heap_index` field of each list node. */
    var heapIndex: map<Handle, int>
    /** The free segments: the nodes whose `heap_index` is set. */
    ghost var free: set<Handle>
    /** The list `memory_segments_`, in address order. */
    var order: seq<Handle>
    /** `free_memory_segments_.elements_`. */
    var elements: seq<Handle>
    /** The handle the next inserted list node receives. */
    var nextHandle: Handle
    ghost const memorySize: int

    /**
     * The constructor: one free segment `[1, memorySize + 1)` in the list
     * and in the heap.
     */
    constructor(memorySize: int)
      requires memorySize >= 1
      ensures Valid() && this.memorySize == memorySize
      ensures Blocks() == [Block(1, memorySize + 1, true)]
    {
      this.memorySize := memorySize;
      segments := map[0 := MemorySegment(1, memorySize + 1)];
      heapIndex := map[0 := NULL_INDEX];
      free := {};
      order := [0];
      elements := [];
      nextHandle := 1;
      new;
      Push(0);
      assert Blocks()[0] == Block(1, memorySize + 1, true);
    }

    /** The segments in heap slot order. */
    ghost function Keys(): (keys: seq<MemorySegment>)
      reads this`elements, this`segments
      ensures |keys| == |elements|
    {
      var e, s := elements, segments;
      seq(|e|, k requires 0 <= k < |e| => if e[k] in s then s[e[k]] else MemorySegment(0, 0))
    }

    /**
     * Every heap element is a list node whose `heap_index` names its slot,
     * and every other node's `heap_index` is `NULL_INDEX`.
     */
    ghost predicate Tokens()
      reads this`elements, this`segments, this`heapIndex, this`free
    {
      TokensOf(elements, segments, heapIndex, free)
    }

    /** No two free segments start at the same cell. */
    ghost predicate FreeDistinct()
      reads this`segments, this`free
    {
      DistinctOn(free, segments)
    }

    lemma KeysDistinct()
      requires Tokens() && FreeDistinct()
      ensures DistinctLefts(Keys())
    {
      forall a, b | 0 <= a < b < |elements| ensures Keys()[a].left != Keys()[b].left {
        assert heapIndex[elements[a]] != heapIndex[elements[b]];
        assert elements[a] in free && elements[b] in free;
        assert elements[a] in segments && elements[b] in segments && elements[a] != elements[b];
        assert LeftsApart(segments, elements[a], elements[b]);
        assert Keys()[a] == segments[elements[a]] && Keys()[b] == segments[elements[b]];
      }
    }

    /** `NotifyIndexChange` through `MemorySegmentsHeapObserver`: writes the node's `heap_index`. */
    method NotifyIndexChange(handle: Handle, newIndex: int)
      requires handle in heapIndex
      modifies this`heapIndex
      ensures heapIndex == old(heapIndex)[handle := newIndex]
    {
      heapIndex := heapIndex[handle := newIndex];
    }

    /** `SwapElements`: exchanges two slots and tells both segments their new slots. */
    method SwapElements(first: int, second: int)
      requires 0 <= first < |elements| && 0 <= second < |elements| && Tokens()
      modifies this`elements, this`heapIndex
      ensures elements == Swap(old(elements), first, second)
      ensures multiset(elements) == multiset(old(elements))
      ensures Keys() == Swap(old(Keys()), first, second)
      ensures Tokens() && free == old(free)
      ensures old(FreeDistinct()) ==> FreeDistinct()
    {
      MultisetSwap(elements, first, second);
      elements := Swap(elements, first, second);
      NotifyIndexChange(elements[first], first);
      NotifyIndexChange(elements[second], second);
      forall k | 0 <= k < |elements| ensures Keys()[k] == Swap(old(Keys()), first, second)[k] {
      }
      assert Keys() == Swap(old(Keys()), first, second);
      assert free == old(free);
      assert old(FreeDistinct()) ==> DistinctOn(free, segments);
    }

    /** `CompareElements(first, second)`: the segment in slot `first` outranks the one in `second`. */
    function CompareElements(first: int, second: int): (r: bool)
      reads this`elements, this`segments, this`heapIndex, this`free
      requires 0 <= first < |elements| && 0 <= second < |elements| && Tokens()
      ensures r <==> Less(Keys()[second], Keys()[first])
    {
      Less(segments[elements[second]], segments[elements[first]])
    }

    /** `parent`: the slot above `index`, or `NULL_INDEX` at the root. */
    function ParentIndex(index: int): (r: int)
      ensures index > 0 ==> 0 <= r < index && (index == 2 * r + 1 || index == 2 * r + 2)
      ensures index == 0 ==> r == NULL_INDEX
    {
      if index != 0 then (index - 1) / 2 else NULL_INDEX
    }

    /** `left_son`: slot `2 * index + 1` when it exists. */
    function LeftSon(index: int): (r: int)
      reads this`elements
      requires index >= 0
      ensures 2 * index + 1 < |elements| ==> r == 2 * index + 1 && Parent(r) == index
      ensures 2 * index + 1 >= |elements| ==> r == NULL_INDEX
    {
      if 2 * index + 1 < |elements| then 2 * index + 1 else NULL_INDEX
    }

    /** `right_son`: slot `2 * index + 2` when it exists. */
    function RightSon(index: int): (r: int)
      reads this`elements
      requires index >= 0
      ensures 2 * index + 2 < |elements| ==> r == 2 * index + 2 && Parent(r) == index
      ensures 2 * index + 2 >= |elements| ==> r == NULL_INDEX
    {
      if 2 * index + 2 < |elements| then 2 * index + 2 else NULL_INDEX
    }

    /**
     * `SiftUp`: walks from `index` to the root, swapping whenever the slot
     * outranks its parent; the heap is ordered afterwards.
     */
    method SiftUp(index: int) returns (r: int)
      requires UpReady(Keys(), index) && Tokens() && FreeDistinct()
      modifies this`elements, this`heapIndex
      ensures Tokens() && Ordered(Keys()) && FreeDistinct()
      ensures multiset(elements) == multiset(old(elements)) && free == old(free)
      ensures r == 0
    {
      var current := index;
      var parentIndex := ParentIndex(current);
      while parentIndex != NULL_INDEX
        invariant 0 <= current < |elements| && parentIndex == (if current != 0 then Parent(current) else NULL_INDEX)
        invariant UpReady(Keys(), current) && Tokens() && FreeDistinct()
        invariant multiset(elements) == multiset(old(elements)) && free == old(free)
        decreases current
      {
        KeysDistinct();
        SiftUpStep(Keys(), current);
        if CompareElements(current, parentIndex) {
          SwapElements(current, parentIndex);
        }
        current := parentIndex;
        parentIndex := ParentIndex(current);
      }
      UpReadyAtRoot(Keys());
      return current;
    }

    /**
     * The dominating slot among `index` and its children, as `SiftDown`
     * chooses it: a child only when it outranks every slot it is compared with.
     */
    method ChooseDominating(index: int) returns (dominating: int)
      requires 0 <= index < |elements| && Tokens() && FreeDistinct()
      ensures dominating == index ==> forall k :: 1 <= k < |elements| && Parent(k) == index ==> !Less(Keys()[index], Keys()[k])
      ensures dominating != index ==> Dominates(Keys(), index, dominating)
    {
      KeysDistinct();
      var leftSon := LeftSon(index);
      var rightSon := RightSon(index);
      dominating := index;
      if leftSon != NULL_INDEX && CompareElements(leftSon, dominating) {
        dominating := leftSon;
      }
      if rightSon != NULL_INDEX && CompareElements(rightSon, dominating) {
        if dominating != index {
          LessAsymmetric(Keys()[leftSon], Keys()[rightSon]);
        }
        dominating := rightSon;
      }
    }

    /**
     * `SiftDown`: swaps `index` with its dominating child while a child
     * outranks it. Only the subtree of `index` changes; afterwards `index` is
     * ready for sifting up, and a segment that moved up into `index` does not
     * outrank its new parent.
     */
    method SiftDown(index: int)
      requires DownReady(Keys(), index) && Tokens() && FreeDistinct()
      modifies this`elements, this`heapIndex
      ensures Tokens() && UpReady(Keys(), index) && FreeDistinct() && free == old(free)
      ensures Keys()[index] == old(Keys())[index] || (index >= 1 ==> !Less(Keys()[Parent(index)], Keys()[index]))
      ensures multiset(elements) == multiset(old(elements))
      ensures |Keys()| == |old(Keys())|
      ensures forall k :: 0 <= k < |Keys()| && !InSubtree(k, index) ==> Keys()[k] == old(Keys())[k]
      decreases |elements| - index
    {
      var dominating := ChooseDominating(index);
      if dominating == index {
        SiftDownStop(Keys(), index);
        return;
      }
      ghost var before := Keys();
      KeysDistinct();
      SwapElements(index, dominating);
      SiftDownSwap(before, index, dominating);
      SiftDown(dominating);
      SiftDownReturn(before, Keys(), index, dominating);
    }

    /** `Push`: appends a segment that is not in the heap and sifts it up. */
    method Push(handle: Handle)
      requires handle in heapIndex && heapIndex[handle] == NULL_INDEX
      requires Tokens() && Ordered(Keys()) && FreeDistinct()
      requires forall g :: g in free && g != handle ==> LeftsApart(segments, g, handle)
      modifies this`elements, this`heapIndex, this`free
      ensures Tokens() && Ordered(Keys()) && FreeDistinct()
      ensures free == old(free) + {handle}
    {
      elements := elements + [handle];
      NotifyIndexChange(handle, |elements| - 1);
      free := free + {handle};
      assert free == old(free) + {handle};
      DistinctOnAdd(old(free), handle, segments);
      assert Keys() == old(Keys()) + [segments[handle]];
      var _ := SiftUp(|elements| - 1);
    }

    /**
     * The first half of `Erase`: marks the segment in slot `index` as out of
     * the heap, moves the last slot into the hole and drops the last slot.
     */
    method RemoveSlot(index: int)
      requires 0 <= index < |elements| && Tokens()
      modifies this`elements, this`heapIndex, this`free
      ensures Tokens()
      ensures Keys() == old(Keys())[index := old(Keys())[|old(Keys())| - 1]][..|old(Keys())| - 1]
      ensures free == old(free) - {old(elements)[index]}
      ensures old(FreeDistinct()) ==> FreeDistinct()
    {
      var erased := elements[index];
      var last := |elements| - 1;
      ghost var before := Keys();
      TokensRemoveSlot(elements, segments, heapIndex, free, index);
      NotifyIndexChange(erased, NULL_INDEX);
      free := free - {erased};
      if index < last {
        elements := elements[index := elements[last]];
        NotifyIndexChange(elements[index], index);
      }
      elements := elements[..last];
      assert Keys() == before[index := before[last]][..last];
      assert free == old(free) - {erased};
      if old(FreeDistinct()) {
        DistinctOnSubset(free, old(free), segments);
      }
    }

    /**
     * `Erase`: removes slot `index`, marking its segment as out of the heap,
     * moving the last slot into the hole and sifting it down and up.
     */
    method Erase(index: int)
      requires 0 <= index < |elements| && Tokens() && Ordered(Keys()) && FreeDistinct()
      modifies this`elements, this`heapIndex, this`free
      ensures Tokens() && Ordered(Keys()) && FreeDistinct()
      ensures free == old(free) - {old(elements)[index]}
    {
      ghost var before := Keys();
      RemoveSlot(index);
      if index < |elements| {
        EraseReady(before, index);
        SiftDown(index);
        var _ := SiftUp(index);
      }
    }

    /** `Pop`: erases the top. */
    method Pop()
      requires 0 < |elements| && Tokens() && Ordered(Keys()) && FreeDistinct()
      modifies this`elements, this`heapIndex, this`free
      ensures Tokens() && Ordered(Keys()) && FreeDistinct()
      ensures free == old(free) - {old(elements)[0]}
    {
      Erase(0);
    }

    /** The list in address order, each segment with whether it is free. */
    ghost function Blocks(): (blocks: seq<Block>)
      reads this`order, this`segments, this`free
      ensures |blocks| == |order|
    {
      View(order, segments, free)
    }

    /** The list holds each handle once, exactly the handles with a segment, all below `nextHandle`. */
    ghost predicate Handles()
      reads this`order, this`segments, this`nextHandle
    {
      HandlesOf(order, segments, nextHandle)
    }

    /**
     * The manager's invariant: the heap holds exactly the free segments in
     * heap order, and the list tiles the cells 1..memorySize with no two
     * free segments adjacent.
     */
    ghost predicate Valid()
      reads this
    {
      && Tokens() && Ordered(Keys()) && Handles()
      && Tiling(Blocks(), memorySize) && Coalesced(Blocks()) && Increasing(Blocks())
    }

    /** `Valid` from the list's blocks `r` and their layout. */
    lemma ValidFrom(r: seq<Block>)
      requires Tokens() && Ordered(Keys()) && Handles() && Blocks() == r
      requires Tiling(r, memorySize) && Coalesced(r) && Increasing(r)
      ensures Valid()
    {
    }

    /** Every allocated segment of `segments0` is still there, unchanged and allocated. */
    ghost predicate Keeps(segments0: map<Handle, MemorySegment>, free0: set<Handle>)
      reads this`segments, this`free
    {
      KeepsOf(segments0, free0, segments, free)
    }

    /** Segments that tile memory start at distinct cells. */
    lemma AllDistinct()
      requires Handles() && Increasing(Blocks())
      ensures DistinctOn(segments.Keys, segments)
    {
      forall g, h | g in segments && h in segments && g != h ensures LeftsApart(segments, g, h) {
        var i, j := IndexOf(order, g), IndexOf(order, h);
        assert Blocks()[i].left == segments[g].left && Blocks()[j].left == segments[h].left;
        assert i < j ==> Before(Blocks(), i, j);
        assert j < i ==> Before(Blocks(), j, i);
      }
    }

    lemma ValidFreeDistinct()
      requires Valid()
      ensures FreeDistinct()
    {
      AllDistinct();
      assert free <= segments.Keys by {
        forall h | h in free ensures h in segments.Keys {
          assert h in heapIndex;
        }
      }
      DistinctOnSubset(free, segments.Keys, segments);
    }

    /** The block of a list node is the one that starts at its segment's `left`. */
    lemma BlockOf(h: Handle)
      requires Valid() && h in segments
      ensures h in order && FindBlock(Blocks(), segments[h].left) == IndexOf(order, h)
      ensures Blocks()[IndexOf(order, h)].free <==> h in free
    {
      assert h in order;
      var i := IndexOf(order, h);
      var k := FindBlock(Blocks(), segments[h].left);
      assert Blocks()[i].left == segments[h].left;
      assert k != -1;
      assert k < i ==> Before(Blocks(), k, i);
      assert i < k ==> Before(Blocks(), i, k);
    }

    /** The heap's top is a free node of the list. */
    lemma TopFree()
      requires Valid() && |elements| > 0
      ensures FreeDistinct() && elements[0] in free && elements[0] in order
      ensures Blocks()[IndexOf(order, elements[0])] == Block(segments[elements[0]].left, segments[elements[0]].right, true)
    {
      ValidFreeDistinct();
      var top := elements[0];
      assert top in free && top in heapIndex && top in segments;
      assert top in order;
    }

    /** The heap's top is the best free block, and the heap is empty exactly when no block is free. */
    lemma TopIsBestFree()
      requires Valid()
      ensures |elements| == 0 <==> BestFree(Blocks()) == -1
      ensures |elements| > 0 ==> elements[0] in order && IndexOf(order, elements[0]) == BestFree(Blocks())
    {
      var blocks := Blocks();
      if |elements| > 0 {
        var top := elements[0];
        var b := IndexOf(order, top);
        assert top in free;
        forall i | 0 <= i < |blocks| && blocks[i].free && i != b ensures !Less(Extent(blocks[b]), Extent(blocks[i])) {
          var h := order[i];
          assert h in free;
          TokensSlot(elements, segments, heapIndex, free, h);
          DistinctAt(order, i, b);
          TopIsBest(Keys(), heapIndex[h]);
        }
        assert IsBest(blocks, b);
        BestUnique(blocks, b, BestFree(blocks));
      } else {
        TokensEmpty(elements, segments, heapIndex, free);
        forall i | 0 <= i < |blocks| ensures !blocks[i].free {
          var h := order[i];
          assert h in heapIndex && heapIndex[h] == NULL_INDEX;
        }
      }
    }

    /** `memory_segments_.insert(position, segment)`: a new node, out of the heap, just before `position`. */
    method Insert(position: Handle, segment: MemorySegment) returns (handle: Handle)
      requires Tokens() && Handles() && position in segments
      modifies this`order, this`segments, this`heapIndex, this`nextHandle
      ensures handle == old(nextHandle) && handle !in old(segments) && nextHandle == old(nextHandle) + 1
      ensures order == old(order)[..IndexOf(old(order), position)] + [handle] + old(order)[IndexOf(old(order), position)..]
      ensures segments == old(segments)[handle := segment] && heapIndex == old(heapIndex)[handle := NULL_INDEX]
      ensures Tokens() && Handles() && Keys() == old(Keys()) && free == old(free)
      ensures old(FreeDistinct()) ==> FreeDistinct()
      ensures Blocks() == old(Blocks())[..IndexOf(old(order), position)] + [Block(segment.left, segment.right, false)]
        + old(Blocks())[IndexOf(old(order), position)..]
    {
      var p := IndexOf(order, position);
      handle := nextHandle;
      ViewInsert(order, segments, free, p, handle, segment);
      HandlesInsert(order, segments, nextHandle, p, segment);
      TokensAdd(elements, segments, heapIndex, free, handle, segment);
      nextHandle := nextHandle + 1;
      order := order[..p] + [handle] + order[p..];
      segments := segments[handle := segment];
      heapIndex := heapIndex[handle := NULL_INDEX];
      assert free == old(free);
      assert Keys() == old(Keys());
    }

    /** `memory_segments_.erase(handle)` on a node out of the heap. */
    method EraseNode(handle: Handle)
      requires Tokens() && Handles() && handle in segments && handle !in free
      modifies this`order, this`segments, this`heapIndex
      ensures order == old(order)[..IndexOf(old(order), handle)] + old(order)[IndexOf(old(order), handle) + 1..]
      ensures segments == old(segments) - {handle} && heapIndex == old(heapIndex) - {handle}
      ensures Tokens() && Handles() && Distinct(order) && Keys() == old(Keys()) && free == old(free)
      ensures old(FreeDistinct()) ==> FreeDistinct()
      ensures Blocks() == old(Blocks())[..IndexOf(old(order), handle)] + old(Blocks())[IndexOf(old(order), handle) + 1..]
    {
      var p := IndexOf(order, handle);
      ViewRemove(order, segments, free, p);
      HandlesRemove(order, segments, nextHandle, p);
      TokensDrop(elements, segments, heapIndex, free, handle);
      order := order[..p] + order[p + 1..];
      segments := segments - {handle};
      heapIndex := heapIndex - {handle};
      assert free == old(free);
      assert Keys() == old(Keys());
      if old(FreeDistinct()) {
        assert DistinctOn(free, segments);
      }
    }

    /**
     * Writes the bounds of a node out of the heap: `left += size` in
     * `Allocate`, `(*remaining) = remaining->Unite(...)` in `AppendIfFree`
     * (whose `heap_index` is already `NULL_INDEX`).
     */
    method SetSegment(handle: Handle, segment: MemorySegment)
      requires Tokens() && Handles() && handle in segments && handle !in free
      modifies this`segments
      ensures segments == old(segments)[handle := segment]
      ensures Tokens() && Handles() && Keys() == old(Keys())
      ensures old(FreeDistinct()) ==> FreeDistinct()
      ensures Blocks() == old(Blocks())[IndexOf(order, handle) := Block(segment.left, segment.right, false)]
    {
      ViewSet(order, segments, free, handle, segment);
      forall k | 0 <= k < |elements| ensures elements[k] != handle {
        assert elements[k] in free;
      }
      segments := segments[handle := segment];
      assert Keys() == old(Keys());
    }

    /**
     * The first half of a successful `Allocate`: inserts the allocated
     * segment `[left, left + size)` before the top and pops the top.
     */
    method Detach(size: int, ghost blocks: seq<Block>, ghost b: int) returns (handle: Handle)
      requires Tokens() && Ordered(Keys()) && FreeDistinct() && Handles() && |elements| > 0
      requires blocks == Blocks() && elements[0] in order && b == IndexOf(order, elements[0])
      modifies this`order, this`segments, this`heapIndex, this`free, this`nextHandle, this`elements
      ensures Tokens() && Ordered(Keys()) && FreeDistinct() && Handles()
      ensures handle == old(nextHandle) && handle >= 0 && handle !in old(segments)
      ensures segments == old(segments)[handle := MemorySegment(old(segments)[old(elements[0])].left, old(segments)[old(elements[0])].left + size)]
      ensures free == old(free) - {old(elements[0])}
      ensures 0 <= b < |blocks| && Blocks() == Popped(blocks, b, size)
      ensures 0 <= b + 1 < |order| && order[b + 1] == old(elements[0])
    {
      var top := elements[0];
      handle := InsertCarved(size, blocks, b);
      ghost var inserted := free;
      ghost var middle := Blocks();
      Pop();
      ViewMark(order, segments, inserted, free, top);
      IndexOfUnique(order, top, b + 1);
      assert Block(segments[top].left, segments[top].right, top in free) == blocks[b].(free := false);
    }

    /** The first half of `Detach`: the node of the first `size` cells of the top, inserted before it. */
    method InsertCarved(size: int, ghost blocks: seq<Block>, ghost b: int) returns (handle: Handle)
      requires Tokens() && Ordered(Keys()) && FreeDistinct() && Handles() && |elements| > 0
      requires blocks == Blocks() && elements[0] in order && b == IndexOf(order, elements[0])
      modifies this`order, this`segments, this`heapIndex, this`nextHandle
      ensures Tokens() && Ordered(Keys()) && FreeDistinct() && Handles()
      ensures elements == old(elements) && free == old(free)
      ensures handle == old(nextHandle) && handle >= 0 && handle !in old(segments)
      ensures segments == old(segments)[handle := MemorySegment(old(segments)[elements[0]].left, old(segments)[elements[0]].left + size)]
      ensures 0 <= b < |blocks| && 0 <= b + 1 < |order| && order[b + 1] == elements[0]
      ensures Distinct(order) && Covered(order, segments) && blocks[b] == Block(segments[elements[0]].left, segments[elements[0]].right, true)
      ensures Blocks() == View(order, segments, free)
      ensures Blocks()[b + 1 := blocks[b].(free := false)] == Popped(blocks, b, size)
    {
      var top := elements[0];
      var segment := segments[top];
      assert blocks[b] == Block(segment.left, segment.right, true) by {
        assert top in free;
      }
      handle := Insert(top, MemorySegment(segment.left, segment.left + size));
      IndexOfUnique(order, top, b + 1);
      assert Blocks() == blocks[..b] + [Block(blocks[b].left, blocks[b].left + size, false)] + blocks[b..];
    }

    /**
     * The second half of a successful `Allocate` that leaves a rest:
     * `left += size` on the old top, then `Push` it back.
     */
    method Shrink(top: Handle, segment: MemorySegment, ghost popped: seq<Block>, ghost i: int)
      requires Tokens() && Ordered(Keys()) && FreeDistinct() && Handles()
      requires 0 <= i < |order| && order[i] == top && top !in free
      requires popped == Blocks() && Increasing(popped[i := Block(segment.left, segment.right, false)])
      modifies this`segments, this`elements, this`heapIndex, this`free
      ensures Tokens() && Ordered(Keys()) && FreeDistinct() && Handles()
      ensures segments == old(segments)[top := segment] && free == old(free) + {top}
      ensures Blocks() == popped[i := Block(segment.left, segment.right, true)]
    {
      IndexOfUnique(order, top, i);
      SetSegment(top, segment);
      AllDistinct();
      ghost var popped := free;
      Push(top);
      ViewMark(order, segments, popped, free, top);
    }

    /**
     * A successful `Allocate(size)` from a top segment longer than `size`:
     * the allocated segment is carved from its front and the rest goes back
     * into the heap.
     */
    method CarveFront(size: int) returns (handle: Handle)
      requires Valid() && |elements| > 0 && 1 <= size < Size(segments[elements[0]])
      modifies this
      ensures Valid()
      ensures var b := IndexOf(old(order), old(elements[0]));
        Blocks() == Replace(old(Blocks()), b, b, CarvedBlocks(old(Blocks())[b], size))
      ensures handle >= 0 && handle !in old(segments) && handle in segments && handle !in free
        && segments[handle] == MemorySegment(old(segments)[old(elements[0])].left, old(segments)[old(elements[0])].left + size)
      ensures Keeps(old(segments), old(free))
    {
      var top := elements[0];
      var segment := segments[top];
      ghost var blocks := Blocks();
      ghost var b := IndexOf(order, top);
      TopFree();
      var rest := MemorySegment(segment.left + size, segment.right);
      CarveFrontSteps(blocks, memorySize, b, size, segment, rest);
      handle := Detach(size, blocks, b);
      ghost var popped := Blocks();
      Shrink(top, rest, popped, b + 1);
      ValidFrom(Popped(blocks, b, size)[b + 1 := Block(rest.left, rest.right, true)]);
      CarveFrontKeeps(old(segments), old(free), top, handle, segments[handle], segments[top]);
    }

    /**
     * A successful `Allocate(size)` from a top segment of exactly `size`
     * cells: the allocated segment takes its place and its node is erased.
     */
    method TakeWhole(size: int) returns (handle: Handle)
      requires Valid() && |elements| > 0 && 1 <= size == Size(segments[elements[0]])
      modifies this
      ensures Valid()
      ensures var b := IndexOf(old(order), old(elements[0]));
        Blocks() == Replace(old(Blocks()), b, b, CarvedBlocks(old(Blocks())[b], size))
      ensures handle >= 0 && handle !in old(segments) && handle in segments && handle !in free
        && segments[handle] == MemorySegment(old(segments)[old(elements[0])].left, old(segments)[old(elements[0])].left + size)
      ensures Keeps(old(segments), old(free))
    {
      var top := elements[0];
      ghost var blocks := Blocks();
      ghost var b := IndexOf(order, top);
      TopFree();
      handle := Detach(size, blocks, b);
      ghost var popped := Blocks();
      IndexOfUnique(order, top, b + 1);
      EraseNode(top);
      TakeWholeKeeps(old(segments), old(free), top, handle, segments[handle]);
      TakeWholeLayout(blocks, memorySize, b, size, popped, Blocks());
    }

    /**
     * `Allocate(size)`: takes `size` cells from the front of the best free
     * segment, or returns `UNDEFINED_HANDLE` when the heap is empty or its top
     * is shorter than `size`.
     */
    method Allocate(size: int) returns (handle: Handle)
      requires Valid() && size >= 1
      modifies this
      ensures Valid()
      ensures handle != UNDEFINED_HANDLE <==> AllocateSpec(old(Blocks()), size).success
      ensures Blocks() == AllocateSpec(old(Blocks()), size).blocks
      ensures handle != UNDEFINED_HANDLE ==> (handle !in old(segments) && handle in segments && handle !in free
        && segments[handle] == MemorySegment(AllocateSpec(old(Blocks()), size).position, AllocateSpec(old(Blocks()), size).position + size))
      ensures Keeps(old(segments), old(free))
    {
      TopIsBestFree();
      if |elements| == 0 {
        return UNDEFINED_HANDLE;
      }
      if Size(segments[elements[0]]) < size {
        return UNDEFINED_HANDLE;
      }
      if Size(segments[elements[0]]) == size {
        handle := TakeWhole(size);
      } else {
        handle := CarveFront(size);
      }
    }

    /**
     * `AppendIfFree(remaining, appending)`: when the neighbour `appending`
     * (block `j`) is in the heap, it is erased from the heap, `remaining`
     * (block `i`) becomes the union of the two and `appending` leaves the list.
     */
    method AppendIfFree(remaining: Handle, appending: Handle, ghost blocks: seq<Block>, ghost i: int, ghost j: int)
      requires Valid() && blocks == Blocks()
      requires 0 <= i < |order| && 0 <= j < |order| && (j == i + 1 || j == i - 1)
      requires order[i] == remaining && order[j] == appending && remaining !in free
      modifies this
      ensures Valid() && Blocks() == Absorb(blocks, i, j)
      ensures var q := if j < i && blocks[j].free then i - 1 else i; 0 <= q < |order| && order[q] == remaining
      ensures remaining in segments && remaining !in free
      ensures Keeps(old(segments), old(free) + {remaining})
    {
      assert appending in heapIndex by {
        assert order[j] in segments;
      }
      if heapIndex[appending] != NULL_INDEX {
        TokensSlot(elements, segments, heapIndex, free, appending);
        assert blocks[j].free;
        AbsorbHeaped(remaining, appending, blocks, i, j);
      } else {
        assert appending !in free;
        assert !blocks[j].free;
      }
    }

    /** The free-neighbour branch of `AppendIfFree`. */
    method AbsorbHeaped(remaining: Handle, appending: Handle, ghost blocks: seq<Block>, ghost i: int, ghost j: int)
      requires Valid() && blocks == Blocks()
      requires 0 <= i < |order| && 0 <= j < |order| && (j == i + 1 || j == i - 1)
      requires order[i] == remaining && order[j] == appending && remaining !in free && appending in free
      modifies this
      ensures Valid() && Blocks() == Absorb(blocks, i, j)
      ensures var q := if j < i then i - 1 else i; 0 <= q < |order| && order[q] == remaining
      ensures remaining in segments && remaining !in free
      ensures Keeps(old(segments), old(free) + {remaining})
    {
      IndexOfUnique(order, remaining, i);
      IndexOfUnique(order, appending, j);
      TokensSlot(elements, segments, heapIndex, free, appending);
      ValidFreeDistinct();
      ghost var inHeap := free;
      Erase(heapIndex[appending]);
      ViewMark(order, segments, inHeap, free, appending);
      ghost var marked := Blocks();
      var united := Unite(segments[remaining], segments[appending]);
      assert segments[remaining] == Extent(blocks[i]) && segments[appending] == Extent(blocks[j]);
      SetSegment(remaining, united);
      ghost var merged := Blocks();
      ghost var listed := order;
      EraseNode(appending);
      AbsorbSteps(blocks, memorySize, i, j, united, marked, merged, Blocks());
      IndexOfRemoved(listed, j, i);
      AbsorbKeeps(old(segments), old(free), remaining, appending, united);
    }

    /**
     * `Free(handle)`: the segment absorbs its free right neighbour, then its
     * free left neighbour, and goes into the heap.
     */
    method Free(handle: Handle)
      requires Valid() && handle in segments && handle !in free
      modifies this
      ensures Valid()
      ensures Blocks() == FreeSpec(old(Blocks()), IndexOf(old(order), handle))
      ensures handle in segments && handle in free
      ensures Keeps(old(segments), old(free) + {handle})
    {
      ghost var blocks := Blocks();
      ghost var i := IndexOf(order, handle);
      assert !blocks[i].free;
      FreeByAbsorbing(blocks, memorySize, i);
      FreeKeepsLayout(blocks, memorySize, i);
      TilingIncreasing(FreeSpec(blocks, i), memorySize);
      MergeRight(handle, blocks, i);
      ghost var segments1, free1 := segments, free;
      MergeLeft(handle, Blocks(), i);
      KeepsTrans(old(segments), old(free), segments1, free1, segments, free, handle);
      Release(handle, Blocks(), if i > 0 && blocks[i - 1].free then i - 1 else i, FreeSpec(blocks, i),
              old(segments), old(free));
    }

    /** The first `AppendIfFree` of `Free`: the right neighbour, when there is one. */
    method MergeRight(handle: Handle, ghost blocks: seq<Block>, ghost i: int)
      requires Valid() && blocks == Blocks() && 0 <= i < |order| && order[i] == handle && handle !in free
      modifies this
      ensures Valid() && handle in segments && handle !in free
      ensures Blocks() == if i + 1 < |blocks| then Absorb(blocks, i, i + 1) else blocks
      ensures i < |order| && order[i] == handle
      ensures Keeps(old(segments), old(free) + {handle})
    {
      IndexOfUnique(order, handle, i);
      var p := IndexOf(order, handle);
      if handle != order[|order| - 1] {
        AppendIfFree(handle, order[p + 1], blocks, i, i + 1);
      } else {
        IndexOfUnique(order, handle, |order| - 1);
        assert handle in segments;
      }
    }

    /** The second `AppendIfFree` of `Free`: the left neighbour, when there is one. */
    method MergeLeft(handle: Handle, ghost blocks: seq<Block>, ghost i: int)
      requires Valid() && blocks == Blocks() && 0 <= i < |order| && order[i] == handle && handle !in free
      modifies this
      ensures Valid() && handle in segments && handle !in free
      ensures Blocks() == if i > 0 then Absorb(blocks, i, i - 1) else blocks
      ensures var k := if i > 0 && blocks[i - 1].free then i - 1 else i; 0 <= k < |order| && order[k] == handle
      ensures Keeps(old(segments), old(free) + {handle})
    {
      IndexOfUnique(order, handle, i);
      var p := IndexOf(order, handle);
      if handle != order[0] {
        AppendIfFree(handle, order[p - 1], blocks, i, i - 1);
      } else {
        assert handle in segments;
      }
    }

    /** `free_memory_segments_.Push(segment_handle)` at the end of `Free`: the merged segment is marked free. */
    method Release(handle: Handle, ghost merged: seq<Block>, ghost k: int, ghost target: seq<Block>,
                   ghost segments0: map<Handle, MemorySegment>, ghost free0: set<Handle>)
      requires Tokens() && Ordered(Keys()) && Handles() && merged == Blocks()
      requires 0 <= k < |order| && order[k] == handle && handle !in free
      requires target == merged[k := Block(merged[k].left, merged[k].right, true)]
      requires Tiling(target, memorySize) && Coalesced(target) && Increasing(target)
      requires Keeps(segments0, free0 + {handle})
      modifies this`elements, this`heapIndex, this`free
      ensures Valid() && Blocks() == target && handle in segments && free == old(free) + {handle}
      ensures Keeps(segments0, free0 + {handle})
    {
      KeepsRelease(segments0, free0, segments, free, handle);
      IndexOfUnique(order, handle, k);
      assert Increasing(merged) by {
        forall a, b | 0 <= a < b < |merged| ensures Before(merged, a, b) {
          assert Before(target, a, b);
        }
      }
      AllDistinct();
      ghost var allocatedFree := free;
      assert handle in segments && handle in heapIndex;
      Push(handle);
      ViewMark(order, segments, allocatedFree, free, handle);
    }
  }

  // ---------------------------------------------------------------------------
  // The query log

  /** The position of the block that starts at `left`, or -1 when there is none. */
  function FindBlock(blocks: seq<Block>, left: int): (k: int)
    ensures -1 <= k < |blocks|
    ensures k >= 0 ==> blocks[k].left == left
    ensures k == -1 ==> forall i :: 0 <= i < |blocks| ==> blocks[i].left != left
    decreases |blocks|
  {
    if |blocks| == 0 then -1
    else if blocks[|blocks| - 1].left == left then |blocks| - 1
    else FindBlock(blocks[..|blocks| - 1], left)
  }

  /** `AllocationQuery` or `FreeQuery`, as `MemoryManagerQuery` wraps them. */
  datatype Query = AllocationQuery(allocationSize: int) | FreeQuery(allocationQueryIndex: int)

  /** `MemoryManagerAllocationResponse`. */
  datatype Response = Response(success: bool, position: int)

  /** The range of `int`, the type the numbers of the log are read into. */
  const INT_MIN: int := -0x8000_0000
  const INT_MAX: int := 0x7fff_ffff
  /** `size_t` arithmetic is modulo 2^64. */
  const SIZE_T_MODULUS: int := 0x1_0000_0000_0000_0000

  /**
   * The decoding of one number of the log in `ReadMemoryManagerQueries`: a
   * positive number is an allocation of that many cells, any other number
   * `-i - 1` frees the allocation made by query `i`. Negating `INT_MIN`
   * overflows `int`, so that number is excluded.
   */
  function DecodeQuery(number: int): (q: Query)
    requires INT_MIN < number <= INT_MAX
    ensures q.AllocationQuery? <==> number > 0
    ensures q.AllocationQuery? ==> 1 <= q.allocationSize <= INT_MAX
    ensures q.FreeQuery? ==> 0 <= q.allocationQueryIndex < SIZE_T_MODULUS
  {
    if number > 0 then AllocationQuery(number) else FreeQuery((-number - 1) % SIZE_T_MODULUS)
  }

  /** The number that stands for a query in the log. */
  function EncodeQuery(q: Query): int {
    match q
    case AllocationQuery(size) => size
    case FreeQuery(index) => -index - 1
  }

  /** Every allocation of 1..INT_MAX cells and every free of query 0..INT_MAX - 1 survives encoding and decoding. */
  lemma DecodeEncode(q: Query)
    requires q.AllocationQuery? ==> 1 <= q.allocationSize <= INT_MAX
    requires q.FreeQuery? ==> 0 <= q.allocationQueryIndex < INT_MAX
    ensures INT_MIN < EncodeQuery(q) <= INT_MAX && DecodeQuery(EncodeQuery(q)) == q
  {
  }

  /** Every nonzero number of the log is the encoding of what it decodes to. */
  lemma EncodeDecode(number: int)
    requires INT_MIN < number <= INT_MAX && number != 0
    ensures EncodeQuery(DecodeQuery(number)) == number
  {
  }

  /** The number 0 wraps around to the largest `size_t`, an index no query of the log can have. */
  lemma DecodeZero()
    ensures DecodeQuery(0) == FreeQuery(SIZE_T_MODULUS - 1)
  {
  }

  /**
   * What the log must satisfy: allocations ask for at least one cell, and
   * every free names an earlier query that no other free names.
   */
  ghost predicate WellFormedLog(queries: seq<Query>) {
    && (forall p :: 0 <= p < |queries| && queries[p].AllocationQuery? ==> queries[p].allocationSize >= 1)
    && (forall p :: 0 <= p < |queries| && queries[p].FreeQuery? ==> 0 <= queries[p].allocationQueryIndex < p)
    && (forall p, p' :: 0 <= p < p' < |queries| && queries[p].FreeQuery? && queries[p'].FreeQuery? ==>
          queries[p].allocationQueryIndex != queries[p'].allocationQueryIndex)
  }

  /**
   * The replay on blocks: the blocks, the `left` of the allocation each query
   * made (-1 where it made none, the `undefined_handle()` of
   * `segments_iterators`), and the responses so far.
   */
  datatype Replayed = Replayed(blocks: seq<Block>, lefts: seq<int>, responses: seq<Response>)

  /** One query of the loop in `RunMemoryManager`, on blocks. */
  function ReplayStep(st: Replayed, q: Query, memorySize: int): (r: Replayed)
    requires Tiling(st.blocks, memorySize) && Coalesced(st.blocks)
    requires q.AllocationQuery? ==> q.allocationSize >= 1
    ensures Tiling(r.blocks, memorySize) && Coalesced(r.blocks) && |r.lefts| == |st.lefts| + 1
  {
    TilingIncreasing(st.blocks, memorySize);
    match q
    case AllocationQuery(size) =>
      AllocateKeepsLayout(st.blocks, memorySize, size);
      var a := AllocateSpec(st.blocks, size);
      if a.success then Replayed(a.blocks, st.lefts + [a.position], st.responses + [Response(true, a.position)])
      else Replayed(st.blocks, st.lefts + [-1], st.responses + [Response(false, 0)])
    case FreeQuery(t) =>
      var k := if 0 <= t < |st.lefts| && st.lefts[t] != -1 then FindBlock(st.blocks, st.lefts[t]) else -1;
      if k >= 0 && !st.blocks[k].free then
        FreeKeepsLayout(st.blocks, memorySize, k);
        Replayed(FreeSpec(st.blocks, k), st.lefts + [-1], st.responses)
      else
        Replayed(st.blocks, st.lefts + [-1], st.responses)
  }

  /** The replay of a log from a manager of `memorySize` cells. */
  function ReplayLog(memorySize: int, queries: seq<Query>): (r: Replayed)
    requires memorySize >= 1
    requires forall p :: 0 <= p < |queries| && queries[p].AllocationQuery? ==> queries[p].allocationSize >= 1
    ensures Tiling(r.blocks, memorySize) && Coalesced(r.blocks) && |r.lefts| == |queries|
    decreases |queries|
  {
    if |queries| == 0 then
      assert Tiles([Block(1, memorySize + 1, true)], 1, memorySize + 1);
      Replayed([Block(1, memorySize + 1, true)], [], [])
    else
      var n := |queries| - 1;
      ReplayStep(ReplayLog(memorySize, queries[..n]), queries[n], memorySize)
  }


  /** In a tiling every block lies within the cells `[1, memorySize + 1)`. */
  lemma BlockBounds(blocks: seq<Block>, memorySize: int, k: int)
    requires Tiling(blocks, memorySize) && 0 <= k < |blocks|
    ensures 1 <= blocks[k].left < blocks[k].right <= memorySize + 1
  {
    if k > 0 {
      TilesGap(blocks, 1, memorySize + 1, 0, k);
    }
    if k < |blocks| - 1 {
      TilesGap(blocks, 1, memorySize + 1, k, |blocks| - 1);
    }
  }

  /** A successful allocation hands out cells `[position, position + size)` of memory. */
  lemma AllocatePosition(blocks: seq<Block>, memorySize: int, size: int)
    requires Tiling(blocks, memorySize) && size >= 1
    ensures Increasing(blocks)
    ensures AllocateSpec(blocks, size).success ==>
      1 <= AllocateSpec(blocks, size).position && AllocateSpec(blocks, size).position + size <= memorySize + 1
  {
    TilingIncreasing(blocks, memorySize);
    var b := BestFree(blocks);
    if AllocateSpec(blocks, size).success {
      BlockBounds(blocks, memorySize, b);
    }
  }

  /** The number of allocation queries in a log. */
  function CountAllocations(queries: seq<Query>): nat
    decreases |queries|
  {
    if |queries| == 0 then 0
    else CountAllocations(queries[..|queries| - 1]) + (if queries[|queries| - 1].AllocationQuery? then 1 else 0)
  }

  /** Every success names a position inside memory; every failure names position 0. */
  ghost predicate InMemory(responses: seq<Response>, memorySize: int) {
    forall x :: 0 <= x < |responses| ==>
      (if responses[x].success then 1 <= responses[x].position <= memorySize else responses[x].position == 0)
  }

  /** One query adds a response exactly when it is an allocation, and that response lies in memory. */
  lemma StepResponses(st: Replayed, q: Query, memorySize: int)
    requires Tiling(st.blocks, memorySize) && Coalesced(st.blocks)
    requires q.AllocationQuery? ==> q.allocationSize >= 1
    requires InMemory(st.responses, memorySize)
    ensures var r := ReplayStep(st, q, memorySize).responses;
      |r| == |st.responses| + (if q.AllocationQuery? then 1 else 0) && InMemory(r, memorySize)
  {
    if q.AllocationQuery? {
      AllocatePosition(st.blocks, memorySize, q.allocationSize);
    }
  }

  /**
   * The replay answers every allocation query and no free query, a success
   * with a position inside memory, a failure with position 0.
   */
  lemma {:induction false} ReplayResponses(memorySize: int, queries: seq<Query>)
    requires memorySize >= 1
    requires forall p :: 0 <= p < |queries| && queries[p].AllocationQuery? ==> queries[p].allocationSize >= 1
    ensures var r := ReplayLog(memorySize, queries).responses;
      && |r| == CountAllocations(queries)
      && forall x :: 0 <= x < |r| ==> (if r[x].success then 1 <= r[x].position <= memorySize else r[x].position == 0)
    decreases |queries|
  {
    if |queries| > 0 {
      var n := |queries| - 1;
      ReplayResponses(memorySize, queries[..n]);
      var st := ReplayLog(memorySize, queries[..n]);
      assert InMemory(st.responses, memorySize);
      StepResponses(st, queries[n], memorySize);
      assert ReplayLog(memorySize, queries).responses == ReplayStep(st, queries[n], memorySize).responses;
    }
  }

  /** No free query among the first `n` of the log names query `t`. */
  ghost predicate NotFreed(queries: seq<Query>, n: int, t: int) {
    forall p :: 0 <= p < n && p < |queries| && queries[p].FreeQuery? ==> queries[p].allocationQueryIndex != t
  }

  /** Entry `t` of `segments_iterators` is a handle that no free query has released yet. */
  ghost predicate Live(queries: seq<Query>, handles: seq<Handle>, t: int)
    requires 0 <= t < |handles|
  {
    handles[t] != UNDEFINED_HANDLE && NotFreed(queries, |handles|, t)
  }

  /**
   * How `segments_iterators` follows the replay: an entry is undefined
   * exactly where the replay recorded no allocation, and every live handle is
   * a distinct allocated list node starting where the replay's allocation did.
   */
  ghost predicate Tracked(queries: seq<Query>, segments: map<Handle, MemorySegment>, free: set<Handle>,
                          handles: seq<Handle>, lefts: seq<int>) {
    && |handles| == |lefts| <= |queries|
    && (forall t :: 0 <= t < |handles| ==> (handles[t] == UNDEFINED_HANDLE <==> lefts[t] == -1))
    && (forall t :: 0 <= t < |handles| && Live(queries, handles, t) ==>
          handles[t] in segments && handles[t] !in free && segments[handles[t]].left == lefts[t])
    && (forall t, t' :: 0 <= t < t' < |handles| && Live(queries, handles, t) && Live(queries, handles, t') ==>
          handles[t] != handles[t'])
  }

  /** An allocation query keeps the handles tracked. */
  lemma TrackedAllocate(queries: seq<Query>, segments0: map<Handle, MemorySegment>, free0: set<Handle>,
                        segments: map<Handle, MemorySegment>, free: set<Handle>,
                        handles: seq<Handle>, lefts: seq<int>, handle: Handle, left: int)
    requires WellFormedLog(queries) && Tracked(queries, segments0, free0, handles, lefts)
    requires |handles| < |queries| && queries[|handles|].AllocationQuery?
    requires KeepsOf(segments0, free0, segments, free)
    requires handle == UNDEFINED_HANDLE <==> left == -1
    requires handle != UNDEFINED_HANDLE ==>
      handle !in segments0 && handle in segments && handle !in free && segments[handle].left == left
    ensures Tracked(queries, segments, free, handles + [handle], lefts + [left])
  {
    var n := |handles|;
    var hs, ls := handles + [handle], lefts + [left];
    forall t | 0 <= t < n + 1 && Live(queries, hs, t)
      ensures hs[t] in segments && hs[t] !in free && segments[hs[t]].left == ls[t]
    {
      if t < n {
        assert Live(queries, handles, t);
      }
    }
    forall t, t' | 0 <= t < t' < n + 1 && Live(queries, hs, t) && Live(queries, hs, t')
      ensures hs[t] != hs[t']
    {
      assert Live(queries, handles, t);
      if t' < n {
        assert Live(queries, handles, t');
      }
    }
  }

  /** A free query for query `t` keeps the handles tracked. */
  lemma TrackedFree(queries: seq<Query>, segments0: map<Handle, MemorySegment>, free0: set<Handle>,
                    segments: map<Handle, MemorySegment>, free: set<Handle>,
                    handles: seq<Handle>, lefts: seq<int>, t: int)
    requires WellFormedLog(queries) && Tracked(queries, segments0, free0, handles, lefts)
    requires |handles| < |queries| && queries[|handles|] == FreeQuery(t) && 0 <= t < |handles|
    requires handles[t] != UNDEFINED_HANDLE ==> KeepsOf(segments0, free0 + {handles[t]}, segments, free)
    requires handles[t] == UNDEFINED_HANDLE ==> segments == segments0 && free == free0
    ensures Tracked(queries, segments, free, handles + [UNDEFINED_HANDLE], lefts + [-1])
  {
    var n := |handles|;
    var hs, ls := handles + [UNDEFINED_HANDLE], lefts + [-1];
    forall u | 0 <= u < n + 1 && Live(queries, hs, u)
      ensures hs[u] in segments && hs[u] !in free && segments[hs[u]].left == ls[u]
    {
      assert u != t && u < n;
      assert Live(queries, handles, u);
      if handles[t] != UNDEFINED_HANDLE {
        assert Live(queries, handles, t);
        assert handles[u] != handles[t];
      }
    }
    forall u, u' | 0 <= u < u' < n + 1 && Live(queries, hs, u) && Live(queries, hs, u')
      ensures hs[u] != hs[u']
    {
      assert Live(queries, handles, u) && Live(queries, handles, u');
    }
  }

  /** A free query of a well-formed log names an earlier query that is not yet released. */
  lemma FreeTargetLive(queries: seq<Query>, n: int)
    requires WellFormedLog(queries) && 0 <= n < |queries| && queries[n].FreeQuery?
    ensures 0 <= queries[n].allocationQueryIndex < n && NotFreed(queries, n, queries[n].allocationQueryIndex)
  {
  }

  /** The queries of the log that no free query of it names. */
  ghost function Alive(queries: seq<Query>): set<int> {
    set t | 0 <= t < |queries| && NotFreed(queries, |queries|, t)
  }

  /** Every allocated block starts where the recorded allocation of some query in `alive` did. */
  ghost predicate AllocatedAlive(blocks: seq<Block>, lefts: seq<int>, alive: set<int>) {
    forall i :: 0 <= i < |blocks| && !blocks[i].free ==>
      exists t :: t in alive && 0 <= t < |lefts| && lefts[t] == blocks[i].left
  }

  /** Allocated block `i` is covered by query `t`. */
  ghost predicate AllocatedAliveBy(blocks: seq<Block>, lefts: seq<int>, alive: set<int>, i: int, t: int)
    requires 0 <= i < |blocks|
  {
    t in alive && 0 <= t < |lefts| && lefts[t] == blocks[i].left
  }

  /** Query `t0`, when it holds an allocation, starts no allocated block. */
  ghost predicate StartsNoAllocated(blocks: seq<Block>, lefts: seq<int>, t0: int) {
    forall i :: 0 <= i < |blocks| && !blocks[i].free && 0 <= t0 < |lefts| ==> blocks[i].left != lefts[t0]
  }

  /** Covering blocks is kept when more queries are alive and more lefts are recorded. */
  lemma AliveGrow(blocks: seq<Block>, lefts: seq<int>, alive: set<int>, lefts': seq<int>, alive': set<int>)
    requires AllocatedAlive(blocks, lefts, alive) && alive <= alive' && lefts <= lefts'
    ensures AllocatedAlive(blocks, lefts', alive')
  {
    forall i | 0 <= i < |blocks| && !blocks[i].free
      ensures exists t :: t in alive' && 0 <= t < |lefts'| && lefts'[t] == blocks[i].left
    {
      var t :| t in alive && 0 <= t < |lefts| && lefts[t] == blocks[i].left;
      assert lefts'[t] == lefts[t];
    }
  }

  /** Carving the best free block covers the new allocated block by the allocating query. */
  lemma AliveCarve(blocks: seq<Block>, lefts: seq<int>, alive: set<int>, b: int, size: int)
    requires AllocatedAlive(blocks, lefts, alive) && 0 <= b < |blocks| && blocks[b].free
    ensures AllocatedAlive(Replace(blocks, b, b, CarvedBlocks(blocks[b], size)), lefts + [blocks[b].left], alive + {|lefts|})
  {
    var middle := CarvedBlocks(blocks[b], size);
    var r := Replace(blocks, b, b, middle);
    var lefts', alive' := lefts + [blocks[b].left], alive + {|lefts|};
    ReplaceAt(blocks, b, b, middle);
    forall i | 0 <= i < |r| && !r[i].free
      ensures exists t :: t in alive' && 0 <= t < |lefts'| && lefts'[t] == r[i].left
    {
      if i == b {
        assert AllocatedAliveBy(r, lefts', alive', i, |lefts|);
      } else {
        var j := if i < b then i else i - |middle| + 1;
        assert r[i] == blocks[j] && !blocks[j].free;
        var t :| t in alive && 0 <= t < |lefts| && lefts[t] == blocks[j].left;
        assert AllocatedAliveBy(r, lefts', alive', i, t);
      }
    }
  }

  /** Freeing allocated block `k` of query `t0` leaves the other allocated blocks covered without `t0`. */
  lemma AliveFree(blocks: seq<Block>, lefts: seq<int>, alive: set<int>, k: int, t0: int)
    requires AllocatedAlive(blocks, lefts, alive) && Increasing(blocks)
    requires 0 <= k < |blocks| && !blocks[k].free && 0 <= t0 < |lefts| && lefts[t0] == blocks[k].left
    ensures AllocatedAlive(FreeSpec(blocks, k), lefts, alive - {t0})
  {
    var lo := if k > 0 && blocks[k - 1].free then k - 1 else k;
    var hi := if k + 1 < |blocks| && blocks[k + 1].free then k + 1 else k;
    var middle := [Block(blocks[lo].left, blocks[hi].right, true)];
    var r := FreeSpec(blocks, k);
    assert r == Replace(blocks, lo, hi, middle);
    ReplaceAt(blocks, lo, hi, middle);
    forall i | 0 <= i < |r| && !r[i].free
      ensures exists t :: t in alive - {t0} && 0 <= t < |lefts| && lefts[t] == r[i].left
    {
      var j := if i < lo then i else i + (hi - lo);
      assert r[i] == blocks[j] && j != k;
      assert Before(blocks, j, k) || Before(blocks, k, j);
      var t :| t in alive && 0 <= t < |lefts| && lefts[t] == blocks[j].left;
      assert AllocatedAliveBy(r, lefts, alive - {t0}, i, t);
    }
  }

  /** Dropping a query that starts no allocated block keeps the blocks covered. */
  lemma AliveDrop(blocks: seq<Block>, lefts: seq<int>, alive: set<int>, t0: int)
    requires AllocatedAlive(blocks, lefts, alive) && StartsNoAllocated(blocks, lefts, t0)
    ensures AllocatedAlive(blocks, lefts, alive - {t0})
  {
    forall i | 0 <= i < |blocks| && !blocks[i].free
      ensures exists t :: t in alive - {t0} && 0 <= t < |lefts| && lefts[t] == blocks[i].left
    {
      var t :| t in alive && 0 <= t < |lefts| && lefts[t] == blocks[i].left;
      assert AllocatedAliveBy(blocks, lefts, alive - {t0}, i, t);
    }
  }

  /** The queries alive after one more query of a well-formed log. */
  lemma AliveNext(queries: seq<Query>)
    requires WellFormedLog(queries) && |queries| > 0
    ensures var n := |queries| - 1;
      queries[n].AllocationQuery? ==> Alive(queries) == Alive(queries[..n]) + {n}
    ensures var n := |queries| - 1;
      queries[n].FreeQuery? ==> Alive(queries[..n]) - {queries[n].allocationQueryIndex} <= Alive(queries)
  {
    var n := |queries| - 1;
    var prefix := queries[..n];
    assert forall p :: 0 <= p < n ==> prefix[p] == queries[p];
    if queries[n].AllocationQuery? {
      forall t ensures t in Alive(queries) <==> t in Alive(prefix) + {n} {
        if t == n {
          assert NotFreed(queries, |queries|, t);
        }
      }
    }
  }

  /** One query of a well-formed log keeps every allocated block covered by an alive query. */
  lemma StepAlive(memorySize: int, queries: seq<Query>, st: Replayed)
    requires memorySize >= 1 && WellFormedLog(queries) && |queries| > 0
    requires Tiling(st.blocks, memorySize) && Coalesced(st.blocks) && |st.lefts| == |queries| - 1
    requires AllocatedAlive(st.blocks, st.lefts, Alive(queries[..|queries| - 1]))
    ensures var r := ReplayStep(st, queries[|queries| - 1], memorySize);
      AllocatedAlive(r.blocks, r.lefts, Alive(queries))
  {
    var n := |queries| - 1;
    var alive := Alive(queries[..n]);
    var r := ReplayStep(st, queries[n], memorySize);
    TilingIncreasing(st.blocks, memorySize);
    AliveNext(queries);
    match queries[n]
    case AllocationQuery(size) =>
      if AllocateSpec(st.blocks, size).success {
        AliveCarve(st.blocks, st.lefts, alive, BestFree(st.blocks), size);
      } else {
        AliveGrow(st.blocks, st.lefts, alive, r.lefts, Alive(queries));
      }
    case FreeQuery(t0) =>
      var k := if 0 <= t0 < |st.lefts| && st.lefts[t0] != -1 then FindBlock(st.blocks, st.lefts[t0]) else -1;
      if k >= 0 && !st.blocks[k].free {
        AliveFree(st.blocks, st.lefts, alive, k, t0);
        AliveGrow(r.blocks, st.lefts, alive - {t0}, r.lefts, Alive(queries));
      } else {
        forall i | 0 <= i < |st.blocks| && !st.blocks[i].free && 0 <= t0 < |st.lefts|
          ensures st.blocks[i].left != st.lefts[t0]
        {
          BlockBounds(st.blocks, memorySize, i);
          if k >= 0 && i != k {
            assert Before(st.blocks, i, k) || Before(st.blocks, k, i);
          }
        }
        AliveDrop(st.blocks, st.lefts, alive, t0);
        AliveGrow(r.blocks, st.lefts, alive - {t0}, r.lefts, Alive(queries));
      }
  }

  /** The replay of a well-formed log covers every allocated block by an alive query. */
  lemma {:induction false} ReplayAlive(memorySize: int, queries: seq<Query>)
    requires memorySize >= 1 && WellFormedLog(queries)
    ensures var r := ReplayLog(memorySize, queries);
      AllocatedAlive(r.blocks, r.lefts, Alive(queries))
    decreases |queries|
  {
    if |queries| > 0 {
      var n := |queries| - 1;
      assert WellFormedLog(queries[..n]);
      ReplayAlive(memorySize, queries[..n]);
      StepAlive(memorySize, queries, ReplayLog(memorySize, queries[..n]));
    }
  }

  /**
   * Freeing every allocation that succeeded returns memory to one free
   * segment over all of `[1, memorySize + 1)`, whatever the order of the frees.
   */
  lemma ReplayFreesAll(memorySize: int, queries: seq<Query>)
    requires memorySize >= 1 && WellFormedLog(queries)
    requires forall t :: 0 <= t < |queries| && ReplayLog(memorySize, queries).lefts[t] != -1 ==>
      !NotFreed(queries, |queries|, t)
    ensures ReplayLog(memorySize, queries).blocks == [Block(1, memorySize + 1, true)]
  {
    var st := ReplayLog(memorySize, queries);
    ReplayAlive(memorySize, queries);
    forall i | 0 <= i < |st.blocks| ensures st.blocks[i].free {
      BlockBounds(st.blocks, memorySize, i);
    }
    AllFreeIsWhole(st.blocks, memorySize);
  }

  /** Replaying one more query of the log is one `ReplayStep`. */
  lemma ReplayLogNext(memorySize: int, queries: seq<Query>, n: int)
    requires memorySize >= 1 && WellFormedLog(queries) && 0 <= n < |queries|
    ensures ReplayLog(memorySize, queries[..n + 1]) == ReplayStep(ReplayLog(memorySize, queries[..n]), queries[n], memorySize)
  {
    assert queries[..n + 1][..n] == queries[..n];
  }

  /**
   * The state of the loop of `RunMemoryManager` after `n` queries: the
   * manager holds the replay's blocks, the responses are the replay's, and
   * `segments_iterators` is tracked.
   */
  ghost predicate Replaying(manager: MemoryManager, memorySize: int, queries: seq<Query>, n: int,
                            handles: seq<Handle>, responses: seq<Response>)
    reads manager
  {
    && memorySize >= 1 && WellFormedLog(queries) && 0 <= n <= |queries| && |handles| == n
    && manager.Valid() && manager.memorySize == memorySize
    && var st := ReplayLog(memorySize, queries[..n]);
    && manager.Blocks() == st.blocks && responses == st.responses
    && Tracked(queries, manager.segments, manager.free, handles, st.lefts)
  }

  /** An allocation query of the loop of `RunMemoryManager`. */
  method AllocationStep(manager: MemoryManager, ghost memorySize: int, queries: seq<Query>, n: int,
                        handles: seq<Handle>, responses: seq<Response>)
    returns (handles': seq<Handle>, responses': seq<Response>)
    requires Replaying(manager, memorySize, queries, n, handles, responses)
    requires n < |queries| && queries[n].AllocationQuery?
    modifies manager
    ensures Replaying(manager, memorySize, queries, n + 1, handles', responses')
  {
    ghost var st := ReplayLog(memorySize, queries[..n]);
    ghost var segments0, free0 := manager.segments, manager.free;
    ReplayLogNext(memorySize, queries, n);
    var size := queries[n].allocationSize;
    AllocatePosition(st.blocks, memorySize, size);
    var handle := manager.Allocate(size);
    ghost var left := -1;
    if handle == UNDEFINED_HANDLE {
      responses' := responses + [Response(false, 0)];
    } else {
      left := manager.segments[handle].left;
      responses' := responses + [Response(true, manager.segments[handle].left)];
    }
    TrackedAllocate(queries, segments0, free0, manager.segments, manager.free, handles, st.lefts, handle, left);
    handles' := handles + [handle];
  }

  /** A free query of the loop of `RunMemoryManager`. */
  method FreeStep(manager: MemoryManager, ghost memorySize: int, queries: seq<Query>, n: int,
                  handles: seq<Handle>, responses: seq<Response>)
    returns (handles': seq<Handle>)
    requires Replaying(manager, memorySize, queries, n, handles, responses)
    requires n < |queries| && queries[n].FreeQuery?
    modifies manager
    ensures Replaying(manager, memorySize, queries, n + 1, handles', responses)
  {
    ghost var st := ReplayLog(memorySize, queries[..n]);
    ghost var segments0, free0 := manager.segments, manager.free;
    ReplayLogNext(memorySize, queries, n);
    FreeTargetLive(queries, n);
    var t := queries[n].allocationQueryIndex;
    var handle := handles[t];
    if handle != UNDEFINED_HANDLE {
      assert Live(queries, handles, t);
      ReleaseLive(manager, memorySize, queries, n, handles, responses, t);
    }
    TrackedFree(queries, segments0, free0, manager.segments, manager.free, handles, st.lefts, t);
    handles' := handles + [UNDEFINED_HANDLE];
  }

  /** A free query of the loop of `RunMemoryManager` that names a live allocation: it is freed. */
  method ReleaseLive(manager: MemoryManager, ghost memorySize: int, ghost queries: seq<Query>, ghost n: int,
                     handles: seq<Handle>, ghost responses: seq<Response>, t: int)
    requires Replaying(manager, memorySize, queries, n, handles, responses)
    requires n < |queries| && queries[n] == FreeQuery(t) && 0 <= t < n && Live(queries, handles, t)
    modifies manager
    ensures manager.Valid() && manager.memorySize == memorySize
    ensures manager.Blocks() == ReplayStep(ReplayLog(memorySize, queries[..n]), queries[n], memorySize).blocks
    ensures KeepsOf(old(manager.segments), old(manager.free) + {handles[t]}, manager.segments, manager.free)
  {
    ghost var st := ReplayLog(memorySize, queries[..n]);
    var handle := handles[t];
    assert handle in manager.segments && handle !in manager.free && manager.segments[handle].left == st.lefts[t];
    manager.BlockOf(handle);
    ghost var k := IndexOf(manager.order, handle);
    ReplayFreeStep(st, t, memorySize, k);
    manager.Free(handle);
  }

  /** A free query whose allocation starts allocated block `k` frees that block. */
  lemma ReplayFreeStep(st: Replayed, t: int, memorySize: int, k: int)
    requires Tiling(st.blocks, memorySize) && Coalesced(st.blocks)
    requires 0 <= t < |st.lefts| && st.lefts[t] != -1 && k == FindBlock(st.blocks, st.lefts[t])
    requires k >= 0 && !st.blocks[k].free
    ensures ReplayStep(st, FreeQuery(t), memorySize).blocks == FreeSpec(st.blocks, k)
  {
  }

  /** A fresh manager, before any query of the log. */
  method Begin(memorySize: int, queries: seq<Query>) returns (manager: MemoryManager)
    requires memorySize >= 1 && WellFormedLog(queries)
    ensures fresh(manager) && Replaying(manager, memorySize, queries, 0, [], [])
  {
    manager := new MemoryManager(memorySize);
    assert queries[..0] == [];
  }

  /**
   * `RunMemoryManager`: replays the log on a fresh manager, answering each
   * allocation query and ignoring frees of failed allocations.
   */
  method RunMemoryManager(memorySize: int, queries: seq<Query>) returns (responses: seq<Response>)
    requires memorySize >= 1 && WellFormedLog(queries)
    ensures responses == ReplayLog(memorySize, queries).responses
  {
    var manager := Begin(memorySize, queries);
    var handles: seq<Handle> := [];
    responses := [];
    var n := 0;
    while n < |queries|
      invariant fresh(manager) && Replaying(manager, memorySize, queries, n, handles, responses)
    {
      if queries[n].AllocationQuery? {
        handles, responses := AllocationStep(manager, memorySize, queries, n, handles, responses);
      } else {
        handles := FreeStep(manager, memorySize, queries, n, handles, responses);
      }
      n := n + 1;
    }
    assert queries[..n] == queries;
  }

}
