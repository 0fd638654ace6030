/**
 * The most effective solidary football team (algorithms/football_team/main.cpp).
 *
 * Players are sorted by efficiency with a randomised quicksort over a Hoare
 * partition; a sliding window then walks the sorted players, keeping the
 * window solidary (no player more effective than the two weakest together)
 * and remembering the window with the largest total efficiency.
 */
module FootballTeam {

  datatype Player = Player(number: int, efficiency: int)

  /** Which of the two comparators a sort uses. */
  datatype Key = Efficiency | Number

  /** `ComparePlayersEfficiency`: a strict order on efficiency, so a player never goes before itself. */
  function ComparePlayersEfficiency(first: Player, second: Player): (r: bool)
    ensures r ==> first != second
    ensures r ==> first.efficiency != second.efficiency
  {
    first.efficiency < second.efficiency
  }

  /** `ComparePlayersNumber`: a strict order on numbers, so a player never goes before itself. */
  function ComparePlayersNumber(first: Player, second: Player): (r: bool)
    ensures r ==> first != second
    ensures r ==> first.number != second.number
  {
    first.number < second.number
  }

  function KeyOf(key: Key, p: Player): int {
    match key
    case Efficiency => p.efficiency
    case Number => p.number
  }

  /** The comparator the sort was instantiated with: "less than" on its key. */
  predicate Less(key: Key, first: Player, second: Player) {
    KeyOf(key, first) < KeyOf(key, second)
  }

  /** `Less` is `ComparePlayersEfficiency` or `ComparePlayersNumber`, as the key says. */
  lemma LessIsComparator(key: Key, first: Player, second: Player)
    ensures Less(Efficiency, first, second) <==> ComparePlayersEfficiency(first, second)
    ensures Less(Number, first, second) <==> ComparePlayersNumber(first, second)
  {
  }

  /** `[begin, end)` is non-decreasing under the comparator. */
  ghost predicate SortedBy(s: seq<Player>, begin: int, end: int, key: Key)
    requires 0 <= begin <= end <= |s|
  {
    forall i, j {:trigger KeyOf(key, s[i]), KeyOf(key, s[j])} :: begin <= i < j < end ==> KeyOf(key, s[i]) <= KeyOf(key, s[j])
  }

  // ---------------------------------------------------------------------------
  // Partition and QuickSort

  /** `std::iter_swap`. */
  method Swap(a: array<Player>, i: int, j: int)
    requires 0 <= i < a.Length && 0 <= j < a.Length
    modifies a
    ensures a[..] == old(a[..])[i := old(a[j])][j := old(a[i])]
  {
    a[i], a[j] := a[j], a[i];
  }

  /** A swap inside `[begin, end)` keeps the range a permutation and everything outside it. */
  lemma SwapInRange(s: seq<Player>, i: int, j: int, begin: int, end: int)
    requires 0 <= begin <= i < end <= |s| && begin <= j < end
    ensures var t := s[i := s[j]][j := s[i]];
      && t[..begin] == s[..begin] && t[end..] == s[end..]
      && multiset(t[begin..end]) == multiset(s[begin..end])
  {
    SwapOutside(s, i, j, begin, end);
    SwapPermutes(s, i, j, begin, end);
  }

  /** A swap inside `[begin, end)` leaves the rest of the sequence alone. */
  lemma SwapOutside(s: seq<Player>, i: int, j: int, begin: int, end: int)
    requires 0 <= begin <= i < end <= |s| && begin <= j < end
    ensures var t := s[i := s[j]][j := s[i]];
      t[..begin] == s[..begin] && t[end..] == s[end..]
  {
    var t := s[i := s[j]][j := s[i]];
    assert forall k :: 0 <= k < begin ==> t[..begin][k] == s[..begin][k];
    assert forall k :: 0 <= k < |s| - end ==> t[end..][k] == s[end..][k];
  }

  /** A swap inside `[begin, end)` permutes that range. */
  lemma SwapPermutes(s: seq<Player>, i: int, j: int, begin: int, end: int)
    requires 0 <= begin <= i < end <= |s| && begin <= j < end
    ensures var t := s[i := s[j]][j := s[i]];
      multiset(t[begin..end]) == multiset(s[begin..end])
  {
    var t := s[i := s[j]][j := s[i]];
    var u := s[begin..end];
    assert t[begin..end] == u[i - begin := s[j]][j - begin := s[i]];
  }

  /**
   * `Partition`: a Hoare partition around the value at `pivot`. The range is
   * permuted; keys before the result are at most the pivot's, keys from the
   * result on are at least the pivot's.
   */
  method Partition(a: array<Player>, begin: int, end: int, pivot: int, key: Key) returns (p: int)
    requires 0 <= begin <= pivot < end <= a.Length
    modifies a
    ensures begin <= p < end
    ensures a[..begin] == old(a[..begin]) && a[end..] == old(a[end..])
    ensures multiset(a[begin..end]) == multiset(old(a[begin..end]))
    ensures forall k :: begin <= k < p ==> KeyOf(key, a[k]) <= KeyOf(key, old(a[pivot]))
    ensures forall k :: p <= k < end ==> KeyOf(key, a[k]) >= KeyOf(key, old(a[pivot]))
  {
    var pivotValue := a[pivot];
    var pv := KeyOf(key, pivotValue);
    ghost var orig := a[..];
    Swap(a, pivot, begin);
    PartedStart(orig, a[..], begin, end, pivot, key);
    var left, right := begin, end;
    // The source's `while (left <= right)`: the condition holds at every turn.
    while true
      invariant Parted(a[..], orig, begin, end, left, right, key, pv)
      decreases right - left
    {
      var met;
      ghost var s := a[..];
      left, right, met := PartitionTurn(a, begin, end, left, right, key, pivotValue, orig, pv);
      if met {
        assert a[..begin] == s[..begin] && a[end..] == s[end..] && a[begin..end] == s[begin..end];
        assert old(a[..begin]) == orig[..begin] && old(a[end..]) == orig[end..] && old(a[begin..end]) == orig[begin..end];
        return left;
      }
    }
  }

  /**
   * One turn of the loop of `Partition`: both scans, then either the range
   * is split at `left` (`met`) or the two out-of-place players are swapped.
   */
  method PartitionTurn(a: array<Player>, begin: int, end: int, left: int, right: int, key: Key, pivotValue: Player,
                       ghost orig: seq<Player>, ghost pv: int)
    returns (left': int, right': int, met: bool)
    requires pv == KeyOf(key, pivotValue) && Parted(a[..], orig, begin, end, left, right, key, pv)
    modifies a
    ensures met ==> a[..] == old(a[..]) && begin <= left' < end
    ensures met ==> forall k :: begin <= k < left' ==> KeyOf(key, a[k]) <= pv
    ensures met ==> forall k :: left' <= k < end ==> KeyOf(key, a[k]) >= pv
    ensures !met ==> Parted(a[..], orig, begin, end, left', right', key, pv) && right' - left' < right - left
  {
    ghost var s := a[..];
    ghost var sentinel := if left > begin then left - 1 else begin;
    ghost var stop := if right == end then begin else right;
    right' := SkipGreater(a, right - 1, key, pivotValue, sentinel);
    left' := SkipLess(a, left, key, pivotValue, stop);
    if !(left' < right') {
      PartedDone(s, orig, begin, end, left, right, left', right', key, pv);
      return left', right', true;
    }
    PartedSwap(s, orig, begin, end, left, right, left', right', key, pv);
    Swap(a, left', right');
    left', met := left' + 1, false;
  }

  /**
   * The state of `Partition` at the head of its loop: the range is a
   * permutation of the original one, keys before `left` are at most the
   * pivot's and keys from `right` on at least the pivot's. Before the first
   * turn the pivot sits at `begin`.
   */
  ghost predicate Parted(s: seq<Player>, orig: seq<Player>, begin: int, end: int, left: int, right: int, key: Key, pv: int) {
    && |s| == |orig| && 0 <= begin <= left <= right <= end <= |s| && begin < end
    && s[..begin] == orig[..begin] && s[end..] == orig[end..]
    && multiset(s[begin..end]) == multiset(orig[begin..end])
    && (forall k :: begin <= k < left ==> KeyOf(key, s[k]) <= pv)
    && (forall k :: right <= k < end ==> KeyOf(key, s[k]) >= pv)
    && ((right == end) == (left == begin))
    && (left == begin ==> KeyOf(key, s[begin]) == pv)
  }

  lemma PartedStart(orig: seq<Player>, s: seq<Player>, begin: int, end: int, pivot: int, key: Key)
    requires 0 <= begin <= pivot < end <= |orig| && s == orig[pivot := orig[begin]][begin := orig[pivot]]
    ensures Parted(s, orig, begin, end, begin, end, key, KeyOf(key, orig[pivot]))
  {
    SwapInRange(orig, pivot, begin, begin, end);
  }

  /** When the two scans meet, `left` splits the range. */
  lemma PartedDone(s: seq<Player>, orig: seq<Player>, begin: int, end: int, left: int, right: int, l: int, r: int, key: Key, pv: int)
    requires Parted(s, orig, begin, end, left, right, key, pv)
    requires (if left > begin then left - 1 else begin) <= r <= right - 1 && KeyOf(key, s[r]) <= pv
    requires forall k :: r < k <= right - 1 ==> pv < KeyOf(key, s[k])
    requires left <= l <= (if right == end then begin else right) && KeyOf(key, s[l]) >= pv
    requires forall k :: left <= k < l ==> KeyOf(key, s[k]) < pv
    requires !(l < r)
    ensures begin <= l < end
    ensures forall k :: begin <= k < l ==> KeyOf(key, s[k]) <= pv
    ensures forall k :: l <= k < end ==> KeyOf(key, s[k]) >= pv
  {
  }

  /** When the scans have not met, the swap extends both sides by one. */
  lemma PartedSwap(s: seq<Player>, orig: seq<Player>, begin: int, end: int, left: int, right: int, l: int, r: int, key: Key, pv: int)
    requires Parted(s, orig, begin, end, left, right, key, pv)
    requires (if left > begin then left - 1 else begin) <= r <= right - 1 && KeyOf(key, s[r]) <= pv
    requires forall k :: r < k <= right - 1 ==> pv < KeyOf(key, s[k])
    requires left <= l <= (if right == end then begin else right) && KeyOf(key, s[l]) >= pv
    requires forall k :: left <= k < l ==> KeyOf(key, s[k]) < pv
    requires l < r
    ensures Parted(s[l := s[r]][r := s[l]], orig, begin, end, l + 1, r, key, pv)
    ensures r - (l + 1) < right - left
  {
    SwapStep(s, l, r, begin, end, key, pv);
    var t := s[l := s[r]][r := s[l]];
    assert t[..begin] == s[..begin] && t[end..] == s[end..];
  }

  /** `while (comparator(pivot_value, *right)) --right;`, stopped by a sentinel key at most the pivot's. */
  method SkipGreater(a: array<Player>, right: int, key: Key, pivotValue: Player, ghost sentinel: int) returns (r: int)
    requires 0 <= sentinel <= right < a.Length && !Less(key, pivotValue, a[sentinel])
    ensures sentinel <= r <= right && !Less(key, pivotValue, a[r])
    ensures forall k :: r < k <= right ==> Less(key, pivotValue, a[k])
  {
    r := right;
    while Less(key, pivotValue, a[r])
      invariant sentinel <= r <= right
      invariant forall k :: r < k <= right ==> Less(key, pivotValue, a[k])
      decreases r
    {
      r := r - 1;
    }
  }

  /** `while (comparator(*left, pivot_value)) ++left;`, stopped by a sentinel key at least the pivot's. */
  method SkipLess(a: array<Player>, left: int, key: Key, pivotValue: Player, ghost stop: int) returns (l: int)
    requires 0 <= left <= stop < a.Length && !Less(key, a[stop], pivotValue)
    ensures left <= l <= stop && !Less(key, a[l], pivotValue)
    ensures forall k :: left <= k < l ==> Less(key, a[k], pivotValue)
  {
    l := left;
    while Less(key, a[l], pivotValue)
      invariant left <= l <= stop
      invariant forall k :: left <= k < l ==> Less(key, a[k], pivotValue)
      decreases stop - l
    {
      l := l + 1;
    }
  }

  /** The swap in `Partition` puts a small key at `left` and a large one at `right`. */
  lemma SwapStep(s: seq<Player>, left: int, right: int, begin: int, end: int, key: Key, pv: int)
    requires 0 <= begin <= left < right < end <= |s|
    requires forall k :: begin <= k < left ==> KeyOf(key, s[k]) <= pv
    requires forall k :: right < k < end ==> KeyOf(key, s[k]) >= pv
    requires KeyOf(key, s[left]) >= pv && KeyOf(key, s[right]) <= pv
    ensures var t := s[left := s[right]][right := s[left]];
      && t[..begin] == s[..begin] && t[end..] == s[end..]
      && multiset(t[begin..end]) == multiset(s[begin..end])
      && (forall k :: begin <= k < left + 1 ==> KeyOf(key, t[k]) <= pv)
      && (forall k :: right <= k < end ==> KeyOf(key, t[k]) >= pv)
  {
    SwapInRange(s, left, right, begin, end);
  }

  /**
   * `QuickSort`: sorts `[begin, end)` by the comparator. Each call that
   * partitions takes its pivot offset from the next draw; when the draws run
   * out the call stops and reports that it did not finish, which is the only
   * way it fails. The range is always left a permutation of itself and the
   * rest of the array is untouched.
   */
  method QuickSort(a: array<Player>, begin: int, end: int, key: Key, draws: seq<nat>) returns (rest: seq<nat>, done: bool)
    requires 0 <= begin <= end <= a.Length
    modifies a
    ensures |rest| <= |draws|
    ensures !done ==> rest == []
    ensures a[..begin] == old(a[..begin]) && a[end..] == old(a[end..])
    ensures multiset(a[begin..end]) == multiset(old(a[begin..end]))
    ensures done ==> SortedBy(a[..], begin, end, key)
    decreases end - begin, |draws|
  {
    if begin >= end - 1 {
      return draws, true;
    }
    if |draws| == 0 {
      return draws, false;
    }
    var pivot := begin + draws[0] % (end - begin);
    ghost var before := a[..];
    var p := Partition(a, begin, end, pivot, key);
    ghost var pv := KeyOf(key, before[pivot]);
    ghost var parted := a[..];
    var rest1, done1 := QuickSort(a, begin, p, key, draws[1..]);
    ghost var middle := a[..];
    var rest2, done2 := QuickSort(a, p, end, key, rest1);
    rest, done := rest2, done1 && done2;
    SortedHalves(parted, middle, a[..], begin, p, end, key, pv);
  }

  lemma BoundedPermutation(s: seq<Player>, t: seq<Player>, key: Key, bound: int, below: bool)
    requires multiset(s) == multiset(t)
    requires forall k :: 0 <= k < |s| ==> if below then KeyOf(key, s[k]) <= bound else KeyOf(key, s[k]) >= bound
    ensures forall k :: 0 <= k < |t| ==> if below then KeyOf(key, t[k]) <= bound else KeyOf(key, t[k]) >= bound
  {
    forall k | 0 <= k < |t|
      ensures if below then KeyOf(key, t[k]) <= bound else KeyOf(key, t[k]) >= bound
    {
      assert t[k] in multiset(s);
    }
  }

  /**
   * After the partition and the two recursive sorts: both halves kept their
   * contents, so the whole range is a permutation, and when both halves are
   * sorted so is the range.
   */
  lemma SortedHalves(parted: seq<Player>, middle: seq<Player>, final: seq<Player>, begin: int, p: int, end: int, key: Key, pv: int)
    requires 0 <= begin <= p < end <= |parted| == |middle| == |final|
    requires forall k :: begin <= k < p ==> KeyOf(key, parted[k]) <= pv
    requires forall k :: p <= k < end ==> KeyOf(key, parted[k]) >= pv
    requires middle[..begin] == parted[..begin] && middle[p..] == parted[p..]
    requires multiset(middle[begin..p]) == multiset(parted[begin..p])
    requires final[..p] == middle[..p] && final[end..] == middle[end..]
    requires multiset(final[p..end]) == multiset(middle[p..end])
    ensures final[..begin] == parted[..begin] && final[end..] == parted[end..]
    ensures multiset(final[begin..end]) == multiset(parted[begin..end])
    ensures SortedBy(middle, begin, p, key) && SortedBy(final, p, end, key) ==> SortedBy(final, begin, end, key)
  {
    assert final[..begin] == middle[..p][..begin];
    assert final[end..] == middle[end..];
    assert middle[end..] == middle[p..][end - p..];
    assert final[begin..p] == middle[begin..p] by {
      assert final[begin..p] == final[..p][begin..];
      assert middle[begin..p] == middle[..p][begin..];
    }
    assert middle[p..end] == parted[p..end] by {
      assert middle[p..end] == middle[p..][..end - p];
      assert parted[p..end] == parted[p..][..end - p];
    }
    assert parted[begin..end] == parted[begin..p] + parted[p..end];
    assert final[begin..end] == final[begin..p] + final[p..end];
    BoundedPermutation(parted[begin..p], final[begin..p], key, pv, true);
    BoundedPermutation(parted[p..end], final[p..end], key, pv, false);
    if SortedBy(middle, begin, p, key) && SortedBy(final, p, end, key) {
      forall i, j | begin <= i < j < end ensures KeyOf(key, final[i]) <= KeyOf(key, final[j]) {
        if j < p {
          assert final[i] == middle[i] && final[j] == middle[j];
        } else if p <= i {
        } else {
          assert final[i] == final[begin..p][i - begin];
          assert final[j] == final[p..end][j - p];
        }
      }
    }
  }

  // ---------------------------------------------------------------------------
  // Sums and solidarity

  /** The total efficiency of `s[l..r]`. */
  function Sum(s: seq<Player>, l: int, r: int): (total: int)
    requires 0 <= l <= r <= |s|
    ensures (forall k :: l <= k < r ==> s[k].efficiency >= 0) ==> total >= 0
    decreases r - l
  {
    if l == r then 0 else Sum(s, l, r - 1) + s[r - 1].efficiency
  }

  function SumOf(team: seq<Player>): int {
    Sum(team, 0, |team|)
  }

  lemma {:induction false} SumDropFirst(s: seq<Player>, l: int, r: int)
    requires 0 <= l < r <= |s|
    ensures Sum(s, l + 1, r) == Sum(s, l, r) - s[l].efficiency
    decreases r - l
  {
    if l + 1 < r {
      SumDropFirst(s, l, r - 1);
    }
  }

  lemma {:induction false} SumOfSlice(s: seq<Player>, l: int, r: int)
    requires 0 <= l <= r <= |s|
    ensures SumOf(s[l..r]) == Sum(s, l, r)
    decreases r - l
  {
    if l < r {
      SumOfSlice(s, l, r - 1);
      assert s[l..r][..r - l - 1] == s[l..r - 1];
      SumPrefix(s[l..r], r - l - 1);
    }
  }

  /** The sum of a prefix does not look past the prefix. */
  lemma {:induction false} SumPrefix(s: seq<Player>, n: int)
    requires 0 <= n <= |s|
    ensures Sum(s, 0, n) == Sum(s[..n], 0, n)
    decreases n
  {
    if n > 0 {
      SumPrefix(s, n - 1);
      SumPrefix(s[..n], n - 1);
      assert s[..n][..n - 1] == s[..n - 1];
    }
  }

  predicate NonNegative(s: seq<Player>) {
    forall k :: 0 <= k < |s| ==> s[k].efficiency >= 0
  }

  /** With non-negative efficiencies a sub-window sums to no more than its window. */
  lemma {:induction false} SumMonotone(s: seq<Player>, l: int, x: int, y: int, r: int)
    requires 0 <= l <= x <= y <= r <= |s| && NonNegative(s)
    ensures Sum(s, x, y) <= Sum(s, l, r)
    decreases (r - y) + (x - l)
  {
    if y < r {
      SumMonotone(s, l, x, y, r - 1);
    } else if l < x {
      SumMonotone(s, l + 1, x, y, r);
      SumDropFirst(s, l, r);
    }
  }

  /**
   * A window of sorted players is solidary when it has at most two players, or
   * the two weakest together are at least as effective as the strongest.
   */
  predicate Solidary(s: seq<Player>, l: int, r: int)
    requires 0 <= l <= r <= |s|
  {
    r - l <= 2 || s[l].efficiency + s[l + 1].efficiency >= s[r - 1].efficiency
  }

  /** No player of the team is more effective than any two others together. */
  ghost predicate SolidaryTeam(team: seq<Player>) {
    forall i, j, k :: 0 <= i < |team| && 0 <= j < |team| && 0 <= k < |team| && i != j && i != k && j != k ==>
      team[k].efficiency <= team[i].efficiency + team[j].efficiency
  }

  /** Two players of a sorted range, in order. */
  lemma SortedPair(s: seq<Player>, begin: int, end: int, key: Key, i: int, j: int)
    requires 0 <= begin <= i <= j < end <= |s| && SortedBy(s, begin, end, key)
    ensures KeyOf(key, s[i]) <= KeyOf(key, s[j])
  {
    if i < j {
      assert KeyOf(key, s[i]) <= KeyOf(key, s[j]);
    }
  }

  /** In a sorted solidary window, any player is at most any two others together. */
  lemma SolidaryTriple(s: seq<Player>, l: int, r: int, i: int, j: int, k: int)
    requires 0 <= l <= r <= |s| && SortedBy(s, l, r, Efficiency) && Solidary(s, l, r)
    requires 0 <= i < r - l && 0 <= j < r - l && 0 <= k < r - l && i != j && i != k && j != k
    ensures s[l + k].efficiency <= s[l + i].efficiency + s[l + j].efficiency
  {
    if i < j {
      SortedPair(s, l, r, Efficiency, l, l + i);
      SortedPair(s, l, r, Efficiency, l + 1, l + j);
    } else {
      SortedPair(s, l, r, Efficiency, l, l + j);
      SortedPair(s, l, r, Efficiency, l + 1, l + i);
    }
    SortedPair(s, l, r, Efficiency, l + k, r - 1);
  }

  /** On sorted players, `Solidary` is exactly the pairwise condition. */
  lemma SolidaryMeaning(s: seq<Player>, l: int, r: int)
    requires 0 <= l <= r <= |s| && SortedBy(s, l, r, Efficiency)
    ensures Solidary(s, l, r) <==> SolidaryTeam(s[l..r])
  {
    var team := s[l..r];
    if Solidary(s, l, r) {
      forall i, j, k | 0 <= i < |team| && 0 <= j < |team| && 0 <= k < |team| && i != j && i != k && j != k
        ensures team[k].efficiency <= team[i].efficiency + team[j].efficiency
      {
        assert team[i] == s[l + i] && team[j] == s[l + j] && team[k] == s[l + k];
        SolidaryTriple(s, l, r, i, j, k);
      }
    }
    if SolidaryTeam(team) && r - l > 2 {
      assert team[0] == s[l] && team[1] == s[l + 1] && team[r - l - 1] == s[r - 1];
    }
  }

  /** Dropping the weakest player keeps a sorted window solidary. */
  lemma SolidaryDropFirst(s: seq<Player>, l: int, r: int)
    requires 0 <= l < r <= |s| && SortedBy(s, 0, |s|, Efficiency) && Solidary(s, l, r)
    ensures Solidary(s, l + 1, r)
  {
    if r - (l + 1) > 2 {
      SortedPair(s, 0, |s|, Efficiency, l, l + 2);
    }
  }

  /** Once a sorted window is not solidary, no longer window from the same start is. */
  lemma NotSolidaryExtend(s: seq<Player>, l: int, r: int, r2: int)
    requires 0 <= l <= r <= r2 <= |s| && SortedBy(s, 0, |s|, Efficiency) && !Solidary(s, l, r)
    ensures !Solidary(s, l, r2)
  {
    SortedPair(s, 0, |s|, Efficiency, r - 1, r2 - 1);
  }

  /** Every solidary window that starts before `left` sums to at most `best`. */
  ghost predicate BeatenBefore(s: seq<Player>, left: int, best: int) {
    forall x, y :: 0 <= x < left && x < y <= |s| && Solidary(s, x, y) ==> Sum(s, x, y) <= best
  }

  // ---------------------------------------------------------------------------
  // BuildMostEffectiveSolidaryTeam

  /**
   * The window loop of `BuildMostEffectiveSolidaryTeam` over the sorted
   * players: `[bestLeft, bestRight)` is the best window seen and
   * `bestEfficiency` its total. On sorted input the window is solidary, and
   * with non-negative efficiencies no solidary window has a larger total.
   */
  method BestSolidaryWindow(s: seq<Player>) returns (bestLeft: int, bestRight: int, bestEfficiency: int)
    requires |s| > 0
    ensures 0 <= bestLeft < bestRight <= |s|
    ensures bestEfficiency == Sum(s, bestLeft, bestRight)
    ensures SortedBy(s, 0, |s|, Efficiency) ==> Solidary(s, bestLeft, bestRight)
    ensures SortedBy(s, 0, |s|, Efficiency) && NonNegative(s) ==>
      forall x, y :: 0 <= x < y <= |s| && Solidary(s, x, y) ==> Sum(s, x, y) <= bestEfficiency
  {
    ghost var sorted := SortedBy(s, 0, |s|, Efficiency);
    ghost var optimal := sorted && NonNegative(s);
    var left, right, efficiency := 0, 1, s[0].efficiency;
    bestLeft, bestRight, bestEfficiency := left, right, efficiency;
    while right < |s|
      invariant 0 <= left < right <= |s|
      invariant efficiency == Sum(s, left, right)
      invariant 0 <= bestLeft < bestRight <= |s| && bestEfficiency == Sum(s, bestLeft, bestRight)
      invariant sorted ==> Solidary(s, left, right) && Solidary(s, bestLeft, bestRight)
      invariant optimal ==> efficiency <= bestEfficiency && BeatenBefore(s, left, bestEfficiency)
      decreases 2 * |s| - left - right
    {
      var threshold := s[left].efficiency;
      if left + 1 < right {
        threshold := threshold + s[left + 1].efficiency;
      }
      if threshold >= s[right].efficiency || right - left < 2 {
        assert Solidary(s, left, right + 1);
        efficiency := efficiency + s[right].efficiency;
        right := right + 1;
        if efficiency > bestEfficiency {
          bestLeft, bestRight, bestEfficiency := left, right, efficiency;
        }
      } else {
        if optimal {
          ShrinkKeepsBest(s, left, right, efficiency, bestEfficiency);
        }
        if sorted {
          SolidaryDropFirst(s, left, right);
        }
        SumDropFirst(s, left, right);
        efficiency := efficiency - s[left].efficiency;
        left := left + 1;
      }
    }
    if optimal {
      forall x, y | 0 <= x < y <= |s| && Solidary(s, x, y) ensures Sum(s, x, y) <= bestEfficiency {
        if x >= left {
          SumMonotone(s, left, x, y, |s|);
        }
      }
    }
  }

  /**
   * The step that drops `s[left]`: the window cannot take `s[right]`, so no
   * solidary window from `left` reaches past `right`, and the shorter ones sum
   * to no more than the current window.
   */
  lemma ShrinkKeepsBest(s: seq<Player>, left: int, right: int, efficiency: int, best: int)
    requires 0 <= left < right < |s| && right - left >= 2
    requires s[left].efficiency + s[left + 1].efficiency < s[right].efficiency
    requires SortedBy(s, 0, |s|, Efficiency) && NonNegative(s)
    requires efficiency == Sum(s, left, right) && efficiency <= best
    requires BeatenBefore(s, left, best)
    ensures BeatenBefore(s, left + 1, best)
    ensures Sum(s, left + 1, right) <= best
  {
    assert !Solidary(s, left, right + 1);
    forall y | left < y <= |s| && Solidary(s, left, y) ensures Sum(s, left, y) <= best {
      if y > right {
        NotSolidaryExtend(s, left, right + 1, y);
      } else {
        SumMonotone(s, left, left, y, right);
      }
    }
    SumMonotone(s, left, left + 1, right, right);
  }

  /**
   * `BuildMostEffectiveSolidaryTeam`: sorts a copy of the players by
   * efficiency, then returns the best window of the sorted copy. `arranged`
   * is that sorted copy and `[left, right)` the window; `rest` are the draws
   * the sort left unused, and the sort fails only when it used them all.
   */
  method BuildMostEffectiveSolidaryTeam(players: seq<Player>, draws: seq<nat>)
    returns (team: seq<Player>, sorted: bool, rest: seq<nat>, ghost arranged: seq<Player>, ghost left: int, ghost right: int)
    requires |players| > 0
    ensures |rest| <= |draws| && (!sorted ==> rest == [])
    ensures multiset(arranged) == multiset(players) && |arranged| == |players|
    ensures 0 <= left < right <= |arranged| && team == arranged[left..right]
    ensures SumOf(team) == Sum(arranged, left, right)
    ensures sorted ==> SortedBy(arranged, 0, |arranged|, Efficiency)
    ensures sorted ==> Solidary(arranged, left, right) && SolidaryTeam(team)
    ensures sorted && NonNegative(players) ==>
      forall x, y :: 0 <= x < y <= |arranged| && Solidary(arranged, x, y) ==> Sum(arranged, x, y) <= SumOf(team)
  {
    var a := new Player[|players|](i requires 0 <= i < |players| => players[i]);
    assert a[0..a.Length] == players;
    rest, sorted := QuickSort(a, 0, a.Length, Efficiency, draws);
    assert a[0..a.Length] == a[..];
    var sortedPlayers := a[..];
    var bestLeft, bestRight, bestEfficiency := BestSolidaryWindow(sortedPlayers);
    team := sortedPlayers[bestLeft..bestRight];
    arranged, left, right := sortedPlayers, bestLeft, bestRight;
    SumOfSlice(arranged, left, right);
    if sorted {
      SolidaryMeaning(arranged, left, right);
    }
    if NonNegative(players) {
      forall k | 0 <= k < |arranged| ensures arranged[k].efficiency >= 0 {
        assert arranged[k] in multiset(players);
      }
    }
  }

  /** `CountSummaryEfficiency`: the loop that adds up the team's efficiencies. */
  method CountSummaryEfficiency(team: seq<Player>) returns (summary: int)
    ensures summary == SumOf(team)
  {
    summary := 0;
    for i := 0 to |team|
      invariant summary == Sum(team, 0, i)
    {
      summary := summary + team[i].efficiency;
    }
  }
}
