/**
 * The longest chain of strictly dominating triples (algorithms/hw1/main.cpp).
 *
 * A triple strictly dominates another when each of its components is larger.
 * `GetMaxChain` fills a dynamic-programming table from the back: entry i is the
 * length of the longest chain that starts at triple i and continues through
 * later triples, each strictly dominating the one before.
 */
module DominatingChain {

  type Triple = t: seq<int> | |t| == 3 witness [0, 0, 0]

  /** `compare_triples(a, b)`: every component of `a` is strictly below the matching one of `b`. */
  predicate Less(a: Triple, b: Triple) {
    forall k :: 0 <= k < 3 ==> a[k] < b[k]
  }

  /** The source's loop over the components, returning false at the first one that is not smaller. */
  method CompareTriples(first: Triple, second: Triple) returns (r: bool)
    ensures r <==> Less(first, second)
    ensures r ==> first[0] < second[0] && first[1] < second[1] && first[2] < second[2]
  {
    for i := 0 to |first|
      invariant forall k :: 0 <= k < i ==> first[k] < second[k]
    {
      if first[i] >= second[i] {
        return false;
      }
    }
    return true;
  }

  lemma LessAt(a: Triple, b: Triple, k: nat)
    requires Less(a, b) && k < 3
    ensures a[k] < b[k]
  {
  }

  lemma LessIrreflexive(a: Triple)
    ensures !Less(a, a)
  {
    if Less(a, a) {
      LessAt(a, a, 0);
    }
  }

  lemma LessTransitive(a: Triple, b: Triple, c: Triple)
    requires Less(a, b) && Less(b, c)
    ensures Less(a, c)
  {
    forall k | 0 <= k < 3 ensures a[k] < c[k] {
      assert a[k] < b[k] && b[k] < c[k];
    }
  }

  /**
   * A chain: strictly increasing positions into `ts`, each triple strictly
   * dominating the one before.
   */
  ghost predicate IsChain(ts: seq<Triple>, c: seq<nat>) {
    && |c| >= 1
    && (forall k :: 0 <= k < |c| ==> c[k] < |ts|)
    && (forall k :: 0 <= k < |c| - 1 ==> c[k] < c[k + 1] && Less(ts[c[k]], ts[c[k + 1]]))
  }

  /** Reference value of `dynamics[i]`: one plus the best value among later dominating triples. */
  function Chain(ts: seq<Triple>, i: nat): (c: nat)
    requires i < |ts|
    ensures c >= 1
    decreases |ts| - i, |ts| - i + 1
  {
    ChainFrom(ts, i, i + 1)
  }

  /** The best chain from `i` whose next element, if any, lies in `[lo, |ts|)`. */
  function ChainFrom(ts: seq<Triple>, i: nat, lo: nat): (c: nat)
    requires i < lo <= |ts|
    ensures c >= 1
    decreases |ts| - i, |ts| - lo
  {
    if lo == |ts| then 1
    else
      var rest := ChainFrom(ts, i, lo + 1);
      if Less(ts[i], ts[lo]) && Chain(ts, lo) + 1 > rest then Chain(ts, lo) + 1 else rest
  }

  lemma {:induction false} ChainFromBounds(ts: seq<Triple>, i: nat, lo: nat)
    requires i < lo <= |ts|
    ensures 1 <= ChainFrom(ts, i, lo) <= |ts| - i
    decreases |ts| - i, |ts| - lo
  {
    if lo < |ts| {
      ChainFromBounds(ts, i, lo + 1);
      ChainBounds(ts, lo);
    }
  }

  /** `1 <= dynamics[i] <= size - i`. */
  lemma {:induction false} ChainBounds(ts: seq<Triple>, i: nat)
    requires i < |ts|
    ensures 1 <= Chain(ts, i) <= |ts| - i
    decreases |ts| - i, |ts| - i + 1
  {
    ChainFromBounds(ts, i, i + 1);
  }

  /** A longest chain starting at `i`, built by following the choices `Chain` makes. */
  ghost function BestChain(ts: seq<Triple>, i: nat): (c: seq<nat>)
    requires i < |ts|
    decreases |ts| - i, |ts| - i + 1
  {
    BestChainFrom(ts, i, i + 1)
  }

  ghost function BestChainFrom(ts: seq<Triple>, i: nat, lo: nat): (c: seq<nat>)
    requires i < lo <= |ts|
    decreases |ts| - i, |ts| - lo
  {
    if lo == |ts| then [i]
    else
      var rest := ChainFrom(ts, i, lo + 1);
      if Less(ts[i], ts[lo]) && Chain(ts, lo) + 1 > rest then [i] + BestChain(ts, lo)
      else BestChainFrom(ts, i, lo + 1)
  }

  lemma {:induction false} BestChainFromIsChain(ts: seq<Triple>, i: nat, lo: nat)
    requires i < lo <= |ts|
    ensures var c := BestChainFrom(ts, i, lo);
      IsChain(ts, c) && c[0] == i && |c| == ChainFrom(ts, i, lo)
      && (|c| > 1 ==> lo <= c[1])
    decreases |ts| - i, |ts| - lo
  {
    if lo < |ts| {
      var rest := ChainFrom(ts, i, lo + 1);
      if Less(ts[i], ts[lo]) && Chain(ts, lo) + 1 > rest {
        BestChainIsChain(ts, lo);
        var t := BestChain(ts, lo);
        var c := [i] + t;
        forall k | 0 <= k < |c| - 1 ensures c[k] < c[k + 1] && Less(ts[c[k]], ts[c[k + 1]]) {
          if k > 0 {
            assert c[k] == t[k - 1] && c[k + 1] == t[k];
          }
        }
      } else {
        BestChainFromIsChain(ts, i, lo + 1);
      }
    }
  }

  /** The witness: some chain starting at `i` has exactly `Chain(ts, i)` elements. */
  lemma {:induction false} BestChainIsChain(ts: seq<Triple>, i: nat)
    requires i < |ts|
    ensures var c := BestChain(ts, i); IsChain(ts, c) && c[0] == i && |c| == Chain(ts, i)
    decreases |ts| - i, |ts| - i + 1
  {
    BestChainFromIsChain(ts, i, i + 1);
  }

  lemma {:induction false} ChainFromAtLeast(ts: seq<Triple>, i: nat, lo: nat, j: nat)
    requires i < lo <= j < |ts| && Less(ts[i], ts[j])
    ensures ChainFrom(ts, i, lo) >= Chain(ts, j) + 1
    decreases |ts| - lo
  {
    if lo < j {
      ChainFromAtLeast(ts, i, lo + 1, j);
    }
  }

  /** No chain starting at `i` is longer than `Chain(ts, i)`. */
  lemma {:induction false} ChainIsUpperBound(ts: seq<Triple>, c: seq<nat>)
    requires IsChain(ts, c)
    ensures |c| <= Chain(ts, c[0])
    decreases |c|
  {
    if |c| == 1 {
      ChainBounds(ts, c[0]);
    } else {
      var tail := c[1..];
      assert IsChain(ts, tail) by {
        forall k | 0 <= k < |tail| - 1 ensures tail[k] < tail[k + 1] && Less(ts[tail[k]], ts[tail[k + 1]]) {
          assert tail[k] == c[k + 1] && tail[k + 1] == c[k + 2];
        }
      }
      ChainIsUpperBound(ts, tail);
      ChainFromAtLeast(ts, c[0], c[0] + 1, c[1]);
    }
  }

  /**
   * `get_max_chain`: the largest entry of the table, which is the length of the
   * longest chain among the triples.
   */
  method GetMaxChain(triples: seq<Triple>) returns (r: int)
    requires |triples| > 0
    ensures 1 <= r <= |triples|
    ensures exists i :: 0 <= i < |triples| && r == Chain(triples, i)
    ensures forall i :: 0 <= i < |triples| ==> Chain(triples, i) <= r
  {
    var size := |triples|;
    var dynamics := new int[size];
    var i := size - 1;
    while i >= 0
      invariant -1 <= i < size
      invariant forall k :: i < k < size ==> dynamics[k] == Chain(triples, k)
    {
      dynamics[i] := 1;
      var j := size - 1;
      while j > i
        invariant i <= j < size
        invariant dynamics[i] == ChainFrom(triples, i, j + 1)
        invariant forall k :: i < k < size ==> dynamics[k] == Chain(triples, k)
      {
        var less := CompareTriples(triples[i], triples[j]);
        if less && dynamics[j] + 1 > dynamics[i] {
          dynamics[i] := dynamics[j] + 1;
        }
        j := j - 1;
      }
      i := i - 1;
    }
    r := dynamics[0];
    var best := 0;
    for k := 1 to size
      invariant 0 <= best < size && r == dynamics[best]
      invariant forall m :: 0 <= m < k ==> dynamics[m] <= r
    {
      if dynamics[k] > r {
        r, best := dynamics[k], k;
      }
    }
    ChainBounds(triples, best);
  }

  /** The result of `GetMaxChain` is the length of a longest chain: one exists, and none is longer. */
  lemma LongestChainLength(ts: seq<Triple>, r: int)
    requires |ts| > 0
    requires exists i :: 0 <= i < |ts| && r == Chain(ts, i)
    requires forall i :: 0 <= i < |ts| ==> Chain(ts, i) <= r
    ensures exists c :: IsChain(ts, c) && |c| == r
    ensures forall c :: IsChain(ts, c) ==> |c| <= r
  {
    var i :| 0 <= i < |ts| && r == Chain(ts, i);
    BestChainIsChain(ts, i);
    forall c | IsChain(ts, c) ensures |c| <= r {
      ChainIsUpperBound(ts, c);
    }
  }
}
