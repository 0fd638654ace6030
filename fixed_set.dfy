/**
 * A static set of integers with two-level perfect hashing
 * (algorithms/fixed_set/main.cpp).
 *
 * The first level hashes the n keys into n buckets and accepts its random
 * parameters only when the squared bucket sizes sum to at most 4n. Each
 * non-empty bucket of size s then gets a second table of s * s slots and
 * random parameters under which its keys do not collide; free slots hold
 * `NAN_VALUE`. The random parameters are an input sequence of draws here.
 */
module FixedSet {

  import opened Arithmetic

  const PRIME_NUMBER: int := 2147483323
  const NAN_VALUE: int := 1000000001
  /** The range of `int`, `[INT32_MIN, INT32_LIMIT)`. */
  const INT32_MIN: int := -0x8000_0000
  const INT32_LIMIT: int := 0x8000_0000
  /** The range of `int64_t` is `[-INT64_LIMIT, INT64_LIMIT)`. */
  const INT64_LIMIT: int := 0x8000_0000_0000_0000

  // ---------------------------------------------------------------------------
  // hash_function

  /**
   * C++ `a % b` for `b > 0`: the remainder of division truncated towards
   * zero, which has the sign of `a`. It differs from the Euclidean remainder
   * by `b` exactly when `a` is negative and not a multiple of `b`.
   */
  function CRem(a: int, b: int): (r: int)
    requires b > 0
    ensures -b < r < b
    ensures a >= 0 ==> r == a % b
    ensures a < 0 ==> r == if a % b == 0 then 0 else a % b - b
  {
    if a >= 0 then a % b
    else
      var q, s := (-a) / b, (-a) % b;
      assert -a == b * q + s;
      if s == 0 then
        DivUnique(a, b, -q, 0);
        0
      else
        DivUnique(a, b, -q - 1, b - s);
        -s
  }

  /**
   * `hash_function`: `((number % p) * first + second) % p % buckets` with
   * C++ remainders, moved into `[0, buckets)` when negative.
   */
  function Hash(number: int, numberOfBuckets: int, first: int, second: int): (r: int)
    requires numberOfBuckets > 0
    ensures 0 <= r < numberOfBuckets
  {
    var temp := CRem(number, PRIME_NUMBER) * first + second;
    var reduced := CRem(CRem(temp, PRIME_NUMBER), numberOfBuckets);
    if reduced < 0 then reduced + numberOfBuckets else reduced
  }

  /** The correction of a negative remainder makes the result the Euclidean residue. */
  lemma HashIsResidue(number: int, numberOfBuckets: int, first: int, second: int)
    requires numberOfBuckets > 0
    ensures Hash(number, numberOfBuckets, first, second)
         == CRem(CRem(number, PRIME_NUMBER) * first + second, PRIME_NUMBER) % numberOfBuckets
  {
  }

  /** `(m * k + x) % m == x % m`. */
  lemma ModAddMultiple(m: int, k: int, x: int)
    requires m > 0
    ensures (m * k + x) % m == x % m
  {
    assert x == m * (x / m) + x % m;
    assert m * k + x == m * (k + x / m) + x % m;
    DivUnique(m * k + x, m, k + x / m, x % m);
  }

  /**
   * For non-negative numbers and parameters the hash is the textbook
   * `((a * x + b) mod p) mod m` of a universal family.
   */
  lemma HashOfNonNegative(number: int, numberOfBuckets: int, first: int, second: int)
    requires numberOfBuckets > 0 && number >= 0 && first >= 0 && second >= 0
    ensures Hash(number, numberOfBuckets, first, second)
         == ((number * first + second) % PRIME_NUMBER) % numberOfBuckets
  {
    var p := PRIME_NUMBER;
    var q := number / p;
    assert number == p * q + number % p;
    assert number * first + second == p * (q * first) + ((number % p) * first + second);
    ModAddMultiple(p, q * first, (number % p) * first + second);
  }

  /**
   * For an `int` number and parameters drawn from `[1, p)` and `[0, p)`, the
   * `int64_t` product and sum of `hash_function` stay in range.
   */
  lemma HashNoOverflow(number: int, first: int, second: int)
    requires INT32_MIN <= number < INT32_LIMIT
    requires 1 <= first < PRIME_NUMBER && 0 <= second < PRIME_NUMBER
    ensures var product := CRem(number, PRIME_NUMBER) * first;
      -INT64_LIMIT <= product && product + second < INT64_LIMIT
  {
    var c := CRem(number, PRIME_NUMBER);
    var size := if c >= 0 then c else -c;
    assert c * first == size * first || c * first == -(size * first);
    MulAtMost(size, first, PRIME_NUMBER);
    MulAtMost(PRIME_NUMBER, size, PRIME_NUMBER);
    assert PRIME_NUMBER * PRIME_NUMBER == 4611684622563122329;
  }

  lemma MulAtMost(x: int, y: int, z: int)
    requires x >= 0 && y <= z
    ensures x * y <= x * z
  {
    assert x * z - x * y == x * (z - y);
  }

  // ---------------------------------------------------------------------------
  // The first level

  /** The first-level buckets: bucket i holds, in input order, the numbers that hash to i. */
  function Distribution(numbers: seq<int>, n: int, first: int, second: int): (buckets: seq<seq<int>>)
    requires n > 0 || |numbers| == 0
    ensures |buckets| == if n > 0 then n else 0
  {
    if |numbers| == 0 then seq(if n > 0 then n else 0, _ => [])
    else
      var before := Distribution(numbers[..|numbers| - 1], n, first, second);
      var x := numbers[|numbers| - 1];
      var h := Hash(x, n, first, second);
      before[h := before[h] + [x]]
  }

  /** A number lies in bucket i exactly when it is one of the numbers and hashes to i. */
  lemma {:induction false} DistributionMembers(numbers: seq<int>, n: int, first: int, second: int)
    requires n > 0 || |numbers| == 0
    ensures forall i, x :: 0 <= i < |Distribution(numbers, n, first, second)| ==>
      (x in Distribution(numbers, n, first, second)[i] <==> x in numbers && Hash(x, n, first, second) == i)
    decreases |numbers|
  {
    if |numbers| > 0 {
      var prefix := numbers[..|numbers| - 1];
      DistributionMembers(prefix, n, first, second);
      assert numbers == prefix + [numbers[|numbers| - 1]];
    }
  }

  /** The sum of the squared bucket sizes. */
  function SquaresSum(buckets: seq<seq<int>>): (r: int)
    ensures r >= 0
  {
    if |buckets| == 0 then 0
    else SquaresSum(buckets[..|buckets| - 1]) + |buckets[|buckets| - 1]| * |buckets[|buckets| - 1]|
  }

  /** The distribution loop of `Initialize`: every number is appended to the bucket its hash names. */
  method DistributeNumbers(numbers: seq<int>, n: int, first: int, second: int) returns (buckets: seq<seq<int>>)
    requires n > 0 || |numbers| == 0
    ensures buckets == Distribution(numbers, n, first, second)
  {
    buckets := seq(if n > 0 then n else 0, _ => []);
    for k := 0 to |numbers|
      invariant buckets == Distribution(numbers[..k], n, first, second)
    {
      assert numbers[..k + 1][..k] == numbers[..k];
      var h := Hash(numbers[k], n, first, second);
      buckets := buckets[h := buckets[h] + [numbers[k]]];
    }
    assert numbers[..|numbers|] == numbers;
  }

  /** The loop of `Initialize` that sums the squared bucket sizes. */
  method SumOfSquares(buckets: seq<seq<int>>) returns (sum: int)
    ensures sum == SquaresSum(buckets)
  {
    sum := 0;
    for i := 0 to |buckets|
      invariant sum == SquaresSum(buckets[..i])
    {
      assert buckets[..i + 1][..i] == buckets[..i];
      sum := sum + |buckets[i]| * |buckets[i]|;
    }
    assert buckets[..|buckets|] == buckets;
  }

  // ---------------------------------------------------------------------------
  // The second level

  datatype Bucket = Bucket(firstHashParameter: int, secondHashParameter: int, hashedKeys: seq<int>)

  /** No key other than `NAN_VALUE` shares its slot with a later key. */
  predicate CollisionFree(bucket: seq<int>, size: int, first: int, second: int)
    requires size > 0
  {
    forall k, m :: 0 <= k < m < |bucket| && bucket[k] != NAN_VALUE ==>
      Hash(bucket[k], size, first, second) != Hash(bucket[m], size, first, second)
  }

  /**
   * The second-level table of a bucket: `|bucket|` squared slots, every key
   * other than `NAN_VALUE` at the slot it hashes to, and every occupied slot
   * holding a key of the bucket.
   */
  predicate Placed(slots: seq<int>, bucket: seq<int>, first: int, second: int) {
    && |slots| == |bucket| * |bucket|
    && (|slots| > 0 ==> forall k :: 0 <= k < |bucket| && bucket[k] != NAN_VALUE ==>
          slots[Hash(bucket[k], |slots|, first, second)] == bucket[k])
    && (forall j :: 0 <= j < |slots| && slots[j] != NAN_VALUE ==> slots[j] in bucket)
  }

  /**
   * The placement loop of `Initialize`: places the keys of a non-empty
   * bucket in `|bucket|` squared slots, giving up at the first key whose slot
   * is taken. It succeeds exactly when the parameters are collision-free for
   * the bucket.
   */
  method PlaceKeys(bucket: seq<int>, first: int, second: int) returns (success: bool, slots: seq<int>)
    requires |bucket| > 0
    ensures |bucket| * |bucket| > 0
    ensures success <==> CollisionFree(bucket, |bucket| * |bucket|, first, second)
    ensures success ==> Placed(slots, bucket, first, second)
  {
    var size := |bucket| * |bucket|;
    MulBounds(|bucket|, |bucket|);
    ghost var hashes := seq(|bucket|, k requires 0 <= k < |bucket| => Hash(bucket[k], size, first, second));
    slots := seq(size, _ => NAN_VALUE);
    success := true;
    var i := 0;
    while i < |bucket|
      invariant 0 <= i <= |bucket| && |slots| == size
      invariant PartlyPlaced(bucket, hashes, slots, i)
    {
      var hashValue := Hash(bucket[i], size, first, second);
      if slots[hashValue] != NAN_VALUE {
        Collision(bucket, hashes, slots, i);
        success := false;
        return;
      }
      PlaceStep(bucket, hashes, slots, i);
      slots := slots[hashValue := bucket[i]];
      i := i + 1;
    }
    PlacedAll(bucket, hashes, slots, first, second);
  }

  /**
   * The loop state of `PlaceKeys` after `i` keys: `hashes` are the keys'
   * slots, the keys so far other than `NAN_VALUE` have distinct slots and sit
   * in them, and every occupied slot holds one of those keys.
   */
  ghost predicate PartlyPlaced(bucket: seq<int>, hashes: seq<int>, slots: seq<int>, i: int) {
    && |hashes| == |bucket| && 0 <= i <= |bucket|
    && (forall k :: 0 <= k < |bucket| ==> 0 <= hashes[k] < |slots|)
    && (forall k, m :: 0 <= k < m < i && bucket[k] != NAN_VALUE ==> hashes[k] != hashes[m])
    && (forall k :: 0 <= k < i && bucket[k] != NAN_VALUE ==> slots[hashes[k]] == bucket[k])
    && (forall j :: 0 <= j < |slots| && slots[j] != NAN_VALUE ==>
          exists k :: 0 <= k < i && slots[j] == bucket[k] && hashes[k] == j)
  }

  lemma PlaceStep(bucket: seq<int>, hashes: seq<int>, slots: seq<int>, i: int)
    requires PartlyPlaced(bucket, hashes, slots, i) && i < |bucket| && slots[hashes[i]] == NAN_VALUE
    ensures PartlyPlaced(bucket, hashes, slots[hashes[i] := bucket[i]], i + 1)
  {
    var after := slots[hashes[i] := bucket[i]];
    forall k, m | 0 <= k < m < i + 1 && bucket[k] != NAN_VALUE ensures hashes[k] != hashes[m] {
      if m == i {
        assert slots[hashes[k]] == bucket[k];
      }
    }
    forall j | 0 <= j < |after| && after[j] != NAN_VALUE
      ensures exists k :: 0 <= k < i + 1 && after[j] == bucket[k] && hashes[k] == j
    {
      if j == hashes[i] {
        assert after[j] == bucket[i];
      } else {
        var k :| 0 <= k < i && slots[j] == bucket[k] && hashes[k] == j;
        assert after[j] == bucket[k];
      }
    }
  }

  /** A taken slot for key `i` means an earlier key other than `NAN_VALUE` hashes there too. */
  lemma Collision(bucket: seq<int>, hashes: seq<int>, slots: seq<int>, i: int)
    requires PartlyPlaced(bucket, hashes, slots, i) && i < |bucket| && slots[hashes[i]] != NAN_VALUE
    ensures exists k :: 0 <= k < i && bucket[k] != NAN_VALUE && hashes[k] == hashes[i]
  {
    var k :| 0 <= k < i && slots[hashes[i]] == bucket[k] && hashes[k] == hashes[i];
  }

  lemma PlacedAll(bucket: seq<int>, hashes: seq<int>, slots: seq<int>, first: int, second: int)
    requires |bucket| > 0 && |slots| == |bucket| * |bucket| > 0
    requires hashes == seq(|bucket|, k requires 0 <= k < |bucket| => Hash(bucket[k], |slots|, first, second))
    requires PartlyPlaced(bucket, hashes, slots, |bucket|)
    ensures CollisionFree(bucket, |slots|, first, second)
    ensures Placed(slots, bucket, first, second)
  {
    forall k, m | 0 <= k < m < |bucket| && bucket[k] != NAN_VALUE
      ensures Hash(bucket[k], |slots|, first, second) != Hash(bucket[m], |slots|, first, second)
    {
      assert hashes[k] != hashes[m];
    }
    forall j | 0 <= j < |slots| && slots[j] != NAN_VALUE ensures slots[j] in bucket {
      var k :| 0 <= k < |bucket| && slots[j] == bucket[k] && hashes[k] == j;
    }
  }

  // ---------------------------------------------------------------------------
  // FixedSet

  /** The sum of the second-level table sizes. */
  function SlotCount(table: seq<Bucket>): (r: int)
    ensures r >= 0
  {
    if |table| == 0 then 0 else SlotCount(table[..|table| - 1]) + |table[|table| - 1].hashedKeys|
  }

  class FixedSet {
    var hashTable: seq<Bucket>
    var frontBuckets: seq<bool>
    var frontFirstHashParameter: int
    var frontSecondHashParameter: int
    /** The numbers the set was initialised with. */
    ghost var keys: seq<int>

    /**
     * The first level describes the keys' buckets and passed the 4n test; a
     * bucket is flagged exactly when it is non-empty, and its second-level
     * table places its keys.
     */
    ghost predicate Valid()
      reads this
    {
      var n := |keys|;
      var buckets := Distribution(keys, n, frontFirstHashParameter, frontSecondHashParameter);
      && |frontBuckets| == n && |hashTable| == n && |buckets| == n
      && SquaresSum(buckets) <= 4 * n
      && (forall i :: 0 <= i < n ==> (frontBuckets[i] <==> |buckets[i]| > 0))
      && (forall i :: 0 <= i < n ==>
            Placed(hashTable[i].hashedKeys, buckets[i], hashTable[i].firstHashParameter, hashTable[i].secondHashParameter))
    }

    /** `FixedSet()`: the empty set. */
    constructor()
      ensures Valid() && keys == []
    {
      hashTable, frontBuckets := [], [];
      frontFirstHashParameter, frontSecondHashParameter := 0, 0;
      keys := [];
    }

    /**
     * `Contains`: looks the number up in the slot its two hashes name. For
     * every number other than `NAN_VALUE`, the answer is membership.
     */
    function Contains(number: int): (r: bool)
      reads this
      requires Valid() && |frontBuckets| > 0
      ensures number != NAN_VALUE ==> (r <==> number in keys)
    {
      var n := |frontBuckets|;
      var frontHashValue := Hash(number, n, frontFirstHashParameter, frontSecondHashParameter);
      DistributionMembers(keys, n, frontFirstHashParameter, frontSecondHashParameter);
      if !frontBuckets[frontHashValue] then false
      else
        var frontBucket := hashTable[frontHashValue];
        var bucket := Distribution(keys, n, frontFirstHashParameter, frontSecondHashParameter)[frontHashValue];
        MulBounds(|bucket|, |bucket|);
        var bucketHashValue := Hash(number, |frontBucket.hashedKeys|,
                                    frontBucket.firstHashParameter, frontBucket.secondHashParameter);
        frontBucket.hashedKeys[bucketHashValue] == number
    }

    /** The whole structure takes at most 4n second-level slots. */
    lemma SpaceBound()
      requires Valid()
      ensures SlotCount(hashTable) <= 4 * |keys|
    {
      var buckets := Distribution(keys, |keys|, frontFirstHashParameter, frontSecondHashParameter);
      SlotsAreSquares(hashTable, buckets, |keys|);
    }

    /**
     * `Initialize`: draws first-level parameters until the 4n test passes,
     * flags the non-empty buckets, then draws parameters for each non-empty
     * bucket until its keys do not collide. Each draw consumes the next pair
     * of `draws`, and `used` counts the draws consumed; the result is false
     * only when they all were.
     */
    method Initialize(numbers: seq<int>, draws: seq<(int, int)>) returns (initialized: bool, used: nat)
      modifies this
      ensures used <= |draws|
      ensures initialized ==> Valid() && keys == numbers
      ensures !initialized ==> used == |draws|
    {
      var accepted, first, second, buckets, next := ChooseFrontParameters(numbers, draws);
      if !accepted {
        return false, next;
      }
      frontFirstHashParameter, frontSecondHashParameter := first, second;
      keys := numbers;
      frontBuckets := FlagNonEmpty(buckets);
      var built, table, after := BuildSecondLevel(buckets, draws, next);
      if !built {
        return false, after;
      }
      hashTable := table;
      return true, after;
    }
  }

  /** The first-level parameters `d` pass the 4n test for `numbers`. */
  predicate FrontAccepts(numbers: seq<int>, d: (int, int)) {
    SquaresSum(Distribution(numbers, |numbers|, d.0, d.1)) <= 4 * |numbers|
  }

  /**
   * The first-level retry loop of `Initialize`: draws parameters until the
   * squared bucket sizes sum to at most 4n, and returns them with their
   * buckets and the index of the next unused draw. The accepted parameters
   * are the first draw that passes; it fails only when no draw passes.
   */
  method ChooseFrontParameters(numbers: seq<int>, draws: seq<(int, int)>)
    returns (accepted: bool, first: int, second: int, buckets: seq<seq<int>>, next: nat)
    ensures next <= |draws|
    ensures accepted ==> buckets == Distribution(numbers, |numbers|, first, second)
    ensures accepted ==> SquaresSum(buckets) <= 4 * |numbers|
    ensures accepted ==> 0 < next && draws[next - 1] == (first, second)
    ensures accepted ==> forall j :: 0 <= j < next - 1 ==> !FrontAccepts(numbers, draws[j])
    ensures !accepted ==> next == |draws| && forall j :: 0 <= j < |draws| ==> !FrontAccepts(numbers, draws[j])
  {
    var n := |numbers|;
    next, first, second, buckets, accepted := 0, 0, 0, [], false;
    while !accepted
      invariant next <= |draws|
      invariant accepted ==> buckets == Distribution(numbers, n, first, second) && SquaresSum(buckets) <= 4 * n
      invariant accepted ==> 0 < next && draws[next - 1] == (first, second)
      invariant forall j :: 0 <= j < next - (if accepted then 1 else 0) ==> !FrontAccepts(numbers, draws[j])
      decreases |draws| - next, !accepted
    {
      if next == |draws| {
        return;
      }
      first, second := draws[next].0, draws[next].1;
      next := next + 1;
      buckets := DistributeNumbers(numbers, n, first, second);
      var sumOfSquares := SumOfSquares(buckets);
      if sumOfSquares <= 4 * n {
        accepted := true;
      }
    }
  }

  /** The flag loop of `Initialize`: bucket i is flagged exactly when it is non-empty. */
  method FlagNonEmpty(buckets: seq<seq<int>>) returns (flags: seq<bool>)
    ensures |flags| == |buckets|
    ensures forall i :: 0 <= i < |buckets| ==> (flags[i] <==> |buckets[i]| > 0)
  {
    flags := seq(|buckets|, _ => false);
    for i := 0 to |buckets|
      invariant |flags| == |buckets|
      invariant forall j :: 0 <= j < |buckets| ==> (flags[j] <==> j < i && |buckets[j]| > 0)
    {
      if |buckets[i]| > 0 {
        flags := flags[i := true];
      }
    }
  }

  /**
   * The second-level loop of `Initialize`: gives every non-empty bucket a
   * collision-free second-level table, drawing parameters from
   * `draws[next..]`; an empty bucket keeps the default `Bucket()` with no
   * slots. It fails only when the draws run out.
   */
  method BuildSecondLevel(buckets: seq<seq<int>>, draws: seq<(int, int)>, next: nat)
    returns (built: bool, table: seq<Bucket>, after: nat)
    requires next <= |draws|
    ensures next <= after <= |draws|
    ensures !built ==> after == |draws|
    ensures built ==> |table| == |buckets|
    ensures built ==> forall j :: 0 <= j < |buckets| && |buckets[j]| == 0 ==> table[j] == Bucket(0, 0, [])
    ensures built ==> forall j :: 0 <= j < |buckets| ==>
      Placed(table[j].hashedKeys, buckets[j], table[j].firstHashParameter, table[j].secondHashParameter)
  {
    table := seq(|buckets|, _ => Bucket(0, 0, []));
    after := next;
    for numberOfBucket := 0 to |buckets|
      invariant next <= after <= |draws| && |table| == |buckets|
      invariant forall j :: 0 <= j < numberOfBucket && |buckets[j]| == 0 ==> table[j] == Bucket(0, 0, [])
      invariant forall j :: 0 <= j < numberOfBucket ==>
        Placed(table[j].hashedKeys, buckets[j], table[j].firstHashParameter, table[j].secondHashParameter)
      invariant forall j :: numberOfBucket <= j < |buckets| ==> table[j] == Bucket(0, 0, [])
    {
      if |buckets[numberOfBucket]| > 0 {
        var placed, entry;
        placed, entry, after := PlaceBucket(buckets[numberOfBucket], draws, after);
        if !placed {
          return false, table, after;
        }
        table := table[numberOfBucket := entry];
      }
    }
    built := true;
  }

  /** The parameters `d` place the keys of a non-empty bucket without a collision. */
  predicate BucketAccepts(bucket: seq<int>, d: (int, int))
    requires |bucket| > 0
  {
    MulBounds(|bucket|, |bucket|);
    CollisionFree(bucket, |bucket| * |bucket|, d.0, d.1)
  }

  /**
   * The retry loop of `Initialize` for one bucket: draws parameters until the
   * keys of the bucket do not collide. The parameters used are the first draw
   * from `next` on that places the keys; it fails only when no draw does.
   */
  method PlaceBucket(bucket: seq<int>, draws: seq<(int, int)>, next: nat)
    returns (placed: bool, entry: Bucket, after: nat)
    requires |bucket| > 0 && next <= |draws|
    ensures next <= after <= |draws|
    ensures placed ==> Placed(entry.hashedKeys, bucket, entry.firstHashParameter, entry.secondHashParameter)
    ensures placed ==> next < after && draws[after - 1] == (entry.firstHashParameter, entry.secondHashParameter)
    ensures placed ==> forall j :: next <= j < after - 1 ==> !BucketAccepts(bucket, draws[j])
    ensures !placed ==> after == |draws| && forall j :: next <= j < |draws| ==> !BucketAccepts(bucket, draws[j])
  {
    after, placed, entry := next, false, Bucket(0, 0, []);
    while !placed
      invariant next <= after <= |draws|
      invariant placed ==> Placed(entry.hashedKeys, bucket, entry.firstHashParameter, entry.secondHashParameter)
      invariant placed ==> next < after && draws[after - 1] == (entry.firstHashParameter, entry.secondHashParameter)
      invariant forall j :: next <= j < after - (if placed then 1 else 0) ==> !BucketAccepts(bucket, draws[j])
      decreases |draws| - after, !placed
    {
      if after == |draws| {
        return;
      }
      var first, second := draws[after].0, draws[after].1;
      after := after + 1;
      var success, hashedBucketKeys := PlaceKeys(bucket, first, second);
      if success {
        placed, entry := true, Bucket(first, second, hashedBucketKeys);
      }
    }
  }

  /** Each second-level table has the squared size of its bucket, so the table sizes sum to `SquaresSum`. */
  lemma {:induction false} SlotsAreSquares(table: seq<Bucket>, buckets: seq<seq<int>>, n: int)
    requires |table| == |buckets| == n
    requires forall i :: 0 <= i < n ==> |table[i].hashedKeys| == |buckets[i]| * |buckets[i]|
    ensures SlotCount(table) == SquaresSum(buckets)
    decreases n
  {
    if n > 0 {
      SlotsAreSquares(table[..n - 1], buckets[..n - 1], n - 1);
    }
  }

  /** `GetQueriesAnswers`: one `Contains` answer per query, in order. */
  method GetQueriesAnswers(queries: seq<int>, fixedSet: FixedSet) returns (answers: seq<bool>)
    requires fixedSet.Valid() && |fixedSet.frontBuckets| > 0
    ensures |answers| == |queries|
    ensures forall i :: 0 <= i < |queries| ==> answers[i] == fixedSet.Contains(queries[i])
    ensures forall i :: 0 <= i < |queries| && queries[i] != NAN_VALUE ==> (answers[i] <==> queries[i] in fixedSet.keys)
  {
    answers := [];
    for i := 0 to |queries|
      invariant |answers| == i
      invariant forall k :: 0 <= k < i ==> answers[k] == fixedSet.Contains(queries[k])
    {
      answers := answers + [fixedSet.Contains(queries[i])];
    }
  }
}
