/**
 * Similarity classes of triangles (algorithms/triangles/main.cpp).
 *
 * Each triangle is normalised (sides sorted ascending, then divided by the
 * greatest common divisor of all three), hashed into a table of `TABLESIZE`
 * buckets, and added to its bucket unless an equal triangle is already there.
 * The number of classes is the total number of stored triangles.
 */
module Triangles {

  import opened Arithmetic

  const TABLESIZE: int := 5000000
  const PRIME: int := 1000001449
  /** The largest `long long` plus one. */
  const INT64_LIMIT: int := 0x8000_0000_0000_0000
  /** The largest `int` plus one. */
  const INT32_LIMIT: int := 0x8000_0000

  datatype Triangle = Triangle(a: int, b: int, c: int)

  /** `operator==`: componentwise equality, which is equality of triangles. */
  function Equal(first: Triangle, second: Triangle): (r: bool)
    ensures r <==> first == second
  {
    first.a == second.a && first.b == second.b && first.c == second.c
  }

  predicate Positive(t: Triangle) {
    t.a > 0 && t.b > 0 && t.c > 0
  }

  // ---------------------------------------------------------------------------
  // gcd

  /** Divisibility for a positive divisor. */
  ghost predicate Divides(d: int, n: int) {
    d > 0 && exists q :: n == d * q
  }

  /** Euclid's algorithm on non-negative numbers: `gcd(a, 0) == a`. */
  function Gcd(a: nat, b: nat): (g: nat)
    ensures g > 0 <==> a > 0 || b > 0
    decreases b
  {
    if b == 0 then a else Gcd(b, a % b)
  }

  /** `gcd`: the source's loop, `first %= second` and a swap until `second` is zero. */
  method GcdLoop(first: nat, second: nat) returns (r: nat)
    ensures r == Gcd(first, second)
    ensures second == 0 ==> r == first
  {
    var x, y := first, second;
    while y != 0
      invariant Gcd(x, y) == Gcd(first, second)
      decreases y
    {
      x := x % y;
      x, y := y, x;
    }
    r := x;
  }

  lemma DividesCombination(g: int, b: int, r: int, q: int)
    requires Divides(g, b) && Divides(g, r)
    ensures Divides(g, q * b + r)
  {
    var qb :| b == g * qb;
    var qr :| r == g * qr;
    assert q * b + r == g * (q * qb + qr) by {
      calc {
        q * b + r;
        q * (g * qb) + g * qr;
        { assert q * (g * qb) == g * (q * qb); }
        g * (q * qb) + g * qr;
        g * (q * qb + qr);
      }
    }
  }

  lemma DividesRemainder(d: int, a: nat, b: nat)
    requires b > 0 && Divides(d, a) && Divides(d, b)
    ensures Divides(d, a % b)
  {
    var qa :| a == d * qa;
    var qb :| b == d * qb;
    var q := a / b;
    assert a % b == a - q * b;
    assert a % b == d * (qa - q * qb) by {
      calc {
        a - q * b;
        d * qa - q * (d * qb);
        { assert q * (d * qb) == d * (q * qb); }
        d * qa - d * (q * qb);
        d * (qa - q * qb);
      }
    }
  }

  /** `Gcd(a, b)` divides both arguments when they are not both zero. */
  lemma {:induction false} GcdDivides(a: nat, b: nat)
    requires a > 0 || b > 0
    ensures Gcd(a, b) > 0
    ensures Divides(Gcd(a, b), a) && Divides(Gcd(a, b), b)
    decreases b
  {
    if b == 0 {
      assert a == a * 1 && 0 == a * 0;
    } else {
      GcdDivides(b, a % b);
      var g := Gcd(b, a % b);
      assert a == (a / b) * b + a % b;
      DividesCombination(g, b, a % b, a / b);
    }
  }

  /** Every common divisor of `a` and `b` divides `Gcd(a, b)`. */
  lemma {:induction false} GcdGreatest(a: nat, b: nat, d: int)
    requires Divides(d, a) && Divides(d, b)
    ensures Divides(d, Gcd(a, b))
    decreases b
  {
    if b > 0 {
      DividesRemainder(d, a, b);
      GcdGreatest(b, a % b, d);
    }
  }

  lemma DividesAntisymmetric(x: int, y: int)
    requires x > 0 && y > 0 && Divides(x, y) && Divides(y, x)
    ensures x == y
  {
    var q1 :| y == x * q1;
    var q2 :| x == y * q2;
    MulBounds(x, q1);
    MulBounds(y, q2);
  }

  lemma DividesTransitive(a: int, b: int, c: int)
    requires Divides(a, b) && Divides(b, c)
    ensures Divides(a, c)
  {
    var q1 :| b == a * q1;
    var q2 :| c == b * q2;
    assert c == a * (q1 * q2);
  }

  lemma GcdCommutative(a: nat, b: nat)
    requires a > 0 || b > 0
    ensures Gcd(a, b) == Gcd(b, a)
  {
    GcdDivides(a, b);
    GcdDivides(b, a);
    GcdGreatest(a, b, Gcd(b, a));
    GcdGreatest(b, a, Gcd(a, b));
    DividesAntisymmetric(Gcd(a, b), Gcd(b, a));
  }

  /** The gcd of three sides, in the order `NormalizeTriangle` computes it. */
  function Gcd3(a: nat, b: nat, c: nat): nat {
    Gcd(a, Gcd(b, c))
  }

  /** `Gcd3` is a common divisor of all three and every common divisor divides it. */
  lemma Gcd3Characterization(a: nat, b: nat, c: nat)
    requires a > 0 && b > 0 && c > 0
    ensures Gcd3(a, b, c) > 0
    ensures Divides(Gcd3(a, b, c), a) && Divides(Gcd3(a, b, c), b) && Divides(Gcd3(a, b, c), c)
    ensures forall d :: Divides(d, a) && Divides(d, b) && Divides(d, c) ==> Divides(d, Gcd3(a, b, c))
  {
    var inner := Gcd(b, c);
    GcdDivides(b, c);
    GcdDivides(a, inner);
    DividesTransitive(Gcd3(a, b, c), inner, b);
    DividesTransitive(Gcd3(a, b, c), inner, c);
    forall d | Divides(d, a) && Divides(d, b) && Divides(d, c) ensures Divides(d, Gcd3(a, b, c)) {
      GcdGreatest(b, c, d);
      GcdGreatest(a, inner, d);
    }
  }

  /** Two numbers with the characterisation of `Gcd3` are the same number. */
  lemma Gcd3Unique(a: nat, b: nat, c: nat, g: int)
    requires a > 0 && b > 0 && c > 0
    requires Divides(g, a) && Divides(g, b) && Divides(g, c)
    requires forall d :: Divides(d, a) && Divides(d, b) && Divides(d, c) ==> Divides(d, g)
    ensures g == Gcd3(a, b, c)
  {
    Gcd3Characterization(a, b, c);
    DividesAntisymmetric(g, Gcd3(a, b, c));
  }

  lemma Gcd3SwapFirst(a: nat, b: nat, c: nat)
    requires a > 0 && b > 0 && c > 0
    ensures Gcd3(b, a, c) == Gcd3(a, b, c)
  {
    Gcd3Characterization(b, a, c);
    Gcd3Unique(a, b, c, Gcd3(b, a, c));
  }

  lemma Gcd3SwapLast(a: nat, b: nat, c: nat)
    requires a > 0 && b > 0 && c > 0
    ensures Gcd3(a, c, b) == Gcd3(a, b, c)
  {
    Gcd3Characterization(a, c, b);
    Gcd3Unique(a, b, c, Gcd3(a, c, b));
  }

  lemma ModScale(k: nat, a: nat, b: nat)
    requires k > 0 && b > 0
    ensures (k * a) % (k * b) == k * (a % b)
  {
    var q, r := a / b, a % b;
    assert a == b * q + r;
    assert k * a == (k * b) * q + k * r;
    ScaleMonotone(k, r + 1, b);
    DivUnique(k * a, k * b, q, k * r);
  }

  /** Scaling both arguments scales the gcd: `Gcd(k * a, k * b) == k * Gcd(a, b)`. */
  lemma {:induction false} GcdScale(k: nat, a: nat, b: nat)
    requires k > 0
    ensures Gcd(k * a, k * b) == k * Gcd(a, b)
    decreases b
  {
    if b > 0 {
      ModScale(k, a, b);
      GcdScale(k, b, a % b);
    }
  }

  // ---------------------------------------------------------------------------
  // NormalizeTriangle

  function Min3(a: int, b: int, c: int): int {
    if a <= b && a <= c then a else if b <= c then b else c
  }

  function Max3(a: int, b: int, c: int): int {
    if a >= b && a >= c then a else if b >= c then b else c
  }

  /** The three sides in ascending order, as `std::sort` leaves the local copy. */
  function Sort3(a: int, b: int, c: int): (s: Triangle)
  {
    var lo, hi := Min3(a, b, c), Max3(a, b, c);
    Triangle(lo, a + b + c - lo - hi, hi)
  }

  /** `Sort3` orders the sides ascending and keeps them as a multiset. */
  lemma Sort3Spec(a: int, b: int, c: int)
    ensures var s := Sort3(a, b, c);
      s.a <= s.b <= s.c && multiset{s.a, s.b, s.c} == multiset{a, b, c}
  {
  }

  /**
   * `NormalizeTriangle`: the sorted sides divided by the gcd of all three,
   * which leaves positive sides in ascending order.
   */
  function Normalize(t: Triangle): (r: Triangle)
    requires Positive(t)
    ensures Positive(r) && r.a <= r.b <= r.c
  {
    var s := Sort3(t.a, t.b, t.c);
    var factor := Gcd3(t.a, t.b, t.c);
    Sort3Spec(t.a, t.b, t.c);
    Gcd3Characterization(t.a, t.b, t.c);
    QuotientsAscending(s, factor, t);
    Triangle(s.a / factor, s.b / factor, s.c / factor)
  }

  /** Each sorted side is the gcd times the matching normalised side. */
  lemma NormalizeSides(t: Triangle)
    requires Positive(t)
    ensures var r := Normalize(t); var g := Gcd3(t.a, t.b, t.c); var s := Sort3(t.a, t.b, t.c);
      g > 0 && s.a == g * r.a && s.b == g * r.b && s.c == g * r.c
  {
    var g := Gcd3(t.a, t.b, t.c);
    var s := Sort3(t.a, t.b, t.c);
    Sort3Spec(t.a, t.b, t.c);
    Gcd3Characterization(t.a, t.b, t.c);
    assert s.a in multiset{t.a, t.b, t.c} && s.b in multiset{t.a, t.b, t.c} && s.c in multiset{t.a, t.b, t.c};
    DividedExactly(g, s.a, t);
    DividedExactly(g, s.b, t);
    DividedExactly(g, s.c, t);
  }

  lemma DividedExactly(g: int, x: int, t: Triangle)
    requires x in multiset{t.a, t.b, t.c}
    requires Divides(g, t.a) && Divides(g, t.b) && Divides(g, t.c)
    ensures x == g * (x / g)
  {
    assert Divides(g, x);
    var q :| x == g * q;
    DivUnique(x, g, q, 0);
  }

  /** Dividing ascending sides by a common divisor of a positive triangle keeps them positive and ascending. */
  lemma QuotientsAscending(s: Triangle, g: int, t: Triangle)
    requires Positive(t) && g > 0 && s.a <= s.b <= s.c
    requires multiset{s.a, s.b, s.c} == multiset{t.a, t.b, t.c}
    requires Divides(g, t.a) && Divides(g, t.b) && Divides(g, t.c)
    ensures 0 < s.a / g <= s.b / g <= s.c / g
  {
    assert s.a in multiset{t.a, t.b, t.c} && s.b in multiset{t.a, t.b, t.c} && s.c in multiset{t.a, t.b, t.c};
    DividedExactly(g, s.a, t);
    DividedExactly(g, s.b, t);
    DividedExactly(g, s.c, t);
    MulBounds(g, s.a / g);
    ScaleMonotone(g, s.a / g, s.b / g);
    ScaleMonotone(g, s.b / g, s.c / g);
  }

  /**
   * The normalised sides are positive and ascending, and multiplying them by
   * the gcd of the original sides gives back the original sides, in sorted
   * order.
   */
  lemma NormalizeSpec(t: Triangle)
    requires Positive(t)
    ensures var r := Normalize(t); var g := Gcd3(t.a, t.b, t.c);
      && Positive(r) && r.a <= r.b <= r.c
      && g > 0
      && multiset{g * r.a, g * r.b, g * r.c} == multiset{t.a, t.b, t.c}
  {
    NormalizeSides(t);
    Sort3Spec(t.a, t.b, t.c);
    var r := Normalize(t);
    var g := Gcd3(t.a, t.b, t.c);
    MulBounds(g, r.a);
    ScaleMonotone(g, r.a, r.b);
    ScaleMonotone(g, r.b, r.c);
  }

  /** Swapping the first two sides does not change the normal form. */
  lemma NormalizeSwapFirst(t: Triangle)
    requires Positive(t)
    ensures Normalize(Triangle(t.b, t.a, t.c)) == Normalize(t)
  {
    Gcd3SwapFirst(t.a, t.b, t.c);
    assert Sort3(t.b, t.a, t.c) == Sort3(t.a, t.b, t.c);
  }

  /** Swapping the last two sides does not change the normal form. */
  lemma NormalizeSwapLast(t: Triangle)
    requires Positive(t)
    ensures Normalize(Triangle(t.a, t.c, t.b)) == Normalize(t)
  {
    Gcd3SwapLast(t.a, t.b, t.c);
    assert Sort3(t.a, t.c, t.b) == Sort3(t.a, t.b, t.c);
  }

  /** Scaling all sides by a positive factor does not change the normal form. */
  lemma NormalizeScale(t: Triangle, k: int)
    requires Positive(t) && k > 0
    ensures Positive(Triangle(k * t.a, k * t.b, k * t.c))
    ensures Normalize(Triangle(k * t.a, k * t.b, k * t.c)) == Normalize(t)
  {
    MulBounds(k, t.a);
    MulBounds(k, t.b);
    MulBounds(k, t.c);
    var u := Triangle(k * t.a, k * t.b, k * t.c);
    var g := Gcd3(t.a, t.b, t.c);
    GcdScale(k, t.b, t.c);
    GcdScale(k, t.a, Gcd(t.b, t.c));
    assert Gcd3(u.a, u.b, u.c) == k * g;
    var s := Sort3(t.a, t.b, t.c);
    ScaleSort(t, k);
    NormalizeSides(t);
    var r := Normalize(t);
    ScaledQuotient(k, g, r.a);
    ScaledQuotient(k, g, r.b);
    ScaledQuotient(k, g, r.c);
  }

  lemma ScaledQuotient(k: int, g: int, q: int)
    requires k > 0 && g > 0
    ensures (k * (g * q)) / (k * g) == q
  {
    MulBounds(k, g);
    assert k * (g * q) == (k * g) * q;
    DivUnique(k * (g * q), k * g, q, 0);
  }

  lemma ScaleSort(t: Triangle, k: int)
    requires k > 0
    ensures Sort3(k * t.a, k * t.b, k * t.c) == var s := Sort3(t.a, t.b, t.c); Triangle(k * s.a, k * s.b, k * s.c)
  {
    ScaleMonotone(k, t.a, t.b);
    ScaleMonotone(k, t.b, t.a);
    ScaleMonotone(k, t.b, t.c);
    ScaleMonotone(k, t.c, t.b);
    ScaleMonotone(k, t.a, t.c);
    ScaleMonotone(k, t.c, t.a);
    var lo, hi := Min3(t.a, t.b, t.c), Max3(t.a, t.b, t.c);
    assert Min3(k * t.a, k * t.b, k * t.c) == k * lo;
    assert Max3(k * t.a, k * t.b, k * t.c) == k * hi;
    assert k * (t.a + t.b + t.c - lo - hi) == k * t.a + k * t.b + k * t.c - k * lo - k * hi;
  }

  lemma ScaleMonotone(k: int, x: int, y: int)
    requires k > 0
    ensures x <= y <==> k * x <= k * y
  {
    assert k * y - k * x == k * (y - x);
    MulBounds(k, y - x);
  }

  /** Normalising twice gives the same triangle as normalising once. */
  lemma NormalizeIdempotent(t: Triangle)
    requires Positive(t)
    ensures Positive(Normalize(t))
    ensures Normalize(Normalize(t)) == Normalize(t)
  {
    NormalizeSpec(t);
    NormalizeSides(t);
    var r := Normalize(t);
    var g := Gcd3(t.a, t.b, t.c);
    var s := Sort3(t.a, t.b, t.c);
    Sort3Spec(t.a, t.b, t.c);
    // The gcd of the sorted sides equals that of the original ones.
    assert Gcd3(s.a, s.b, s.c) == g by {
      Gcd3Characterization(s.a, s.b, s.c);
      Gcd3Unique(t.a, t.b, t.c, Gcd3(s.a, s.b, s.c));
    }
    GcdScale(g, r.b, r.c);
    GcdScale(g, r.a, Gcd(r.b, r.c));
    assert g * Gcd3(r.a, r.b, r.c) == g * 1;
    MulInjective(g, Gcd3(r.a, r.b, r.c), 1);
    assert Sort3(r.a, r.b, r.c) == r;
    DivUnique(r.a, 1, r.a, 0);
    DivUnique(r.b, 1, r.b, 0);
    DivUnique(r.c, 1, r.c, 0);
  }

  lemma MulInjective(k: int, x: int, y: int)
    requires k > 0 && k * x == k * y
    ensures x == y
  {
    ScaleMonotone(k, x, y);
    ScaleMonotone(k, y, x);
  }

  // ---------------------------------------------------------------------------
  // hash

  /** `hash`: the source's `long long` arithmetic. */
  function Hash(t: Triangle): (r: int)
    requires t.a >= 0 && t.b >= 0 && t.c >= 0
    ensures 0 <= r < TABLESIZE
  {
    var temp := (t.a * PRIME) % TABLESIZE;
    var temp1 := (temp * PRIME) % TABLESIZE;
    var temp2 := (temp1 + t.b * PRIME) % TABLESIZE;
    (temp2 + t.c) % TABLESIZE
  }

  /**
   * For sides that fit an `int`, every intermediate value of `hash` fits a
   * `long long`, so the source's arithmetic does not overflow.
   */
  lemma HashNoOverflow(t: Triangle)
    requires 0 <= t.a < INT32_LIMIT && 0 <= t.b < INT32_LIMIT && 0 <= t.c < INT32_LIMIT
    ensures t.a * PRIME < INT64_LIMIT
    ensures ((t.a * PRIME) % TABLESIZE) * PRIME < INT64_LIMIT
    ensures (((t.a * PRIME) % TABLESIZE) * PRIME) % TABLESIZE + t.b * PRIME < INT64_LIMIT
    ensures ((((t.a * PRIME) % TABLESIZE) * PRIME) % TABLESIZE + t.b * PRIME) % TABLESIZE + t.c < INT64_LIMIT
  {
    assert t.a * PRIME <= INT32_LIMIT * PRIME;
    assert t.b * PRIME <= INT32_LIMIT * PRIME;
    var x := (t.a * PRIME) % TABLESIZE;
    assert x * PRIME <= TABLESIZE * PRIME;
  }

  // ---------------------------------------------------------------------------
  // GetSimilarityClasses

  /** The sum of the bucket sizes of `table[..n]`. */
  function PrefixSize(table: seq<seq<Triangle>>, n: nat): nat
    requires n <= |table|
  {
    if n == 0 then 0 else PrefixSize(table, n - 1) + |table[n - 1]|
  }

  lemma {:induction false} PrefixSizeAppend(table: seq<seq<Triangle>>, h: nat, x: Triangle, n: nat)
    requires h < |table| && n <= |table|
    ensures PrefixSize(table[h := table[h] + [x]], n) == PrefixSize(table, n) + (if h < n then 1 else 0)
  {
    if n > 0 {
      PrefixSizeAppend(table, h, x, n - 1);
    }
  }

  /** The distinct normal forms of a list of triangles. */
  ghost function Classes(triangles: seq<Triangle>): set<Triangle>
    requires forall i :: 0 <= i < |triangles| ==> Positive(triangles[i])
  {
    if |triangles| == 0 then {}
    else Classes(triangles[..|triangles| - 1]) + {Normalize(triangles[|triangles| - 1])}
  }

  /** A class is exactly the normal form of some triangle of the list. */
  lemma {:induction false} ClassesMembers(triangles: seq<Triangle>, x: Triangle)
    requires forall i :: 0 <= i < |triangles| ==> Positive(triangles[i])
    ensures x in Classes(triangles) <==> exists i :: 0 <= i < |triangles| && x == Normalize(triangles[i])
  {
    if |triangles| > 0 {
      var prefix := triangles[..|triangles| - 1];
      ClassesMembers(prefix, x);
      if x in Classes(prefix) {
        var i :| 0 <= i < |prefix| && x == Normalize(prefix[i]);
        assert triangles[i] == prefix[i];
      }
      if exists i :: 0 <= i < |triangles| && x == Normalize(triangles[i]) {
        var i :| 0 <= i < |triangles| && x == Normalize(triangles[i]);
        if i < |prefix| {
          assert triangles[i] == prefix[i];
        }
      }
    }
  }

  lemma ClassesStep(triangles: seq<Triangle>, i: nat)
    requires forall k :: 0 <= k < |triangles| ==> Positive(triangles[k])
    requires i < |triangles|
    ensures Classes(triangles[..i + 1]) == Classes(triangles[..i]) + {Normalize(triangles[i])}
  {
    assert triangles[..i + 1][..i] == triangles[..i];
  }

  ghost predicate NoDuplicates(bucket: seq<Triangle>) {
    forall k, m :: 0 <= k < m < |bucket| ==> bucket[k] != bucket[m]
  }

  /**
   * The table holds the classes seen so far: every stored triangle is a
   * positive class sitting in the bucket of its hash, every class seen is
   * stored there, no bucket holds a triangle twice, and the bucket sizes add
   * up to the number of classes.
   */
  ghost predicate Table(table: seq<seq<Triangle>>, seen: set<Triangle>) {
    && |table| == TABLESIZE
    && (forall h, x :: 0 <= h < TABLESIZE && x in table[h] ==> x in seen && Positive(x) && Hash(x) == h)
    && (forall x :: x in seen ==> Positive(x) && x in table[Hash(x)])
    && (forall h :: 0 <= h < TABLESIZE ==> NoDuplicates(table[h]))
    && PrefixSize(table, TABLESIZE) == |seen|
  }

  lemma EmptyTable(table: seq<seq<Triangle>>)
    requires |table| == TABLESIZE && forall h :: 0 <= h < TABLESIZE ==> table[h] == []
    ensures Table(table, {})
  {
    EmptyPrefixSize(table, TABLESIZE);
  }

  /** A triangle already in the bucket of its hash is a class already seen. */
  lemma FoundKeepsTable(table: seq<seq<Triangle>>, seen: set<Triangle>, x: Triangle)
    requires Table(table, seen) && Positive(x) && x in table[Hash(x)]
    ensures Table(table, seen + {x})
  {
    assert seen + {x} == seen;
  }

  /** Appending a new class to the bucket of its hash keeps the table right. */
  lemma InsertKeepsTable(table: seq<seq<Triangle>>, seen: set<Triangle>, x: Triangle)
    requires Table(table, seen) && Positive(x) && x !in table[Hash(x)]
    ensures Table(table[Hash(x) := table[Hash(x)] + [x]], seen + {x})
  {
    var h := Hash(x);
    var bucket := table[h] + [x];
    PrefixSizeAppend(table, h, x, TABLESIZE);
    assert x !in table[h];
    assert NoDuplicates(bucket) by {
      forall k, m | 0 <= k < m < |bucket| ensures bucket[k] != bucket[m] {
        if m == |table[h]| {
          assert bucket[k] in table[h];
        }
      }
    }
  }

  /** The search of one bucket for a triangle equal to `x`. */
  method FindInBucket(bucket: seq<Triangle>, x: Triangle) returns (found: bool)
    ensures found <==> x in bucket
  {
    found := false;
    for k := 0 to |bucket|
      invariant !found && x !in bucket[..k]
    {
      if Equal(bucket[k], x) {
        found := true;
        assert bucket[k] == x;
        return;
      }
      assert bucket[..k + 1] == bucket[..k] + [bucket[k]];
    }
    assert bucket[..|bucket|] == bucket;
  }

  /**
   * `GetSimilarityClasses`: the number of distinct normalised triangles, that
   * is, of similarity classes among the input.
   */
  method GetSimilarityClasses(triangles: seq<Triangle>) returns (count: int)
    requires forall i :: 0 <= i < |triangles| ==> Positive(triangles[i])
    ensures count == |Classes(triangles)|
  {
    var table: seq<seq<Triangle>> := seq(TABLESIZE, _ => []);
    EmptyTable(table);
    ghost var seen: set<Triangle> := {};
    for i := 0 to |triangles|
      invariant seen == Classes(triangles[..i])
      invariant Table(table, seen)
    {
      var normalized := Normalize(triangles[i]);
      NormalizeSpec(triangles[i]);
      var hashValue := Hash(normalized);
      var found := false;
      if |table[hashValue]| > 0 {
        found := FindInBucket(table[hashValue], normalized);
      }
      if !found {
        InsertKeepsTable(table, seen, normalized);
        table := table[hashValue := table[hashValue] + [normalized]];
      } else {
        FoundKeepsTable(table, seen, normalized);
      }
      ClassesStep(triangles, i);
      seen := seen + {normalized};
    }
    assert triangles[..|triangles|] == triangles;
    count := CountStored(table);
  }

  /** A `std::vector` of buckets: its elements, and the capacity it has room for. */
  datatype Buckets = Buckets(items: seq<seq<Triangle>>, capacity: nat)

  /**
   * `reserve(n)`: the capacity grows to at least `n`, but the elements, and
   * so the size that `operator[]` may index below, stay as they were.
   */
  function Reserve(v: Buckets, n: nat): (r: Buckets)
    ensures r.items == v.items && r.capacity >= n
  {
    if v.capacity >= n then v else Buckets(v.items, n)
  }

  /** The table as the source sets it up: an empty vector on which `reserve(TABLESIZE)` is called. */
  function ReservedTable(): (r: Buckets)
    ensures |r.items| == 0 && r.capacity >= TABLESIZE
  {
    Reserve(Buckets([], 0), TABLESIZE)
  }

  /**
   * With the reserved table, the very first `table[hash_value]` indexes past
   * the end: the table has capacity but no buckets, and every hash value is
   * at least its size 0. `GetSimilarityClasses` above uses a table of
   * `TABLESIZE` empty buckets instead, as `resize` would give.
   */
  lemma ReservedTableIndexOutOfRange(t: Triangle)
    requires Positive(t)
    ensures Positive(Normalize(t))
    ensures Hash(Normalize(t)) >= |ReservedTable().items|
  {
    NormalizeSpec(t);
  }

  /** The closing loop of `GetSimilarityClasses`: the sum of all bucket sizes. */
  method CountStored(table: seq<seq<Triangle>>) returns (count: int)
    ensures count == PrefixSize(table, |table|)
  {
    count := 0;
    for h := 0 to |table|
      invariant count == PrefixSize(table, h)
    {
      count := count + |table[h]|;
    }
  }

  lemma {:induction false} EmptyPrefixSize(table: seq<seq<Triangle>>, n: nat)
    requires n <= |table| && forall h :: 0 <= h < |table| ==> table[h] == []
    ensures PrefixSize(table, n) == 0
  {
    if n > 0 {
      EmptyPrefixSize(table, n - 1);
    }
  }
}
