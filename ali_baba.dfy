/**
 * Ali-Baba and the coins (algorithms/ali-baba/main.cpp).
 *
 * Coins lie on a line, each with a position and the time at which it
 * disappears. The coins are sorted by position (then time), coins sharing a
 * position are reduced to the first of their run, and an integer simulation
 * walks the line back and forth for a candidate time and a starting direction.
 * `GetBestTime` tries candidate times in increasing order for both directions.
 */
module AliBaba {

  const MAX_VALUE: int := 1000000

  datatype Coin = Coin(position: int, time: int)

  /**
   * `CoinComparartor`: by position, and by time among coins at one position.
   * It is strict, and a coin at a smaller position always goes first.
   */
  function CoinLess(first: Coin, second: Coin): (r: bool)
    ensures r ==> first != second
    ensures first.position < second.position ==> r
  {
    if first.position == second.position then first.time < second.time
    else first.position < second.position
  }

  /** The comparator is the lexicographic order on (position, time). */
  lemma CoinLessIsLexicographic(a: Coin, b: Coin)
    ensures CoinLess(a, b) <==> a.position < b.position || (a.position == b.position && a.time < b.time)
  {
  }

  lemma CoinLessStrictTotal(a: Coin, b: Coin, c: Coin)
    ensures !CoinLess(a, a)
    ensures CoinLess(a, b) ==> !CoinLess(b, a)
    ensures CoinLess(a, b) && CoinLess(b, c) ==> CoinLess(a, c)
    ensures a != b ==> CoinLess(a, b) || CoinLess(b, a)
  {
  }

  /** Sorted by the comparator, as `std::sort` leaves the coins. */
  ghost predicate Sorted(coins: seq<Coin>) {
    forall i, j :: 0 <= i < j < |coins| ==> !CoinLess(coins[j], coins[i])
  }

  // ---------------------------------------------------------------------------
  // erase_duplicates

  /** The coins at positions `lo..` that differ in position from their predecessor. */
  function Kept(coins: seq<Coin>, lo: nat): seq<Coin>
    requires 1 <= lo <= |coins|
    decreases |coins| - lo
  {
    if lo == |coins| then []
    else (if coins[lo].position == coins[lo - 1].position then [] else [coins[lo]]) + Kept(coins, lo + 1)
  }

  /** What `erase_duplicates` leaves: the first coin, then every coin whose predecessor had another position. */
  function Deduplicated(coins: seq<Coin>): seq<Coin> {
    if |coins| == 0 then [] else [coins[0]] + Kept(coins, 1)
  }

  /**
   * `erase_duplicates`: walks from the back and erases coin i when coin i - 1
   * has the same position.
   */
  method EraseDuplicates(coins: seq<Coin>) returns (result: seq<Coin>)
    ensures result == Deduplicated(coins)
  {
    result := coins;
    if |coins| == 0 {
      return;
    }
    var i := |coins| - 1;
    while i > 0
      invariant 0 <= i < |coins|
      invariant result == coins[..i + 1] + Kept(coins, i + 1)
    {
      if result[i].position == result[i - 1].position {
        result := result[..i] + result[i + 1..];
      }
      assert result == coins[..i] + Kept(coins, i);
      i := i - 1;
    }
    assert coins[..1] == [coins[0]];
  }

  predicate StrictlyIncreasing(coins: seq<Coin>) {
    forall k, m :: 0 <= k < m < |coins| ==> coins[k].position < coins[m].position
  }

  lemma {:induction false} KeptMembers(coins: seq<Coin>, lo: nat)
    requires 1 <= lo <= |coins|
    ensures forall d :: d in Kept(coins, lo) ==> d in coins
    decreases |coins| - lo
  {
    if lo < |coins| {
      KeptMembers(coins, lo + 1);
    }
  }

  lemma {:induction false} KeptIncreasing(coins: seq<Coin>, lo: nat)
    requires 1 <= lo <= |coins| && Sorted(coins)
    ensures forall d :: d in Kept(coins, lo) ==> coins[lo - 1].position < d.position
    ensures StrictlyIncreasing(Kept(coins, lo))
    decreases |coins| - lo
  {
    if lo < |coins| {
      KeptIncreasing(coins, lo + 1);
      assert !CoinLess(coins[lo], coins[lo - 1]);
      var rest := Kept(coins, lo + 1);
      var head := if coins[lo].position == coins[lo - 1].position then [] else [coins[lo]];
      var all := head + rest;
      assert Kept(coins, lo) == all;
      forall k, m | 0 <= k < m < |all| ensures all[k].position < all[m].position {
        assert all[m] in rest;
      }
    }
  }

  /** A kept coin is found again among the coins kept from any earlier starting point. */
  lemma {:induction false} KeptContains(coins: seq<Coin>, lo: nat, j: nat)
    requires 1 <= lo <= j < |coins| && coins[j].position != coins[j - 1].position
    ensures coins[j] in Kept(coins, lo)
    decreases j - lo
  {
    if lo < j {
      KeptContains(coins, lo + 1, j);
    }
  }

  /** The index of the first coin of the equal-position run that coin `j` belongs to. */
  function FirstOfRun(coins: seq<Coin>, j: nat): (f: nat)
    requires j < |coins|
    ensures f <= j && coins[f].position == coins[j].position
    ensures f == 0 || coins[f].position != coins[f - 1].position
  {
    if j == 0 || coins[j].position != coins[j - 1].position then j else FirstOfRun(coins, j - 1)
  }

  lemma {:induction false} FirstOfRunIsEarliest(coins: seq<Coin>, j: nat)
    requires j < |coins| && Sorted(coins)
    ensures coins[FirstOfRun(coins, j)].time <= coins[j].time
  {
    var f := FirstOfRun(coins, j);
    if f < j {
      assert !CoinLess(coins[j], coins[f]);
    }
  }

  /**
   * On sorted input the positions left by `erase_duplicates` are strictly
   * increasing, every coin kept is one of the input's, and every input coin
   * has a kept coin at its position with a time no later than its own: the
   * kept coin is the first, smallest-time coin of its run.
   */
  lemma DeduplicatedProperties(coins: seq<Coin>)
    requires Sorted(coins)
    ensures StrictlyIncreasing(Deduplicated(coins))
    ensures forall d :: d in Deduplicated(coins) ==> d in coins
    ensures forall j :: 0 <= j < |coins| ==>
      var d := coins[FirstOfRun(coins, j)];
      d in Deduplicated(coins) && d.position == coins[j].position && d.time <= coins[j].time
  {
    DeduplicatedIncreasing(coins);
    DeduplicatedCovers(coins);
    if |coins| > 0 {
      KeptMembers(coins, 1);
    }
  }

  /** The positions `erase_duplicates` leaves on sorted input strictly increase. */
  lemma DeduplicatedIncreasing(coins: seq<Coin>)
    requires Sorted(coins)
    ensures StrictlyIncreasing(Deduplicated(coins))
  {
    if |coins| > 0 {
      KeptIncreasing(coins, 1);
      var r := Deduplicated(coins);
      forall k, m | 0 <= k < m < |r| ensures r[k].position < r[m].position {
        assert r[m] in Kept(coins, 1);
      }
    }
  }

  /** Each input coin's run keeps its first coin, at the same position and no later. */
  lemma DeduplicatedCovers(coins: seq<Coin>)
    requires Sorted(coins)
    ensures forall j :: 0 <= j < |coins| ==>
      var d := coins[FirstOfRun(coins, j)];
      d in Deduplicated(coins) && d.position == coins[j].position && d.time <= coins[j].time
  {
    var r := Deduplicated(coins);
    forall j | 0 <= j < |coins|
      ensures var d := coins[FirstOfRun(coins, j)];
        d in r && d.position == coins[j].position && d.time <= coins[j].time
    {
      var f := FirstOfRun(coins, j);
      FirstOfRunIsEarliest(coins, j);
      if f > 0 {
        KeptContains(coins, 1, f);
      }
    }
  }

  // ---------------------------------------------------------------------------
  // get_answer_for_time_and_direction

  function Distance(a: int, b: int): nat {
    if a < b then b - a else a - b
  }

  /**
   * The walk's state: `cur` lies between `end` and `begin`, and `direction`
   * points from `end` towards `begin` whenever they differ.
   */
  predicate WalkState(coins: seq<Coin>, direction: int, begin: int, end: int, cur: int) {
    && 0 <= begin < |coins| && 0 <= end < |coins| && 0 <= cur < |coins|
    && (direction == 1 || direction == -1)
    && (if begin < end then begin <= cur <= end else end <= cur <= begin)
    && (begin != end ==> direction == (if begin > end then 1 else -1))
  }

  /**
   * One turn of the source's loop after another, from the given state. Each
   * reversal makes `|begin - end|` strictly smaller; every other step moves
   * `cur` one coin towards `begin`. The answer is 2, 0 or a negative number.
   */
  function Walk(coins: seq<Coin>, time: int, direction: int, begin: int, end: int, cur: int): (r: int)
    requires WalkState(coins, direction, begin, end, cur)
    ensures r == 2 || r == 0 || r < 0
    decreases Distance(begin, end), Distance(begin, cur)
  {
    if time > coins[cur].time then
      if cur == end then 2
      else Walk(coins, time - Distance(coins[cur].position, coins[begin].position), -direction, cur, begin, begin)
    else if cur != begin then
      Walk(coins, time - Distance(coins[cur].position, coins[cur + direction].position), direction, begin, end, cur + direction)
    else if time >= 0 then 0
    else time
  }

  /** The answer of `get_answer_for_time_and_direction`, starting from the end that `direction` names. */
  function Answer(coins: seq<Coin>, time: int, direction: int): (r: int)
    requires |coins| > 0 && (direction == 1 || direction == -1)
    ensures r == 2 || r == 0 || r < 0
  {
    if direction == 1 then Walk(coins, time, direction, |coins| - 1, 0, 0)
    else Walk(coins, time, direction, 0, |coins| - 1, |coins| - 1)
  }

  /** `get_answer_for_time_and_direction`, as the source's loop over local variables. */
  method GetAnswerForTimeAndDirection(time: int, direction: int, coins: seq<Coin>) returns (r: int)
    requires |coins| > 0 && (direction == 1 || direction == -1)
    ensures r == Answer(coins, time, direction)
    ensures r == 2 || r == 0 || r < 0
  {
    var begin, end;
    if direction == 1 {
      end, begin := 0, |coins| - 1;
    } else {
      end, begin := |coins| - 1, 0;
    }
    var curPosition := end;
    var curTime, dir := time, direction;
    while true
      invariant WalkState(coins, dir, begin, end, curPosition)
      invariant Walk(coins, curTime, dir, begin, end, curPosition) == Answer(coins, time, direction)
      decreases Distance(begin, end), Distance(begin, curPosition)
    {
      if curTime > coins[curPosition].time {
        if curPosition == end {
          return 2;
        }
        curTime := curTime - Distance(coins[curPosition].position, coins[begin].position);
        end := begin;
        begin := curPosition;
        curPosition := end;
        dir := -dir;
      } else {
        if curPosition != begin {
          curTime := curTime - Distance(coins[curPosition].position, coins[curPosition + dir].position);
          curPosition := curPosition + dir;
        } else {
          if curTime >= 0 {
            return 0;
          } else {
            return curTime;
          }
        }
      }
    }
  }

  // ---------------------------------------------------------------------------
  // get_best_time

  /**
   * `get_best_time`: for direction -1 and then +1, tries times 0, 0 - a1, ...
   * (each answer a < 0 strictly raises the time) until the time exceeds
   * `MAX_VALUE` or the answer is 2. The result is a time with answer 0 in one
   * of the two directions, or -1.
   */
  method GetBestTime(coins: seq<Coin>) returns (r: int)
    requires |coins| > 0
    ensures r == -1 || (0 <= r <= MAX_VALUE && (Answer(coins, r, -1) == 0 || Answer(coins, r, 1) == 0))
  {
    var direction := -1;
    while true
      invariant direction == -1 || direction == 1
      decreases 1 - direction
    {
      var curTime := 0;
      while curTime <= MAX_VALUE
        invariant curTime >= 0
        decreases MAX_VALUE - curTime
      {
        var answer := GetAnswerForTimeAndDirection(curTime, direction, coins);
        if answer == 0 {
          return curTime;
        }
        if answer == 2 {
          break;
        }
        curTime := curTime - answer;
      }
      if direction == 1 {
        return -1;
      }
      direction := direction + 2;
    }
  }
}
