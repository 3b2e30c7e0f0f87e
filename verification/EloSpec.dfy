/** The Elo rating of a contest as functions of the list of contestants, and what the ratings keep. */
module EloSpec {

  datatype Contestant = Contestant(
    id: int, rating: int, rank: int, seed: real, needRating: int, newRating: int, delta: int)

  /** The win probability and the square root, over exact reals. */
  datatype Maths = Maths(win: (int, int) -> real, sqrt: real -> real)

  ghost predicate Lawful(m: Maths) {
    (forall a, b :: 0.0 < m.win(a, b) < 1.0)
    && (forall a, a', b | a < a' :: m.win(a, b) < m.win(a', b))
    && (forall a, b, b' | b < b' :: m.win(a, b') < m.win(a, b))
    && (forall x: real | x >= 0.0 :: m.sqrt(x) >= 0.0 && m.sqrt(x) * m.sqrt(x) == x)
  }

  // ---------- Seeds ----------

  /** The expected place of a rating among all of s: judge_elo_get_seed. */
  function SeedAt(s: seq<Contestant>, rating: int, m: Maths): real {
    if s == [] then 1.0 else SeedAt(s[..|s| - 1], rating, m) + m.win(s[|s| - 1].rating, rating)
  }

  /** The same without the contestant i, over the first n. */
  function SeedOf(s: seq<Contestant>, i: nat, n: nat, m: Maths): real
    requires n <= |s| && i < |s|
  {
    if n == 0 then 1.0
    else SeedOf(s, i, n - 1, m) + if n - 1 == i then 0.0 else m.win(s[n - 1].rating, s[i].rating)
  }

  function Seed(s: seq<Contestant>, i: nat, m: Maths): real
    requires i < |s|
  {
    SeedOf(s, i, |s|, m)
  }

  const MAX_RATING := 8000

  /** The highest rating from low on down whose expected place is not better than rank; 1 if there is none. */
  function NeedFrom(s: seq<Contestant>, rank: real, high: nat, m: Maths): (r: nat)
    requires high > 0
    ensures 1 <= r <= high
  {
    if high == 1 || SeedAt(s, high, m) >= rank then high else NeedFrom(s, rank, high - 1, m)
  }

  function NeedRating(s: seq<Contestant>, rank: real, m: Maths): nat {
    NeedFrom(s, rank, MAX_RATING - 1, m)
  }

  /** C's division of integers. */
  function Trunc(a: int, b: int): int
    requires b > 0
  {
    if a >= 0 then a / b else -((-a) / b)
  }

  /** The geometric mean of the place reached and the place expected. */
  function MidRank(s: seq<Contestant>, i: nat, m: Maths): real
    requires i < |s|
  {
    m.sqrt(Times(s[i].rank, Seed(s, i, m)))
  }

  function Times(rank: int, seed: real): real {
    rank as real * seed
  }

  /** A contestant after the first two loops of judge_elo_rating_process. */
  function Rated(s: seq<Contestant>, i: nat, m: Maths): Contestant
    requires i < |s|
  {
    var need := NeedRating(s, MidRank(s, i, m), m);
    s[i].(seed := Seed(s, i, m), needRating := need, delta := Trunc(need - s[i].rating, 2))
  }

  lemma {:induction false} SeedAtMonotone(s: seq<Contestant>, r: int, r': int, m: Maths)
    requires Lawful(m) && r <= r'
    ensures SeedAt(s, r', m) <= SeedAt(s, r, m)
  {
    if s != [] {
      SeedAtMonotone(s[..|s| - 1], r, r', m);
      assert r < r' ==> m.win(s[|s| - 1].rating, r') < m.win(s[|s| - 1].rating, r);
    }
  }

  /** All but i and j. */
  function SeedOfOthers(s: seq<Contestant>, i: nat, j: nat, rating: int, n: nat, m: Maths): real
    requires n <= |s|
  {
    if n == 0 then 1.0
    else SeedOfOthers(s, i, j, rating, n - 1, m) + if n - 1 == i || n - 1 == j then 0.0 else m.win(s[n - 1].rating, rating)
  }

  lemma {:induction false} SeedSplit(s: seq<Contestant>, i: nat, j: nat, n: nat, m: Maths)
    requires i < |s| && j < |s| && i != j && n <= |s|
    ensures SeedOf(s, i, n, m) == SeedOfOthers(s, i, j, s[i].rating, n, m) + if j < n then m.win(s[j].rating, s[i].rating) else 0.0
  {
    if n > 0 {
      SeedSplit(s, i, j, n - 1, m);
    }
  }

  lemma {:induction false} OthersSwap(s: seq<Contestant>, i: nat, j: nat, rating: int, n: nat, m: Maths)
    requires n <= |s|
    ensures SeedOfOthers(s, i, j, rating, n, m) == SeedOfOthers(s, j, i, rating, n, m)
  {
    if n > 0 {
      OthersSwap(s, i, j, rating, n - 1, m);
    }
  }

  lemma {:induction false} OthersMonotone(s: seq<Contestant>, i: nat, j: nat, r: int, r': int, n: nat, m: Maths)
    requires Lawful(m) && n <= |s| && r < r'
    ensures SeedOfOthers(s, i, j, r', n, m) <= SeedOfOthers(s, i, j, r, n, m)
  {
    if n > 0 {
      OthersMonotone(s, i, j, r, r', n - 1, m);
      assert m.win(s[n - 1].rating, r') < m.win(s[n - 1].rating, r);
    }
  }

  /** The better rated of two contestants has the better seed. */
  lemma SeedOrder(s: seq<Contestant>, i: nat, j: nat, m: Maths)
    requires Lawful(m) && i < |s| && j < |s| && s[i].rating > s[j].rating
    ensures Seed(s, i, m) < Seed(s, j, m)
  {
    var ri, rj := s[i].rating, s[j].rating;
    SeedSplit(s, i, j, |s|, m);
    SeedSplit(s, j, i, |s|, m);
    OthersSwap(s, i, j, rj, |s|, m);
    OthersMonotone(s, i, j, rj, ri, |s|, m);
    assert m.win(rj, ri) < m.win(ri, ri) < m.win(ri, rj);
  }

  lemma {:induction false} SeedPositive(s: seq<Contestant>, i: nat, n: nat, m: Maths)
    requires Lawful(m) && i < |s| && n <= |s|
    ensures SeedOf(s, i, n, m) >= 1.0
  {
    if n > 0 {
      SeedPositive(s, i, n - 1, m);
      assert 0.0 < m.win(s[n - 1].rating, s[i].rating);
    }
  }

  // ---------- Needed ratings ----------

  lemma SquareOrder(x: real, y: real)
    requires 0.0 <= y < x
    ensures y * y < x * x
  {
    assert (x - y) * x > 0.0;
    assert (x - y) * y >= 0.0;
  }

  lemma SqrtMonotone(x: real, y: real, m: Maths)
    requires Lawful(m) && 0.0 <= x <= y
    ensures m.sqrt(x) <= m.sqrt(y)
  {
    if m.sqrt(y) < m.sqrt(x) {
      SquareOrder(m.sqrt(x), m.sqrt(y));
    }
  }

  lemma {:induction false} NeedFromMonotone(s: seq<Contestant>, rank: real, rank': real, high: nat, m: Maths)
    requires rank <= rank' && high > 0
    ensures NeedFrom(s, rank', high, m) <= NeedFrom(s, rank, high, m)
  {
    if high > 1 {
      NeedFromMonotone(s, rank, rank', high - 1, m);
    }
  }

  /** What makes a rating the needed one, when seeds fall as ratings rise: the binary search stops there. */
  lemma {:induction false} NeedFromUnique(s: seq<Contestant>, rank: real, high: nat, r: nat, m: Maths)
    requires Lawful(m) && 1 <= r <= high
    requires r == 1 || SeedAt(s, r, m) >= rank
    requires r == high || SeedAt(s, r + 1, m) < rank
    ensures NeedFrom(s, rank, high, m) == r
  {
    if r < high {
      SeedAtMonotone(s, r + 1, high, m);
      NeedFromUnique(s, rank, high - 1, r, m);
    }
  }

  lemma ProductOrder(a: real, b: real, x: real, y: real)
    requires 0.0 <= a <= b && 0.0 <= x <= y
    ensures 0.0 <= a * x <= b * y
  {
    assert 0.0 <= a * x;
    assert a * x <= b * x;
    assert b * x <= b * y;
  }

  /** Half the way from r to n, cut towards r, grows with both. */
  lemma HalfWay(r: int, n: int, r': int, n': int)
    requires r' <= r && n' <= n
    ensures r' + Trunc(n' - r', 2) <= r + Trunc(n - r, 2)
  {
  }

  /** Who ranks no worse and was rated higher is not overtaken by the first estimate. */
  lemma RatedOrder(s: seq<Contestant>, i: nat, j: nat, m: Maths)
    requires Lawful(m) && i < |s| && j < |s|
    requires s[i].rating > s[j].rating && 0 <= s[i].rank <= s[j].rank
    ensures s[i].rating + Rated(s, i, m).delta >= s[j].rating + Rated(s, j, m).delta
  {
    MidRankOrder(s, i, j, m);
    NeedFromMonotone(s, MidRank(s, i, m), MidRank(s, j, m), MAX_RATING - 1, m);
    HalfWay(s[i].rating, NeedRating(s, MidRank(s, i, m), m), s[j].rating, NeedRating(s, MidRank(s, j, m), m));
  }

  lemma MidRankOrder(s: seq<Contestant>, i: nat, j: nat, m: Maths)
    requires Lawful(m) && i < |s| && j < |s|
    requires s[i].rating > s[j].rating && 0 <= s[i].rank <= s[j].rank
    ensures MidRank(s, i, m) <= MidRank(s, j, m)
  {
    SeedOrder(s, i, j, m);
    SeedPositive(s, i, |s|, m);
    var a, b := Seed(s, i, m), Seed(s, j, m);
    assert a >= 1.0;
    hide Seed;
    ProductOrder(s[i].rank as real, s[j].rank as real, a, b);
    SqrtMonotone(Times(s[i].rank, a), Times(s[j].rank, b), m);
  }

  // ---------- The whole list ----------

  function RateAll(s: seq<Contestant>, m: Maths): (t: seq<Contestant>)
    ensures |t| == |s|
  {
    seq(|s|, i requires 0 <= i < |s| => Rated(s, i, m))
  }

  function Total(s: seq<Contestant>): int {
    if s == [] then 0 else Total(s[..|s| - 1]) + s[|s| - 1].delta
  }

  /** A correction: the same for everyone. */
  function ShiftAll(s: seq<Contestant>, inc: int): (t: seq<Contestant>)
    ensures |t| == |s|
  {
    seq(|s|, i requires 0 <= i < |s| => s[i].(delta := s[i].delta + inc))
  }

  function FirstInc(s: seq<Contestant>): int
    requires s != []
  {
    Trunc(-Total(s), |s|) - 1
  }

  /** C's round, for what is not negative. */
  function Round(x: real): int {
    (x + 0.5).Floor
  }

  function Min(a: int, b: int): int {
    if a < b then a else b
  }

  function Max(a: int, b: int): int {
    if a > b then a else b
  }

  /** How many of the highest rated are to come out even. */
  function ZeroSumCount(n: nat, m: Maths): (z: int)
    ensures z <= n
  {
    Min(4 * Round(m.sqrt(n as real)), n)
  }

  function SecondInc(s: seq<Contestant>, m: Maths): int
    requires ZeroSumCount(|s|, m) > 0
  {
    var z := ZeroSumCount(|s|, m);
    Min(Max(Trunc(-Total(s[..z]), z), -10), 0)
  }

  function NewRating(c: Contestant): Contestant {
    c.(newRating := Max(c.rating + c.delta, 1))
  }

  function NewRatings(s: seq<Contestant>): (t: seq<Contestant>)
    ensures |t| == |s|
  {
    seq(|s|, i requires 0 <= i < |s| => NewRating(s[i]))
  }

  ghost predicate Permutes(sort: seq<Contestant> -> seq<Contestant>) {
    forall s :: multiset(sort(s)) == multiset(s)
  }

  /** qsort with the comparison of ratings, the higher first. */
  ghost predicate SortsByRating(sort: seq<Contestant> -> seq<Contestant>) {
    Permutes(sort) && forall s, i, j | 0 <= i < j < |sort(s)| :: sort(s)[i].rating >= sort(s)[j].rating
  }

  /** qsort with the comparison of ranks, the lower first. */
  ghost predicate SortsByRank(sort: seq<Contestant> -> seq<Contestant>) {
    Permutes(sort) && forall s, i, j | 0 <= i < j < |sort(s)| :: sort(s)[i].rank <= sort(s)[j].rank
  }

  /** The list with both corrections, the higher rated first. */
  function Corrected(s: seq<Contestant>, m: Maths, byRating: seq<Contestant> -> seq<Contestant>): (t: seq<Contestant>)
    requires s != [] && |byRating(RateAll(s, m))| == |s| && ZeroSumCount(|s|, m) > 0
    ensures |t| == |s|
  {
    var sorted := byRating(RateAll(s, m));
    var first := ShiftAll(sorted, FirstInc(sorted));
    ShiftAll(first, SecondInc(first, m))
  }

  // ---------- The corrections ----------

  lemma {:induction false} TotalShift(s: seq<Contestant>, inc: int)
    ensures Total(ShiftAll(s, inc)) == Total(s) + |s| * inc
  {
    if s != [] {
      var t := s[..|s| - 1];
      TotalShift(t, inc);
      assert ShiftAll(s, inc)[..|s| - 1] == ShiftAll(t, inc);
      assert |s| * inc == |t| * inc + inc;
    }
  }

  lemma TruncBounds(a: int, b: int)
    requires b > 0
    ensures -b < a - b * Trunc(a, b) < b
    ensures a >= 0 ==> Trunc(a, b) >= 0 && a - b * Trunc(a, b) >= 0
    ensures a <= 0 ==> Trunc(a, b) <= 0 && a - b * Trunc(a, b) <= 0
  {
    if a >= 0 {
      assert a == b * (a / b) + a % b;
    } else {
      assert -a == b * ((-a) / b) + (-a) % b;
      assert b * Trunc(a, b) == -(b * ((-a) / b));
    }
  }

  /** After the first correction the total is negative, by less than two points each. */
  lemma FirstTotal(s: seq<Contestant>)
    requires s != []
    ensures -2 * |s| < Total(ShiftAll(s, FirstInc(s))) < 0
  {
    var n, q := |s|, Trunc(-Total(s), |s|);
    TotalShift(s, FirstInc(s));
    TruncBounds(-Total(s), n);
    assert n * (q - 1) == n * q - n;
  }

  /** The second correction takes at most ten points from everyone. */
  lemma SecondTotal(s: seq<Contestant>, m: Maths)
    requires ZeroSumCount(|s|, m) > 0
    ensures -10 <= SecondInc(s, m) <= 0
    ensures Total(s) - 10 * |s| <= Total(ShiftAll(s, SecondInc(s, m))) <= Total(s)
  {
    var inc := SecondInc(s, m);
    TotalShift(s, inc);
    MultiplyBounds(|s|, inc);
  }

  lemma MultiplyBounds(n: nat, inc: int)
    requires -10 <= inc <= 0
    ensures -10 * n <= n * inc <= 0
  {
  }

  /** Either the top group ends below its size, or everyone lost the ten points. */
  lemma TopGroup(s: seq<Contestant>, m: Maths)
    requires ZeroSumCount(|s|, m) > 0
    ensures var z := ZeroSumCount(|s|, m);
            Total(ShiftAll(s, SecondInc(s, m))[..z]) < z || SecondInc(s, m) == -10
  {
    var z, inc := ZeroSumCount(|s|, m), SecondInc(s, m);
    var top := s[..z];
    assert ShiftAll(s, inc)[..z] == ShiftAll(top, inc);
    TotalShift(top, inc);
    TruncBounds(-Total(top), z);
    var q := Trunc(-Total(top), z);
    assert inc == Min(Max(q, -10), 0);
    if inc != -10 {
      assert inc == q || (inc == 0 && q >= 0);
      assert inc == q ==> z * inc == z * q;
    }
  }

  lemma {:induction false} TotalPermuted(s: seq<Contestant>, t: seq<Contestant>)
    requires multiset(s) == multiset(t)
    ensures Total(s) == Total(t) && |s| == |t|
    decreases |s|
  {
    SamePermutedLength(s, t);
    if s != [] {
      var c := s[|s| - 1];
      assert c in multiset(t);
      var k :| 0 <= k < |t| && t[k] == c;
      var rest := t[..k] + t[k + 1..];
      TotalWithout(t, k);
      MultisetLast(s);
      MultisetWithout(t, k);
      TotalPermuted(s[..|s| - 1], rest);
    }
  }

  lemma MultisetLast(s: seq<Contestant>)
    requires s != []
    ensures multiset(s[..|s| - 1]) == multiset(s) - multiset{s[|s| - 1]}
  {
    assert s == s[..|s| - 1] + [s[|s| - 1]];
  }

  lemma MultisetWithout(t: seq<Contestant>, k: nat)
    requires k < |t|
    ensures multiset(t[..k] + t[k + 1..]) == multiset(t) - multiset{t[k]}
  {
    assert t == t[..k] + [t[k]] + t[k + 1..];
  }

  lemma SamePermutedLength(s: seq<Contestant>, t: seq<Contestant>)
    requires multiset(s) == multiset(t)
    ensures |s| == |t|
  {
    assert |multiset(s)| == |s| && |multiset(t)| == |t|;
  }

  lemma TotalLast(t: seq<Contestant>)
    requires t != []
    ensures Total(t) == Total(t[..|t| - 1]) + t[|t| - 1].delta
  {
  }

  lemma {:induction false} TotalWithout(t: seq<Contestant>, k: nat)
    requires k < |t|
    ensures Total(t) == Total(t[..k] + t[k + 1..]) + t[k].delta
    decreases |t|
  {
    hide Total;
    var n := |t| - 1;
    var rest := t[..k] + t[k + 1..];
    TotalLast(t);
    if k < n {
      TotalWithout(t[..n], k);
      TotalLast(rest);
      assert rest[..n - 1] == t[..n][..k] + t[..n][k + 1..];
    } else {
      assert rest == t[..n];
    }
  }

  /** The total of all changes lies between -12 points each and zero. */
  lemma TotalBounds(s: seq<Contestant>, m: Maths, byRating: seq<Contestant> -> seq<Contestant>)
    requires s != [] && Permutes(byRating) && |byRating(RateAll(s, m))| == |s| && ZeroSumCount(|s|, m) > 0
    ensures -12 * |s| < Total(Corrected(s, m, byRating)) < 0
  {
    var sorted := byRating(RateAll(s, m));
    FirstTotal(sorted);
    SecondTotal(ShiftAll(sorted, FirstInc(sorted)), m);
  }

  // ---------- The size of the top group ----------

  /** Rounding the square root of n: k exactly between k(k-1) and k(k+1). */
  lemma RoundedRoot(n: nat, k: nat, m: Maths)
    requires Lawful(m) && n >= 1 && k >= 1
    ensures Round(m.sqrt(n as real)) == k <==> k * (k - 1) < n <= k * (k + 1)
  {
    var x, h := m.sqrt(n as real), k as real;
    assert x >= 0.0 && x * x == n as real;
    assert Round(x) == k <==> h - 0.5 <= x < h + 0.5;
    RootBounds(x, h - 0.5);
    RootBounds(x, h + 0.5);
    assert (h - 0.5) * (h - 0.5) == h * h - h + 0.25;
    assert (h + 0.5) * (h + 0.5) == h * h + h + 0.25;
    assert h * h - h == (k * (k - 1)) as real && h * h + h == (k * (k + 1)) as real;
  }

  lemma RootBounds(x: real, y: real)
    requires x >= 0.0 && y >= 0.0
    ensures y <= x <==> y * y <= x * x
  {
    if y < x {
      SquareOrder(x, y);
    } else if x < y {
      SquareOrder(y, x);
    }
  }

  lemma TopGroupNotEmpty(n: nat, m: Maths)
    requires Lawful(m) && n >= 1
    ensures 1 <= ZeroSumCount(n, m) <= n
  {
    var x := m.sqrt(n as real);
    assert x * x == n as real;
    RootBounds(x, 1.0);
  }

  // ---------- Who overtakes whom ----------

  /** Nobody overtakes by losing to the other: the condition that judge_elo_validate_deltas reports if it fails. */
  predicate FirstInvariant(c: Contestant, d: Contestant) {
    c.rating > d.rating && c.rank <= d.rank ==> c.rating + c.delta >= d.rating + d.delta
  }

  predicate RanksValid(s: seq<Contestant>) {
    forall i | 0 <= i < |s| :: s[i].rank >= 0
  }

  /** Everyone in the corrected list is a rated contestant with the two corrections, the same for all. */
  lemma CorrectedFrom(s: seq<Contestant>, m: Maths, byRating: seq<Contestant> -> seq<Contestant>, k: nat) returns (a: nat)
    requires s != [] && Permutes(byRating) && |byRating(RateAll(s, m))| == |s| && ZeroSumCount(|s|, m) > 0
    requires k < |s|
    ensures a < |s|
    ensures var sorted := byRating(RateAll(s, m));
            var first := FirstInc(sorted);
            Corrected(s, m, byRating)[k]
            == Rated(s, a, m).(delta := Rated(s, a, m).delta + first + SecondInc(ShiftAll(sorted, first), m))
  {
    hide Rated, FirstInc, SecondInc;
    var rated := RateAll(s, m);
    var sorted := byRating(rated);
    assert sorted[k] in multiset(sorted);
    assert sorted[k] in multiset(rated);
    a :| 0 <= a < |rated| && rated[a] == sorted[k];
  }

  /** After both corrections who ranks no worse and was rated higher is still ahead, or level. */
  lemma CorrectedOrder(s: seq<Contestant>, m: Maths, byRating: seq<Contestant> -> seq<Contestant>, i: nat, j: nat)
    requires Lawful(m) && RanksValid(s) && s != [] && Permutes(byRating)
    requires |byRating(RateAll(s, m))| == |s| && ZeroSumCount(|s|, m) > 0
    requires i < |s| && j < |s|
    ensures FirstInvariant(Corrected(s, m, byRating)[i], Corrected(s, m, byRating)[j])
  {
    hide Corrected, FirstInc, SecondInc;
    var a := CorrectedFrom(s, m, byRating, i);
    var b := CorrectedFrom(s, m, byRating, j);
    if s[a].rating > s[b].rating && s[a].rank <= s[b].rank {
      RatedOrder(s, a, b, m);
    }
  }

  lemma SortedLength(s: seq<Contestant>, sort: seq<Contestant> -> seq<Contestant>)
    requires Permutes(sort)
    ensures |sort(s)| == |s|
  {
    SamePermutedLength(sort(s), s);
  }

  /** judge_elo_rating_process as one function. */
  function Process(s: seq<Contestant>, m: Maths,
                   byRating: seq<Contestant> -> seq<Contestant>, byRank: seq<Contestant> -> seq<Contestant>): seq<Contestant>
    requires s != [] && |byRating(RateAll(s, m))| == |s| && ZeroSumCount(|s|, m) > 0
  {
    byRank(NewRatings(Corrected(s, m, byRating)))
  }

  /** The corrected list's top group adds up to less than its size, or the second correction was ten points. */
  ghost predicate TopGroupEven(s: seq<Contestant>, m: Maths, byRating: seq<Contestant> -> seq<Contestant>)
    requires s != [] && |byRating(RateAll(s, m))| == |s| && ZeroSumCount(|s|, m) > 0
  {
    var c := Corrected(s, m, byRating);
    var sorted := byRating(RateAll(s, m));
    Total(c[..ZeroSumCount(|s|, m)]) < ZeroSumCount(|s|, m) || c == ShiftAll(ShiftAll(sorted, FirstInc(sorted)), -10)
  }

  lemma CorrectedTopGroup(s: seq<Contestant>, m: Maths, byRating: seq<Contestant> -> seq<Contestant>)
    requires s != [] && |byRating(RateAll(s, m))| == |s| && ZeroSumCount(|s|, m) > 0
    ensures TopGroupEven(s, m, byRating)
  {
    hide RateAll, ShiftAll, SecondInc, FirstInc, ZeroSumCount;
    var sorted := byRating(RateAll(s, m));
    TopGroup(ShiftAll(sorted, FirstInc(sorted)), m);
  }

  /** What a run leaves: the changes add up to a bounded loss, the top group
      comes out below its size unless everyone lost ten points more, no rating is below one, and nobody is overtaken
      from behind. */
  lemma ProcessKeeps(s: seq<Contestant>, m: Maths,
                     byRating: seq<Contestant> -> seq<Contestant>, byRank: seq<Contestant> -> seq<Contestant>)
    requires Lawful(m) && RanksValid(s) && s != [] && SortsByRating(byRating) && SortsByRank(byRank)
    ensures |byRating(RateAll(s, m))| == |s| && ZeroSumCount(|s|, m) > 0
    ensures var r := Process(s, m, byRating, byRank);
            |r| == |s|
            && -12 * |s| < Total(r) < 0
            && TopGroupEven(s, m, byRating)
            && (forall i | 0 <= i < |r| :: r[i].newRating == Max(r[i].rating + r[i].delta, 1) >= 1)
            && (forall i, j | 0 <= i < |r| && 0 <= j < |r| :: FirstInvariant(r[i], r[j]))
            && (forall i, j | 0 <= i < j < |r| :: r[i].rank <= r[j].rank)
  {
    hide Corrected, FirstInvariant, ZeroSumCount, RateAll, TopGroupEven;
    SortedLength(RateAll(s, m), byRating);
    TopGroupNotEmpty(|s|, m);
    var c := Corrected(s, m, byRating);
    var n := NewRatings(c);
    TotalBounds(s, m, byRating);
    CorrectedTopGroup(s, m, byRating);
    TotalOfNewRatings(c);
    var r := byRank(n);
    SortedLength(n, byRank);
    TotalPermuted(r, n);
    forall i, j | 0 <= i < |r| && 0 <= j < |r|
      ensures r[i].newRating == Max(r[i].rating + r[i].delta, 1) && FirstInvariant(r[i], r[j])
    {
      var a := Find(r, n, i);
      var b := Find(r, n, j);
      CorrectedOrder(s, m, byRating, a, b);
      NewRatingKeeps(c[a], c[b]);
    }
    forall i | 0 <= i < |r|
      ensures r[i].newRating == Max(r[i].rating + r[i].delta, 1) >= 1
    {
      assert FirstInvariant(r[i], r[i]);
    }
  }

  lemma Find(s: seq<Contestant>, t: seq<Contestant>, i: nat) returns (k: nat)
    requires multiset(s) == multiset(t) && i < |s|
    ensures k < |t| && t[k] == s[i]
  {
    assert s[i] in multiset(t);
    k :| 0 <= k < |t| && t[k] == s[i];
  }

  lemma NewRatingKeeps(c: Contestant, d: Contestant)
    ensures FirstInvariant(NewRating(c), NewRating(d)) == FirstInvariant(c, d)
  {
  }

  lemma {:induction false} TotalOfNewRatings(s: seq<Contestant>)
    ensures Total(NewRatings(s)) == Total(s)
  {
    if s != [] {
      var t := s[..|s| - 1];
      TotalOfNewRatings(t);
      assert NewRatings(s)[..|s| - 1] == NewRatings(t);
    }
  }
}
