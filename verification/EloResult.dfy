/** What a run of the rating gives each contestant, in terms of the places reached and expected. */
module EloResult {
  import opened EloSpec

  // ---------- Places ----------

  /** The expected place of a rating is one and the sum of the chances that the others win. */
  lemma {:induction false} PlaceOfParts(s: seq<Contestant>, t: seq<Contestant>, rating: int, m: Maths)
    ensures SeedAt(s + t, rating, m) == SeedAt(s, rating, m) + SeedAt(t, rating, m) - 1.0
  {
    if t == [] {
      assert s + t == s;
    } else {
      PlaceOfParts(s, t[..|t| - 1], rating, m);
      assert (s + t)[..|s + t| - 1] == s + t[..|t| - 1];
    }
  }

  lemma PlaceOfOne(c: Contestant, rating: int, m: Maths)
    ensures SeedAt([], rating, m) == 1.0 && SeedAt([c], rating, m) == 1.0 + m.win(c.rating, rating)
  {
  }

  /** The first loop leaves a contestant out, the search does not. */
  lemma SeedIsPlace(s: seq<Contestant>, i: nat, m: Maths)
    requires i < |s|
    ensures Seed(s, i, m) == SeedAt(s, s[i].rating, m) - m.win(s[i].rating, s[i].rating)
  {
    SeedOfFirst(s, i, |s|, m);
    assert s[..|s|] == s;
  }

  lemma {:induction false} SeedOfFirst(s: seq<Contestant>, i: nat, n: nat, m: Maths)
    requires i < |s| && n <= |s|
    ensures SeedOf(s, i, n, m) == SeedAt(s[..n], s[i].rating, m) - if i < n then m.win(s[i].rating, s[i].rating) else 0.0
  {
    if n > 0 {
      SeedOfFirst(s, i, n - 1, m);
      assert s[..n][..n - 1] == s[..n - 1];
    }
  }

  /** One of two wins: so it is for the formula that the judge takes. */
  ghost predicate Fair(m: Maths) {
    forall a, b :: m.win(a, b) + m.win(b, a) == 1.0
  }

  /** The places that the first n of s expect, among the first k. */
  function SeedTotal(s: seq<Contestant>, n: nat, k: nat, m: Maths): real
    requires n <= |s| && k <= |s|
  {
    if n == 0 then 0.0 else SeedTotal(s, n - 1, k, m) + SeedOf(s, n - 1, k, m)
  }

  /** What contestant k adds to the places of the first n. */
  function Wins(s: seq<Contestant>, n: nat, k: nat, m: Maths): real
    requires n <= |s| && k < |s|
  {
    if n == 0 then 0.0 else Wins(s, n - 1, k, m) + if n - 1 == k then 0.0 else m.win(s[k].rating, s[n - 1].rating)
  }

  lemma {:induction false} SeedTotalNext(s: seq<Contestant>, n: nat, k: nat, m: Maths)
    requires n <= |s| && k < |s|
    ensures SeedTotal(s, n, k + 1, m) == SeedTotal(s, n, k, m) + Wins(s, n, k, m)
  {
    if n > 0 {
      SeedTotalNext(s, n - 1, k, m);
    }
  }

  /** The place of contestant k among the first n and what it adds to theirs. */
  lemma {:induction false} WinsAndLosses(s: seq<Contestant>, n: nat, k: nat, m: Maths)
    requires Fair(m) && n <= k < |s|
    ensures Wins(s, n, k, m) + SeedOf(s, k, n, m) == 1.0 + n as real
  {
    if n > 0 {
      WinsAndLosses(s, n - 1, k, m);
      assert m.win(s[k].rating, s[n - 1].rating) + m.win(s[n - 1].rating, s[k].rating) == 1.0;
    }
  }

  lemma {:induction false} SeedTotalOfFirst(s: seq<Contestant>, n: nat, m: Maths)
    requires Fair(m) && n <= |s|
    ensures 2.0 * SeedTotal(s, n, n, m) == (n * (n + 1)) as real
  {
    if n > 0 {
      var k := n - 1;
      SeedTotalOfFirst(s, k, m);
      SeedTotalNext(s, k, k, m);
      WinsAndLosses(s, k, k, m);
      assert SeedOf(s, k, n, m) == SeedOf(s, k, k, m);
      assert n * (n + 1) == k * (k + 1) + 2 * n;
    }
  }

  /** The places that all contestants expect add up to the places there are. */
  lemma SeedsAreFair(s: seq<Contestant>, m: Maths)
    requires Fair(m)
    ensures 2.0 * SeedTotal(s, |s|, |s|, m) == (|s| * (|s| + 1)) as real
  {
    SeedTotalOfFirst(s, |s|, m);
  }

  // ---------- The first estimate ----------

  /** Half the way from rating to need, cut towards zero. */
  predicate IsHalfWay(delta: int, rating: int, need: int) {
    if rating <= need then delta >= 0 && 0 <= need - rating - 2 * delta <= 1
    else delta <= 0 && 0 <= rating - need + 2 * delta <= 1
  }

  /** The needed rating lies from 1 to 7999; its expected place is not better than q, and that of the next is. */
  predicate IsNeeded(s: seq<Contestant>, need: int, q: real, m: Maths) {
    && 1 <= need <= 7999
    && (need == 1 || SeedAt(s, need, m) >= q)
    && (need == 7999 || SeedAt(s, need + 1, m) < q)
  }

  lemma {:induction false} NeedFromIs(s: seq<Contestant>, rank: real, high: nat, m: Maths)
    requires high > 0
    ensures var r := NeedFrom(s, rank, high, m);
            (r == 1 || SeedAt(s, r, m) >= rank) && (r == high || SeedAt(s, r + 1, m) < rank)
  {
    if high > 1 && SeedAt(s, high, m) < rank {
      NeedFromIs(s, rank, high - 1, m);
    }
  }

  /** A contestant goes half the way to the rating whose expected place is the geometric mean of place and seed. */
  lemma RatedIs(s: seq<Contestant>, i: nat, m: Maths) returns (q: real)
    requires Lawful(m) && i < |s| && s[i].rank >= 0
    ensures var c := Rated(s, i, m);
            && c == s[i].(seed := Seed(s, i, m), needRating := c.needRating, delta := c.delta)
            && q >= 0.0 && q * q == s[i].rank as real * Seed(s, i, m)
            && IsNeeded(s, c.needRating, q, m) && IsHalfWay(c.delta, s[i].rating, c.needRating)
  {
    hide Seed, SeedAt, NeedFrom;
    q := MidRank(s, i, m);
    SeedPositive(s, i, |s|, m);
    SeedAtLeastOne(s, i, m);
    PositiveProduct(s[i].rank, Seed(s, i, m));
    NeedFromIs(s, q, 7999, m);
    HalfIs(s[i].rating, NeedRating(s, q, m));
  }

  lemma SeedAtLeastOne(s: seq<Contestant>, i: nat, m: Maths)
    requires Lawful(m) && i < |s|
    ensures Seed(s, i, m) >= 1.0
  {
    SeedPositive(s, i, |s|, m);
  }

  lemma PositiveProduct(rank: int, seed: real)
    requires rank >= 0 && seed >= 1.0
    ensures Times(rank, seed) >= 0.0
  {
  }

  lemma HalfIs(rating: int, need: int)
    ensures IsHalfWay(Trunc(need - rating, 2), rating, need)
  {
  }

  // ---------- The corrections ----------

  /** The first correction: the average of what was gained, cut towards zero, and one point more. */
  lemma FirstIs(s: seq<Contestant>)
    requires s != []
    ensures var n, t, inc := |s|, Total(s), FirstInc(s);
            && (t <= 0 ==> -2 * n < t + n * inc <= -n)
            && (t >= 0 ==> -n <= t + n * inc < 0)
  {
    var n, q := |s|, Trunc(-Total(s), |s|);
    TruncBounds(-Total(s), n);
    assert n * (q - 1) == n * q - n;
  }

  /** The second: the average of what the top group has gained, from none to ten points. */
  lemma SecondIs(s: seq<Contestant>, m: Maths)
    requires ZeroSumCount(|s|, m) > 0
    ensures var z, inc := ZeroSumCount(|s|, m), SecondInc(s, m);
            var t := Total(s[..z]);
            if t < z then inc == 0 else if t >= 10 * z then inc == -10 else -10 < inc < 0 && 0 <= t + z * inc < z
  {
    var z := ZeroSumCount(|s|, m);
    Clamped(Total(s[..z]), z);
  }

  lemma Clamped(t: int, z: int)
    requires z > 0
    ensures var inc := Min(Max(Trunc(-t, z), -10), 0);
            if t < z then inc == 0 else if t >= 10 * z then inc == -10 else -10 < inc < 0 && 0 <= t + z * inc < z
  {
    hide Trunc;
    var q := Trunc(-t, z);
    TruncBounds(-t, z);
    if 0 <= t {
      assert z * q == -(z * -q);
      QuotientOf(t, z, -q);
    }
  }

  lemma QuotientOf(t: int, z: int, p: int)
    requires z > 0 && 0 <= t && 0 <= t - z * p < z
    ensures t < z <==> p <= 0
    ensures t >= 10 * z <==> p >= 10
  {
    if p <= 0 {
      assert z * p <= 0;
    } else {
      assert z * p >= z;
    }
    if p >= 10 {
      assert z * p >= z * 10;
    } else {
      assert z * p <= z * 9;
    }
  }

  /** The top group: four times the rounded root, or everyone. */
  lemma TopGroupSize(n: nat, k: nat, m: Maths)
    requires Lawful(m) && n >= 1 && k >= 1 && k * (k - 1) < n <= k * (k + 1)
    ensures ZeroSumCount(n, m) == if 4 * k < n then 4 * k else n
  {
    RoundedRoot(n, k, m);
  }

  // ---------- The run ----------

  /** A contestant with both corrections c. */
  function Final(x: Contestant, c: int): Contestant {
    x.(delta := x.delta + c, newRating := if x.rating + x.delta + c > 1 then x.rating + x.delta + c else 1)
  }

  function Finals(s: seq<Contestant>, c: int): (t: seq<Contestant>)
    ensures |t| == |s|
  {
    seq(|s|, i requires 0 <= i < |s| => Final(s[i], c))
  }

  lemma FinalsLast(s: seq<Contestant>, c: int)
    requires s != []
    ensures Finals(s, c) == Finals(s[..|s| - 1], c) + [Final(s[|s| - 1], c)]
  {
  }

  lemma FinalsWithout(s: seq<Contestant>, k: nat, c: int)
    requires k < |s|
    ensures multiset(Finals(s, c)) == multiset(Finals(s[..k] + s[k + 1..], c)) + multiset{Final(s[k], c)}
  {
    var a, b := Finals(s[..k], c), Finals(s[k + 1..], c);
    assert Finals(s, c) == a + [Final(s[k], c)] + b;
    assert Finals(s[..k] + s[k + 1..], c) == a + b;
  }

  lemma {:induction false} FinalsPermuted(s: seq<Contestant>, t: seq<Contestant>, c: int)
    requires multiset(s) == multiset(t)
    ensures multiset(Finals(s, c)) == multiset(Finals(t, c))
    decreases |s|
  {
    hide Finals, Final;
    SamePermutedLength(s, t);
    if s == [] {
      assert t == [];
    } else {
      var x := s[|s| - 1];
      assert x in multiset(t);
      var k :| 0 <= k < |t| && t[k] == x;
      MultisetLast(s);
      MultisetWithout(t, k);
      FinalsPermuted(s[..|s| - 1], t[..k] + t[k + 1..], c);
      FinalsLast(s, c);
      FinalsWithout(t, k, c);
    }
  }

  lemma NewRatingsAreFinals(s: seq<Contestant>, f: int, g: int)
    ensures NewRatings(ShiftAll(ShiftAll(s, f), g)) == Finals(s, f + g)
  {
  }

  lemma ShiftedTop(s: seq<Contestant>, z: nat, f: int)
    requires z <= |s|
    ensures Total(ShiftAll(s, f)[..z]) == Total(s[..z]) + z * f
  {
    TotalShift(s[..z], f);
    assert ShiftAll(s, f)[..z] == ShiftAll(s[..z], f);
  }

  /** Everyone leaves a run with the first estimate and two corrections f and g, the same for all, and never with a
      rating below one. The first correction takes the total t below zero; the second takes what the top group has
      gained, at most ten points each. */
  lemma RunIs(s: seq<Contestant>, m: Maths, byRating: seq<Contestant> -> seq<Contestant>, byRank: seq<Contestant> -> seq<Contestant>)
    returns (f: int, g: int, sorted: seq<Contestant>, z: nat)
    requires Lawful(m) && s != [] && SortsByRating(byRating) && SortsByRank(byRank)
    ensures |byRating(RateAll(s, m))| == |s| && ZeroSumCount(|s|, m) > 0
    ensures sorted == byRating(RateAll(s, m)) && z == ZeroSumCount(|s|, m) <= |sorted|
    ensures forall i, j | 0 <= i < j < |sorted| :: sorted[i].rating >= sorted[j].rating
    ensures multiset(Process(s, m, byRating, byRank)) == multiset(Finals(RateAll(s, m), f + g))
    ensures var n, t := |s|, Total(RateAll(s, m));
            (t <= 0 ==> -2 * n < t + n * f <= -n) && (t >= 0 ==> -n <= t + n * f < 0)
    ensures var t := Total(sorted[..z]) + z * f;
            if t < z then g == 0 else if t >= 10 * z then g == -10 else -10 < g < 0 && 0 <= t + z * g < z
  {
    hide RateAll, ZeroSumCount, FirstInc, SecondInc, Lawful, Total, ShiftAll, Finals, NewRatings;
    SortedLength(RateAll(s, m), byRating);
    TopGroupNotEmpty(|s|, m);
    sorted, z := byRating(RateAll(s, m)), ZeroSumCount(|s|, m);
    f := FirstInc(sorted);
    var first := ShiftAll(sorted, f);
    g := SecondInc(first, m);
    FirstIs(sorted);
    TotalPermuted(sorted, RateAll(s, m));
    ShiftedTop(sorted, z, f);
    SecondIs(first, m);
    NewRatingsAreFinals(sorted, f, g);
    FinalsPermuted(sorted, RateAll(s, m), f + g);
  }

  // ---------- An instance ----------

  lemma NeededAt(s: seq<Contestant>, q: real, need: nat, m: Maths)
    requires Lawful(m) && 1 < need < 7999 && SeedAt(s, need, m) >= q > SeedAt(s, need + 1, m)
    ensures NeedRating(s, q, m) == need
  {
    hide SeedAt, NeedFrom, Lawful;
    NeedFromUnique(s, q, 7999, need, m);
  }

  /** The place that a rating expects among two contestants with rating 1500. */
  lemma PlaceAmongTwo(s: seq<Contestant>, r: int, m: Maths)
    requires |s| == 2 && s[0].rating == 1500 && s[1].rating == 1500
    ensures SeedAt(s, r, m) == 1.0 + 2.0 * m.win(1500, r)
  {
    PlaceOfOne(s[0], r, m);
    PlaceOfOne(s[1], r, m);
    PlaceOfParts([s[0]], [s[1]], r, m);
    assert s == [s[0]] + [s[1]];
  }

  lemma SeedAmongTwo(s: seq<Contestant>, i: nat, m: Maths)
    requires |s| == 2 && i < 2 && s[0].rating == 1500 && s[1].rating == 1500 && m.win(1500, 1500) == 0.5
    ensures Seed(s, i, m) == 1.5
  {
    SeedIsPlace(s, i, m);
    PlaceAmongTwo(s, 1500, m);
  }

  lemma RatedAmongTwo(s: seq<Contestant>, i: nat, need: nat, m: Maths)
    requires Lawful(m) && |s| == 2 && i < 2 && s[0].rating == 1500 && s[1].rating == 1500 && m.win(1500, 1500) == 0.5
    requires s[i].rank >= 0 && 1 < need < 7999
    requires var a, b := 1.0 + 2.0 * m.win(1500, need), 1.0 + 2.0 * m.win(1500, need + 1);
             a * a >= s[i].rank as real * 1.5 > b * b
    ensures Rated(s, i, m) == s[i].(seed := 1.5, needRating := need, delta := Trunc(need - 1500, 2))
  {
    hide Seed, SeedAt, NeedFrom, Trunc;
    SeedAmongTwo(s, i, m);
    PlaceAmongTwo(s, need, m);
    PlaceAmongTwo(s, need + 1, m);
    var q := MidRank(s, i, m);
    assert Times(s[i].rank, 1.5) == s[i].rank as real * 1.5;
    assert 0.0 < m.win(1500, need) && 0.0 < m.win(1500, need + 1);
    RootBounds(1.0 + 2.0 * m.win(1500, need), q);
    RootBounds(1.0 + 2.0 * m.win(1500, need + 1), q);
    NeededAt(s, q, need, m);
  }

  /** Two contestants with rating 1500, of whom the first has won; the chances against 1859, 1860, 1595 and 1596 lie
      where the judge's formula has them. The winner goes to 1565, the other to 1433. */
  lemma TwoContestants(s: seq<Contestant>, m: Maths, byRating: seq<Contestant> -> seq<Contestant>, byRank: seq<Contestant> -> seq<Contestant>)
    requires Lawful(m) && SortsByRating(byRating) && SortsByRank(byRank)
    requires |s| == 2 && s[0].rating == 1500 && s[1].rating == 1500 && s[0].rank == 1 && s[1].rank == 2
    requires m.win(1500, 1500) == 0.5
    requires m.win(1500, 1859) >= 0.11238 && m.win(1500, 1860) <= 0.11182
    requires m.win(1500, 1595) >= 0.36659 && m.win(1500, 1596) <= 0.36600
    ensures |byRating(RateAll(s, m))| == |s| && ZeroSumCount(|s|, m) > 0
    ensures var r := Process(s, m, byRating, byRank);
            |r| == 2 && r[0].rank == 1 && r[0].newRating == 1565 && r[1].rank == 2 && r[1].newRating == 1433
  {
    hide Process, Lawful, Rated, ZeroSumCount;
    Squares(m);
    RatedAmongTwo(s, 0, 1859, m);
    RatedAmongTwo(s, 1, 1595, m);
    var rated := RateAll(s, m);
    assert rated == [Rated(s, 0, m), Rated(s, 1, m)];
    assert Trunc(359, 2) == 179 && Trunc(95, 2) == 47;
    TotalOfTwo(rated);
    var f, g, sorted, z := RunIs(s, m, byRating, byRank);
    TopGroupSize(2, 1, m);
    TotalPermuted(sorted, rated);
    assert sorted[..z] == sorted;
    assert f == -114 && g == 0;
    var r := Process(s, m, byRating, byRank);
    SortedByRank(s, m, byRating, byRank);
    TwoByRank(r, Finals(rated, -114));
  }

  lemma SortedByRank(s: seq<Contestant>, m: Maths, byRating: seq<Contestant> -> seq<Contestant>, byRank: seq<Contestant> -> seq<Contestant>)
    requires SortsByRank(byRank) && s != [] && |byRating(RateAll(s, m))| == |s| && ZeroSumCount(|s|, m) > 0
    ensures var r := Process(s, m, byRating, byRank);
            forall i, j | 0 <= i < j < |r| :: r[i].rank <= r[j].rank
  {
    hide Corrected, NewRatings;
  }

  lemma TwoByRank(r: seq<Contestant>, t: seq<Contestant>)
    requires multiset(r) == multiset(t) && |t| == 2 && t[0].rank < t[1].rank
    requires forall i, j | 0 <= i < j < |r| :: r[i].rank <= r[j].rank
    ensures r == t
  {
    SamePermutedLength(r, t);
    assert t == [t[0], t[1]];
    assert r == [r[0], r[1]];
    assert t[0] in multiset(r) && t[1] in multiset(r);
  }

  lemma TotalOfTwo(s: seq<Contestant>)
    requires |s| == 2
    ensures Total(s) == s[0].delta + s[1].delta
  {
    assert s[..1] == [s[0]] && [s[0]][..0] == [];
    assert Total([s[0]]) == s[0].delta;
  }

  lemma Squares(m: Maths)
    requires Lawful(m) && m.win(1500, 1859) >= 0.11238 && m.win(1500, 1860) <= 0.11182
    requires m.win(1500, 1595) >= 0.36659 && m.win(1500, 1596) <= 0.36600
    ensures var a, b := 1.0 + 2.0 * m.win(1500, 1859), 1.0 + 2.0 * m.win(1500, 1860); a * a >= 1.0 * 1.5 > b * b
    ensures var a, b := 1.0 + 2.0 * m.win(1500, 1595), 1.0 + 2.0 * m.win(1500, 1596); a * a >= 2.0 * 1.5 > b * b
  {
    assert 0.0 < m.win(1500, 1860) && 0.0 < m.win(1500, 1596);
    SquareAbove(1.0 + 2.0 * m.win(1500, 1859), 1.22476);
    SquareBelow(1.0 + 2.0 * m.win(1500, 1860), 1.22364);
    SquareAbove(1.0 + 2.0 * m.win(1500, 1595), 1.73318);
    SquareBelow(1.0 + 2.0 * m.win(1500, 1596), 1.73200);
  }

  lemma SquareAbove(x: real, y: real)
    requires 0.0 <= y <= x
    ensures x * x >= y * y
  {
    if y < x {
      SquareOrder(x, y);
    }
  }

  lemma SquareBelow(x: real, y: real)
    requires 0.0 <= x <= y
    ensures x * x <= y * y
  {
    SquareAbove(y, x);
  }
}
