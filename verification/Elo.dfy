/** The rating run as it is coded: loops over an array of contestants, updated in place. */
module Elo {
  import opened EloSpec

  /** judge_elo_get_seed. */
  method GetSeed(players: array<Contestant>, rating: int, m: Maths) returns (result: real)
    ensures result == SeedAt(players[..], rating, m)
  {
    result := 1.0;
    var i := 0;
    while i < players.Length
      invariant 0 <= i <= players.Length
      invariant result == SeedAt(players[..i], rating, m)
    {
      assert players[..i + 1][..i] == players[..i];
      result := result + m.win(players[i].rating, rating);
      i := i + 1;
    }
    assert players[..i] == players[..];
  }

  /** judge_elo_get_rating_by_rank: the binary search finds the highest rating whose expected place is not better. */
  method GetRatingByRank(players: array<Contestant>, rank: real, m: Maths) returns (left: nat)
    requires Lawful(m)
    ensures left == NeedRating(players[..], rank, m)
  {
    hide SeedAt, NeedFrom, Lawful;
    left := 1;
    var right := MAX_RATING;
    while right - left > 1
      invariant 1 <= left < right <= MAX_RATING
      invariant left == 1 || SeedAt(players[..], left, m) >= rank
      invariant right == MAX_RATING || SeedAt(players[..], right, m) < rank
    {
      var mid := (left + right) / 2;
      var seed := GetSeed(players, mid, m);
      if seed < rank {
        right := mid;
      } else {
        left := mid;
      }
    }
    NeedFromUnique(players[..], rank, MAX_RATING - 1, left, m);
  }

  // ---------- Only ratings and ranks count ----------

  /** The lists agree in what the seeds depend on. */
  predicate SameRatings(s: seq<Contestant>, t: seq<Contestant>) {
    |s| == |t| && forall i | 0 <= i < |s| :: s[i].rating == t[i].rating
  }

  lemma {:induction false} SeedAtSame(s: seq<Contestant>, t: seq<Contestant>, rating: int, m: Maths)
    requires SameRatings(s, t)
    ensures SeedAt(s, rating, m) == SeedAt(t, rating, m)
  {
    if s != [] {
      SeedAtSame(s[..|s| - 1], t[..|t| - 1], rating, m);
    }
  }

  lemma {:induction false} NeedFromSame(s: seq<Contestant>, t: seq<Contestant>, rank: real, high: nat, m: Maths)
    requires SameRatings(s, t) && high > 0
    ensures NeedFrom(s, rank, high, m) == NeedFrom(t, rank, high, m)
  {
    SeedAtSame(s, t, high, m);
    if high > 1 {
      NeedFromSame(s, t, rank, high - 1, m);
    }
  }

  // ---------- The loops ----------

  /** The first loop: expected seeds. */
  method Seeds(players: array<Contestant>, m: Maths)
    modifies players
    ensures forall i | 0 <= i < players.Length ::
      players[i] == old(players[i]).(seed := Seed(old(players[..]), i, m))
  {
    ghost var s := players[..];
    var i := 0;
    while i < players.Length
      invariant 0 <= i <= players.Length
      invariant forall k | 0 <= k < i :: players[k] == s[k].(seed := Seed(s, k, m))
      invariant forall k | i <= k < players.Length :: players[k] == s[k]
    {
      players[i] := players[i].(seed := 1.0);
      var j := 0;
      while j < players.Length
        invariant 0 <= j <= players.Length
        invariant forall k | 0 <= k < i :: players[k] == s[k].(seed := Seed(s, k, m))
        invariant players[i] == s[i].(seed := SeedOf(s, i, j, m))
        invariant forall k | i < k < players.Length :: players[k] == s[k]
      {
        if i != j {
          players[i] := players[i].(seed := players[i].seed + m.win(players[j].rating, players[i].rating));
        }
        j := j + 1;
      }
      i := i + 1;
    }
  }

  /** C's division by two and by a count. */
  method Divide(a: int, b: int) returns (q: int)
    requires b > 0
    ensures q == Trunc(a, b)
  {
    q := if a >= 0 then a / b else -((-a) / b);
  }

  /** The second loop: needed ratings and first estimates. */
  method Needs(players: array<Contestant>, ghost s: seq<Contestant>, m: Maths)
    requires Lawful(m) && |s| == players.Length
    requires forall i | 0 <= i < players.Length :: players[i] == s[i].(seed := Seed(s, i, m))
    modifies players
    ensures players[..] == RateAll(s, m)
  {
    hide Seed, NeedRating, NeedFrom, Lawful;
    var i := 0;
    while i < players.Length
      invariant 0 <= i <= players.Length
      invariant forall k | 0 <= k < i :: players[k] == Rated(s, k, m)
      invariant forall k | i <= k < players.Length :: players[k] == s[k].(seed := Seed(s, k, m))
    {
      var midRank := m.sqrt(Times(players[i].rank, players[i].seed));
      var need := GetRatingByRank(players, midRank, m);
      NeedSame(players[..], s, midRank, m);
      var delta := Divide(need - players[i].rating, 2);
      players[i] := players[i].(needRating := need, delta := delta);
      i := i + 1;
    }
  }

  lemma NeedSame(s: seq<Contestant>, t: seq<Contestant>, rank: real, m: Maths)
    requires SameRatings(s, t)
    ensures NeedRating(s, rank, m) == NeedRating(t, rank, m)
  {
    NeedFromSame(s, t, rank, MAX_RATING - 1, m);
  }

  method SumDeltas(players: array<Contestant>, n: nat) returns (sum: int)
    requires n <= players.Length
    ensures sum == Total(players[..n])
  {
    sum := 0;
    var i := 0;
    while i < n
      invariant 0 <= i <= n
      invariant sum == Total(players[..i])
    {
      assert players[..i + 1][..i] == players[..i];
      sum := sum + players[i].delta;
      i := i + 1;
    }
  }

  method AddToDeltas(players: array<Contestant>, inc: int)
    modifies players
    ensures players[..] == ShiftAll(old(players[..]), inc)
  {
    ghost var s := players[..];
    var i := 0;
    while i < players.Length
      invariant 0 <= i <= players.Length
      invariant forall k | 0 <= k < i :: players[k] == s[k].(delta := s[k].delta + inc)
      invariant forall k | i <= k < players.Length :: players[k] == s[k]
    {
      players[i] := players[i].(delta := players[i].delta + inc);
      i := i + 1;
    }
  }

  method CalcNewRatings(players: array<Contestant>)
    modifies players
    ensures players[..] == NewRatings(old(players[..]))
  {
    ghost var s := players[..];
    var i := 0;
    while i < players.Length
      invariant 0 <= i <= players.Length
      invariant forall k | 0 <= k < i :: players[k] == NewRating(s[k])
      invariant forall k | i <= k < players.Length :: players[k] == s[k]
    {
      players[i] := players[i].(newRating := Max(players[i].rating + players[i].delta, 1));
      i := i + 1;
    }
  }

  /** qsort, whatever it does with equal keys. */
  method Sort(players: array<Contestant>, sort: seq<Contestant> -> seq<Contestant>)
    requires |sort(players[..])| == players.Length
    modifies players
    ensures players[..] == sort(old(players[..]))
  {
    var sorted := sort(players[..]);
    forall i | 0 <= i < players.Length {
      players[i] := sorted[i];
    }
  }

  /** judge_elo_validate_deltas: the pairs it reports. */
  method ValidateDeltas(players: array<Contestant>, byRank: seq<Contestant> -> seq<Contestant>)
    returns (first: seq<(int, int)>, second: seq<(int, int)>)
    requires |byRank(players[..])| == players.Length
    modifies players
    ensures players[..] == byRank(old(players[..]))
    ensures first == [] <==>
            forall i, j | 0 <= i < j < players.Length ::
              players[i].rating > players[j].rating ==> players[i].rating + players[i].delta >= players[j].rating + players[j].delta
    ensures second == [] <==>
            forall i, j | 0 <= i < j < players.Length ::
              players[i].rating < players[j].rating ==> players[i].delta >= players[j].delta
  {
    Sort(players, byRank);
    first, second := [], [];
    var i := 0;
    while i < players.Length
      invariant 0 <= i <= players.Length && players[..] == byRank(old(players[..]))
      invariant first == [] <==> forall a, b | 0 <= a < i && a < b < players.Length :: !FirstFails(players[a], players[b])
      invariant second == [] <==> forall a, b | 0 <= a < i && a < b < players.Length :: !SecondFails(players[a], players[b])
    {
      var f, g := Row(players, i);
      first, second := first + f, second + g;
      i := i + 1;
    }
  }

  predicate FirstFails(c: Contestant, d: Contestant) {
    c.rating > d.rating && c.rating + c.delta < d.rating + d.delta
  }

  predicate SecondFails(c: Contestant, d: Contestant) {
    c.rating < d.rating && c.delta < d.delta
  }

  /** The inner loop. */
  method Row(players: array<Contestant>, i: nat) returns (first: seq<(int, int)>, second: seq<(int, int)>)
    requires i < players.Length
    ensures first == [] <==> forall j | i < j < players.Length :: !FirstFails(players[i], players[j])
    ensures second == [] <==> forall j | i < j < players.Length :: !SecondFails(players[i], players[j])
  {
    first, second := [], [];
    var j := i + 1;
    while j < players.Length
      invariant i < j <= players.Length
      invariant first == [] <==> forall b | i < b < j :: !FirstFails(players[i], players[b])
      invariant second == [] <==> forall b | i < b < j :: !SecondFails(players[i], players[b])
    {
      if players[i].rating > players[j].rating {
        if players[i].rating + players[i].delta < players[j].rating + players[j].delta {
          first := first + [(players[i].id, players[j].id)];
        }
      }
      if players[i].rating < players[j].rating {
        if players[i].delta < players[j].delta {
          second := second + [(players[i].id, players[j].id)];
        }
      }
      j := j + 1;
    }
  }

  /** judge_elo_rating_process. The check of the first rating invariant never reports anything. */
  method RatingProcess(players: array<Contestant>, m: Maths,
                       byRating: seq<Contestant> -> seq<Contestant>, byRank: seq<Contestant> -> seq<Contestant>)
    returns (first: seq<(int, int)>, second: seq<(int, int)>)
    requires Lawful(m) && SortsByRating(byRating) && SortsByRank(byRank)
    requires players.Length > 0 && RanksValid(players[..])
    modifies players
    ensures |byRating(RateAll(old(players[..]), m))| == players.Length && ZeroSumCount(players.Length, m) > 0
    ensures players[..] == Process(old(players[..]), m, byRating, byRank)
    ensures first == []
  {
    hide RateAll, FirstInc, SecondInc, Lawful, Seed;
    ghost var s := players[..];
    ProcessKeeps(s, m, byRating, byRank);
    Seeds(players, m);
    Needs(players, s, m);
    Sort(players, byRating);
    Correct(players, m);
    CalcNewRatings(players);
    SortedLength(players[..], byRank);
    first, second := ValidateDeltas(players, byRank);
    ghost var r := players[..];
    forall i, j | 0 <= i < j < players.Length
      ensures !FirstFails(players[i], players[j])
    {
      assert FirstInvariant(r[i], r[j]);
    }
  }

  /** Both corrections. */
  method Correct(players: array<Contestant>, m: Maths)
    requires players.Length > 0 && ZeroSumCount(players.Length, m) > 0
    modifies players
    ensures var first := ShiftAll(old(players[..]), FirstInc(old(players[..])));
            players[..] == ShiftAll(first, SecondInc(first, m))
  {
    hide ShiftAll, Total, Trunc;
    var num := players.Length;
    var sum := SumDeltas(players, num);
    assert players[..num] == players[..];
    var inc := Divide(-sum, num);
    AddToDeltas(players, inc - 1);

    var zeroSumCount := Min(4 * Round(m.sqrt(num as real)), num);
    assert players[..][..zeroSumCount] == players[..zeroSumCount];
    sum := SumDeltas(players, zeroSumCount);
    inc := Divide(-sum, zeroSumCount);
    AddToDeltas(players, Min(Max(inc, -10), 0));
  }
}
