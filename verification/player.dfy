/**
  The rating system of hw5/src/player.c, in real arithmetic: what a game does to the ratings of its
  two players, and what a series of games does to their sum.
*/
module Player {
  const K := 32.0

  /** An int divided by an int, as C truncates it. */
  function Quotient(a: int, b: int): int
    requires b > 0
  {
    if a >= 0 then a / b else -(-a / b)
  }

  /** A double stored into an int. */
  function Truncated(x: real): int {
    if x >= 0.0 then x.Floor else -(-x).Floor
  }

  /** pow(10, d) for a whole d. */
  function Pow10(d: int): (p: real)
    ensures p > 0.0
    decreases if d < 0 then 1 - d else d
  {
    if d == 0 then 1.0 else if d > 0 then 10.0 * Pow10(d - 1) else 1.0 / Pow10(-d)
  }

  /** The expected score of a player rated r against one rated o. */
  function Expected(r: int, o: int): (e: real)
    ensures 0.0 < e < 1.0
  {
    1.0 / (1.0 + Pow10(Quotient(o - r, 400)))
  }

  /** The division truncates alike in both directions, so the two expectations make up one game. */
  lemma ExpectedSum(r1: int, r2: int)
    ensures Expected(r1, r2) + Expected(r2, r1) == 1.0
  {
    var d := Quotient(r2 - r1, 400);
    assert Quotient(r1 - r2, 400) == -d;
    Opposite(d);
    Complementary(Pow10(d), Pow10(-d));
  }

  lemma Opposite(d: int)
    ensures Pow10(d) * Pow10(-d) == 1.0
  {
  }

  lemma Complementary(p: real, q: real)
    requires p > 0.0 && q > 0.0 && p * q == 1.0
    ensures 1.0 / (1.0 + p) + 1.0 / (1.0 + q) == 1.0
  {
    var a, b := 1.0 / (1.0 + p), 1.0 / (1.0 + q);
    assert a * (1.0 + p) == 1.0 && b * (1.0 + q) == 1.0;
    assert (1.0 + p) * (1.0 + q) == 2.0 + p + q;
    assert (a + b) * ((1.0 + p) * (1.0 + q)) == (1.0 + q) + (1.0 + p);
    assert (a + b - 1.0) * (2.0 + p + q) == 0.0;
  }

  lemma {:induction false} Pow10Rises(d: int, e: int)
    requires d <= e
    ensures Pow10(d) <= Pow10(e)
    decreases e - d
  {
    if d < e {
      Pow10Step(e - 1);
      Pow10Rises(d, e - 1);
    }
  }

  lemma Pow10Step(d: int)
    ensures Pow10(d + 1) == 10.0 * Pow10(d)
  {
    if d < -1 {
      Opposite(d);
      Opposite(d + 1);
      TenTimes(Pow10(d), Pow10(-d), Pow10(d + 1), Pow10(-d - 1));
    }
  }

  lemma TenTimes(p: real, p': real, q: real, q': real)
    requires p > 0.0 && q > 0.0 && p' > 0.0 && q' > 0.0
    requires p * p' == 1.0 && q * q' == 1.0 && p' == 10.0 * q'
    ensures q == 10.0 * p
  {
    assert (10.0 * p) * q' == 1.0;
    assert (10.0 * p - q) * q' == 0.0;
  }

  lemma QuotientRises(a: int, b: int, c: int)
    requires a <= b && c > 0
    ensures Quotient(a, c) <= Quotient(b, c)
  {
    DivisionRises(if a >= 0 then a else -b, if a >= 0 then b else -a, c);
  }

  lemma DivisionRises(a: int, b: int, c: int)
    requires a <= b && c > 0
    ensures a / c <= b / c
  {
    var q, r := a / c, b / c;
    assert c * (q - r) == (a - b) - (a % c - b % c);
    Multiples(c, q - r);
  }

  /** A multiple of b smaller than b is none. */
  lemma Multiples(b: int, k: int)
    requires b > 0
    ensures b * k < b ==> k <= 0
    ensures b * k > -b ==> k >= 0
  {
    if k > 0 {
      AtLeastOnce(b, k);
    } else if k < 0 {
      AtLeastOnce(b, -k);
      Negated(b, k);
    }
  }

  lemma {:induction false} AtLeastOnce(b: int, k: nat)
    requires b > 0 && k > 0
    ensures b * k >= b
  {
    if k > 1 {
      AtLeastOnce(b, k - 1);
      Distributed(b, k);
    }
  }

  lemma Distributed(b: int, k: int)
    ensures b * k == b * (k - 1) + b
  {
  }

  lemma Negated(b: int, k: int)
    ensures b * -k == -(b * k)
  {
  }

  lemma InverseFalls(p: real, q: real)
    requires 0.0 < p <= q
    ensures 1.0 / (1.0 + q) <= 1.0 / (1.0 + p)
  {
    var a, b := 1.0 / (1.0 + p), 1.0 / (1.0 + q);
    assert a * (1.0 + p) == 1.0 && b * (1.0 + q) == 1.0;
    assert a * (q - p) >= 0.0;
    assert (b - a) * (1.0 + q) == -(a * (q - p));
    NotPositive(b - a, 1.0 + q);
  }

  lemma NotPositive(x: real, y: real)
    requires y > 0.0 && x * y <= 0.0
    ensures x <= 0.0
  {
  }

  /** Against a stronger opponent less is expected, and a stronger player expects more. */
  lemma StrongerExpectsMore(r: int, r': int, o: int, o': int)
    requires r <= r' && o' <= o
    ensures Expected(r, o) <= Expected(r', o')
  {
    QuotientRises(o' - r', o - r, 400);
    Pow10Rises(Quotient(o' - r', 400), Quotient(o - r, 400));
    InverseFalls(Pow10(Quotient(o' - r', 400)), Pow10(Quotient(o - r, 400)));
  }

  /** Every full 400 points make the odds ten times longer; less than 400 make no difference. */
  lemma OddsPer400(r: int, o: int)
    ensures -400 < o - r < 400 ==> Expected(r, o) == 1.0 / 2.0
    ensures 400 <= o - r < 800 ==> Expected(r, o) == 1.0 / 11.0
    ensures -800 < o - r <= -400 ==> Expected(r, o) == 10.0 / 11.0
    ensures !(o < r < o + 400) ==> 1.0 / Expected(r, o + 400) - 1.0 == 10.0 * (1.0 / Expected(r, o) - 1.0)
  {
    var d := Quotient(o - r, 400);
    assert Pow10(0) == 1.0 && Pow10(1) == 10.0 && Pow10(-1) == 1.0 / 10.0;
    if o >= r || o + 400 <= r {
      QuotientPlusOne(o - r, 400);
      Pow10Step(d);
      OddsOf(Pow10(d));
      OddsOf(Pow10(d + 1));
    }
  }

  lemma QuotientPlusOne(a: int, b: int)
    requires b > 0 && (a >= 0 || a <= -b)
    ensures Quotient(a + b, b) == Quotient(a, b) + 1
  {
    if a >= 0 {
      DivisionPlusOne(a, b);
    } else {
      DivisionPlusOne(-a - b, b);
    }
  }

  lemma DivisionPlusOne(a: int, b: int)
    requires a >= 0 && b > 0
    ensures (a + b) / b == a / b + 1
  {
    DivisionIs(a, b, a / b, a % b);
    DivisionIs(a + b, b, a / b + 1, a % b);
  }

  lemma DivisionIs(a: int, b: int, q: int, r: int)
    requires b > 0 && a == b * q + r && 0 <= r < b
    ensures a / b == q
  {
    var k := a / b - q;
    assert b * k == r - a % b;
    Multiples(b, k);
  }

  lemma OddsOf(p: real)
    requires p > 0.0
    ensures 1.0 / (1.0 / (1.0 + p)) - 1.0 == p
  {
    var e := 1.0 / (1.0 + p);
    assert e * (1.0 + p) == 1.0;
  }

  /** A rating after a game with this score. */
  function Updated(r: int, o: int, score: int): int {
    Truncated(r as real + K * (score as real - Expected(r, o)))
  }

  /**
    The scores: 1 and 0 for a decided game. A drawn game's half point is stored in an int, so it
    counts as nothing for both.
  */
  function Scores(result: int): (int, int) {
    if result == 1 then (1, 0) else if result == 2 then (0, 1) else (0, 0)
  }

  /** The two ratings after player_post_result. */
  function Posted(r1: int, r2: int, result: int): (int, int) {
    if result !in {0, 1, 2} then (r1, r2)
    else
      var (s1, s2) := Scores(result);
      (Updated(r1, r2, s1), Updated(r2, r1, s2))
  }

  // ----- one game -----

  lemma TruncatedNear(x: real)
    ensures x >= 0.0 ==> x - 1.0 < Truncated(x) as real <= x && Truncated(x) >= 0
    ensures x < 0.0 ==> x <= Truncated(x) as real < x + 1.0 && Truncated(x) <= 0
  {
  }

  lemma WinnerGains(r: int, o: int)
    ensures Updated(r, o, 1) >= r
  {
    TruncatedNear(r as real + K * (1.0 - Expected(r, o)));
  }

  lemma LoserLoses(r: int, o: int)
    ensures Updated(r, o, 0) <= r
  {
    TruncatedNear(r as real + K * (0.0 - Expected(r, o)));
  }

  /** Two truncations of numbers with a whole sum lose or gain at most one together. */
  lemma TruncatedSum(x: real, y: real, n: int)
    requires x + y == n as real
    ensures n - 1 <= Truncated(x) + Truncated(y) <= n + 1
    ensures n >= 0 ==> Truncated(x) + Truncated(y) <= n
  {
    TruncatedNear(x);
    TruncatedNear(y);
  }

  /** The sum after a game of the three scores, before rounding and after it. */
  lemma ScoredSum(r1: int, r2: int, s1: int, s2: int)
    ensures var n := r1 + r2 + 32 * (s1 + s2 - 1);
            && n - 1 <= Updated(r1, r2, s1) + Updated(r2, r1, s2) <= n + 1
            && (n >= 0 ==> Updated(r1, r2, s1) + Updated(r2, r1, s2) <= n)
  {
    ExpectedSum(r1, r2);
    var e1, e2 := Expected(r1, r2), Expected(r2, r1);
    var x, y := r1 as real + K * (s1 as real - e1), r2 as real + K * (s2 as real - e2);
    assert x + y == (r1 + r2) as real + K * (s1 as real + s2 as real - (e1 + e2));
    TruncatedSum(x, y, r1 + r2 + 32 * (s1 + s2 - 1));
  }

  /**
    A game moves the sum of the two ratings by at most one point exactly when it is not a draw, and
    then not upwards unless the sum was negative; a draw takes about 32 points out of the system.
  */
  lemma DriftExactly(r1: int, r2: int, result: int)
    ensures var (p1, p2) := Posted(r1, r2, result);
            && (-1 <= p1 + p2 - (r1 + r2) <= 1 <==> result != 0)
            && (r1 + r2 >= 0 ==> p1 + p2 <= r1 + r2)
            && (result == 0 ==> -33 <= p1 + p2 - (r1 + r2) <= -31)
  {
    var (s1, s2) := Scores(result);
    ScoredSum(r1, r2, s1, s2);
    hide Updated;
  }

  /** Whoever wins does not lose points, and whoever loses does not gain any; in a draw neither gains. */
  lemma WinnersAndLosers(r1: int, r2: int, result: int)
    ensures var (p1, p2) := Posted(r1, r2, result);
            && (result == 1 ==> p1 >= r1 && p2 <= r2)
            && (result == 2 ==> p1 <= r1 && p2 >= r2)
            && (result == 0 ==> p1 <= r1 && p2 <= r2)
  {
    WinnerGains(r1, r2);
    WinnerGains(r2, r1);
    LoserLoses(r1, r2);
    LoserLoses(r2, r1);
  }

  /** Between players less than 400 points apart, the winner takes 16 points and the loser gives 16. */
  lemma EvenGame(r1: int, r2: int)
    requires -400 < r1 - r2 < 400
    ensures Posted(r1, r2, 1) == (r1 + 16, r2 - 16) && Posted(r1, r2, 2) == (r1 - 16, r2 + 16)
    ensures Posted(r1, r2, 0) == (r1 - 16, r2 - 16)
  {
    OddsPer400(r1, r2);
    OddsPer400(r2, r1);
    hide Expected, Truncated;
    EvenUpdate(r1, r2);
    EvenUpdate(r2, r1);
    hide Updated;
  }

  lemma EvenUpdate(r: int, o: int)
    requires Expected(r, o) == 1.0 / 2.0
    ensures Updated(r, o, 1) == r + 16 && Updated(r, o, 0) == r - 16
  {
    hide Expected, Truncated;
    assert r as real + K * (1 as real - 1.0 / 2.0) == (r + 16) as real;
    assert r as real + K * (0 as real - 1.0 / 2.0) == (r - 16) as real;
    TruncatedWhole(r + 16);
    TruncatedWhole(r - 16);
  }

  lemma TruncatedWhole(n: int)
    ensures Truncated(n as real) == n
  {
  }

  // ----- a series of games -----

  /** A game between players a and b. */
  datatype Game = Game(a: nat, b: nat, result: int)

  predicate Playable(g: Game, n: nat) {
    g.a < n && g.b < n && g.a != g.b
  }

  function Sum(ratings: seq<int>): int {
    if ratings == [] then 0 else ratings[0] + Sum(ratings[1..])
  }

  function After(ratings: seq<int>, g: Game): (r: seq<int>)
    requires Playable(g, |ratings|)
    ensures |r| == |ratings|
  {
    var (p, q) := Posted(ratings[g.a], ratings[g.b], g.result);
    ratings[g.a := p][g.b := q]
  }

  function Season(ratings: seq<int>, games: seq<Game>): (r: seq<int>)
    requires forall g :: g in games ==> Playable(g, |ratings|)
    ensures |r| == |ratings|
    decreases |games|
  {
    if games == [] then ratings else Season(After(ratings, games[0]), games[1..])
  }

  lemma {:induction false} SumUpdates(ratings: seq<int>, i: nat, v: int)
    requires i < |ratings|
    ensures Sum(ratings[i := v]) == Sum(ratings) - ratings[i] + v
  {
    if i == 0 {
      assert ratings[0 := v][1..] == ratings[1..];
    } else {
      SumUpdates(ratings[1..], i - 1, v);
      assert ratings[i := v][1..] == ratings[1..][i - 1 := v];
    }
  }

  lemma AfterSum(ratings: seq<int>, g: Game)
    requires Playable(g, |ratings|)
    ensures var r1, r2 := ratings[g.a], ratings[g.b];
            var (p, q) := Posted(r1, r2, g.result);
            Sum(After(ratings, g)) == Sum(ratings) + (p + q) - (r1 + r2)
  {
    hide Posted;
    var (p, q) := Posted(ratings[g.a], ratings[g.b], g.result);
    SumUpdates(ratings, g.a, p);
    SumUpdates(ratings[g.a := p], g.b, q);
  }

  /** However many decided games are played, the sum of all ratings drifts by at most a point for each. */
  lemma {:induction false} SeasonDrift(ratings: seq<int>, games: seq<Game>)
    requires forall g :: g in games ==> Playable(g, |ratings|) && g.result != 0
    ensures -|games| <= Sum(Season(ratings, games)) - Sum(ratings) <= |games|
    decreases |games|
  {
    if games != [] {
      var g := games[0];
      assert g in games;
      DriftExactly(ratings[g.a], ratings[g.b], g.result);
      AfterSum(ratings, g);
      SeasonDrift(After(ratings, g), games[1..]);
    }
  }

  /** No rating is negative before any game of the season. */
  predicate NeverNegative(ratings: seq<int>, games: seq<Game>)
    requires forall g :: g in games ==> Playable(g, |ratings|)
    decreases |games|
  {
    games != [] ==>
      (forall i :: 0 <= i < |ratings| ==> ratings[i] >= 0) && NeverNegative(After(ratings, games[0]), games[1..])
  }

  /** And while no rating is negative, it never rises. */
  lemma {:induction false} SeasonNeverRises(ratings: seq<int>, games: seq<Game>)
    requires forall g :: g in games ==> Playable(g, |ratings|)
    requires NeverNegative(ratings, games)
    ensures Sum(Season(ratings, games)) <= Sum(ratings)
    decreases |games|
  {
    if games != [] {
      var g := games[0];
      assert g in games;
      DriftExactly(ratings[g.a], ratings[g.b], g.result);
      AfterSum(ratings, g);
      SeasonNeverRises(After(ratings, g), games[1..]);
    }
  }

  // ----- the players -----

  class Player {
    var rating: int

    constructor (r: int)
      ensures rating == r
    {
      rating := r;
    }
  }

  /** player_post_result between the locks of two players; it would wait for ever for one player twice. */
  method PostResult(player1: Player, player2: Player, result: int)
    requires player1 != player2
    modifies player1, player2
    ensures (player1.rating, player2.rating) == Posted(old(player1.rating), old(player2.rating), result)
  {
    var r1, r2 := player1.rating, player2.rating;
    var e1 := 1.0 / (1.0 + Pow10(Quotient(r2 - r1, 400)));
    var e2 := 1.0 / (1.0 + Pow10(Quotient(r1 - r2, 400)));
    var s1: int, s2: int;
    if result == 0 {
      s1, s2 := Truncated(0.5), Truncated(0.5);
    } else if result == 1 {
      s1, s2 := 1, 0;
    } else if result == 2 {
      s1, s2 := 0, 1;
    } else {
      return;
    }
    player1.rating := Truncated(r1 as real + K * (s1 as real - e1));
    player2.rating := Truncated(r2 as real + K * (s2 as real - e2));
  }
}
