/** The single-integer objective of a component, and its lexicographic meaning. */
module Objective {
  import opened Basics
  import opened Models
  import opened Priority

  type Priorities = map<RobotId, PriorityBreakdown>

  type Weights = map<RobotId, int>

  /** Largest signed 64-bit integer. */
  const CP_SAT_INTEGER_LIMIT := 0x7FFF_FFFF_FFFF_FFFF

  predicate Weighted(robots: seq<RobotId>, w: Weights) {
    forall r | r in robots :: r in w
  }

  /** Sum of the weights of the chosen robots. */
  function Total(robots: seq<RobotId>, chosen: set<RobotId>, w: Weights): int
    requires Weighted(robots, w)
  {
    if robots == [] then
      0
    else
      (if robots[0] in chosen then w[robots[0]] else 0) + Total(robots[1..], chosen, w)
  }

  // ---------------------------------------------------------------- encoding

  /** Unit-step bonuses favouring smaller robot identifiers. */
  function RankBonuses(ordered: seq<RobotId>): Weights {
    map r | r in ordered :: |ordered| - IndexOf(ordered, r) - 1
  }

  function UtilityScale(ordered: seq<RobotId>): int {
    Total(ordered, Elems(ordered), RankBonuses(ordered)) + 1
  }

  predicate Scored(ordered: seq<RobotId>, priorities: Priorities) {
    forall r | r in ordered :: r in priorities
  }

  function Coefficients(ordered: seq<RobotId>, priorities: Priorities): Weights
    requires Scored(ordered, priorities)
  {
    var scale, ranks := UtilityScale(ordered), RankBonuses(ordered);
    map r | r in ordered :: priorities[r].finalScore * scale + ranks[r]
  }

  predicate Overflows(ordered: seq<RobotId>, priorities: Priorities)
    requires Scored(ordered, priorities)
  {
    var coefficients := Coefficients(ordered, priorities);
    exists r | r in ordered :: coefficients[r] > CP_SAT_INTEGER_LIMIT
  }

  datatype ObjectiveEncoding = ObjectiveEncoding(
    coefficients: Weights,
    utilityScale: int,
    rankBonuses: Weights
  )

  function BuildObjectiveEncoding(component: set<RobotId>, priorities: Priorities): Result<ObjectiveEncoding> {
    var ordered := Ascending(component);
    if !Scored(ordered, priorities) then
      Raised(InvalidInput)
    else if Overflows(ordered, priorities) then
      Raised(ObjectiveOverflow)
    else
      Ok(ObjectiveEncoding(Coefficients(ordered, priorities), UtilityScale(ordered), RankBonuses(ordered)))
  }

  /** `resumed_objective_value`: the summed final scores of a Resume set. */
  function FinalScores(ordered: seq<RobotId>, priorities: Priorities): Weights
    requires Scored(ordered, priorities)
  {
    map r | r in ordered :: priorities[r].finalScore
  }

  function SecondaryScores(ordered: seq<RobotId>, priorities: Priorities): Weights
    requires Scored(ordered, priorities)
  {
    map r | r in ordered :: priorities[r].secondaryScore
  }

  function Ones(ordered: seq<RobotId>): Weights {
    map r | r in ordered :: 1
  }

  // ---------------------------------------------------------------- sums

  /** The first of the remaining robots, and the rest. */
  lemma TotalUnrolls(robots: seq<RobotId>, n: nat, chosen: set<RobotId>, w: Weights)
    requires n < |robots| && Weighted(robots, w)
    ensures robots[n] in w && Weighted(robots[n..], w) && Weighted(robots[n + 1..], w)
    ensures Total(robots[n..], chosen, w)
            == (if robots[n] in chosen then w[robots[n]] else 0) + Total(robots[n + 1..], chosen, w)
  {
    assert robots[n..][1..] == robots[n + 1..] && robots[n..][0] == robots[n];
  }

  lemma LinearStep(x: int, t: int, y: int, v: int, factor: int)
    ensures (x + t) * factor + (y + v) == (x * factor + y) + (t * factor + v)
  {
  }

  lemma {:induction false} TotalIsLinear(
    robots: seq<RobotId>, chosen: set<RobotId>, w: Weights, u: Weights, v: Weights, factor: int
  )
    requires Weighted(robots, w) && Weighted(robots, u) && Weighted(robots, v)
    requires forall r | r in robots :: w[r] == u[r] * factor + v[r]
    ensures Total(robots, chosen, w) == Total(robots, chosen, u) * factor + Total(robots, chosen, v)
  {
    if robots != [] {
      var (first, rest) := (robots[0], robots[1..]);
      assert first in robots;
      assert forall r | r in rest :: r in robots;
      var (x, y) := if first in chosen then (u[first], v[first]) else (0, 0);
      TotalIsLinear(rest, chosen, w, u, v, factor);
      LinearStep(x, Total(rest, chosen, u), y, Total(rest, chosen, v), factor);
    }
  }

  lemma {:induction false} TotalBounds(robots: seq<RobotId>, chosen: set<RobotId>, w: Weights)
    requires Weighted(robots, w) && forall r | r in robots :: w[r] >= 0
    ensures 0 <= Total(robots, chosen, w) <= Total(robots, Elems(robots), w)
  {
    TotalMonotone(robots, chosen, Elems(robots), w);
  }

  lemma {:induction false} TotalMonotone(robots: seq<RobotId>, a: set<RobotId>, b: set<RobotId>, w: Weights)
    requires Weighted(robots, w) && forall r | r in robots :: w[r] >= 0 && (r in a ==> r in b)
    ensures 0 <= Total(robots, a, w) <= Total(robots, b, w)
  {
    if robots != [] {
      TotalMonotone(robots[1..], a, b, w);
    }
  }

  lemma {:induction false} TotalBelow(robots: seq<RobotId>, chosen: set<RobotId>, w: Weights, cap: int)
    requires Weighted(robots, w) && cap >= 0 && forall r | r in robots :: 0 <= w[r] <= cap
    ensures Total(robots, chosen, w) <= |robots| * cap
  {
    if robots != [] {
      TotalBelow(robots[1..], chosen, w, cap);
      assert |robots| * cap == |robots[1..]| * cap + cap;
    }
  }

  lemma {:induction false} TotalCounts(robots: seq<RobotId>, chosen: set<RobotId>, ones: Weights)
    requires Distinct(robots) && Weighted(robots, ones) && forall r | r in robots :: ones[r] == 1
    ensures Total(robots, chosen, ones) == |chosen * Elems(robots)|
  {
    if robots == [] {
      assert chosen * Elems(robots) == {};
    } else {
      var (first, rest) := (robots[0], robots[1..]);
      TailIsDistinct(robots);
      TotalCounts(rest, chosen, ones);
      CountGrows(first, rest, chosen);
      hide Elems, Distinct;
      assert robots == [first] + rest && first in robots;
    }
  }

  lemma TailIsDistinct(robots: seq<RobotId>)
    requires Distinct(robots) && robots != []
    ensures Distinct(robots[1..]) && robots[0] !in robots[1..]
  {
  }

  lemma CountGrows(first: RobotId, rest: seq<RobotId>, chosen: set<RobotId>)
    requires first !in rest
    ensures |chosen * Elems([first] + rest)| == |chosen * Elems(rest)| + if first in chosen then 1 else 0
  {
    var counted := chosen * Elems(rest);
    assert chosen * Elems([first] + rest) == if first in chosen then counted + {first} else counted;
  }

  // ---------------------------------------------------------------- lexicographic meaning

  /** Resume count, total secondary score and total rank bonus of a Resume set. */
  function Rating(ordered: seq<RobotId>, priorities: Priorities, chosen: set<RobotId>): (int, int, int)
    requires Scored(ordered, priorities)
  {
    (
      |chosen|,
      Total(ordered, chosen, SecondaryScores(ordered, priorities)),
      Total(ordered, chosen, RankBonuses(ordered))
    )
  }

  predicate LexLess(a: (int, int, int), b: (int, int, int)) {
    a.0 < b.0 || (a.0 == b.0 && (a.1 < b.1 || (a.1 == b.1 && a.2 < b.2)))
  }

  lemma DigitOrder(hi: int, lo: int, hi': int, lo': int, base: int)
    requires 0 <= lo < base && 0 <= lo' < base
    ensures hi * base + lo < hi' * base + lo' <==> hi < hi' || (hi == hi' && lo < lo')
    ensures hi * base + lo == hi' * base + lo' <==> hi == hi' && lo == lo'
  {
    MultipleGrows(hi', hi + 1, base);
    MultipleGrows(hi, hi' + 1, base);
  }

  /** The scores of one component: a common throughput reward above all secondary scores together. */
  predicate CommonThroughput(ordered: seq<RobotId>, priorities: Priorities, reward: int) {
    && Scored(ordered, priorities)
    && (forall r | r in ordered ::
          priorities[r].finalScore == reward + priorities[r].secondaryScore && priorities[r].secondaryScore >= 0)
    && Total(ordered, Elems(ordered), SecondaryScores(ordered, priorities)) < reward
  }

  lemma ThroughputIsScored(ordered: seq<RobotId>, priorities: Priorities, reward: int)
    requires CommonThroughput(ordered, priorities, reward)
    ensures Scored(ordered, priorities)
  {
  }

  lemma RankBonusesNonNegative(ordered: seq<RobotId>)
    ensures Weighted(ordered, RankBonuses(ordered))
    ensures forall r | r in ordered :: 0 <= RankBonuses(ordered)[r] < |ordered|
  {
  }

  lemma FinalTotal(ordered: seq<RobotId>, priorities: Priorities, chosen: set<RobotId>, reward: int)
    requires Distinct(ordered) && chosen <= Elems(ordered) && CommonThroughput(ordered, priorities, reward)
    ensures Total(ordered, chosen, FinalScores(ordered, priorities))
            == |chosen| * reward + Total(ordered, chosen, SecondaryScores(ordered, priorities))
  {
    TotalIsLinear(
      ordered, chosen, FinalScores(ordered, priorities), Ones(ordered), SecondaryScores(ordered, priorities), reward
    );
    TotalCounts(ordered, chosen, Ones(ordered));
    assert chosen * Elems(ordered) == chosen;
  }

  /** The integer value of a Resume set is its rating written in mixed radix. */
  lemma ObjectiveIsMixedRadix(ordered: seq<RobotId>, priorities: Priorities, chosen: set<RobotId>, reward: int)
    requires Distinct(ordered) && chosen <= Elems(ordered) && CommonThroughput(ordered, priorities, reward)
    ensures var rating := Rating(ordered, priorities, chosen);
            && Total(ordered, chosen, Coefficients(ordered, priorities))
               == (rating.0 * reward + rating.1) * UtilityScale(ordered) + rating.2
            && 0 <= rating.1 < reward && 0 <= rating.2 < UtilityScale(ordered)
  {
    hide Total;
    var seconds, ranks := SecondaryScores(ordered, priorities), RankBonuses(ordered);
    TotalIsLinear(
      ordered, chosen, Coefficients(ordered, priorities), FinalScores(ordered, priorities), ranks, UtilityScale(ordered)
    );
    FinalTotal(ordered, priorities, chosen, reward);
    TotalBounds(ordered, chosen, seconds);
    RankBonusesNonNegative(ordered);
    TotalBounds(ordered, chosen, ranks);
  }

  lemma MixedRadixOrder(x: (int, int, int), y: (int, int, int), reward: int, scale: int)
    requires 0 <= x.1 < reward && 0 <= y.1 < reward && 0 <= x.2 < scale && 0 <= y.2 < scale
    ensures (x.0 * reward + x.1) * scale + x.2 < (y.0 * reward + y.1) * scale + y.2 <==> LexLess(x, y)
  {
    DigitOrder(x.0 * reward + x.1, x.2, y.0 * reward + y.1, y.2, scale);
    DigitOrder(x.0, x.1, y.0, y.1, reward);
  }

  /** Comparing summed coefficients is comparing (Resume count, secondary score, rank bonus)
      lexicographically, so no amount of business priority outweighs one more Resume. */
  lemma ObjectiveIsLexicographic(
    ordered: seq<RobotId>, priorities: Priorities, a: set<RobotId>, b: set<RobotId>, reward: int
  )
    requires Distinct(ordered) && a <= Elems(ordered) && b <= Elems(ordered)
    requires CommonThroughput(ordered, priorities, reward)
    ensures Total(ordered, a, Coefficients(ordered, priorities)) < Total(ordered, b, Coefficients(ordered, priorities))
            <==> LexLess(Rating(ordered, priorities, a), Rating(ordered, priorities, b))
  {
    hide Total, Coefficients, Rating, UtilityScale, CommonThroughput, LexLess, Elems;
    ThroughputIsScored(ordered, priorities, reward);
    ObjectiveIsMixedRadix(ordered, priorities, a, reward);
    ObjectiveIsMixedRadix(ordered, priorities, b, reward);
    MixedRadixOrder(Rating(ordered, priorities, a), Rating(ordered, priorities, b), reward, UtilityScale(ordered));
  }

  /** Ordering Resume sets by encoded value never contradicts ordering them by summed final score. */
  lemma EncodedOrderRefinesScores(
    ordered: seq<RobotId>, priorities: Priorities, a: set<RobotId>, b: set<RobotId>, w: Weights
  )
    requires Scored(ordered, priorities) && Weighted(ordered, w)
    requires forall r | r in ordered :: w[r] == priorities[r].finalScore
    requires Total(ordered, a, Coefficients(ordered, priorities)) <= Total(ordered, b, Coefficients(ordered, priorities))
    ensures Total(ordered, a, w) <= Total(ordered, b, w)
  {
    hide Total;
    var coefficients, ranks, scale := Coefficients(ordered, priorities), RankBonuses(ordered), UtilityScale(ordered);
    TotalIsLinear(ordered, a, coefficients, w, ranks, scale);
    TotalIsLinear(ordered, b, coefficients, w, ranks, scale);
    RankBonusesNonNegative(ordered);
    TotalBounds(ordered, a, ranks);
    TotalBounds(ordered, b, ranks);
    DigitOrder(
      Total(ordered, b, w), Total(ordered, b, ranks), Total(ordered, a, w), Total(ordered, a, ranks), scale
    );
  }

  // ---------------------------------------------------------------- when the encoding fits

  lemma {:induction false} IndexOfUnique(s: seq<RobotId>, i: nat)
    requires Distinct(s) && i < |s|
    ensures IndexOf(s, s[i]) == i
  {
  }

  /** The bonus of the `n`-th robot. */
  lemma RankAt(ordered: seq<RobotId>, n: nat)
    requires Distinct(ordered) && n < |ordered|
    ensures ordered[n] in RankBonuses(ordered) && RankBonuses(ordered)[ordered[n]] == |ordered| - n - 1
  {
    IndexOfUnique(ordered, n);
  }

  lemma TriangleStep(k: int, total: int)
    requires 2 * total == (k - 1) * (k - 2)
    ensures 2 * (k - 1 + total) == k * (k - 1)
  {
  }

  lemma {:induction false} RankTotal(ordered: seq<RobotId>, n: nat)
    requires Distinct(ordered) && n <= |ordered|
    requires Weighted(ordered, RankBonuses(ordered))
    ensures Weighted(ordered[n..], RankBonuses(ordered))
    ensures var k := |ordered| - n;
            2 * Total(ordered[n..], Elems(ordered), RankBonuses(ordered)) == k * (k - 1)
    decreases |ordered| - n
  {
    hide RankBonuses;
    if n == |ordered| {
      assert ordered[n..] == [];
    } else {
      hide Total;
      RankTotal(ordered, n + 1);
      RankAt(ordered, n);
      TotalUnrolls(ordered, n, Elems(ordered), RankBonuses(ordered));
      assert ordered[n] in Elems(ordered);
      TriangleStep(|ordered| - n, Total(ordered[n + 1..], Elems(ordered), RankBonuses(ordered)));
    }
  }

  /** The largest coefficient a component of `size` robots can have under a configuration. */
  function WorstCoefficient(size: int, cfg: Config): int {
    (size * MaximumPerRobot(size, cfg) + 1 + MaximumPerRobot(size, cfg)) * (size * (size - 1) / 2 + 1) + size - 1
  }

  /** A configuration for which no component of at most `robots` robots can overflow. */
  predicate FleetFits(robots: nat, cfg: Config) {
    forall size | 1 <= size <= robots :: WorstCoefficient(size, cfg) <= CP_SAT_INTEGER_LIMIT
  }

  lemma ScaleValue(ordered: seq<RobotId>)
    requires Distinct(ordered)
    ensures UtilityScale(ordered) == |ordered| * (|ordered| - 1) / 2 + 1
  {
    hide Total, RankBonuses;
    RankBonusesNonNegative(ordered);
    RankTotal(ordered, 0);
    assert ordered[0..] == ordered;
  }

  lemma CoefficientBound(score: int, top: int, scale: int, rank: int, size: int)
    requires 0 <= score <= top && scale >= 0 && rank < size
    ensures score * scale + rank <= top * scale + size - 1
  {
    ProductBound(score, top, scale);
  }

  lemma TopScore(size: int, perRobot: int)
    ensures (size + 1) * perRobot + 1 == size * perRobot + 1 + perRobot
  {
  }

  lemma CoefficientOf(ordered: seq<RobotId>, priorities: Priorities, r: RobotId)
    requires Scored(ordered, priorities) && r in ordered
    ensures r in RankBonuses(ordered) && 0 <= RankBonuses(ordered)[r] < |ordered|
    ensures r in Coefficients(ordered, priorities)
    ensures Coefficients(ordered, priorities)[r]
            == priorities[r].finalScore * UtilityScale(ordered) + RankBonuses(ordered)[r]
  {
    hide UtilityScale;
  }

  lemma WithinWorstCase(ordered: seq<RobotId>, priorities: Priorities, cfg: Config)
    requires cfg.Valid() && Distinct(ordered) && Scored(ordered, priorities) && ordered != []
    requires forall r | r in ordered ::
               0 <= priorities[r].finalScore <= (|ordered| + 1) * MaximumPerRobot(|ordered|, cfg) + 1
    requires WorstCoefficient(|ordered|, cfg) <= CP_SAT_INTEGER_LIMIT
    ensures !Overflows(ordered, priorities)
  {
    hide UtilityScale, RankBonuses, Coefficients, MaximumPerRobot;
    var (k, scale) := (|ordered|, UtilityScale(ordered));
    var perRobot := MaximumPerRobot(k, cfg);
    ScaleValue(ordered);
    ScalePositive(ordered);
    TopScore(k, perRobot);
    forall r | r in ordered
      ensures r in Coefficients(ordered, priorities) && Coefficients(ordered, priorities)[r] <= CP_SAT_INTEGER_LIMIT
    {
      CoefficientOf(ordered, priorities, r);
      CoefficientBound(
        priorities[r].finalScore, k * perRobot + 1 + perRobot, scale, RankBonuses(ordered)[r], k);
    }
  }

  lemma ScalePositive(ordered: seq<RobotId>)
    ensures UtilityScale(ordered) >= 1
  {
    RankBonusesNonNegative(ordered);
    TotalBounds(ordered, Elems(ordered), RankBonuses(ordered));
  }

  /** Conversely, no component escapes overflow once its throughput reward alone, scaled for the rank
      bonuses, is out of range. */
  lemma RewardForcesOverflow(ordered: seq<RobotId>, priorities: Priorities, reward: int)
    requires Distinct(ordered) && Scored(ordered, priorities) && ordered != []
    requires forall r | r in ordered :: priorities[r].finalScore >= reward
    requires reward * (|ordered| * (|ordered| - 1) / 2 + 1) > CP_SAT_INTEGER_LIMIT
    ensures Overflows(ordered, priorities)
  {
    hide UtilityScale, RankBonuses, Coefficients;
    var r := ordered[0];
    assert r in ordered;
    ScaleValue(ordered);
    ScalePositive(ordered);
    CoefficientOf(ordered, priorities, r);
    MultipleGrows(priorities[r].finalScore, reward, UtilityScale(ordered));
  }
}
