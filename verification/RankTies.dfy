/** When the rank bonuses make the choice of a component unique, and when they do not. */
module RankTies {
  import opened Basics
  import opened Conflicts
  import opened NoGoods
  import opened Objective
  import opened Optimiser

  // ---------------------------------------------------------------- totals of small sets

  lemma {:induction false} TotalOfNone(robots: seq<RobotId>, w: Weights)
    requires Weighted(robots, w)
    ensures Total(robots, {}, w) == 0
  {
    if robots != [] {
      TotalOfNone(robots[1..], w);
    }
  }

  /** Choosing one more robot adds its weight. */
  lemma {:induction false} TotalOfOneMore(robots: seq<RobotId>, chosen: set<RobotId>, r: RobotId, w: Weights)
    requires Distinct(robots) && Weighted(robots, w) && r in robots && r !in chosen
    ensures Total(robots, chosen + {r}, w) == Total(robots, chosen, w) + w[r]
  {
    var rest := robots[1..];
    assert robots == [robots[0]] + rest;
    if robots[0] == r {
      TotalOfOthers(rest, chosen, r, w);
    } else {
      TotalOfOneMore(rest, chosen, r, w);
    }
  }

  lemma {:induction false} TotalOfOthers(robots: seq<RobotId>, chosen: set<RobotId>, r: RobotId, w: Weights)
    requires Weighted(robots, w) && r !in robots
    ensures Total(robots, chosen + {r}, w) == Total(robots, chosen, w)
  {
    if robots != [] {
      TotalOfOthers(robots[1..], chosen, r, w);
    }
  }

  /** The rank bonuses of two robots. */
  lemma PairRank(s: seq<RobotId>, i: nat, j: nat)
    requires Distinct(s) && i < j < |s|
    ensures Weighted(s, RankBonuses(s))
    ensures Total(s, {s[i], s[j]}, RankBonuses(s)) == 2 * |s| - i - j - 2
  {
    hide Total, RankBonuses;
    RankBonusesNonNegative(s);
    RankAt(s, i);
    RankAt(s, j);
    TotalOfNone(s, RankBonuses(s));
    TotalOfOneMore(s, {}, s[i], RankBonuses(s));
    TotalOfOneMore(s, {s[i]}, s[j], RankBonuses(s));
    assert {} + {s[i]} == {s[i]} && {s[i]} + {s[j]} == {s[i], s[j]};
  }

  // ---------------------------------------------------------------- when rank totals separate

  /** Different Resume sets of the same size have different rank totals, so no two choices tie exactly. */
  ghost predicate RanksSeparate(s: seq<RobotId>)
    requires Weighted(s, RankBonuses(s))
  {
    forall a, b | a <= Elems(s) && b <= Elems(s) && |a| == |b| && a != b ::
      Total(s, a, RankBonuses(s)) != Total(s, b, RankBonuses(s))
  }

  /** With four robots or more the first and fourth tie with the second and third. */
  lemma FourRobotsTie(s: seq<RobotId>)
    requires Distinct(s) && |s| >= 4
    ensures Weighted(s, RankBonuses(s))
    ensures Total(s, {s[0], s[3]}, RankBonuses(s)) == Total(s, {s[1], s[2]}, RankBonuses(s))
    ensures {s[0], s[3]} <= Elems(s) && {s[1], s[2]} <= Elems(s)
    ensures |{s[0], s[3]}| == |{s[1], s[2]}| && {s[0], s[3]} != {s[1], s[2]}
  {
    hide Total, RankBonuses;
    PairRank(s, 0, 3);
    PairRank(s, 1, 2);
    assert s[0] !in {s[1], s[2]};
    PairSize(s[0], s[3]);
    PairSize(s[1], s[2]);
  }

  lemma PairSize(x: RobotId, y: RobotId)
    requires x != y
    ensures |{x, y}| == 2
  {
    assert {x, y} - {x} == {y};
  }

  /** One robot's membership as a number. */
  function Bit(s: seq<RobotId>, n: nat, a: set<RobotId>): (bit: int)
    ensures 0 <= bit <= 1
  {
    if n < |s| && s[n] in a then 1 else 0
  }

  /** Two bits are determined by their rank total. */
  lemma TwoBits(x: int, y: int, x': int, y': int)
    requires 0 <= x <= 1 && 0 <= y <= 1 && 0 <= x' <= 1 && 0 <= y' <= 1 && 2 * x + y == 2 * x' + y'
    ensures x == x' && y == y'
  {
  }

  lemma TotalAt(s: seq<RobotId>, n: nat, a: set<RobotId>, w: Weights)
    requires n < |s| && Weighted(s, w)
    ensures Weighted(s[n..], w) && Weighted(s[n + 1..], w) && s[n] in w
    ensures Total(s[n..], a, w) == Bit(s, n, a) * w[s[n]] + Total(s[n + 1..], a, w)
  {
    hide Total;
    TotalUnrolls(s, n, a, w);
  }

  function WeightAt(s: seq<RobotId>, n: nat, w: Weights): int {
    if n < |s| && s[n] in w then w[s[n]] else 0
  }

  lemma RankWeight(s: seq<RobotId>, n: nat)
    requires Distinct(s)
    ensures WeightAt(s, n, RankBonuses(s)) == if n < |s| then |s| - n - 1 else 0
    ensures n >= |s| ==> forall a :: Bit(s, n, a) == 0
  {
    hide RankBonuses;
    if n < |s| {
      RankAt(s, n);
    }
  }

  lemma OneWeight(s: seq<RobotId>, n: nat)
    ensures WeightAt(s, n, Ones(s)) == (if n < |s| then 1 else 0) && Weighted(s, Ones(s))
    ensures forall r | r in s :: Ones(s)[r] == 1
    ensures n >= |s| ==> forall a :: Bit(s, n, a) == 0
  {
  }

  /** The size of a Resume set among at most three robots. */
  lemma SmallSize(s: seq<RobotId>, a: set<RobotId>)
    requires Distinct(s) && |s| <= 3 && a <= Elems(s)
    ensures |a| == Bit(s, 0, a) + Bit(s, 1, a) + Bit(s, 2, a)
  {
    hide Total, WeightAt, Bit, Ones, Distinct;
    OneWeight(s, 0);
    OneWeight(s, 1);
    OneWeight(s, 2);
    SmallTotal(s, a, Ones(s), 0);
    assert s[0..] == s;
    TotalCounts(s, a, Ones(s));
    assert a * Elems(s) == a;
  }

  /** The rank total of a Resume set among at most three robots. */
  lemma SmallRank(s: seq<RobotId>, a: set<RobotId>)
    requires Distinct(s) && |s| <= 3
    ensures Weighted(s, RankBonuses(s))
    ensures Total(s, a, RankBonuses(s))
            == (if |s| == 3 then 2 * Bit(s, 0, a) + Bit(s, 1, a) else if |s| == 2 then Bit(s, 0, a) else 0)
  {
    hide Total, RankBonuses, WeightAt, Bit;
    RankBonusesNonNegative(s);
    SmallTotal(s, a, RankBonuses(s), 0);
    assert s[0..] == s;
    RankWeight(s, 0);
    RankWeight(s, 1);
    RankWeight(s, 2);
  }

  lemma {:induction false} SmallTotal(s: seq<RobotId>, a: set<RobotId>, w: Weights, n: nat)
    requires n <= |s| <= 3 && Weighted(s, w)
    ensures Weighted(s[n..], w)
    ensures Total(s[n..], a, w)
            == (if n <= 0 then Bit(s, 0, a) * WeightAt(s, 0, w) else 0)
               + (if n <= 1 then Bit(s, 1, a) * WeightAt(s, 1, w) else 0)
               + (if n <= 2 then Bit(s, 2, a) * WeightAt(s, 2, w) else 0)
    decreases |s| - n
  {
    if n == |s| {
      assert s[n..] == [];
    } else {
      hide Total;
      SmallTotal(s, a, w, n + 1);
      TotalAt(s, n, a, w);
    }
  }

  lemma SameBits(s: seq<RobotId>, a: set<RobotId>, b: set<RobotId>)
    requires |s| <= 3 && a <= Elems(s) && b <= Elems(s)
    requires Bit(s, 0, a) == Bit(s, 0, b) && Bit(s, 1, a) == Bit(s, 1, b) && Bit(s, 2, a) == Bit(s, 2, b)
    ensures a == b
  {
    forall r | r in s
      ensures r in a <==> r in b
    {
      var n :| 0 <= n < |s| && s[n] == r;
      assert n == 0 || n == 1 || n == 2;
    }
  }

  /** With at most three robots, equally large Resume sets with equal rank totals are the same set. */
  lemma ThreeRobotsSeparate(s: seq<RobotId>, a: set<RobotId>, b: set<RobotId>)
    requires Distinct(s) && |s| <= 3 && a <= Elems(s) && b <= Elems(s) && |a| == |b|
    requires Weighted(s, RankBonuses(s)) && Total(s, a, RankBonuses(s)) == Total(s, b, RankBonuses(s))
    ensures a == b
  {
    hide Total, RankBonuses;
    SmallSize(s, a);
    SmallSize(s, b);
    SmallRank(s, a);
    SmallRank(s, b);
    if |s| == 3 {
      TwoBits(Bit(s, 0, a), Bit(s, 1, a), Bit(s, 0, b), Bit(s, 1, b));
    }
    SameBits(s, a, b);
  }

  /** The rank bonuses break every tie between equally large Resume sets exactly in components of at most
      three robots. */
  lemma RanksSeparateExactly(s: seq<RobotId>)
    requires Distinct(s) && Weighted(s, RankBonuses(s))
    ensures RanksSeparate(s) <==> |s| <= 3
  {
    hide Total, RankBonuses;
    if |s| <= 3 {
      forall a, b | a <= Elems(s) && b <= Elems(s) && |a| == |b| && a != b
        ensures Total(s, a, RankBonuses(s)) != Total(s, b, RankBonuses(s))
      {
        if Total(s, a, RankBonuses(s)) == Total(s, b, RankBonuses(s)) {
          ThreeRobotsSeparate(s, a, b);
        }
      }
    } else {
      FourRobotsTie(s);
    }
  }

  // ---------------------------------------------------------------- optimal answers

  lemma SameRating(x: (int, int, int), y: (int, int, int))
    requires !LexLess(x, y) && !LexLess(y, x)
    ensures x == y
  {
  }

  /** So in a component of at most three robots the optimum is unique. */
  lemma SmallOptimumIsUnique(
    component: seq<RobotId>, m: ConflictModel, priorities: Priorities, hard: Assignment, x: set<RobotId>, y: set<RobotId>,
    reward: int
  )
    requires ValidCall(component, m, priorities, hard) && OrderedPairs(m.pairs, m.snapshots.Keys) && |component| <= 3
    requires CommonThroughput(Ascending(Elems(component)), priorities, reward)
    requires OptimalAnswer(CallFor(component, m, priorities, hard), x)
    requires OptimalAnswer(CallFor(component, m, priorities, hard), y)
    ensures Decode(Elems(component), x) == Decode(Elems(component), y)
  {
    hide ValidCall, CommonThroughput, OptimalAnswer, CallFor, OrderedPairs, RankBonuses, Total, Decode, Resumed, Ascending;
    var (ids, ordered) := (Elems(component), Ascending(Elems(component)));
    var (a, b) := (Resumed(Decode(ids, x)), Resumed(Decode(ids, y)));
    OptimaAreRatedAlike(component, m, priorities, hard, x, y, reward);
    AscendingIsDistinct(ids);
    DistinctCardinality(ordered);
    DistinctCardinality(component);
    RankBonusesNonNegative(ordered);
    ResumedAmong(ids, x);
    ResumedAmong(ids, y);
    ThreeRobotsSeparate(ordered, a, b);
    SameResumed(ids, x, y);
  }

  lemma ResumedAmong(ids: set<RobotId>, x: set<RobotId>)
    ensures Resumed(Decode(ids, x)) <= ids
  {
  }

  /** Two optimal answers have the same Resume count, secondary score and rank bonus. */
  lemma OptimaAreRatedAlike(
    component: seq<RobotId>, m: ConflictModel, priorities: Priorities, hard: Assignment, x: set<RobotId>, y: set<RobotId>,
    reward: int
  )
    requires ValidCall(component, m, priorities, hard) && OrderedPairs(m.pairs, m.snapshots.Keys)
    requires CommonThroughput(Ascending(Elems(component)), priorities, reward)
    requires OptimalAnswer(CallFor(component, m, priorities, hard), x)
    requires OptimalAnswer(CallFor(component, m, priorities, hard), y)
    ensures Rating(Ascending(Elems(component)), priorities, Resumed(Decode(Elems(component), x)))
            == Rating(Ascending(Elems(component)), priorities, Resumed(Decode(Elems(component), y)))
  {
    hide ValidCall, CommonThroughput, OptimalAnswer, CallFor, LexLess, OrderedPairs, SafeCompletion, Rating, Decode, Resumed,
      ComponentPairs, Ascending, Elems;
    var (ids, ordered) := (Elems(component), Ascending(Elems(component)));
    var (a, b) := (Decode(ids, x), Decode(ids, y));
    ValidCallIsScored(component, m, priorities, hard);
    OptimalIsSafe(component, m, priorities, hard, x);
    OptimalIsSafe(component, m, priorities, hard, y);
    OptimalAnswerIsLexicographicallyBest(component, m, priorities, hard, x, reward, b);
    OptimalAnswerIsLexicographicallyBest(component, m, priorities, hard, y, reward, a);
    SameRating(Rating(ordered, priorities, Resumed(a)), Rating(ordered, priorities, Resumed(b)));
  }

  lemma OptimalIsSafe(
    component: seq<RobotId>, m: ConflictModel, priorities: Priorities, hard: Assignment, x: set<RobotId>
  )
    requires ValidCall(component, m, priorities, hard) && OrderedPairs(m.pairs, m.snapshots.Keys)
    requires OptimalAnswer(CallFor(component, m, priorities, hard), x)
    ensures SafeCompletion(
              Decode(Elems(component), x), Elems(component), ComponentPairs(Elems(component), m.pairs), hard)
  {
    hide ValidCall, Solves, OrderedPairs, SafeCompletion, ComponentPairs;
    PairsWithinComponent(m, component);
    SolutionsAreSafeCompletions(
      Decode(Elems(component), x), Elems(component), ComponentPairs(Elems(component), m.pairs), hard);
  }

  lemma SameResumed(ids: set<RobotId>, x: set<RobotId>, y: set<RobotId>)
    requires Resumed(Decode(ids, x)) == Resumed(Decode(ids, y))
    ensures Decode(ids, x) == Decode(ids, y)
  {
    forall r | r in ids
      ensures Decode(ids, x)[r] == Decode(ids, y)[r]
    {
      assert r in Resumed(Decode(ids, x)) <==> Decode(ids, x)[r] == Resume;
      assert r in Resumed(Decode(ids, y)) <==> Decode(ids, y)[r] == Resume;
    }
  }

  // ---------------------------------------------------------------- four robots at a crossing

  /** Two robots that must not move together. */
  function Crossing(i: RobotId, j: RobotId): Compatibility {
    Compatibility(i, j, true, true, true, false)
  }

  function Clear(i: RobotId, j: RobotId): Compatibility {
    Compatibility(i, j, true, true, true, true)
  }

  /** Four robots in a ring, each in the way of two others. */
  function Ring(s: seq<RobotId>): seq<Compatibility>
    requires |s| == 4
  {
    [
      Crossing(s[0], s[1]), Crossing(s[0], s[2]), Clear(s[0], s[3]),
      Clear(s[1], s[2]), Crossing(s[1], s[3]), Crossing(s[2], s[3])
    ]
  }

  /** The solver's model of the ring. */
  function RingCall(s: seq<RobotId>, priorities: Priorities): (call: SolverCall)
    requires |s| == 4 && Scored(s, priorities)
    ensures Weighted(call.component, call.coefficients) && call.component == s
  {
    SolverCall(s, ClausesOf(Ring(s)), map[], Coefficients(s, priorities))
  }

  lemma RingSafety(s: seq<RobotId>, a: Assignment)
    requires StrictlyAscending(s) && |s| == 4
    ensures Solves(a, Elems(s), ClausesOf(Ring(s))) <==>
            a.Keys == Elems(s)
            && !(a[s[0]] == Resume && (a[s[1]] == Resume || a[s[2]] == Resume))
            && !(a[s[3]] == Resume && (a[s[1]] == Resume || a[s[2]] == Resume))
  {
    assert s[0] in Elems(s) && s[1] in Elems(s) && s[2] in Elems(s) && s[3] in Elems(s);
    if a.Keys == Elems(s) {
      assert OrderedPairs(Ring(s), Elems(s));
      ClausesEncodePairs(Ring(s), a, Elems(s));
      RingPairs(s, a);
    }
  }

  lemma RingPairs(s: seq<RobotId>, a: Assignment)
    requires StrictlyAscending(s) && |s| == 4 && a.Keys == Elems(s)
    ensures s[0] in a && s[1] in a && s[2] in a && s[3] in a
    ensures PairsSafe(Ring(s), a) <==>
            !(a[s[0]] == Resume && (a[s[1]] == Resume || a[s[2]] == Resume))
            && !(a[s[3]] == Resume && (a[s[1]] == Resume || a[s[2]] == Resume))
  {
    assert s[0] in Elems(s) && s[1] in Elems(s) && s[2] in Elems(s) && s[3] in Elems(s);
    var ring := Ring(s);
    assert ring[0] in ring && ring[1] in ring && ring[4] in ring && ring[5] in ring;
    if !(a[s[0]] == Resume && (a[s[1]] == Resume || a[s[2]] == Resume))
       && !(a[s[3]] == Resume && (a[s[1]] == Resume || a[s[2]] == Resume)) {
      forall p | p in ring
        ensures PairSafe(p, a)
      {
        var n :| 0 <= n < 6 && ring[n] == p;
      }
    }
  }

  /** The coefficients of four equally scored robots. */
  lemma EqualCoefficients(s: seq<RobotId>, priorities: Priorities, score: int, n: nat)
    requires Distinct(s) && |s| == 4 && Scored(s, priorities) && n < 4
    requires forall r | r in s :: priorities[r].finalScore == score
    ensures s[n] in Coefficients(s, priorities) && Coefficients(s, priorities)[s[n]] == score * 7 + 3 - n
  {
    hide UtilityScale, RankBonuses, Coefficients;
    assert s[n] in s;
    CoefficientOf(s, priorities, s[n]);
    RankAt(s, n);
    ScaleValue(s);
  }

  lemma RingValue(s: seq<RobotId>, priorities: Priorities, score: int, a: set<RobotId>)
    requires Distinct(s) && |s| == 4 && Scored(s, priorities)
    requires forall r | r in s :: priorities[r].finalScore == score
    ensures Total(s, a, Coefficients(s, priorities))
            == Bit(s, 0, a) * (score * 7 + 3) + Bit(s, 1, a) * (score * 7 + 2) + Bit(s, 2, a) * (score * 7 + 1)
               + Bit(s, 3, a) * (score * 7)
  {
    hide Total, Coefficients;
    var w := Coefficients(s, priorities);
    WeightedCoefficients(s, priorities);
    TotalAt(s, 0, a, w);
    TotalAt(s, 1, a, w);
    TotalAt(s, 2, a, w);
    TotalAt(s, 3, a, w);
    TotalOfEnd(s, a, w);
    EqualCoefficients(s, priorities, score, 0);
    EqualCoefficients(s, priorities, score, 1);
    EqualCoefficients(s, priorities, score, 2);
    EqualCoefficients(s, priorities, score, 3);
    assert s[0..] == s;
  }

  lemma WeightedCoefficients(s: seq<RobotId>, priorities: Priorities)
    requires Scored(s, priorities)
    ensures Weighted(s, Coefficients(s, priorities))
  {
  }

  lemma TotalOfEnd(s: seq<RobotId>, a: set<RobotId>, w: Weights)
    requires Weighted(s, w)
    ensures s[|s|..] == [] && Total(s[|s|..], a, w) == 0
  {
  }

  /** No choice that keeps the ring safe is worth more than two robots and three rank points. */
  lemma RingBound(x0: int, x1: int, x2: int, x3: int, score: int)
    requires 0 <= x0 <= 1 && 0 <= x1 <= 1 && 0 <= x2 <= 1 && 0 <= x3 <= 1 && score >= 0
    requires (x0 == 1 || x3 == 1) ==> x1 == 0 && x2 == 0
    ensures x0 * (score * 7 + 3) + x1 * (score * 7 + 2) + x2 * (score * 7 + 1) + x3 * (score * 7) <= score * 14 + 3
  {
  }

  lemma RingAnswer(s: seq<RobotId>, priorities: Priorities, score: int, resumed: set<RobotId>)
    requires StrictlyAscending(s) && |s| == 4 && Scored(s, priorities) && score >= 0
    requires forall r | r in s :: priorities[r].finalScore == score
    requires resumed == {s[0], s[3]} || resumed == {s[1], s[2]}
    ensures OptimalAnswer(RingCall(s, priorities), resumed)
  {
    hide Total, Coefficients, ClausesOf, Ring, Solves, Bit;
    var (ids, call) := (Elems(s), RingCall(s, priorities));
    var best := Decode(ids, resumed);
    RingBest(s, priorities, score, resumed);
    forall b | Solves(b, ids, call.noGoods)
      ensures Total(s, Resumed(b), call.coefficients) <= score * 14 + 3
    {
      RingRival(s, priorities, score, b);
    }
  }

  /** The two answers solve the ring and are worth two robots and three rank points. */
  lemma RingBest(s: seq<RobotId>, priorities: Priorities, score: int, resumed: set<RobotId>)
    requires StrictlyAscending(s) && |s| == 4 && Scored(s, priorities)
    requires forall r | r in s :: priorities[r].finalScore == score
    requires resumed == {s[0], s[3]} || resumed == {s[1], s[2]}
    ensures Solves(Decode(Elems(s), resumed), Elems(s), ClausesOf(Ring(s)))
    ensures Total(s, Resumed(Decode(Elems(s), resumed)), Coefficients(s, priorities)) == score * 14 + 3
  {
    hide Total, Coefficients, ClausesOf, Ring, Solves;
    var best := Decode(Elems(s), resumed);
    assert forall n | 0 <= n < 4 :: s[n] in Elems(s);
    RingSafety(s, best);
    RingValue(s, priorities, score, Resumed(best));
    DecodedBits(s, resumed);
  }

  lemma RingRival(s: seq<RobotId>, priorities: Priorities, score: int, b: Assignment)
    requires StrictlyAscending(s) && |s| == 4 && Scored(s, priorities) && score >= 0
    requires forall r | r in s :: priorities[r].finalScore == score
    requires Solves(b, Elems(s), ClausesOf(Ring(s)))
    ensures Total(s, Resumed(b), Coefficients(s, priorities)) <= score * 14 + 3
  {
    hide Total, Coefficients, ClausesOf, Ring, Solves;
    RingSafety(s, b);
    RingValue(s, priorities, score, Resumed(b));
    RingBound(Bit(s, 0, Resumed(b)), Bit(s, 1, Resumed(b)), Bit(s, 2, Resumed(b)), Bit(s, 3, Resumed(b)), score);
  }

  lemma DecodedBits(s: seq<RobotId>, resumed: set<RobotId>)
    ensures forall n: nat | n < |s| :: Bit(s, n, Resumed(Decode(Elems(s), resumed))) == Bit(s, n, resumed)
  {
    forall n: nat | n < |s|
      ensures Bit(s, n, Resumed(Decode(Elems(s), resumed))) == Bit(s, n, resumed)
    {
      assert s[n] in Elems(s);
    }
  }

  /** Four equally scored robots in a ring have two different optimal answers: the rank bonuses do not
      break every tie. */
  lemma RingHasTwoOptima(s: seq<RobotId>, priorities: Priorities, score: int)
    requires StrictlyAscending(s) && |s| == 4 && Scored(s, priorities) && score >= 0
    requires forall r | r in s :: priorities[r].finalScore == score
    ensures OptimalAnswer(RingCall(s, priorities), {s[0], s[3]})
    ensures OptimalAnswer(RingCall(s, priorities), {s[1], s[2]})
    ensures Decode(Elems(s), {s[0], s[3]}) != Decode(Elems(s), {s[1], s[2]})
  {
    hide OptimalAnswer;
    RingAnswer(s, priorities, score, {s[0], s[3]});
    RingAnswer(s, priorities, score, {s[1], s[2]});
    assert s[0] in Elems(s) && s[0] !in {s[1], s[2]};
    assert Decode(Elems(s), {s[0], s[3]})[s[0]] == Resume && Decode(Elems(s), {s[1], s[2]})[s[0]] == Pause;
  }
}
