/** Two-literal no-good clauses and their semantics under partial assignments. */
module NoGoods {
  import opened Basics

  /** A literal requires `robot` to act differently from `forbidden`. */
  datatype Literal = Literal(robot: RobotId, forbidden: Action)

  /** A disjunction of two literals on two different robots. */
  datatype Clause = Clause(first: Literal, second: Literal)

  /** Every clause relates two different robots of `ids`. */
  predicate Over(clauses: seq<Clause>, ids: set<RobotId>) {
    forall c | c in clauses ::
      c.first.robot in ids && c.second.robot in ids && c.first.robot != c.second.robot
  }

  predicate IsTrue(l: Literal, a: Assignment) {
    l.robot in a && a[l.robot] != l.forbidden
  }

  predicate Satisfied(c: Clause, a: Assignment) {
    IsTrue(c.first, a) || IsTrue(c.second, a)
  }

  predicate Untouched(c: Clause, a: Assignment) {
    c.first.robot !in a && c.second.robot !in a
  }

  /** Unit propagation has nothing left to do for this clause, and no reason to fail. */
  predicate Settled(c: Clause, a: Assignment) {
    Satisfied(c, a) || Untouched(c, a)
  }

  predicate Closed(a: Assignment, clauses: seq<Clause>) {
    forall c | c in clauses :: Settled(c, a)
  }

  /** A total assignment of `ids` that satisfies every clause. */
  predicate Solves(s: Assignment, ids: set<RobotId>, clauses: seq<Clause>) {
    s.Keys == ids && forall c | c in clauses :: Satisfied(c, s)
  }

  lemma SolutionIsClosed(s: Assignment, ids: set<RobotId>, clauses: seq<Clause>)
    requires Solves(s, ids, clauses)
    ensures Closed(s, clauses)
  {
  }

  /** Why the single greedy pass needs no backtracking: a clause-closed assignment can be laid
      over any solution whatsoever, and the result is again a solution. */
  lemma ClosedOverlay(s: Assignment, a: Assignment, ids: set<RobotId>, clauses: seq<Clause>)
    requires Solves(s, ids, clauses)
    requires Closed(a, clauses) && a.Keys <= ids
    ensures Solves(s + a, ids, clauses) && Extends(s + a, a)
  {
    forall c | c in clauses
      ensures Satisfied(c, s + a)
    {
      assert Settled(c, a) && Satisfied(c, s);
    }
  }

  /** `least` is the least clause-closed extension of `a`. */
  ghost predicate IsLeastClosure(least: Assignment, a: Assignment, clauses: seq<Clause>) {
    && Extends(least, a)
    && Closed(least, clauses)
    && forall b :: Extends(b, a) && Closed(b, clauses) ==> Extends(b, least)
  }

  ghost predicate HasClosure(a: Assignment, clauses: seq<Clause>) {
    exists b :: Extends(b, a) && Closed(b, clauses)
  }

  /** Two runs of unit propagation on the same clauses, in whatever order and however often each
      clause is listed, agree on success and on the propagated assignment. */
  lemma PropagationIsConfluent(a: Assignment, cs: seq<Clause>, ds: seq<Clause>, b: Assignment, d: Assignment)
    requires Elems(cs) == Elems(ds)
    ensures HasClosure(a, cs) <==> HasClosure(a, ds)
    ensures IsLeastClosure(b, a, cs) && IsLeastClosure(d, a, ds) ==> b == d
  {
    assert forall c :: c in cs <==> c in Elems(cs);
    assert forall c :: c in ds <==> c in Elems(ds);
    assert forall e :: Closed(e, cs) <==> Closed(e, ds);
    if IsLeastClosure(b, a, cs) && IsLeastClosure(d, a, ds) {
      assert Extends(b, d) && Extends(d, b);
      assert forall r :: r in b <==> r in d;
    }
  }

  /** A propagated value is no guess: it holds in every solution that extends the input. */
  lemma PropagatedValuesAreForced(
    least: Assignment, a: Assignment, s: Assignment, ids: set<RobotId>, clauses: seq<Clause>
  )
    requires IsLeastClosure(least, a, clauses)
    requires Solves(s, ids, clauses) && Extends(s, a)
    ensures Extends(s, least)
  {
    SolutionIsClosed(s, ids, clauses);
  }

  // ---------------------------------------------------------------- preference order

  /** At the first rank where `s` and `t` differ, `s` Resumes and `t` Pauses. */
  predicate Prefers(ranked: seq<RobotId>, s: Assignment, t: Assignment) {
    exists i | 0 <= i < |ranked| :: FirstDifference(ranked, s, t, i)
  }

  predicate FirstDifference(ranked: seq<RobotId>, s: Assignment, t: Assignment, i: int)
    requires 0 <= i < |ranked|
  {
    && ranked[i] in s && ranked[i] in t
    && s[ranked[i]] == Resume && t[ranked[i]] == Pause
    && forall j | 0 <= j < i :: ranked[j] in s && ranked[j] in t && s[ranked[j]] == t[ranked[j]]
  }

  /** `s` is the solution extending `seed` that Resumes greedily in rank order. */
  ghost predicate IsGreatest(
    s: Assignment, ranked: seq<RobotId>, seed: Assignment, ids: set<RobotId>, clauses: seq<Clause>
  ) {
    && Solves(s, ids, clauses)
    && Extends(s, seed)
    && forall t :: Solves(t, ids, clauses) && Extends(t, seed) ==> t == s || Prefers(ranked, s, t)
  }

  ghost predicate Satisfiable(seed: Assignment, ids: set<RobotId>, clauses: seq<Clause>) {
    exists s :: Solves(s, ids, clauses) && Extends(s, seed)
  }

  /** The greedy result is fully determined by the ranking. */
  lemma GreatestIsUnique(
    s: Assignment, t: Assignment, ranked: seq<RobotId>, seed: Assignment,
    ids: set<RobotId>, clauses: seq<Clause>
  )
    requires IsGreatest(s, ranked, seed, ids, clauses)
    requires IsGreatest(t, ranked, seed, ids, clauses)
    ensures s == t
  {
    if s != t {
      var i :| 0 <= i < |ranked| && FirstDifference(ranked, s, t, i);
      var j :| 0 <= j < |ranked| && FirstDifference(ranked, t, s, j);
      assert false;
    }
  }
}
