/** What the repair pass of the heuristic looks for: one escape robot, what propagation forces, and Pauses. */
module Repair {
  import opened Basics
  import opened NoGoods
  import opened Search

  lemma LeastClosureIsUnique(a: Assignment, clauses: seq<Clause>, x: Assignment, y: Assignment)
    requires IsLeastClosure(x, a, clauses) && IsLeastClosure(y, a, clauses)
    ensures x == y
  {
    hide Closed;
    PropagationIsConfluent(a, clauses, clauses, x, y);
  }

  /** Giving a robot this value on top of `a` and propagating leads to `next`. */
  ghost predicate LeadsTo(a: Assignment, robot: RobotId, value: Action, clauses: seq<Clause>, next: Assignment) {
    IsLeastClosure(next, a[robot := value], clauses)
  }

  // ---------------------------------------------------------------- pausing the rest

  /** `a` is what remains after pausing, in this order, every listed robot without a value, propagating
      each Pause before the next. */
  ghost predicate PausesTo(trial: Assignment, rest: seq<RobotId>, clauses: seq<Clause>, a: Assignment)
    decreases |rest|
  {
    if rest == [] then
      a == trial
    else if rest[0] in trial then
      PausesTo(trial, rest[1..], clauses, a)
    else
      exists next :: LeadsTo(trial, rest[0], Pause, clauses, next) && PausesTo(next, rest[1..], clauses, a)
  }

  /** Pausing `rest` from `filled` comes to the same as pausing all of `ordered` from `trial`. */
  ghost predicate SamePauses(
    trial: Assignment, ordered: seq<RobotId>, filled: Assignment, rest: seq<RobotId>, clauses: seq<Clause>
  ) {
    forall a :: PausesTo(trial, ordered, clauses, a) <==> PausesTo(filled, rest, clauses, a)
  }

  lemma PauseStep(trial: Assignment, rest: seq<RobotId>, clauses: seq<Clause>, next: Assignment, a: Assignment)
    requires rest != [] && rest[0] !in trial && IsLeastClosure(next, trial[rest[0] := Pause], clauses)
    ensures PausesTo(trial, rest, clauses, a) <==> PausesTo(next, rest[1..], clauses, a)
  {
    hide IsLeastClosure;
    assert LeadsTo(trial, rest[0], Pause, clauses, next);
    forall other | LeadsTo(trial, rest[0], Pause, clauses, other)
      ensures other == next
    {
      LeastClosureIsUnique(trial[rest[0] := Pause], clauses, other, next);
    }
  }

  lemma NoPause(trial: Assignment, rest: seq<RobotId>, clauses: seq<Clause>, a: Assignment)
    requires rest != [] && rest[0] !in trial && !HasClosure(trial[rest[0] := Pause], clauses)
    ensures !PausesTo(trial, rest, clauses, a)
  {
    hide Closed;
    forall next
      ensures !LeadsTo(trial, rest[0], Pause, clauses, next)
    {
    }
  }

  lemma NextInOrder(ordered: seq<RobotId>, n: nat)
    requires n < |ordered|
    ensures ordered[n..] != [] && ordered[n..][0] == ordered[n] && ordered[n..][1..] == ordered[n + 1..]
  {
  }

  /** Pause one more robot, unless it has a value. */
  method PauseNext(
    filled: Assignment, robot: RobotId, clauses: seq<Clause>, ghost ids: set<RobotId>, ghost rest: seq<RobotId>
  )
    returns (next: Option<Assignment>)
    requires Over(clauses, ids) && filled.Keys <= ids && Closed(filled, clauses)
    requires rest != [] && rest[0] == robot && robot in ids
    ensures next.Some? ==>
      && next.value.Keys <= ids && Closed(next.value, clauses) && Extends(next.value, filled) && robot in next.value
      && SamePauses(filled, rest, next.value, rest[1..], clauses)
    ensures next.None? ==> forall a :: !PausesTo(filled, rest, clauses, a)
  {
    if robot in filled {
      return Some(filled);
    }
    hide Over, Closed, HasClosure, PausesTo;
    var paused, _ := TryAssignment(filled, robot, Pause, clauses, ids);
    next := paused;
    if next.None? {
      forall a
        ensures !PausesTo(filled, rest, clauses, a)
      {
        NoPause(filled, rest, clauses, a);
      }
    } else {
      forall a
        ensures PausesTo(filled, rest, clauses, a) <==> PausesTo(next.value, rest[1..], clauses, a)
      {
        PauseStep(filled, rest, clauses, next.value, a);
      }
    }
  }

  /** Pause every robot that has no value yet, one propagation at a time. */
  method PauseRemaining(trial: Assignment, ids: set<RobotId>, clauses: seq<Clause>) returns (r: Option<Assignment>)
    requires Over(clauses, ids) && trial.Keys <= ids && Closed(trial, clauses)
    ensures r.Some? ==> Solves(r.value, ids, clauses) && Extends(r.value, trial)
    ensures r.Some? ==> PausesTo(trial, Ascending(ids), clauses, r.value)
    ensures r.None? ==> forall a :: !PausesTo(trial, Ascending(ids), clauses, a)
  {
    hide Over, Closed, PausesTo, Ascending, SamePauses, Extends, ValuedUpTo, StrictlyAscending, Solves;
    var ordered := Ascending(ids);
    var filled := trial;
    NothingPausedYet(trial, ordered, clauses);
    for n := 0 to |ordered|
      invariant filled.Keys <= ids && Closed(filled, clauses) && Extends(filled, trial)
      invariant ValuedUpTo(filled, ordered, n) && SamePauses(trial, ordered, filled, ordered[n..], clauses)
    {
      NextInOrder(ordered, n);
      assert ordered[n] in Elems(ordered);
      var next := PauseNext(filled, ordered[n], clauses, ids, ordered[n..]);
      if next.None? {
        NothingFollows(trial, ordered, filled, ordered[n..], clauses);
        return None;
      }
      OneMorePaused(trial, ordered, n, filled, next.value, clauses);
      filled := next.value;
    }
    TotalAndClosed(filled, ordered, ids, clauses);
    NothingToPause(trial, filled, ordered, clauses);
    r := Some(filled);
  }

  predicate ValuedUpTo(a: Assignment, ordered: seq<RobotId>, n: nat)
    requires n <= |ordered|
  {
    forall j | 0 <= j < n :: ordered[j] in a
  }

  lemma NothingPausedYet(trial: Assignment, ordered: seq<RobotId>, clauses: seq<Clause>)
    ensures SamePauses(trial, ordered, trial, ordered[0..], clauses) && ValuedUpTo(trial, ordered, 0)
    ensures Extends(trial, trial)
  {
    assert ordered[0..] == ordered;
  }

  lemma NothingFollows(
    trial: Assignment, ordered: seq<RobotId>, filled: Assignment, rest: seq<RobotId>, clauses: seq<Clause>
  )
    requires SamePauses(trial, ordered, filled, rest, clauses) && forall a :: !PausesTo(filled, rest, clauses, a)
    ensures forall a :: !PausesTo(trial, ordered, clauses, a)
  {
    hide PausesTo;
  }

  lemma OneMorePaused(
    trial: Assignment, ordered: seq<RobotId>, n: nat, filled: Assignment, next: Assignment, clauses: seq<Clause>
  )
    requires n < |ordered| && Extends(filled, trial) && ValuedUpTo(filled, ordered, n)
    requires SamePauses(trial, ordered, filled, ordered[n..], clauses)
    requires Extends(next, filled) && ordered[n] in next
    requires SamePauses(filled, ordered[n..], next, ordered[n..][1..], clauses)
    ensures Extends(next, trial) && ValuedUpTo(next, ordered, n + 1)
    ensures SamePauses(trial, ordered, next, ordered[n + 1..], clauses)
  {
    hide PausesTo;
    NextInOrder(ordered, n);
    assert forall j | 0 <= j < n :: ordered[j] in filled;
  }

  lemma NothingToPause(trial: Assignment, filled: Assignment, ordered: seq<RobotId>, clauses: seq<Clause>)
    requires SamePauses(trial, ordered, filled, ordered[|ordered|..], clauses)
    ensures PausesTo(trial, ordered, clauses, filled)
  {
  }

  lemma TotalAndClosed(a: Assignment, ordered: seq<RobotId>, ids: set<RobotId>, clauses: seq<Clause>)
    requires Elems(ordered) == ids && Over(clauses, ids) && a.Keys <= ids && Closed(a, clauses)
    requires ValuedUpTo(a, ordered, |ordered|)
    ensures Solves(a, ids, clauses)
  {
    forall r | r in ids
      ensures r in a
    {
      assert r in ordered;
    }
    assert a.Keys == ids;
    forall c | c in clauses
      ensures Satisfied(c, a)
    {
      assert Settled(c, a);
    }
  }

  // ---------------------------------------------------------------- the first escape

  /** Resuming `escape` on top of `base` propagates without contradiction, and pausing the rest gives `a`. */
  ghost predicate Escapes(
    base: Assignment, escape: RobotId, ids: set<RobotId>, clauses: seq<Clause>, a: Assignment
  ) {
    Extends(base[escape := Resume], base)
    && exists trial ::
         LeadsTo(base, escape, Resume, clauses, trial) && PausesTo(trial, Ascending(ids), clauses, a)
  }

  /** None of the first `n` candidates escapes. */
  ghost predicate NoneEscapes(
    base: Assignment, candidates: seq<RobotId>, n: nat, ids: set<RobotId>, clauses: seq<Clause>
  ) {
    n <= |candidates| && forall k, a | 0 <= k < n :: !Escapes(base, candidates[k], ids, clauses, a)
  }

  /** The outcome of the repair pass: the assignment of the first candidate that escapes from the propagated
      hard actions, if there is one. */
  ghost predicate IsFirstEscape(
    base: Assignment, candidates: seq<RobotId>, ids: set<RobotId>, clauses: seq<Clause>, outcome: Option<Assignment>
  ) {
    if outcome.None? then
      NoneEscapes(base, candidates, |candidates|, ids, clauses)
    else
      exists n :: 0 <= n < |candidates| && IsEscapeAt(base, candidates, n, ids, clauses, outcome.value)
  }

  ghost predicate IsEscapeAt(
    base: Assignment, candidates: seq<RobotId>, n: nat, ids: set<RobotId>, clauses: seq<Clause>, a: Assignment
  )
    requires n < |candidates|
  {
    NoneEscapes(base, candidates, n, ids, clauses) && Escapes(base, candidates[n], ids, clauses, a)
  }

  lemma OneMoreDoesNotEscape(
    base: Assignment, candidates: seq<RobotId>, n: nat, ids: set<RobotId>, clauses: seq<Clause>
  )
    requires NoneEscapes(base, candidates, n, ids, clauses) && n < |candidates|
    requires forall a :: !Escapes(base, candidates[n], ids, clauses, a)
    ensures NoneEscapes(base, candidates, n + 1, ids, clauses)
  {
    hide Escapes;
  }

  /** Escaping through one propagated trial is escaping at all. */
  lemma EscapesThrough(
    base: Assignment, escape: RobotId, trial: Assignment, ids: set<RobotId>, clauses: seq<Clause>, a: Assignment
  )
    requires Extends(base[escape := Resume], base) && IsLeastClosure(trial, base[escape := Resume], clauses)
    ensures Escapes(base, escape, ids, clauses, a) <==> PausesTo(trial, Ascending(ids), clauses, a)
  {
    hide IsLeastClosure, PausesTo, Ascending;
    assert LeadsTo(base, escape, Resume, clauses, trial);
    forall other | LeadsTo(base, escape, Resume, clauses, other)
      ensures other == trial
    {
      LeastClosureIsUnique(base[escape := Resume], clauses, other, trial);
    }
  }

  lemma ContradictionDoesNotEscape(
    base: Assignment, escape: RobotId, ids: set<RobotId>, clauses: seq<Clause>, a: Assignment
  )
    requires !(Extends(base[escape := Resume], base) && HasClosure(base[escape := Resume], clauses))
    ensures !Escapes(base, escape, ids, clauses, a)
  {
    hide PausesTo, Closed, Ascending;
  }

  /** Try one escape robot. */
  method TryEscape(base: Assignment, escape: RobotId, ids: set<RobotId>, clauses: seq<Clause>)
    returns (r: Option<Assignment>)
    requires Over(clauses, ids) && base.Keys <= ids && escape in ids
    ensures r.Some? ==> Escapes(base, escape, ids, clauses, r.value)
    ensures r.Some? ==> Solves(r.value, ids, clauses) && Extends(r.value, base) && HasResume(r.value)
    ensures r.None? ==> forall a :: !Escapes(base, escape, ids, clauses, a)
  {
    hide Over, Closed, HasClosure, PausesTo, Escapes, Solves, Ascending;
    var trial, _ := TryAssignment(base, escape, Resume, clauses, ids);
    if trial.None? {
      forall a
        ensures !Escapes(base, escape, ids, clauses, a)
      {
        ContradictionDoesNotEscape(base, escape, ids, clauses, a);
      }
      return None;
    }
    forall a
      ensures Escapes(base, escape, ids, clauses, a) <==> PausesTo(trial.value, Ascending(ids), clauses, a)
    {
      EscapesThrough(base, escape, trial.value, ids, clauses, a);
    }
    r := PauseRemaining(trial.value, ids, clauses);
    if r.Some? {
      assert Extends(r.value, base[escape := Resume]);
      assert r.value[escape] == Resume;
    }
  }
}
