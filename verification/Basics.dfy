/** Vocabulary shared by every other module: robot identifiers, actions, partial assignments,
    the results of operations that may raise, and deterministic sorting. */
module Basics {

  /** Robot identifiers. Only their total order is ever used. */
  type RobotId = nat

  datatype Action = Pause | Resume

  /** The other binary value: `1 - x` in the 0/1 encoding (Pause is 0, Resume is 1). */
  function Opposite(action: Action): Action {
    if action == Pause then Resume else Pause
  }

  /** A partial assignment of actions to robots. */
  type Assignment = map<RobotId, Action>

  datatype Option<+T> = None | Some(value: T) {
    function GetOr(default: T): T {
      if Some? then value else default
    }
  }

  /** The exceptions the modelled code can raise. */
  datatype Error =
    | InvalidInput        // a ValueError about the arguments
    | ObjectiveOverflow   // an objective coefficient above the CP-SAT integer range
    | UnsafeResult        // an assignment rejected by an internal validator
    | TickNotOpen
    | TickAlreadyOpen

  datatype Result<+T> = Ok(value: T) | Raised(error: Error) {
    predicate IsFailure() {
      Raised?
    }

    function PropagateFailure<U>(): Result<U>
      requires Raised?
    {
      Raised(error)
    }

    function Extract(): T
      requires Ok?
    {
      value
    }
  }

  function Elems<T>(s: seq<T>): set<T> {
    set x | x in s
  }

  predicate Distinct<T(==)>(s: seq<T>) {
    forall i, j | 0 <= i < j < |s| :: s[i] != s[j]
  }

  lemma {:induction false} DistinctCardinality<T>(s: seq<T>)
    ensures Distinct(s) <==> |Elems(s)| == |s|
    ensures |Elems(s)| <= |s|
  {
    if s != [] {
      var last := s[|s| - 1];
      var rest := s[..|s| - 1];
      DistinctCardinality(rest);
      assert Elems(s) == Elems(rest) + {last};
      if last in rest {
        assert Elems(s) == Elems(rest);
      } else if Distinct(rest) {
        assert Distinct(s);
      }
    }
  }

  /** Every value fixed by `base` has the same value in `b`. */
  predicate Extends(b: Assignment, base: Assignment) {
    forall r | r in base :: r in b && b[r] == base[r]
  }

  predicate AllPause(a: Assignment) {
    forall r | r in a :: a[r] == Pause
  }

  predicate HasResume(a: Assignment) {
    exists r | r in a :: a[r] == Resume
  }

  function Resumed(a: Assignment): set<RobotId> {
    set r | r in a && a[r] == Resume
  }

  function Restrict(a: Assignment, ids: set<RobotId>): Assignment {
    map r | r in a && r in ids :: a[r]
  }

  function PauseAll(ids: set<RobotId>): Assignment {
    map r | r in ids :: Pause
  }

  function Min(a: int, b: int): int {
    if a <= b then a else b
  }

  function Max(a: int, b: int): int {
    if a >= b then a else b
  }

  // ---------------------------------------------------------------- sorting

  /** A two-level sort key; robot identifiers break the remaining ties. */
  type SortKey = RobotId -> (int, int)

  predicate Before(key: SortKey, a: RobotId, b: RobotId) {
    var (a0, a1) := key(a);
    var (b0, b1) := key(b);
    a0 < b0 || (a0 == b0 && (a1 < b1 || (a1 == b1 && a < b)))
  }

  predicate SortedBy(key: SortKey, s: seq<RobotId>) {
    forall i, j | 0 <= i < j < |s| :: Before(key, s[i], s[j])
  }

  lemma NonEmpty(ids: set<RobotId>)
    requires ids != {}
    ensures exists x :: x in ids
  {
    assert (forall x :: x !in ids) ==> ids == {};
  }

  predicate IsFirst(key: SortKey, ids: set<RobotId>, f: RobotId) {
    f in ids && forall x | x in ids && x != f :: Before(key, f, x)
  }

  lemma {:induction false} FirstExists(ids: set<RobotId>, key: SortKey)
    requires ids != {}
    ensures exists f :: IsFirst(key, ids, f)
    decreases |ids|
  {
    NonEmpty(ids);
    var x :| x in ids;
    var rest := ids - {x};
    assert ids == rest + {x};
    if rest == {} {
      assert IsFirst(key, ids, x);
    } else {
      FirstExists(rest, key);
      var f :| IsFirst(key, rest, f);
      var g := if Before(key, x, f) then x else f;
      forall y | y in ids && y != g
        ensures Before(key, g, y)
      {
        assert y == x || y in rest;
      }
      assert IsFirst(key, ids, g);
    }
  }

  function First(ids: set<RobotId>, key: SortKey): (f: RobotId)
    requires ids != {}
    ensures IsFirst(key, ids, f)
  {
    FirstExists(ids, key);
    var f :| IsFirst(key, ids, f);
    f
  }

  lemma BeforeIsAsymmetric(key: SortKey, a: RobotId, b: RobotId)
    ensures Before(key, a, b) ==> !Before(key, b, a)
  {
  }

  /** A nonempty set has a member that all others precede. */
  lemma {:induction false} LastInOrder(ids: set<RobotId>, key: SortKey) returns (last: RobotId)
    requires ids != {}
    ensures last in ids && forall q | q in ids :: q == last || Before(key, q, last)
    decreases |ids|
  {
    var f := First(ids, key);
    var rest := ids - {f};
    assert ids == rest + {f};
    if rest == {} {
      last := f;
    } else {
      last := LastInOrder(rest, key);
      assert Before(key, f, last);
    }
  }

  lemma FirstThenSorted(ids: set<RobotId>, key: SortKey, f: RobotId, rest: seq<RobotId>)
    requires IsFirst(key, ids, f) && SortedBy(key, rest) && forall x :: x in rest <==> x in ids - {f}
    ensures SortedBy(key, [f] + rest)
  {
    assert forall n | 0 <= n < |rest| :: rest[n] in rest && ([f] + rest)[n + 1] == rest[n];
  }

  /** Python's `sorted` over distinct identifiers with a key ending in the identifier. */
  function Sort(ids: set<RobotId>, key: SortKey): (s: seq<RobotId>)
    ensures forall x :: x in s <==> x in ids
    ensures |s| == |ids|
    ensures SortedBy(key, s)
    decreases |ids|
  {
    if ids == {} then
      []
    else
      var f := First(ids, key);
      var rest := Sort(ids - {f}, key);
      FirstThenSorted(ids, key, f, rest);
      [f] + rest
  }

  predicate StrictlyAscending(s: seq<RobotId>) {
    forall i, j | 0 <= i < j < |s| :: s[i] < s[j]
  }

  /** `sorted(ids)`. */
  function Ascending(ids: set<RobotId>): (s: seq<RobotId>)
    ensures Elems(s) == ids
    ensures |s| == |ids|
    ensures StrictlyAscending(s)
  {
    var key: SortKey := r => (0, 0);
    var s := Sort(ids, key);
    assert forall i, j | 0 <= i < j < |s| :: Before(key, s[i], s[j]);
    s
  }

  /** There is one ascending list of a set. */
  lemma {:induction false} AscendingIsUnique(s: seq<RobotId>, t: seq<RobotId>)
    requires StrictlyAscending(s) && StrictlyAscending(t) && forall r :: r in s <==> r in t
    ensures s == t
  {
    if s == [] {
      DistinctCardinality(t);
      assert Elems(t) == {};
    } else {
      assert s[0] in s && t != [] && t[0] in t;
      assert s[0] == t[0];
      TailMembers(s);
      TailMembers(t);
      AscendingIsUnique(s[1..], t[1..]);
      assert s == [s[0]] + s[1..] && t == [t[0]] + t[1..];
    }
  }

  lemma TailMembers(s: seq<RobotId>)
    requires StrictlyAscending(s) && s != []
    ensures StrictlyAscending(s[1..]) && forall r :: r in s[1..] <==> r in s && r != s[0]
  {
    assert s == [s[0]] + s[1..];
  }

  /** The first `n` identifiers of a list. */
  function FirstIds(s: seq<RobotId>, n: nat): set<RobotId>
    requires n <= |s|
  {
    Elems(s[..n])
  }

  lemma NoIds(s: seq<RobotId>)
    ensures FirstIds(s, 0) == {}
  {
  }

  lemma AllIds(s: seq<RobotId>)
    ensures FirstIds(s, |s|) == Elems(s)
  {
    assert s[..|s|] == s;
  }

  lemma TakeOneMore(ordered: seq<RobotId>, n: nat, ids: set<RobotId>)
    requires StrictlyAscending(ordered) && Elems(ordered) == ids && n < |ordered|
    ensures FirstIds(ordered, n + 1) == FirstIds(ordered, n) + {ordered[n]}
    ensures ordered[n] in ids && ordered[n] !in FirstIds(ordered, n)
    ensures forall q | q in FirstIds(ordered, n) :: q < ordered[n]
  {
    assert ordered[n] in Elems(ordered);
    assert ordered[..n + 1] == ordered[..n] + [ordered[n]];
  }

  /** A robot's position in a sequence that lists it. */
  function IndexOf(s: seq<RobotId>, r: RobotId): (i: nat)
    requires r in s
    ensures i < |s| && s[i] == r
  {
    if s[0] == r then 0 else 1 + IndexOf(s[1..], r)
  }
}
