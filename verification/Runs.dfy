/** Runs of a program whose steps interleave: what is reachable, invariants, and bounds on length. */
module Runs {

  /** A program: its first state, and which state may follow which by which action. */
  datatype System<!S, !A> = System(init: S, next: (S, A, S) -> bool)

  ghost predicate Follows<S(!new), A(!new)>(p: System<S, A>, s: S, a: A, s': S) {
    p.next(s, a, s')
  }

  /** The run's actions lead from the first state to s. */
  ghost predicate Reaches<S(!new), A(!new)>(p: System<S, A>, run: seq<A>, s: S)
    decreases |run|
  {
    if run == [] then s == p.init
    else
      var front, last := run[..|run| - 1], run[|run| - 1];
      exists r :: Reaches(p, front, r) && Follows(p, r, last, s)
  }

  ghost predicate Reachable<S(!new), A(!new)>(p: System<S, A>, s: S) {
    exists run :: Reaches(p, run, s)
  }

  /** No action is possible. */
  ghost predicate Stuck<S(!new), A(!new)>(p: System<S, A>, s: S) {
    forall a, s' :: !Follows(p, s, a, s')
  }

  lemma ReachInit<S(!new), A(!new)>(p: System<S, A>)
    ensures Reachable(p, p.init)
  {
    assert Reaches(p, [], p.init);
  }

  lemma ReachStep<S(!new), A(!new)>(p: System<S, A>, s: S, a: A, s': S)
    requires Reachable(p, s) && Follows(p, s, a, s')
    ensures Reachable(p, s')
  {
    var run :| Reaches(p, run, s);
    assert (run + [a])[..|run|] == run;
    assert Reaches(p, run + [a], s');
  }

  ghost predicate Kept<S(!new), A(!new)>(p: System<S, A>, inv: S -> bool) {
    && inv(p.init)
    && forall s, a, s' :: inv(s) && Follows(p, s, a, s') ==> inv(s')
  }

  lemma {:induction false} Invariant<S(!new), A(!new)>(p: System<S, A>, inv: S -> bool, run: seq<A>, s: S)
    requires Kept(p, inv) && Reaches(p, run, s)
    ensures inv(s)
    decreases |run|
  {
    if run != [] {
      var r :| Reaches(p, run[..|run| - 1], r) && Follows(p, r, run[|run| - 1], s);
      Invariant(p, inv, run[..|run| - 1], r);
    }
  }

  ghost predicate Shortens<S(!new), A(!new)>(p: System<S, A>, inv: S -> bool, left: S -> nat) {
    forall s, a, s' :: inv(s) && Follows(p, s, a, s') ==> left(s') < left(s)
  }

  lemma {:induction false} Bounded<S(!new), A(!new)>(
      p: System<S, A>, inv: S -> bool, left: S -> nat, run: seq<A>, s: S)
    requires Kept(p, inv) && Shortens(p, inv, left) && Reaches(p, run, s)
    ensures |run| + left(s) <= left(p.init)
    decreases |run|
  {
    if run != [] {
      var r :| Reaches(p, run[..|run| - 1], r) && Follows(p, r, run[|run| - 1], s);
      Invariant(p, inv, run[..|run| - 1], r);
      Bounded(p, inv, left, run[..|run| - 1], r);
    }
  }

  /** From any state a program whose runs are bounded can be driven until it is stuck. */
  lemma {:induction false} RunsOut<S(!new), A(!new)>(p: System<S, A>, inv: S -> bool, left: S -> nat, s: S)
      returns (stuck: S)
    requires Kept(p, inv) && Shortens(p, inv, left) && Reachable(p, s) && inv(s)
    ensures Reachable(p, stuck) && Stuck(p, stuck)
    decreases left(s)
  {
    if a, s' :| Follows(p, s, a, s') {
      ReachStep(p, s, a, s');
      stuck := RunsOut(p, inv, left, s');
    } else {
      stuck := s;
    }
  }
}
