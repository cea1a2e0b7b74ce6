/**
 * Reaping children by SIGCHLD: the handler of UnixStreamSocketServer.c, installed for the fork loop
 * of UnixRawNetworkLayerSocketServer.c.
 */
module Reaping {
  import opened Runs

  const ECHILD := 10

  /** Where the handler is; SIGCHLD stays blocked until it returns (section 2.4.1 of POSIX.1-2017). */
  datatype Handler = Idle | Saving | Waiting(saved: int) | Restoring(saved: int)

  /**
   * Children of the server by stage, the one pending bit of SIGCHLD, and errno. mainErrno records
   * what the interrupted program last left in errno; no step depends on it.
   */
  datatype State = State(
    live: nat, zombies: nat, reaped: nat, forked: nat, pending: bool, handler: Handler, errno: int, mainErrno: int)

  /**
   * MainSets stands for whatever else the accept loop does to errno. A kernel may discard the pending
   * signal when waitpid reaps the last zombie, as the POSIX.1-2017 page of wait() has it, or keep it.
   */
  datatype Action = Fork | MainSets(e: int) | ChildExits | Deliver | Handle(discards: bool)

  const START := State(0, 0, 0, 0, false, Idle, 0, 0)

  /** The loop flag is true of the handler as written; false puts one waitpid call in its place. */
  predicate Enabled(s: State, a: Action) {
    match a
    case Fork => s.handler == Idle
    case MainSets(_) => s.handler == Idle
    case ChildExits => s.live > 0
    case Deliver => s.handler == Idle && s.pending
    case Handle(_) => s.handler != Idle
  }

  function Apply(loops: bool, s: State, a: Action): State
    requires Enabled(s, a)
  {
    match a
    case Fork => s.(live := s.live + 1, forked := s.forked + 1)
    case MainSets(e) => s.(errno := e, mainErrno := e)
    case ChildExits => s.(live := s.live - 1, zombies := s.zombies + 1, pending := true)
    case Deliver => s.(pending := false, handler := Saving)
    case Handle(discards) =>
      match s.handler
      case Saving => s.(handler := Waiting(s.errno))
      case Waiting(v) =>
        if s.zombies > 0 then
          s.(
            zombies := s.zombies - 1, reaped := s.reaped + 1,
            pending := s.pending && !(discards && s.zombies == 1),
            handler := if loops then Waiting(v) else Restoring(v))
        else
          s.(errno := if s.live == 0 then ECHILD else s.errno, handler := Restoring(v))
      case Restoring(v) => s.(errno := v, handler := Idle)
  }

  ghost predicate Next(loops: bool, s: State, a: Action, s': State) {
    Enabled(s, a) && s' == Apply(loops, s, a)
  }

  ghost function Program(loops: bool): System<State, Action> {
    System(START, (s, a, s') => Next(loops, s, a, s'))
  }

  // ---------------------------------------------------------------------------------------------
  // No zombie is forgotten
  // ---------------------------------------------------------------------------------------------

  predicate BeforeOrInLoop(h: Handler) {
    h.Saving? || h.Waiting?
  }

  ghost predicate Inv(loops: bool, s: State) {
    && s.forked == s.live + s.zombies + s.reaped
    && (loops && s.zombies > 0 && !BeforeOrInLoop(s.handler) ==> s.pending)
    && (match s.handler
        case Waiting(v) => v == s.errno == s.mainErrno
        case Restoring(v) =>
          v == s.mainErrno && (loops ==> s.errno == if s.live + s.zombies == 0 then ECHILD else s.mainErrno)
        case _ => s.errno == s.mainErrno)
  }

  lemma StepInv(loops: bool, s: State, a: Action)
    requires Inv(loops, s) && Enabled(s, a)
    ensures Inv(loops, Apply(loops, s, a))
  {
  }

  lemma InitInv(loops: bool)
    ensures Inv(loops, START)
  {
  }

  lemma {:induction false} InvHolds(loops: bool, s: State)
    requires Reachable(Program(loops), s)
    ensures Inv(loops, s)
  {
    hide Inv, Enabled, Apply;
    InitInv(loops);
    forall s, a, s' | Inv(loops, s) && Next(loops, s, a, s')
      ensures Inv(loops, s')
    {
      StepInv(loops, s, a);
    }
    var run :| Reaches(Program(loops), run, s);
    Invariant(Program(loops), s => Inv(loops, s), run, s);
  }

  /** In every interleaving: children are conserved, a zombie has a signal or a handler coming, errno survives. */
  lemma {:induction false} NoZombieForgotten(s: State)
    requires Reachable(Program(true), s)
    ensures s.forked == s.live + s.zombies + s.reaped
    ensures s.zombies > 0 ==> s.pending || BeforeOrInLoop(s.handler)
    ensures s.handler == Idle ==> s.errno == s.mainErrno
  {
    InvHolds(true, s);
  }

  /** Why errno must be restored: the last waitpid call spoils it exactly when no child is left. */
  lemma {:induction false} ErrnoIsSpoilt(s: State)
    requires Reachable(Program(true), s) && s.handler.Restoring?
    ensures s.live + s.zombies == 0 ==> s.errno == ECHILD
    ensures s.live + s.zombies > 0 ==> s.errno == s.mainErrno
    ensures s.handler.saved == s.mainErrno
  {
    InvHolds(true, s);
  }

  /** Nothing is left for the handler to do. */
  predicate Quiescent(s: State) {
    s.handler == Idle && !s.pending
  }

  /** The program as it goes on from a state. */
  ghost function Onward(loops: bool, s: State): System<State, Action> {
    Program(loops).(init := s)
  }

  /** Zombies beyond those the pending signal and a handler still before its waitpid call can take. */
  function Stranded(s: State): int {
    s.zombies - (if s.pending then 1 else 0) - (if BeforeOrInLoop(s.handler) then 1 else 0)
  }

  /** With one waitpid call per signal, what is stranded stays so: signals come no faster than zombies. */
  lemma {:induction false} StrandedNeverFalls(s: State, t: State)
    requires Reachable(Onward(false, s), t)
    ensures Stranded(s) <= Stranded(t) <= t.zombies
  {
    var run :| Reaches(Onward(false, s), run, t);
    Invariant(Onward(false, s), r => Stranded(s) <= Stranded(r), run, t);
  }

  /** One waitpid call in place of the loop leaves any number of zombies behind, for good. */
  lemma {:induction false} OneWaitForgets(n: nat) returns (s: State)
    ensures Reachable(Program(false), s) && Quiescent(s) && s.zombies == n && s.live == 0
    ensures forall t | Reachable(Onward(false, s), t) :: t.zombies >= n
  {
    s := OneWaitStrands(n);
    forall t | Reachable(Onward(false, s), t)
      ensures t.zombies >= n
    {
      StrandedNeverFalls(s, t);
    }
  }

  /** One more child than n exits before the signal is delivered, and the handler reaps one. */
  lemma {:induction false} OneWaitStrands(n: nat) returns (s: State)
    ensures Reachable(Program(false), s) && Quiescent(s) && s.zombies == n && s.live == 0
  {
    var p := Program(false);
    s := START;
    ReachInit(p);
    while s.live < n + 1
      invariant s.live <= n + 1 && Reachable(p, s)
      invariant s == START.(live := s.live, forked := s.live)
    {
      ReachStep(p, s, Fork, Apply(false, s, Fork));
      s := Apply(false, s, Fork);
    }
    while s.live > 0
      invariant Reachable(p, s) && s.live + s.zombies == n + 1
      invariant s == START.(live := s.live, zombies := s.zombies, forked := s.forked, pending := s.pending)
      invariant s.zombies > 0 ==> s.pending
    {
      ReachStep(p, s, ChildExits, Apply(false, s, ChildExits));
      s := Apply(false, s, ChildExits);
    }
    ReachStep(p, s, Deliver, Apply(false, s, Deliver));
    s := Apply(false, s, Deliver);
    ReachStep(p, s, Handle(false), Apply(false, s, Handle(false)));
    s := Apply(false, s, Handle(false));
    ReachStep(p, s, Handle(false), Apply(false, s, Handle(false)));
    s := Apply(false, s, Handle(false));
    ReachStep(p, s, Handle(false), Apply(false, s, Handle(false)));
    s := Apply(false, s, Handle(false));
  }

  /** Quiescence means no zombies exactly because the handler loops. */
  lemma {:induction false} QuiescentIsCleanIff(loops: bool)
    ensures (forall s | Reachable(Program(loops), s) && Quiescent(s) :: s.zombies == 0) <==> loops
  {
    if loops {
      forall s | Reachable(Program(loops), s) && Quiescent(s)
        ensures s.zombies == 0
      {
        NoZombieForgotten(s);
      }
    } else {
      var s := OneWaitForgets(1);
    }
  }

  // ---------------------------------------------------------------------------------------------
  // Quiescence comes
  // ---------------------------------------------------------------------------------------------

  /** The actions of the accept loop, as against those of children, kernel and handler. */
  predicate ByMain(a: Action) {
    a.Fork? || a.MainSets?
  }

  function Work(run: seq<Action>): nat
    decreases |run|
  {
    if run == [] then 0
    else Work(run[..|run| - 1]) + if ByMain(run[|run| - 1]) then 0 else 1
  }

  function Left(s: State): nat {
    7 * s.live + s.zombies + (if s.pending then 5 else 0) +
    match s.handler
    case Idle => 0
    case Saving => 3
    case Waiting(_) => 2
    case Restoring(_) => 1
  }

  lemma StepWork(loops: bool, s: State, a: Action)
    requires Enabled(s, a)
    ensures a == Fork ==> Left(Apply(loops, s, a)) == Left(s) + 7
    ensures a.MainSets? ==> Left(Apply(loops, s, a)) == Left(s)
    ensures !ByMain(a) ==> Left(Apply(loops, s, a)) < Left(s)
  {
  }

  /** Exits, deliveries and handler steps number at most seven per fork, so between forks quiescence comes. */
  lemma {:induction false} WorkIsBounded(loops: bool, run: seq<Action>, s: State)
    requires Reaches(Program(loops), run, s)
    ensures Work(run) + Left(s) <= 7 * s.forked
    decreases |run|
  {
    if run != [] {
      var front, last := run[..|run| - 1], run[|run| - 1];
      var r :| Reaches(Program(loops), front, r) && Follows(Program(loops), r, last, s);
      WorkIsBounded(loops, front, r);
      StepWork(loops, r, last);
    }
  }

  /** When only the accept loop can move on, every child there ever was has been reaped. */
  lemma {:induction false} AllReapedInTheEnd(s: State)
    requires Reachable(Program(true), s)
    requires forall a | Enabled(s, a) :: ByMain(a)
    ensures s.live == 0 && s.zombies == 0 && s.reaped == s.forked && s.errno == s.mainErrno
  {
    NoZombieForgotten(s);
    assert !Enabled(s, ChildExits) && !Enabled(s, Deliver) && !Enabled(s, Handle(false));
  }

  // ---------------------------------------------------------------------------------------------
  // The handler's own code, with children exiting while it runs
  // ---------------------------------------------------------------------------------------------

  class Parent {
    var live: nat
    var zombies: nat
    var reaped: nat
    var pending: bool
    var errno: int

    function Children(): nat
      reads this
    {
      live + zombies + reaped
    }

    /** Any number of children exit; their signals coalesce into one pending bit. */
    method ChildrenExit()
      modifies this`live, this`zombies, this`pending
      ensures live + zombies == old(live + zombies) && zombies >= old(zombies)
      ensures pending <==> old(pending) || zombies > old(zombies)
    {
      var n: nat :| n <= live;
      live, zombies := live - n, zombies + n;
      pending := pending || n > 0;
    }

    /** waitpid(-1, NULL, WNOHANG) */
    method WaitPid() returns (pid: int)
      modifies this`zombies, this`reaped, this`errno, this`pending
      ensures pid > 0 <==> old(zombies) > 0
      ensures pid > 0 ==> zombies == old(zombies) - 1 && reaped == old(reaped) + 1 && errno == old(errno)
      ensures pid <= 0 ==> zombies == 0 && reaped == old(reaped)
      ensures pid == -1 ==> live == 0 && errno == ECHILD
      ensures pid == 0 ==> live > 0 && errno == old(errno)
      ensures pending == old(pending) || (old(zombies) == 1 && !pending)
    {
      if zombies > 0 {
        var discards: bool := *;
        zombies, reaped, pid := zombies - 1, reaped + 1, 1;
        pending := pending && !(discards && zombies == 0);
      } else if live > 0 {
        pid := 0;
      } else {
        errno, pid := ECHILD, -1;
      }
    }

    /** The handler terminates, keeps errno and every child, and leaves a zombie only with a signal pending. */
    method SignalChildHandler()
      modifies this
      ensures errno == old(errno) && Children() == old(Children())
      ensures reaped >= old(reaped + zombies)
      ensures zombies > 0 ==> pending
    {
      var savedError := errno;
      ChildrenExit();
      var pid := WaitPid();
      while pid > 0
        invariant Children() == old(Children())
        invariant pid <= 0 ==> zombies == 0
        invariant reaped + zombies >= old(reaped + zombies)
        decreases live + zombies, if pid > 0 then 1 else 0
      {
        ChildrenExit();
        pid := WaitPid();
      }
      ChildrenExit();
      errno := savedError;
    }
  }
}
