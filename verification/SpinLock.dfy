/** The threads of UnixSpinLocks.c under every interleaving, for any number of threads. */
module SpinLock {
  import opened Basics
  import opened Runs
  import opened Totals

  /** The number of threads; locks is true of the program as written, and false leaves the spinlock out. */
  datatype Config = Config(threads: nat, locks: bool)

  /** Where a thread is in pthread_function_example; ++ and -- are a load and a store each. */
  datatype Pc =
    | FirstCheck | Lock | BeforeInc | LoadedInc(value: int) | BeforeDec | LoadedDec(value: int) | Unlock
    | LastCheck | Done

  datatype Owner = Free | Held(t: nat)

  datatype Exit = Running | Success | Failure

  /**
   * shared is cannot_go_over_2, an 8-bit unsigned global. seen records what the two checks outside
   * the lock saw; no step depends on it.
   */
  datatype State = State(
    owner: Owner, shared: int, pcs: seq<Pc>, seen: seq<int>, created: nat, joined: nat, exit: Exit)

  datatype Action = Create | Join | Finish | Run(t: nat)

  function Init(c: Config): State {
    State(Free, 0, seq(c.threads, _ => FirstCheck), [], 0, 0, Running)
  }

  /**
   * A thread at Lock spins, which changes nothing, until the lock is free. Without the lock it walks in,
   * and owner only records who did so last.
   */
  predicate Enabled(c: Config, s: State, a: Action) {
    s.exit == Running &&
    match a
    case Create => s.created < c.threads
    case Join => s.created == c.threads && s.joined < |s.pcs| && s.joined < c.threads && s.pcs[s.joined] == Done
    case Finish => s.created == c.threads && s.joined == c.threads
    case Run(t) =>
      t < s.created && t < |s.pcs| && s.pcs[t] != Done && (s.pcs[t] == Lock ==> s.owner == Free || !c.locks)
  }

  function Apply(c: Config, s: State, a: Action): State
    requires Enabled(c, s, a)
  {
    match a
    case Create => s.(created := s.created + 1)
    case Join => s.(joined := s.joined + 1)
    case Finish => s.(exit := Success)
    case Run(t) =>
      match s.pcs[t]
      case FirstCheck => Checked(s, t, Lock)
      case Lock => s.(owner := Held(t), pcs := s.pcs[t := BeforeInc])
      case BeforeInc => s.(pcs := s.pcs[t := LoadedInc(s.shared)])
      case LoadedInc(v) => s.(shared := (v + 1) % 0x100, pcs := s.pcs[t := BeforeDec])
      case BeforeDec => s.(pcs := s.pcs[t := LoadedDec(s.shared)])
      case LoadedDec(v) => s.(shared := (v - 1) % 0x100, pcs := s.pcs[t := Unlock])
      case Unlock => s.(owner := Free, pcs := s.pcs[t := LastCheck])
      case LastCheck => Checked(s, t, Done)
  }

  /** Both checks read the global without the lock and exit with failure above 2. */
  function Checked(s: State, t: nat, next: Pc): State
    requires t < |s.pcs|
  {
    s.(
      seen := s.seen + [s.shared],
      pcs := s.pcs[t := next],
      exit := if s.shared > 2 then Failure else Running)
  }

  ghost predicate Next(c: Config, s: State, a: Action, s': State) {
    Enabled(c, s, a) && s' == Apply(c, s, a)
  }

  ghost function Program(c: Config): System<State, Action> {
    System(Init(c), (s, a, s') => Next(c, s, a, s'))
  }

  predicate Critical(pc: Pc) {
    pc.BeforeInc? || pc.LoadedInc? || pc.BeforeDec? || pc.LoadedDec? || pc.Unlock?
  }

  predicate BetweenUpdates(pc: Pc) {
    pc.BeforeDec? || pc.LoadedDec?
  }

  /** The global, from where the holder is. */
  ghost predicate Counted(s: State) {
    match s.owner
    case Free => s.shared == 0
    case Held(t) =>
      t < |s.pcs| &&
      s.shared == (if BetweenUpdates(s.pcs[t]) then 1 else 0) &&
      (s.pcs[t].LoadedInc? || s.pcs[t].LoadedDec? ==> s.pcs[t].value == s.shared)
  }

  ghost predicate Threads(c: Config, s: State) {
    && |s.pcs| == c.threads
    && s.joined <= s.created <= c.threads
    && (forall t | s.created <= t < c.threads :: s.pcs[t] == FirstCheck)
    && (forall t | 0 <= t < s.joined :: s.pcs[t] == Done)
    && (s.exit == Success ==> s.joined == c.threads)
  }

  ghost predicate Seen(s: State) {
    |s.seen| == Total(s.pcs, Checks)
  }

  /** How many checks a thread has behind it. */
  function Checks(pc: Pc): nat {
    match pc
    case FirstCheck => 0
    case Done => 2
    case _ => 1
  }

  ghost predicate Guarded(s: State) {
    && s.exit != Failure
    && (forall t | 0 <= t < |s.pcs| :: Critical(s.pcs[t]) <==> s.owner == Held(t))
    && Counted(s)
    && (forall k | 0 <= k < |s.seen| :: 0 <= s.seen[k] <= 1)
  }

  /** The lock is there, or no other thread is. */
  predicate Safe(c: Config) {
    c.locks || c.threads <= 1
  }

  ghost predicate Inv(c: Config, s: State) {
    Threads(c, s) && Seen(s) && Guarded(s)
  }

  lemma {:induction false} StepThreads(c: Config, s: State, a: Action)
    requires Threads(c, s) && Enabled(c, s, a)
    ensures Threads(c, Apply(c, s, a))
  {
  }

  lemma {:induction false} StepSeen(c: Config, s: State, a: Action)
    requires Seen(s) && Enabled(c, s, a)
    ensures Seen(Apply(c, s, a))
  {
    if a.Run? {
      TotalUpdate(s.pcs, a.t, Apply(c, s, a).pcs[a.t], Checks);
    }
  }

  lemma {:induction false} InitThreads(c: Config)
    ensures Threads(c, Init(c)) && Seen(Init(c))
  {
    TotalConstant(Init(c).pcs, FirstCheck, Checks);
  }

  lemma {:induction false} StepGuarded(c: Config, s: State, a: Action)
    requires c.locks || |s.pcs| <= 1
    requires Guarded(s) && Enabled(c, s, a)
    ensures Guarded(Apply(c, s, a))
  {
    if a.Run? {
      assert Critical(s.pcs[a.t]) <==> s.owner == Held(a.t);
      assert s.pcs[a.t] == Lock ==> s.owner == Free;
    }
  }

  lemma {:induction false} StepInv(c: Config, s: State, a: Action)
    requires Safe(c) && Inv(c, s) && Enabled(c, s, a)
    ensures Inv(c, Apply(c, s, a))
  {
    hide Guarded, Seen, Apply, Enabled;
    StepThreads(c, s, a);
    StepSeen(c, s, a);
    StepGuarded(c, s, a);
  }

  lemma {:induction false} InvKept(c: Config)
    requires Safe(c)
    ensures Kept(Program(c), s => Inv(c, s))
  {
    InitThreads(c);
    forall s, a, s' | Inv(c, s) && Next(c, s, a, s')
      ensures Inv(c, s')
    {
      StepInv(c, s, a);
    }
  }

  lemma {:induction false} InvHolds(c: Config, s: State)
    requires Safe(c) && Reachable(Program(c), s)
    ensures Inv(c, s)
  {
    InvKept(c);
    var run :| Reaches(Program(c), run, s);
    Invariant(Program(c), s => Inv(c, s), run, s);
  }

  /** The checks never see more than 1, so the failure exits are out of reach. */
  lemma {:induction false} ChecksAlwaysPass(c: Config, s: State)
    requires Safe(c) && Reachable(Program(c), s)
    ensures s.exit != Failure
    ensures 0 <= s.shared <= 1 && forall k | 0 <= k < |s.seen| :: 0 <= s.seen[k] <= 1
    ensures s.shared != 0 <==> s.owner.Held? && s.owner.t < |s.pcs| && BetweenUpdates(s.pcs[s.owner.t])
  {
    InvHolds(c, s);
  }

  function Left(pc: Pc): nat {
    match pc
    case FirstCheck => 8
    case Lock => 7
    case BeforeInc => 6
    case LoadedInc(_) => 5
    case BeforeDec => 4
    case LoadedDec(_) => 3
    case Unlock => 2
    case LastCheck => 1
    case Done => 0
  }

  function Remaining(c: Config, s: State): nat {
    Minus(c.threads, s.created) + Minus(c.threads, s.joined) + Total(s.pcs, Left) + if s.exit == Running then 1 else 0
  }

  lemma {:induction false} StepShortens(c: Config, s: State, a: Action)
    requires Threads(c, s) && Enabled(c, s, a)
    ensures Remaining(c, Apply(c, s, a)) < Remaining(c, s)
  {
    if a.Run? {
      var pc := Apply(c, s, a).pcs[a.t];
      assert Apply(c, s, a).pcs == s.pcs[a.t := pc] && Left(pc) < Left(s.pcs[a.t]);
      TotalUpdate(s.pcs, a.t, pc, Left);
    }
  }

  /** Spinning apart, no run is longer than ten actions per thread and one more. */
  lemma {:induction false} RunsAreBounded(c: Config, run: seq<Action>, s: State)
    requires Reaches(Program(c), run, s)
    ensures |run| <= 10 * c.threads + 1
  {
    hide Apply, Enabled, Remaining;
    InitThreads(c);
    forall s, a, s' | Threads(c, s) && Next(c, s, a, s')
      ensures Threads(c, s') && Remaining(c, s') < Remaining(c, s)
    {
      hide Threads;
      StepThreads(c, s, a);
      StepShortens(c, s, a);
    }
    Bounded(Program(c), s => Threads(c, s), s => Remaining(c, s), run, s);
    InitRemaining(c);
  }

  lemma {:induction false} InitRemaining(c: Config)
    ensures Remaining(c, Init(c)) == 10 * c.threads + 1
  {
    TotalConstant(Init(c).pcs, FirstCheck, Left);
  }

  lemma {:induction false} SomeActionEnabled(c: Config, s: State) returns (a: Action)
    requires Inv(c, s) && s.exit == Running
    ensures Enabled(c, s, a)
  {
    if s.created < c.threads {
      a := Create;
    } else if t :| 0 <= t < c.threads && Enabled(c, s, Run(t)) {
      a := Run(t);
    } else {
      forall t | 0 <= t < c.threads
        ensures s.pcs[t] == Done
      {
        assert !Enabled(c, s, Run(t));
        assert s.owner.Held? ==> !Enabled(c, s, Run(s.owner.t));
      }
      a := if s.joined < c.threads then Join else Finish;
    }
  }

  lemma {:induction false} AllIsOver(c: Config, s: State)
    requires Inv(c, s) && s.exit == Success
    ensures s.shared == 0 && s.owner == Free && |s.seen| == 2 * c.threads
  {
    TotalConstant(s.pcs, Done, Checks);
    hide Total;
    assert forall t | 0 <= t < c.threads :: !Critical(s.pcs[t]);
  }

  /** Every complete run exits with success, the lock free and the global back at 0. */
  lemma {:induction false} CompleteRuns(c: Config, s: State)
    requires Safe(c) && Reachable(Program(c), s)
    ensures Stuck(Program(c), s) <==> s.exit == Success
    ensures s.exit == Success ==> s.shared == 0 && s.owner == Free && |s.seen| == 2 * c.threads
  {
    InvHolds(c, s);
    assert s.exit != Failure;
    if s.exit == Running {
      hide Threads, Seen, Guarded;
      var a := SomeActionEnabled(c, s);
      assert Follows(Program(c), s, a, Apply(c, s, a));
    } else {
      AllIsOver(c, s);
    }
  }

  // ---------------------------------------------------------------------------------------------
  // Without the lock
  // ---------------------------------------------------------------------------------------------

  lemma {:induction false} AllCreated(c: Config) returns (s: State)
    ensures Reachable(Program(c), s) && s == Init(c).(created := c.threads)
  {
    s := Init(c);
    ReachInit(Program(c));
    while s.created < c.threads
      invariant s.created <= c.threads && Reachable(Program(c), s)
      invariant s == Init(c).(created := s.created)
    {
      ReachStep(Program(c), s, Create, Apply(c, s, Create));
      s := Apply(c, s, Create);
    }
  }

  /** All threads run, the first two are at p and q, and the global is shared. */
  ghost predicate Two(c: Config, s: State, p: Pc, q: Pc, shared: int) {
    && Reachable(Program(c), s) && s.exit == Running
    && s.created == |s.pcs| == c.threads >= 2
    && s.pcs[0] == p && s.pcs[1] == q && s.shared == shared
  }

  /** Thread t takes its next step. */
  lemma {:induction false} Moves(c: Config, s: State, t: nat) returns (s': State)
    requires Reachable(Program(c), s) && Enabled(c, s, Run(t))
    ensures s' == Apply(c, s, Run(t)) && Reachable(Program(c), s')
  {
    s' := Apply(c, s, Run(t));
    ReachStep(Program(c), s, Run(t), s');
  }

  /** Both threads pass the first check and load the global before either increments it. */
  lemma {:induction false} BothLoad(c: Config) returns (s: State)
    requires !c.locks && c.threads >= 2
    ensures Two(c, s, LoadedInc(0), LoadedInc(0), 0)
  {
    hide Reachable, Program;
    s := AllCreated(c);
    s := Moves(c, s, 0);
    s := Moves(c, s, 0);
    s := Moves(c, s, 0);
    s := Moves(c, s, 1);
    s := Moves(c, s, 1);
    s := Moves(c, s, 1);
  }

  /** One increment is lost, so the second decrement takes the unsigned global below zero. */
  lemma {:induction false} GoesBelowZero(c: Config) returns (s: State)
    requires !c.locks && c.threads >= 2
    ensures Two(c, s, Unlock, Unlock, 255)
  {
    hide Reachable, Program;
    s := BothLoad(c);
    s := Moves(c, s, 0);
    s := Moves(c, s, 1);
    s := Moves(c, s, 0);
    s := Moves(c, s, 0);
    s := Moves(c, s, 1);
    s := Moves(c, s, 1);
  }

  /** Without the lock two threads are enough to take the failure exit. */
  lemma {:induction false} TwoThreadsFail(c: Config) returns (s: State)
    requires !c.locks && c.threads >= 2
    ensures Reachable(Program(c), s) && s.exit == Failure
  {
    s := GoesBelowZero(c);
    s := Moves(c, s, 0);
    s := Moves(c, s, 0);
  }

  /** A step takes the failure exit exactly when one of the two checks reads more than 2. */
  lemma {:induction false} FailsExactlyAbove2(c: Config, s: State, a: Action, s': State)
    requires Follows(Program(c), s, a, s')
    ensures
      s'.exit == Failure <==>
      a.Run? && (s.pcs[a.t] == FirstCheck || s.pcs[a.t] == LastCheck) && s.shared > 2
  {
    assert Next(c, s, a, s');
  }

  /** The failure exit is out of reach exactly because of the lock, from two threads on. */
  lemma {:induction false} FailureReachableIff(c: Config)
    ensures (exists s :: Reachable(Program(c), s) && s.exit == Failure) <==> !c.locks && c.threads >= 2
  {
    if !c.locks && c.threads >= 2 {
      var s := TwoThreadsFail(c);
    } else {
      forall s | Reachable(Program(c), s)
        ensures s.exit != Failure
      {
        ChecksAlwaysPass(c, s);
      }
    }
  }
}
