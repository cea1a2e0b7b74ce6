/** The threads of UnixMutex.c under every interleaving, for any number of threads and loop iterations. */
module Mutex {
  import opened Arithmetic
  import opened Basics
  import opened Runs
  import opened Totals

  /** THREAD_COUNT and the loop bound as parameters. */
  datatype Config = Config(threads: nat, rounds: nat)

  /** Where a thread is in my_thread_function; counter++ is a load and a store. */
  datatype Pc = Lock | Loop(i: nat) | Loaded(i: nat, value: int) | Print(i: nat) | Done

  datatype Owner = Free | Held(t: nat)

  datatype Entry = Entry(thread: nat, value: int)

  datatype Exit = Running | Success

  /** order records who took the mutex when; no step depends on it. */
  datatype State = State(
    owner: Owner, counter: int, pcs: seq<Pc>, log: seq<Entry>, order: seq<nat>,
    created: nat, joined: nat, exit: Exit)

  datatype Action = Create | Join | Finish | Run(t: nat)

  function Init(c: Config): State {
    State(Free, 0, seq(c.threads, _ => Lock), [], [], 0, 0, Running)
  }

  predicate Enabled(c: Config, s: State, a: Action) {
    s.exit == Running &&
    match a
    case Create => s.created < c.threads
    case Join => s.created == c.threads && s.joined < |s.pcs| && s.joined < c.threads && s.pcs[s.joined] == Done
    case Finish => s.created == c.threads && s.joined == c.threads
    case Run(t) => t < s.created && t < |s.pcs| && s.pcs[t] != Done && (s.pcs[t] == Lock ==> s.owner == Free)
  }

  function Apply(c: Config, s: State, a: Action): State
    requires Enabled(c, s, a)
  {
    match a
    case Create => s.(created := s.created + 1)
    case Join => s.(joined := s.joined + 1)
    case Finish => s.(exit := Success)
    case Run(t) =>
      match s.pcs[t]
      case Lock => s.(owner := Held(t), order := s.order + [t], pcs := s.pcs[t := Loop(0)])
      case Loop(i) =>
        if i < c.rounds then s.(pcs := s.pcs[t := Loaded(i, s.counter)])
        else s.(owner := Free, pcs := s.pcs[t := Done])
      case Loaded(i, v) => s.(counter := v + 1, pcs := s.pcs[t := Print(i)])
      case Print(i) => s.(log := s.log + [Entry(t, s.counter)], pcs := s.pcs[t := Loop(i + 1)])
  }

  ghost predicate Next(c: Config, s: State, a: Action, s': State) {
    Enabled(c, s, a) && s' == Apply(c, s, a)
  }

  ghost function Program(c: Config): System<State, Action> {
    System(Init(c), (s, a, s') => Next(c, s, a, s'))
  }

  // ---------------------------------------------------------------------------------------------
  // What every step keeps
  // ---------------------------------------------------------------------------------------------

  predicate Critical(pc: Pc) {
    pc.Loop? || pc.Loaded? || pc.Print?
  }

  function Entered(pc: Pc): nat {
    if pc == Lock then 0 else 1
  }

  ghost predicate Threads(c: Config, s: State) {
    && |s.pcs| == c.threads
    && s.joined <= s.created <= c.threads
    && (forall t | s.created <= t < c.threads :: s.pcs[t] == Lock)
    && (forall t | 0 <= t < s.joined :: s.pcs[t] == Done)
    && (s.exit == Success ==> s.joined == c.threads)
    && (forall t | 0 <= t < c.threads :: Critical(s.pcs[t]) <==> s.owner == Held(t))
  }

  /** Each thread takes the mutex at most once, and the holder took it last. */
  ghost predicate Order(c: Config, s: State) {
    && |s.pcs| == c.threads
    && |s.order| == Total(s.pcs, Entered)
    && (forall k | 0 <= k < |s.order| :: s.order[k] < c.threads && s.pcs[s.order[k]] != Lock)
    && (forall j, k | 0 <= j < k < |s.order| :: s.order[j] != s.order[k])
    && (s.owner.Held? ==> s.order != [] && s.order[|s.order| - 1] == s.owner.t)
  }

  /** How many entries the threads before the holder have printed. */
  function Before(c: Config, s: State): nat {
    if s.owner == Free || s.order == [] then c.rounds * |s.order| else c.rounds * (|s.order| - 1)
  }

  /** The counter and the length of the log, from where the holder is. */
  ghost predicate Counted(c: Config, s: State) {
    match s.owner
    case Free => s.counter == |s.log| == Before(c, s)
    case Held(t) =>
      t < |s.pcs| &&
      match s.pcs[t]
      case Loop(i) => i <= c.rounds && s.counter == |s.log| == Before(c, s) + i
      case Loaded(i, v) => i < c.rounds && v == s.counter == |s.log| == Before(c, s) + i
      case Print(i) => i < c.rounds && s.counter == |s.log| + 1 && |s.log| == Before(c, s) + i
      case _ => false
  }

  /** Block k of the log is the k-th holder's, and the values count up from 1. */
  ghost predicate Blocks(c: Config, order: seq<nat>, log: seq<Entry>) {
    && |log| <= c.rounds * |order|
    && forall k, r | 0 <= k < |order| && 0 <= r < c.rounds && At(c, k, r) < |log| ::
      log[At(c, k, r)] == Entry(order[k], At(c, k, r) + 1)
  }

  function At(c: Config, k: nat, r: nat): nat {
    c.rounds * k + r
  }

  ghost predicate Inv(c: Config, s: State) {
    Threads(c, s) && Order(c, s) && Counted(c, s) && Blocks(c, s.order, s.log)
  }

  lemma {:induction false} StepThreads(c: Config, s: State, a: Action)
    requires Threads(c, s) && Enabled(c, s, a)
    ensures Threads(c, Apply(c, s, a))
  {
  }

  lemma {:induction false} LockKeepsOrder(c: Config, s: State, t: nat)
    requires Order(c, s) && Enabled(c, s, Run(t)) && s.pcs[t] == Lock
    ensures Order(c, Apply(c, s, Run(t)))
  {
    var s' := Apply(c, s, Run(t));
    TotalUpdate(s.pcs, t, Loop(0), Entered);
    assert forall k | 0 <= k < |s.order| :: s'.order[k] == s.order[k] && s.order[k] != t;
  }

  lemma {:induction false} RunKeepsOrder(c: Config, s: State, t: nat)
    requires Order(c, s) && Enabled(c, s, Run(t)) && s.pcs[t] != Lock
    ensures Order(c, Apply(c, s, Run(t)))
  {
    var s' := Apply(c, s, Run(t));
    TotalUpdate(s.pcs, t, s'.pcs[t], Entered);
    assert s'.order == s.order && s'.pcs[t] != Lock && (s'.owner == s.owner || s'.owner == Free);
  }

  lemma {:induction false} StepOrder(c: Config, s: State, a: Action)
    requires Order(c, s) && Enabled(c, s, a)
    ensures Order(c, Apply(c, s, a))
  {
    if a.Run? {
      hide Order, Apply;
      if s.pcs[a.t] == Lock {
        LockKeepsOrder(c, s, a.t);
      } else {
        RunKeepsOrder(c, s, a.t);
      }
    }
  }

  lemma {:induction false} StepCounted(c: Config, s: State, a: Action)
    requires Inv(c, s) && Enabled(c, s, a)
    ensures Counted(c, Apply(c, s, a))
  {
    if a.Run? {
      assert s.pcs[a.t] != Lock ==> Critical(s.pcs[a.t]);
      if s.order != [] {
        MulDistributes(|s.order| - 1, 1, c.rounds);
      }
    }
  }

  lemma AtIsInjective(c: Config, j: nat, q: nat, k: nat, r: nat)
    requires q < c.rounds && r < c.rounds && At(c, j, q) == At(c, k, r)
    ensures j == k && q == r
  {
    if j < k {
      MulMonotone(j + 1, k, c.rounds);
      MulDistributes(j, 1, c.rounds);
    } else if k < j {
      MulMonotone(k + 1, j, c.rounds);
      MulDistributes(k, 1, c.rounds);
    }
  }

  lemma {:induction false} PrintKeepsBlocks(c: Config, order: seq<nat>, log: seq<Entry>, i: nat)
    requires Blocks(c, order, log) && order != [] && i < c.rounds
    requires |log| == c.rounds * (|order| - 1) + i
    ensures Blocks(c, order, log + [Entry(order[|order| - 1], |log| + 1)])
  {
    var last := |order| - 1;
    MulDistributes(last, 1, c.rounds);
    var log' := log + [Entry(order[last], |log| + 1)];
    forall k, r | 0 <= k < |order| && 0 <= r < c.rounds && At(c, k, r) < |log'|
      ensures log'[At(c, k, r)] == Entry(order[k], At(c, k, r) + 1)
    {
      if At(c, k, r) == |log| {
        AtIsInjective(c, k, r, last, i);
      }
    }
  }

  lemma {:induction false} LockKeepsBlocks(c: Config, order: seq<nat>, log: seq<Entry>, t: nat)
    requires Blocks(c, order, log)
    ensures Blocks(c, order + [t], log)
  {
  }

  lemma {:induction false} StepInv(c: Config, s: State, a: Action)
    requires Inv(c, s) && Enabled(c, s, a)
    ensures Inv(c, Apply(c, s, a))
  {
    hide Blocks, Counted, Order, Threads;
    StepThreads(c, s, a);
    StepOrder(c, s, a);
    StepCounted(c, s, a);
    StepBlocks(c, s, a);
  }

  lemma {:induction false} StepBlocks(c: Config, s: State, a: Action)
    requires Inv(c, s) && Enabled(c, s, a)
    ensures Blocks(c, Apply(c, s, a).order, Apply(c, s, a).log)
  {
    if a.Run? && s.pcs[a.t] == Lock {
      LockKeepsBlocks(c, s.order, s.log, a.t);
    } else if a.Run? && s.pcs[a.t].Print? {
      assert s.owner == Held(a.t);
      PrintKeepsBlocks(c, s.order, s.log, s.pcs[a.t].i);
    }
  }

  lemma {:induction false} InitInv(c: Config)
    ensures Inv(c, Init(c))
  {
    TotalConstant(Init(c).pcs, Lock, Entered);
  }

  lemma {:induction false} InvKept(c: Config)
    ensures Kept(Program(c), s => Inv(c, s))
  {
    InitInv(c);
    forall s, a, s' | Inv(c, s) && Next(c, s, a, s')
      ensures Inv(c, s')
    {
      StepInv(c, s, a);
    }
  }

  lemma {:induction false} InvHolds(c: Config, s: State)
    requires Reachable(Program(c), s)
    ensures Inv(c, s)
  {
    InvKept(c);
    var run :| Reaches(Program(c), run, s);
    Invariant(Program(c), s => Inv(c, s), run, s);
  }

  // ---------------------------------------------------------------------------------------------
  // Every run ends, and ends right
  // ---------------------------------------------------------------------------------------------

  function Left(c: Config, pc: Pc): nat {
    match pc
    case Lock => 3 * c.rounds + 2
    case Loop(i) => 3 * Minus(c.rounds, i) + 1
    case Loaded(i, _) => 3 * Minus(c.rounds, i)
    case Print(i) => Minus(3 * c.rounds, 3 * i + 1)
    case Done => 0
  }

  function Remaining(c: Config, s: State): nat {
    Minus(c.threads, s.created) + Minus(c.threads, s.joined) + Total(s.pcs, pc => Left(c, pc)) +
    if s.exit == Running then 1 else 0
  }

  lemma {:induction false} StepShortens(c: Config, s: State, a: Action)
    requires Inv(c, s) && Enabled(c, s, a)
    ensures Remaining(c, Apply(c, s, a)) < Remaining(c, s)
  {
    if a.Run? {
      assert s.pcs[a.t] != Lock ==> s.owner == Held(a.t);
      TotalUpdate(s.pcs, a.t, Apply(c, s, a).pcs[a.t], pc => Left(c, pc));
    }
  }

  lemma {:induction false} RunsAreBounded(c: Config, run: seq<Action>, s: State)
    requires Reaches(Program(c), run, s)
    ensures |run| <= c.threads * (3 * c.rounds + 2) + 2 * c.threads + 1
  {
    hide Inv, Apply, Enabled, Remaining;
    InvKept(c);
    forall s, a, s' | Inv(c, s) && Next(c, s, a, s')
      ensures Remaining(c, s') < Remaining(c, s)
    {
      StepShortens(c, s, a);
    }
    Bounded(Program(c), s => Inv(c, s), s => Remaining(c, s), run, s);
    InitRemaining(c);
  }

  lemma {:induction false} InitRemaining(c: Config)
    ensures Remaining(c, Init(c)) == c.threads * (3 * c.rounds + 2) + 2 * c.threads + 1
  {
    TotalConstant(Init(c).pcs, Lock, pc => Left(c, pc));
  }

  lemma {:induction false} SomeActionEnabled(c: Config, s: State) returns (a: Action)
    requires Inv(c, s) && s.exit == Running
    ensures Enabled(c, s, a)
  {
    if s.created < c.threads {
      a := Create;
    } else if t :| 0 <= t < c.threads && Enabled(c, s, Run(t)) {
      a := Run(t);
    } else {
      forall t | 0 <= t < c.threads
        ensures s.pcs[t] == Done
      {
        assert !Enabled(c, s, Run(t));
        assert s.owner.Held? ==> !Enabled(c, s, Run(s.owner.t));
      }
      a := if s.joined < c.threads then Join else Finish;
    }
  }

  /** No run deadlocks: a run stops only by exiting. */
  lemma {:induction false} StopsOnlyByExiting(c: Config, s: State)
    requires Reachable(Program(c), s)
    ensures Stuck(Program(c), s) <==> s.exit == Success
  {
    InvHolds(c, s);
    if s.exit == Running {
      var a := SomeActionEnabled(c, s);
      assert Follows(Program(c), s, a, Apply(c, s, a));
    }
  }

  /**
   * Every complete run counts to threads * rounds, prints the values from 1 up, and prints each
   * thread's values as one block: order lists every thread once.
   */
  lemma {:induction false} CompleteRuns(c: Config, s: State)
    requires Reachable(Program(c), s) && Stuck(Program(c), s)
    ensures s.counter == |s.log| == c.rounds * c.threads
    ensures |s.order| == c.threads && (forall k | 0 <= k < c.threads :: s.order[k] < c.threads)
    ensures forall j, k | 0 <= j < k < c.threads :: s.order[j] != s.order[k]
    ensures forall k, r | 0 <= k < c.threads && 0 <= r < c.rounds ::
      At(c, k, r) < |s.log| && s.log[At(c, k, r)] == Entry(s.order[k], At(c, k, r) + 1)
  {
    StopsOnlyByExiting(c, s);
    InvHolds(c, s);
    assert s.owner.Held? ==> !Critical(Done);
    TotalConstant(s.pcs, Done, Entered);
    forall k, r | 0 <= k < c.threads && 0 <= r < c.rounds
      ensures At(c, k, r) < |s.log| && s.log[At(c, k, r)] == Entry(s.order[k], At(c, k, r) + 1)
    {
      MulMonotone(k + 1, c.threads, c.rounds);
      MulDistributes(k, 1, c.rounds);
    }
  }

  /** The holder is alone between lock and unlock. */
  lemma {:induction false} MutualExclusion(c: Config, s: State, t: nat, u: nat)
    requires Reachable(Program(c), s) && t < c.threads && u < c.threads
    ensures |s.pcs| == c.threads
    ensures Critical(s.pcs[t]) && Critical(s.pcs[u]) ==> t == u
  {
    InvHolds(c, s);
  }
}
