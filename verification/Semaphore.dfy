/** The threads of UnixSemaphores.c under every interleaving, for any number of threads and permits. */
module Semaphore {
  import opened Basics
  import opened Runs
  import opened Totals

  /**
   * THREAD_COUNT and SEMAPHORE_INIT_VAL as parameters. When atomic is false each shift of the global
   * is a load and a store, as compiled; when it is true a shift is one step.
   */
  datatype Config = Config(threads: nat, permits: nat, atomic: bool)

  /** Where a thread is in thread_routine. */
  datatype Pc =
    | Waiting | BeforeShl | LoadedShl(value: int) | Check
    | BeforeShr | LoadedShr(value: int) | Post | Done

  datatype Exit = Running | Success | Failure

  datatype State = State(semaphore: nat, binary: int, pcs: seq<Pc>, created: nat, joined: nat, exit: Exit)

  datatype Action = Create | Join | Finish | Run(t: nat)

  function Init(c: Config): State {
    State(c.permits, 7, seq(c.threads, _ => Waiting), 0, 0, Running)
  }

  predicate Enabled(c: Config, s: State, a: Action) {
    s.exit == Running &&
    match a
    case Create => s.created < c.threads
    case Join => s.created == c.threads && s.joined < |s.pcs| && s.joined < c.threads && s.pcs[s.joined] == Done
    case Finish => s.created == c.threads && s.joined == c.threads
    case Run(t) => t < s.created && t < |s.pcs| && s.pcs[t] != Done && (s.pcs[t] == Waiting ==> s.semaphore > 0)
  }

  /** What one thread's step does to the shared variables and to its own place. */
  datatype Local = Local(semaphore: nat, binary: int, pc: Pc, failed: bool)

  function Step(c: Config, semaphore: nat, binary: int, pc: Pc): Local
    requires pc != Done && (pc == Waiting ==> semaphore > 0)
  {
    match pc
    case Waiting => Local(semaphore - 1, binary, BeforeShl, false)
    case BeforeShl =>
      if c.atomic then Local(semaphore, binary * 4, Check, false)
      else Local(semaphore, binary, LoadedShl(binary), false)
    case LoadedShl(v) => Local(semaphore, v * 4, Check, false)
    case Check =>
      if binary > 256 then Local(semaphore, binary, Check, true) else Local(semaphore, binary, BeforeShr, false)
    case BeforeShr =>
      if c.atomic then Local(semaphore, binary / 4, Post, false)
      else Local(semaphore, binary, LoadedShr(binary), false)
    case LoadedShr(v) => Local(semaphore, v / 4, Post, false)
    case Post => Local(semaphore + 1, binary, Done, false)
  }

  function Apply(c: Config, s: State, a: Action): State
    requires Enabled(c, s, a)
  {
    match a
    case Create => s.(created := s.created + 1)
    case Join => s.(joined := s.joined + 1)
    case Finish => s.(exit := Success)
    case Run(t) =>
      var l := Step(c, s.semaphore, s.binary, s.pcs[t]);
      State(l.semaphore, l.binary, s.pcs[t := l.pc], s.created, s.joined, if l.failed then Failure else Running)
  }

  ghost predicate Next(c: Config, s: State, a: Action, s': State) {
    Enabled(c, s, a) && s' == Apply(c, s, a)
  }

  ghost function Program(c: Config): System<State, Action> {
    System(Init(c), (s, a, s') => Next(c, s, a, s'))
  }

  // ---------------------------------------------------------------------------------------------
  // What every step keeps
  // ---------------------------------------------------------------------------------------------

  /** One for a thread that holds a permit. */
  function Inside(pc: Pc): nat {
    if pc == Waiting || pc == Done then 0 else 1
  }

  /** One for a thread between its two shifts. */
  function Shifted(pc: Pc): nat {
    if pc == Check || pc == BeforeShr || pc.LoadedShr? then 1 else 0
  }

  /** How many steps a thread has left at most. */
  function Left(pc: Pc): nat {
    match pc
    case Waiting => 7
    case BeforeShl => 6
    case LoadedShl(_) => 5
    case Check => 4
    case BeforeShr => 3
    case LoadedShr(_) => 2
    case Post => 1
    case Done => 0
  }

  function Pow4(k: nat): nat {
    if k == 0 then 1 else 4 * Pow4(k - 1)
  }

  function InsideCount(s: State): nat {
    Total(s.pcs, Inside)
  }

  function ShiftedCount(s: State): nat {
    Total(s.pcs, Shifted)
  }

  ghost predicate Structure(c: Config, s: State) {
    && |s.pcs| == c.threads
    && s.joined <= s.created <= c.threads
    && (forall t | s.created <= t < c.threads :: s.pcs[t] == Waiting)
    && (forall t | 0 <= t < s.joined :: s.pcs[t] == Done)
    && (s.exit == Success ==> s.joined == c.threads)
    && s.semaphore + InsideCount(s) == c.permits
  }

  lemma {:induction false} InitStructure(c: Config)
    ensures Structure(c, Init(c)) && InsideCount(Init(c)) == 0 && ShiftedCount(Init(c)) == 0
  {
    TotalConstant(Init(c).pcs, Waiting, Inside);
    TotalConstant(Init(c).pcs, Waiting, Shifted);
  }

  lemma {:induction false} StepStructure(c: Config, s: State, a: Action)
    requires Structure(c, s) && Enabled(c, s, a)
    ensures Structure(c, Apply(c, s, a))
  {
    if a.Run? {
      TotalUpdate(s.pcs, a.t, Apply(c, s, a).pcs[a.t], Inside);
      TotalAtLeast(s.pcs, a.t, Inside);
    }
  }

  lemma {:induction false} StructureKept(c: Config)
    ensures Kept(Program(c), s => Structure(c, s))
  {
    InitStructure(c);
    forall s, a, s' | Structure(c, s) && Next(c, s, a, s')
      ensures Structure(c, s')
    {
      StepStructure(c, s, a);
    }
  }

  lemma {:induction false} StructureHolds(c: Config, s: State)
    requires Reachable(Program(c), s)
    ensures Structure(c, s)
  {
    StructureKept(c);
    var run :| Reaches(Program(c), run, s);
    Invariant(Program(c), s => Structure(c, s), run, s);
  }

  // ---------------------------------------------------------------------------------------------
  // Every run ends, and none deadlocks
  // ---------------------------------------------------------------------------------------------

  function Remaining(c: Config, s: State): nat {
    Minus(c.threads, s.created) + Minus(c.threads, s.joined) + Total(s.pcs, Left) + if s.exit == Running then 1 else 0
  }

  lemma {:induction false} StepShortens(c: Config, s: State, a: Action)
    requires Structure(c, s) && Enabled(c, s, a)
    ensures Remaining(c, Apply(c, s, a)) < Remaining(c, s)
  {
    if a.Run? {
      TotalUpdate(s.pcs, a.t, Apply(c, s, a).pcs[a.t], Left);
    }
  }

  /** No run is longer than nine actions per thread and one more. */
  lemma {:induction false} RunsAreBounded(c: Config, run: seq<Action>, s: State)
    requires Reaches(Program(c), run, s)
    ensures |run| <= 9 * c.threads + 1
  {
    hide Structure, Apply, Enabled, Remaining;
    StructureKept(c);
    forall s, a, s' | Structure(c, s) && Next(c, s, a, s')
      ensures Remaining(c, s') < Remaining(c, s)
    {
      StepShortens(c, s, a);
    }
    Bounded(Program(c), s => Structure(c, s), s => Remaining(c, s), run, s);
    InitRemaining(c);
  }

  lemma {:induction false} InitRemaining(c: Config)
    ensures Remaining(c, Init(c)) == 9 * c.threads + 1
  {
    TotalConstant(Init(c).pcs, Waiting, Left);
  }

  lemma {:induction false} SomeActionEnabled(c: Config, s: State) returns (a: Action)
    requires Structure(c, s) && s.exit == Running && c.permits > 0
    ensures Enabled(c, s, a)
  {
    if s.created < c.threads {
      a := Create;
    } else if t :| 0 <= t < c.threads && Enabled(c, s, Run(t)) {
      a := Run(t);
    } else {
      forall t | 0 <= t < c.threads
        ensures Inside(s.pcs[t]) == 0 && (s.semaphore > 0 ==> s.pcs[t] == Done)
      {
        assert !Enabled(c, s, Run(t));
      }
      TotalZero(s.pcs, Inside);
      a := if s.joined < c.threads then Join else Finish;
    }
  }

  /** A run stops only by exiting; no run deadlocks, whatever the number of threads and permits. */
  lemma {:induction false} StopsOnlyByExiting(c: Config, s: State)
    requires Reachable(Program(c), s) && c.permits > 0
    ensures Stuck(Program(c), s) <==> s.exit != Running
  {
    StructureHolds(c, s);
    if s.exit == Running {
      var a := SomeActionEnabled(c, s);
      assert Follows(Program(c), s, a, Apply(c, s, a));
    }
  }

  // ---------------------------------------------------------------------------------------------
  // Atomic shifts
  // ---------------------------------------------------------------------------------------------

  ghost predicate AtomicInv(c: Config, s: State) {
    && Structure(c, s)
    && (forall t | 0 <= t < c.threads :: !s.pcs[t].LoadedShl? && !s.pcs[t].LoadedShr?)
    && s.binary == 7 * Pow4(ShiftedCount(s))
    && (s.exit == Failure ==> s.binary > 256)
  }

  lemma {:induction false} StepAtomic(c: Config, s: State, a: Action)
    requires c.atomic && AtomicInv(c, s) && Enabled(c, s, a)
    ensures AtomicInv(c, Apply(c, s, a))
  {
    StepStructure(c, s, a);
    if a.Run? {
      TotalUpdate(s.pcs, a.t, Apply(c, s, a).pcs[a.t], Shifted);
      TotalAtLeast(s.pcs, a.t, Shifted);
    }
  }

  /** In every reachable state permits are conserved and the global is 7 shifted once per thread in between. */
  lemma {:induction false} AtomicInvariant(c: Config, s: State)
    requires c.atomic && Reachable(Program(c), s)
    ensures s.semaphore + InsideCount(s) == c.permits
    ensures s.binary == 7 * Pow4(ShiftedCount(s))
    ensures AtomicInv(c, s)
  {
    InitStructure(c);
    forall s, a, s' | AtomicInv(c, s) && Next(c, s, a, s')
      ensures AtomicInv(c, s')
    {
      StepAtomic(c, s, a);
    }
    var run :| Reaches(Program(c), run, s);
    Invariant(Program(c), s => AtomicInv(c, s), run, s);
  }

  lemma {:induction false} FewShifted(c: Config, s: State)
    requires Structure(c, s)
    ensures ShiftedCount(s) <= c.permits && ShiftedCount(s) <= c.threads
  {
    TotalMonotone(s.pcs, Shifted, Inside);
    TotalAtMostLength(s.pcs, Shifted);
  }

  /** With one-step shifts and at most two permits or threads, no run fails and every complete run ends with 7. */
  lemma {:induction false} AtomicRunsSucceed(c: Config, s: State)
    requires c.atomic && (c.permits <= 2 || c.threads <= 2)
    requires Reachable(Program(c), s)
    ensures s.binary <= 112 && s.exit != Failure
    ensures c.permits > 0 && Stuck(Program(c), s) ==> s.exit == Success && s.binary == 7
  {
    AtomicInvariant(c, s);
    FewShifted(c, s);
    assert Pow4(0) == 1 && Pow4(1) == 4 && Pow4(2) == 16;
    if c.permits > 0 && Stuck(Program(c), s) {
      StopsOnlyByExiting(c, s);
      TotalZero(s.pcs, Shifted);
    }
  }

  /** Three threads that shift before the first check reach the failure exit. */
  lemma {:induction false} ThreeThreadsFail(c: Config) returns (s: State)
    requires c.atomic && c.permits >= 3 && c.threads >= 3
    ensures Reachable(Program(c), s) && s.exit == Failure
  {
    s := Init(c);
    ReachInit(Program(c));
    var i := 0;
    while i < 3
      invariant 0 <= i <= 3 && Reachable(Program(c), s)
      invariant s == Init(c).(created := i)
    {
      ReachStep(Program(c), s, Create, Apply(c, s, Create));
      s, i := Apply(c, s, Create), i + 1;
    }
    i := 0;
    while i < 3
      invariant 0 <= i <= 3 && Reachable(Program(c), s)
      invariant s.created == 3 && |s.pcs| == c.threads && s.exit == Running && s.semaphore == c.permits - i
      invariant s.binary == 7 * Pow4(i)
      invariant forall t | 0 <= t < 3 :: s.pcs[t] == if t < i then Check else Waiting
    {
      ReachStep(Program(c), s, Run(i), Apply(c, s, Run(i)));
      s := Apply(c, s, Run(i));
      ReachStep(Program(c), s, Run(i), Apply(c, s, Run(i)));
      s, i := Apply(c, s, Run(i)), i + 1;
    }
    assert Pow4(3) == 64;
    ReachStep(Program(c), s, Run(0), Apply(c, s, Run(0)));
    s := Apply(c, s, Run(0));
  }

  // ---------------------------------------------------------------------------------------------
  // Shifts as a load and a store
  // ---------------------------------------------------------------------------------------------

  /** What the global must be while a thread is at pc, if no other thread is inside. */
  predicate Alone(pc: Pc, binary: int) {
    match pc
    case Waiting => true
    case BeforeShl => binary == 7
    case LoadedShl(v) => binary == 7 && v == 7
    case Check => binary == 28
    case BeforeShr => binary == 28
    case LoadedShr(v) => binary == 28 && v == 28
    case Post => binary == 7
    case Done => true
  }

  ghost predicate SplitInv(c: Config, s: State) {
    && Structure(c, s)
    && InsideCount(s) <= 1
    && (InsideCount(s) == 0 ==> s.binary == 7)
    && (forall t | 0 <= t < c.threads :: Alone(s.pcs[t], s.binary))
    && s.exit != Failure
  }

  lemma {:induction false} OthersOutside(s: seq<Pc>, t: nat)
    requires t < |s| && Total(s, Inside) <= 1 && Inside(s[t]) == 1
    ensures forall i | 0 <= i < |s| && i != t :: Inside(s[i]) == 0
  {
    forall i | 0 <= i < |s| && i != t
      ensures Inside(s[i]) == 0
    {
      TotalAtLeastTwo(s, if i < t then i else t, if i < t then t else i, Inside);
    }
  }

  lemma {:induction false} StepSplit(c: Config, s: State, a: Action)
    requires !c.atomic && (c.permits <= 1 || c.threads <= 1)
    requires SplitInv(c, s) && Enabled(c, s, a)
    ensures SplitInv(c, Apply(c, s, a))
  {
    StepStructure(c, s, a);
    if a.Run? {
      StepSplitRun(c, s, a.t);
    }
  }

  lemma {:induction false} StepSplitRun(c: Config, s: State, t: nat)
    requires !c.atomic && (c.permits <= 1 || c.threads <= 1)
    requires SplitInv(c, s) && Enabled(c, s, Run(t)) && Structure(c, Apply(c, s, Run(t)))
    ensures SplitInv(c, Apply(c, s, Run(t)))
  {
    var s' := Apply(c, s, Run(t));
    assert Alone(s.pcs[t], s.binary);
    TotalAtMostLength(s'.pcs, Inside);
    TotalUpdate(s.pcs, t, s'.pcs[t], Inside);
    TotalAtLeast(s.pcs, t, Inside);
    if Inside(s.pcs[t]) == 1 {
      OthersOutside(s.pcs, t);
    } else {
      OthersOutside(s'.pcs, t);
    }
    assert Alone(s'.pcs[t], s'.binary);
    forall i | 0 <= i < c.threads && i != t
      ensures Alone(s'.pcs[i], s'.binary)
    {
      assert s'.pcs[i] == s.pcs[i] && Inside(s.pcs[i]) == 0;
    }
  }

  lemma {:induction false} SplitInvariant(c: Config, s: State)
    requires !c.atomic && (c.permits <= 1 || c.threads <= 1)
    requires Reachable(Program(c), s)
    ensures SplitInv(c, s)
  {
    InitStructure(c);
    forall s, a, s' | SplitInv(c, s) && Next(c, s, a, s')
      ensures SplitInv(c, s')
    {
      StepSplit(c, s, a);
    }
    var run :| Reaches(Program(c), run, s);
    Invariant(Program(c), s => SplitInv(c, s), run, s);
  }

  /** The state in which the first k threads are done, the others wait, and all have been created. */
  function Serial(c: Config, k: nat, binary: int): State {
    State(c.permits, binary, seq(c.threads, t => if 0 <= t < k then Done else Waiting), c.threads, 0, Running)
  }

  lemma {:induction false} AllCreated(c: Config)
    ensures Reachable(Program(c), Serial(c, 0, 7))
  {
    var s := Init(c);
    ReachInit(Program(c));
    while s.created < c.threads
      invariant s.created <= c.threads && Reachable(Program(c), s)
      invariant s == Init(c).(created := s.created)
    {
      ReachStep(Program(c), s, Create, Apply(c, s, Create));
      s := Apply(c, s, Create);
    }
    assert s == Serial(c, 0, 7);
  }

  /** All threads are created, the early ones are at pcs and the others wait. */
  function Early(c: Config, pcs: seq<Pc>, binary: int): State
    requires |pcs| <= c.threads && Total(pcs, Inside) <= c.permits
  {
    State(
      c.permits - Total(pcs, Inside), binary, pcs + seq(c.threads - |pcs|, _ => Waiting), c.threads, 0, Running)
  }

  lemma {:induction false} StartEarly(c: Config, n: nat) returns (pcs: seq<Pc>, binary: int)
    requires n <= c.threads
    ensures pcs == seq(n, _ => Waiting) && binary == 7 && Total(pcs, Inside) == 0
    ensures Reachable(Program(c), Early(c, pcs, binary))
  {
    pcs, binary := seq(n, _ => Waiting), 7;
    TotalConstant(pcs, Waiting, Inside);
    AllCreated(c);
    assert Serial(c, 0, 7) == Early(c, pcs, binary);
  }

  /** Thread t takes its next step. */
  lemma {:induction false} EarlyStep(c: Config, pcs: seq<Pc>, binary: int, t: nat) returns (next: seq<Pc>, binary': int)
    requires |pcs| <= c.threads && t < |pcs| && pcs[t] != Done
    requires Total(pcs, Inside) + (if pcs[t] == Waiting then 1 else 0) <= c.permits
    requires pcs[t] == Check ==> binary <= 256
    requires Reachable(Program(c), Early(c, pcs, binary))
    ensures
      var l := Step(c, c.permits - Total(pcs, Inside), binary, pcs[t]);
      next == pcs[t := l.pc] && binary' == l.binary
    ensures Total(next, Inside) == Total(pcs, Inside) - Inside(pcs[t]) + Inside(next[t]) <= c.permits
    ensures Reachable(Program(c), Early(c, next, binary'))
  {
    var s := Early(c, pcs, binary);
    var l := Step(c, s.semaphore, binary, pcs[t]);
    next, binary' := pcs[t := l.pc], l.binary;
    StepMovesPermits(c, s.semaphore, binary, pcs[t]);
    TotalUpdate(pcs, t, l.pc, Inside);
    hide Step, Total, Inside;
    var s' := Apply(c, s, Run(t));
    assert s'.pcs == Early(c, next, binary').pcs;
    ReachStep(Program(c), s, Run(t), s');
  }

  lemma StepMovesPermits(c: Config, semaphore: nat, binary: int, pc: Pc)
    requires pc != Done && (pc == Waiting ==> semaphore > 0)
    ensures
      var l := Step(c, semaphore, binary, pc);
      l.semaphore == semaphore + Inside(pc) - Inside(l.pc) && (l.failed ==> pc == Check && binary > 256)
  {
  }

  /** Where a thread is, and what the global is, after i steps of its own. */
  function SoloAt(i: nat, binary: int): (Pc, int) {
    if i == 0 then (Waiting, binary)
    else if i == 1 then (BeforeShl, binary)
    else if i == 2 then (LoadedShl(binary), binary)
    else if i == 3 then (Check, binary * 4)
    else if i == 4 then (BeforeShr, binary * 4)
    else if i == 5 then (LoadedShr(binary * 4), binary * 4)
    else if i == 6 then (Post, binary)
    else (Done, binary)
  }

  function Solo(c: Config, k: nat, binary: int, i: nat): State
    requires c.permits > 0 && k < c.threads
  {
    var (pc, b) := SoloAt(i, binary);
    Serial(c, k, b).(semaphore := c.permits - Inside(pc), pcs := Serial(c, k, b).pcs[k := pc])
  }

  lemma {:induction false} SoloStep(c: Config, k: nat, binary: int, i: nat)
    requires !c.atomic && c.permits > 0 && k < c.threads && binary * 4 <= 256 && i < 7
    ensures Next(c, Solo(c, k, binary, i), Run(k), Solo(c, k, binary, i + 1))
  {
    var (pc, b) := SoloAt(i, binary);
    var (pc', b') := SoloAt(i + 1, binary);
    assert Serial(c, k, b).pcs[k := pc][k := pc'] == Serial(c, k, b').pcs[k := pc'];
  }

  /** One thread that runs undisturbed leaves the global as it found it. */
  lemma {:induction false} OneThreadAlone(c: Config, k: nat, binary: int)
    requires !c.atomic && c.permits > 0 && k < c.threads && binary * 4 <= 256
    requires Reachable(Program(c), Serial(c, k, binary))
    ensures Reachable(Program(c), Serial(c, k + 1, binary))
  {
    assert Solo(c, k, binary, 0) == Serial(c, k, binary);
    var i := 0;
    while i < 7
      invariant 0 <= i <= 7 && Reachable(Program(c), Solo(c, k, binary, i))
    {
      SoloStep(c, k, binary, i);
      ReachStep(Program(c), Solo(c, k, binary, i), Run(k), Solo(c, k, binary, i + 1));
      i := i + 1;
    }
    assert Solo(c, k, binary, 7) == Serial(c, k + 1, binary);
  }

  /** Both threads load before either stores, so that both shifts left count once. */
  lemma {:induction false} BothShiftLeft(c: Config) returns (pcs: seq<Pc>, binary: int)
    requires !c.atomic && c.permits >= 2 && c.threads >= 2
    ensures pcs == [Check, Check] && binary == 28 && Total(pcs, Inside) == 2
    ensures Reachable(Program(c), Early(c, pcs, binary))
  {
    hide Reachable, Program, Early, Total;
    pcs, binary := StartEarly(c, 2);
    pcs, binary := EarlyStep(c, pcs, binary, 0);
    pcs, binary := EarlyStep(c, pcs, binary, 1);
    pcs, binary := EarlyStep(c, pcs, binary, 0);
    pcs, binary := EarlyStep(c, pcs, binary, 1);
    pcs, binary := EarlyStep(c, pcs, binary, 0);
    pcs, binary := EarlyStep(c, pcs, binary, 1);
  }

  /** Both shifts right count: 7 becomes 1. */
  lemma {:induction false} TwoThreadsRace(c: Config)
    requires !c.atomic && c.permits >= 2 && c.threads >= 2
    ensures Reachable(Program(c), Serial(c, 2, 1))
  {
    hide Reachable, Program, Early, Total, Serial;
    var pcs, binary := BothShiftLeft(c);
    pcs, binary := EarlyStep(c, pcs, binary, 0);
    pcs, binary := EarlyStep(c, pcs, binary, 1);
    pcs, binary := EarlyStep(c, pcs, binary, 0);
    pcs, binary := EarlyStep(c, pcs, binary, 0);
    pcs, binary := EarlyStep(c, pcs, binary, 0);
    pcs, binary := EarlyStep(c, pcs, binary, 1);
    pcs, binary := EarlyStep(c, pcs, binary, 1);
    pcs, binary := EarlyStep(c, pcs, binary, 1);
    EarlyDone(c, pcs, binary);
  }

  lemma {:induction false} EarlyDone(c: Config, pcs: seq<Pc>, binary: int)
    requires |pcs| <= c.threads && (forall t | 0 <= t < |pcs| :: pcs[t] == Done)
    ensures Total(pcs, Inside) == 0 && Early(c, pcs, binary) == Serial(c, |pcs|, binary)
  {
    TotalConstant(pcs, Done, Inside);
  }

  /** From two racing threads on, the others run one by one, and main joins them all. */
  lemma {:induction false} RaceSpoilsTheRun(c: Config) returns (s: State)
    requires !c.atomic && c.permits >= 2 && c.threads >= 2
    ensures Reachable(Program(c), s) && s.exit == Success && s.binary == 1
  {
    TwoThreadsRace(c);
    var k := 2;
    while k < c.threads
      invariant 2 <= k <= c.threads && Reachable(Program(c), Serial(c, k, 1))
    {
      OneThreadAlone(c, k, 1);
      k := k + 1;
    }
    s := Serial(c, c.threads, 1);
    while s.joined < c.threads
      invariant s.joined <= c.threads && Reachable(Program(c), s)
      invariant s == Serial(c, c.threads, 1).(joined := s.joined)
    {
      ReachStep(Program(c), s, Join, Apply(c, s, Join));
      s := Apply(c, s, Join);
    }
    ReachStep(Program(c), s, Finish, Apply(c, s, Finish));
    s := Apply(c, s, Finish);
  }

  /** With split shifts every complete run ends with 7 exactly when one thread at a time is inside. */
  lemma {:induction false} SplitRunsEndRightIff(c: Config)
    requires !c.atomic && c.permits > 0
    ensures
      (forall s | Reachable(Program(c), s) && Stuck(Program(c), s) :: s.exit == Success && s.binary == 7) <==>
      c.permits == 1 || c.threads <= 1
  {
    if c.permits == 1 || c.threads <= 1 {
      forall s | Reachable(Program(c), s) && Stuck(Program(c), s)
        ensures s.exit == Success && s.binary == 7
      {
        StopsOnlyByExiting(c, s);
        SplitInvariant(c, s);
        TotalZero(s.pcs, Inside);
      }
    } else {
      var s := RaceSpoilsTheRun(c);
      assert Stuck(Program(c), s);
    }
  }

  // ---------------------------------------------------------------------------------------------
  // When the failure exit is in reach
  // ---------------------------------------------------------------------------------------------

  /** One for a thread that has stored its left shift. */
  function Grown(pc: Pc): nat {
    if pc == Waiting || pc == BeforeShl || pc.LoadedShl? then 0 else 1
  }

  function GrownCount(s: State): nat {
    Total(s.pcs, Grown)
  }

  /** What a thread has loaded and not yet stored. */
  predicate HoldsAtMost(pc: Pc, bound: int) {
    match pc
    case LoadedShl(v) => 0 <= v <= bound
    case LoadedShr(v) => 0 <= v <= bound
    case _ => true
  }

  ghost predicate GrowthInv(c: Config, s: State) {
    && |s.pcs| == c.threads
    && 0 <= s.binary <= 7 * Pow4(GrownCount(s))
    && (forall t | 0 <= t < c.threads :: HoldsAtMost(s.pcs[t], 7 * Pow4(GrownCount(s))))
    && (s.exit == Failure ==> s.binary > 256)
  }

  lemma {:induction false} Pow4Monotone(j: nat, k: nat)
    requires j <= k
    ensures 0 < Pow4(j) <= Pow4(k)
    decreases k
  {
    if j < k {
      Pow4Monotone(j, k - 1);
    } else if k > 0 {
      Pow4Monotone(j - 1, k - 1);
    }
  }

  lemma {:induction false} StepGrowth(c: Config, s: State, a: Action)
    requires GrowthInv(c, s) && Enabled(c, s, a)
    ensures GrowthInv(c, Apply(c, s, a))
  {
    if a.Run? {
      var s' := Apply(c, s, a);
      TotalUpdate(s.pcs, a.t, s'.pcs[a.t], Grown);
      assert HoldsAtMost(s.pcs[a.t], 7 * Pow4(GrownCount(s)));
      GrowthOfOne(c, s.semaphore, s.binary, s.pcs[a.t], GrownCount(s));
      hide Pow4, Total, Step, Grown;
    }
  }

  lemma {:induction false} GrowthOfOne(c: Config, semaphore: nat, binary: int, pc: Pc, grown: nat)
    requires pc != Done && (pc == Waiting ==> semaphore > 0)
    requires 0 <= binary <= 7 * Pow4(grown) && HoldsAtMost(pc, 7 * Pow4(grown))
    ensures
      var l := Step(c, semaphore, binary, pc);
      && Grown(pc) <= Grown(l.pc)
      && Pow4(grown) <= Pow4(grown + Grown(l.pc) - Grown(pc))
      && 0 <= l.binary <= 7 * Pow4(grown + Grown(l.pc) - Grown(pc))
      && HoldsAtMost(l.pc, 7 * Pow4(grown + Grown(l.pc) - Grown(pc)))
      && (l.failed ==> l.binary > 256)
  {
    Pow4Monotone(0, grown);
  }

  /** Lost updates or not, the global never exceeds 7 shifted once for every thread. */
  lemma {:induction false} GrowthIsBounded(c: Config, s: State)
    requires Reachable(Program(c), s)
    ensures 0 <= s.binary <= 7 * Pow4(c.threads)
    ensures s.exit == Failure ==> s.binary > 256
  {
    TotalConstant(Init(c).pcs, Waiting, Grown);
    assert GrowthInv(c, Init(c));
    forall s, a, s' | GrowthInv(c, s) && Next(c, s, a, s')
      ensures GrowthInv(c, s')
    {
      hide GrowthInv, Enabled, Apply;
      StepGrowth(c, s, a);
    }
    var run :| Reaches(Program(c), run, s);
    Invariant(Program(c), s => GrowthInv(c, s), run, s);
    TotalAtMostLength(s.pcs, Grown);
    Pow4Monotone(GrownCount(s), c.threads);
  }

  /** Thread 1 loads what thread 0 has shifted left, before thread 0 shifts it back. */
  lemma {:induction false} SecondLoads(c: Config) returns (pcs: seq<Pc>, binary: int)
    requires !c.atomic && c.permits >= 2 && c.threads >= 3
    ensures pcs == [BeforeShr, LoadedShl(28), Waiting] && binary == 28 && Total(pcs, Inside) == 2
    ensures Reachable(Program(c), Early(c, pcs, binary))
  {
    hide Reachable, Program, Early, Total;
    pcs, binary := StartEarly(c, 3);
    pcs, binary := EarlyStep(c, pcs, binary, 0);
    pcs, binary := EarlyStep(c, pcs, binary, 0);
    pcs, binary := EarlyStep(c, pcs, binary, 0);
    pcs, binary := EarlyStep(c, pcs, binary, 0);
    pcs, binary := EarlyStep(c, pcs, binary, 1);
    pcs, binary := EarlyStep(c, pcs, binary, 1);
  }

  /** Thread 0 leaves, and then thread 1 stores a shift of what it has loaded. */
  lemma {:induction false} SecondStores(c: Config) returns (pcs: seq<Pc>, binary: int)
    requires !c.atomic && c.permits >= 2 && c.threads >= 3
    ensures pcs == [Done, Check, Waiting] && binary == 112 && Total(pcs, Inside) == 1
    ensures Reachable(Program(c), Early(c, pcs, binary))
  {
    hide Reachable, Program, Early, Total;
    pcs, binary := SecondLoads(c);
    pcs, binary := EarlyStep(c, pcs, binary, 0);
    pcs, binary := EarlyStep(c, pcs, binary, 0);
    pcs, binary := EarlyStep(c, pcs, binary, 0);
    pcs, binary := EarlyStep(c, pcs, binary, 1);
  }

  /** With split shifts two permits are enough to fail: thread 2 enters and shifts 112. */
  lemma {:induction false} TwoPermitsFail(c: Config) returns (s: State)
    requires !c.atomic && c.permits >= 2 && c.threads >= 3
    ensures Reachable(Program(c), s) && s.exit == Failure
  {
    hide Reachable, Program, Early, Total;
    var pcs, binary := SecondStores(c);
    pcs, binary := EarlyStep(c, pcs, binary, 2);
    pcs, binary := EarlyStep(c, pcs, binary, 2);
    pcs, binary := EarlyStep(c, pcs, binary, 2);
    s := ThirdFails(c, pcs, binary);
  }

  lemma {:induction false} ThirdFails(c: Config, pcs: seq<Pc>, binary: int) returns (s: State)
    requires |pcs| == 3 <= c.threads && Total(pcs, Inside) <= c.permits && pcs[2] == Check && binary > 256
    requires Reachable(Program(c), Early(c, pcs, binary))
    ensures Reachable(Program(c), s) && s.exit == Failure
  {
    s := Apply(c, Early(c, pcs, binary), Run(2));
    ReachStep(Program(c), Early(c, pcs, binary), Run(2), s);
  }

  /** A step takes the failure exit exactly when a thread at its check reads more than 256. */
  lemma {:induction false} FailsExactlyAbove256(c: Config, s: State, a: Action, s': State)
    requires Follows(Program(c), s, a, s')
    ensures s'.exit == Failure <==> a.Run? && s.pcs[a.t] == Check && s.binary > 256
  {
    assert Next(c, s, a, s');
  }

  /**
   * The failure exit is reachable exactly when there are three threads and, if each shift is one step,
   * three permits; with shifts as compiled two permits do not keep it out of reach.
   */
  lemma {:induction false} FailureReachableIff(c: Config)
    ensures
      (exists s :: Reachable(Program(c), s) && s.exit == Failure) <==>
      c.threads >= 3 && c.permits >= if c.atomic then 3 else 2
  {
    if c.threads >= 3 && c.permits >= if c.atomic then 3 else 2 {
      var s;
      if c.atomic {
        s := ThreeThreadsFail(c);
      } else {
        s := TwoPermitsFail(c);
      }
      assert Reachable(Program(c), s) && s.exit == Failure;
    } else {
      forall s | Reachable(Program(c), s)
        ensures s.exit != Failure
      {
        CannotFail(c, s);
      }
    }
  }

  lemma {:induction false} CannotFail(c: Config, s: State)
    requires Reachable(Program(c), s)
    requires c.threads <= 2 || c.permits <= if c.atomic then 2 else 1
    ensures s.exit != Failure
  {
    if c.threads <= 2 {
      GrowthIsBounded(c, s);
      Pow4Monotone(c.threads, 2);
      assert Pow4(0) == 1 && Pow4(1) == 4 && Pow4(2) == 16;
    } else if c.atomic {
      AtomicRunsSucceed(c, s);
    } else {
      SplitInvariant(c, s);
    }
  }
}
