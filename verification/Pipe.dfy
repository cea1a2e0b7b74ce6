/** Parent and child of Pipes.c over one pipe, under every interleaving. */
module Pipe {
  import opened Basics
  import opened Runs

  const NEWLINE: Byte := 10

  /**
   * The message and the pipe's capacity as parameters. The two flags say whether the child and the
   * parent close their copies of the write end, as both do in the program.
   */
  datatype Config = Config(message: seq<Byte>, capacity: nat, childCloses: bool, parentCloses: bool)

  datatype ParentPc = CloseRead | Write(written: nat) | CloseWrite | Wait | ParentExit | Killed

  datatype ChildPc = CloseOther | Read | Put(byte: Byte) | Newline | CloseOwn | ChildExit

  /** The bytes in the pipe, which copies of its ends are open, and the child's output. */
  datatype State = State(
    pipe: seq<Byte>, parentReads: bool, parentWrites: bool, childReads: bool, childWrites: bool,
    parent: ParentPc, child: ChildPc, output: seq<Byte>)

  /** Parent(n): the parent's next step; a blocked write moves n bytes as room appears. */
  datatype Action = Parent(n: nat) | Child

  function Init(c: Config): State {
    State([], true, true, true, true, CloseRead, CloseOther, [])
  }

  predicate Enabled(c: Config, s: State, a: Action) {
    match a
    case Parent(n) => (
      match s.parent
      case Write(w) =>
        w < |c.message| && (s.parentReads || s.childReads) ==>
          0 < n <= |c.message| - w && |s.pipe| + n <= c.capacity
      case Wait => s.child == ChildExit
      case ParentExit => false
      case Killed => false
      case _ => true)
    case Child => (
      match s.child
      case Read => s.pipe != [] || !(s.parentWrites || s.childWrites)
      case ChildExit => false
      case _ => true)
  }

  function ParentStep(c: Config, s: State, n: nat): State
    requires Enabled(c, s, Parent(n))
  {
    match s.parent
    case CloseRead => s.(parentReads := false, parent := Write(0))
    case Write(w) =>
      if w >= |c.message| then s.(parent := CloseWrite)
      else if !(s.parentReads || s.childReads) then s.(parent := Killed)
      else s.(pipe := s.pipe + c.message[w..w + n], parent := Write(w + n))
    case CloseWrite => s.(parentWrites := s.parentWrites && !c.parentCloses, parent := Wait)
    case Wait => s.(parentWrites := false, parent := ParentExit)
  }

  function ChildStep(c: Config, s: State): State
    requires Enabled(c, s, Child)
  {
    match s.child
    case CloseOther => s.(childWrites := s.childWrites && !c.childCloses, child := Read)
    case Read => if s.pipe != [] then s.(pipe := s.pipe[1..], child := Put(s.pipe[0])) else s.(child := Newline)
    case Put(b) => s.(output := s.output + [b], child := Read)
    case Newline => s.(output := s.output + [NEWLINE], child := CloseOwn)
    case CloseOwn => s.(childReads := false, childWrites := false, child := ChildExit)
  }

  function Apply(c: Config, s: State, a: Action): State
    requires Enabled(c, s, a)
  {
    match a
    case Parent(n) => ParentStep(c, s, n)
    case Child => ChildStep(c, s)
  }

  ghost predicate Next(c: Config, s: State, a: Action, s': State) {
    Enabled(c, s, a) && s' == Apply(c, s, a)
  }

  ghost function Program(c: Config): System<State, Action> {
    System(Init(c), (s, a, s') => Next(c, s, a, s'))
  }

  // ---------------------------------------------------------------------------------------------
  // What every step keeps
  // ---------------------------------------------------------------------------------------------

  predicate Reading(pc: ChildPc) {
    pc.CloseOther? || pc.Read? || pc.Put?
  }

  /** How much of the message the parent has written. */
  function Written(c: Config, s: State): nat {
    match s.parent
    case CloseRead => 0
    case Write(w) => w
    case _ => |c.message|
  }

  function InHand(s: State): seq<Byte> {
    if s.child.Put? then [s.child.byte] else []
  }

  /** Output, byte in hand and pipe are the written part of the message; a newline follows all of it. */
  ghost predicate Bytes(c: Config, s: State) {
    && Written(c, s) <= |c.message|
    && |s.pipe| <= c.capacity
    && (if Reading(s.child) then s.output + InHand(s) + s.pipe == c.message[..Written(c, s)]
        else if s.child == Newline then s.output == c.message && s.pipe == []
        else s.output == c.message + [NEWLINE] && s.pipe == [])
  }

  /** Which copies of the ends are open, from where the two processes are. */
  ghost predicate Ends(c: Config, s: State) {
    && s.parent != Killed
    && s.childReads == (s.child != ChildExit)
    && s.parentReads == (s.parent == CloseRead)
    && s.childWrites == (s.child == CloseOther || (!c.childCloses && s.child != ChildExit))
    && s.parentWrites == (s.parent != ParentExit && !(c.parentCloses && s.parent == Wait))
    && (s.parent == ParentExit ==> s.child == ChildExit)
    && (!Reading(s.child) ==> c.childCloses && c.parentCloses && (s.parent == Wait || s.parent == ParentExit))
  }

  ghost predicate Inv(c: Config, s: State) {
    Bytes(c, s) && Ends(c, s)
  }

  lemma {:induction false} ParentKeeps(c: Config, s: State, n: nat)
    requires Inv(c, s) && Enabled(c, s, Parent(n))
    ensures Inv(c, ParentStep(c, s, n))
  {
    if s.parent.Write? && s.parent.written < |c.message| {
      hide Bytes, Ends;
      ParentWrites(c, s, n);
    }
  }

  lemma ParentWrites(c: Config, s: State, n: nat)
    requires Inv(c, s) && Enabled(c, s, Parent(n)) && s.parent.Write? && s.parent.written < |c.message|
    ensures Bytes(c, ParentStep(c, s, n)) && Ends(c, ParentStep(c, s, n))
  {
    var w := s.parent.written;
    assert c.message[..w + n] == c.message[..w] + c.message[w..w + n];
  }

  lemma {:induction false} ChildKeeps(c: Config, s: State)
    requires Inv(c, s) && Enabled(c, s, Child)
    ensures Inv(c, ChildStep(c, s))
  {
    if s.child == Read && s.pipe != [] {
      assert s.pipe == [s.pipe[0]] + s.pipe[1..];
      assert s.output + [] + s.pipe == s.output + [s.pipe[0]] + s.pipe[1..];
    } else if s.child == Read {
      assert c.message[..|c.message|] == c.message;
    }
  }

  lemma InitInv(c: Config)
    ensures Inv(c, Init(c))
  {
  }

  lemma {:induction false} InvKept(c: Config)
    ensures Kept(Program(c), s => Inv(c, s))
  {
    hide Inv, Enabled, ParentStep, ChildStep;
    InitInv(c);
    forall s, a, s' | Inv(c, s) && Next(c, s, a, s')
      ensures Inv(c, s')
    {
      match a {
        case Parent(n) => ParentKeeps(c, s, n);
        case Child => ChildKeeps(c, s);
      }
    }
  }

  lemma {:induction false} InvHolds(c: Config, s: State)
    requires Reachable(Program(c), s)
    ensures Inv(c, s)
  {
    InvKept(c);
    var run :| Reaches(Program(c), run, s);
    Invariant(Program(c), s => Inv(c, s), run, s);
  }

  /** No write finds the pipe without a reader, and no byte is lost, doubled or reordered on the way. */
  lemma {:induction false} PipeIsFaithful(c: Config, s: State)
    requires Reachable(Program(c), s)
    ensures s.parent != Killed && (s.parent.Write? ==> s.childReads)
    ensures Written(c, s) <= |c.message|
    ensures Reading(s.child) ==> s.output + InHand(s) + s.pipe == c.message[..Written(c, s)]
  {
    InvHolds(c, s);
  }

  // ---------------------------------------------------------------------------------------------
  // Every run ends
  // ---------------------------------------------------------------------------------------------

  function ParentLeft(c: Config, pc: ParentPc): nat {
    match pc
    case CloseRead => 4 * |c.message| + 4
    case Write(w) => 4 * Minus(|c.message|, w) + 3
    case CloseWrite => 2
    case Wait => 1
    case ParentExit => 0
    case Killed => 0
  }

  function ChildLeft(pc: ChildPc): nat {
    match pc
    case CloseOther => 4
    case Read => 3
    case Put(_) => 4
    case Newline => 2
    case CloseOwn => 1
    case ChildExit => 0
  }

  function Remaining(c: Config, s: State): nat {
    ParentLeft(c, s.parent) + 2 * |s.pipe| + ChildLeft(s.child)
  }

  lemma StepShortens(c: Config, s: State, a: Action)
    requires Inv(c, s) && Enabled(c, s, a)
    ensures Remaining(c, Apply(c, s, a)) < Remaining(c, s)
  {
  }

  lemma {:induction false} ShortensAll(c: Config)
    ensures Shortens(Program(c), s => Inv(c, s), s => Remaining(c, s))
  {
    hide Inv, Enabled, Apply, Remaining;
    forall s, a, s' | Inv(c, s) && Next(c, s, a, s')
      ensures Remaining(c, s') < Remaining(c, s)
    {
      StepShortens(c, s, a);
    }
  }

  lemma {:induction false} RunsAreBounded(c: Config, run: seq<Action>, s: State)
    requires Reaches(Program(c), run, s)
    ensures |run| <= 4 * |c.message| + 8
  {
    InvKept(c);
    ShortensAll(c);
    Bounded(Program(c), s => Inv(c, s), s => Remaining(c, s), run, s);
  }

  // ---------------------------------------------------------------------------------------------
  // How every run ends
  // ---------------------------------------------------------------------------------------------

  predicate Finished(c: Config, s: State) {
    s.parent == ParentExit && s.child == ChildExit && s.output == c.message + [NEWLINE]
  }

  lemma {:induction false} SomeActionEnabled(c: Config, s: State) returns (a: Action)
    requires Inv(c, s) && c.capacity > 0 && c.childCloses && c.parentCloses && !Finished(c, s)
    ensures Enabled(c, s, a)
  {
    a := if Enabled(c, s, Child) then Child else Parent(1);
  }

  /** With both write ends closed no run deadlocks: it ends with the message and a newline printed. */
  lemma {:induction false} CompleteRuns(c: Config, s: State)
    requires c.capacity > 0 && c.childCloses && c.parentCloses
    requires Reachable(Program(c), s)
    ensures Stuck(Program(c), s) <==> Finished(c, s)
    ensures Finished(c, s) ==> s.output == c.message + [10]
  {
    InvHolds(c, s);
    if !Finished(c, s) {
      var a := SomeActionEnabled(c, s);
      assert Follows(Program(c), s, a, Apply(c, s, a));
    }
  }

  /** Without either close the child never sees end-of-file, so no run finishes. */
  lemma {:induction false} NoEndOfFile(c: Config, s: State)
    requires !c.childCloses || !c.parentCloses
    requires Reachable(Program(c), s)
    ensures Reading(s.child) && s.parent != ParentExit
  {
    InvHolds(c, s);
  }

  /** Every run finishes exactly when both processes close the write end. */
  lemma {:induction false} FinishesIffBothClose(c: Config)
    requires c.capacity > 0
    ensures
      (forall s | Reachable(Program(c), s) && Stuck(Program(c), s) :: Finished(c, s)) <==>
      c.childCloses && c.parentCloses
  {
    if c.childCloses && c.parentCloses {
      forall s | Reachable(Program(c), s) && Stuck(Program(c), s)
        ensures Finished(c, s)
      {
        CompleteRuns(c, s);
      }
    } else {
      InvKept(c);
      ShortensAll(c);
      ReachInit(Program(c));
      var s := RunsOut(Program(c), s => Inv(c, s), s => Remaining(c, s), Init(c));
      NoEndOfFile(c, s);
    }
  }
}
