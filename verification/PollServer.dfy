/** The telnet server over poll: its table of descriptors and its passes, as values. */
module PollServer {
  import opened Basics
  import opened ChatRoom

  // ---------------------------------------------------------------------------------------------
  // The table
  // ---------------------------------------------------------------------------------------------

  /** watched: events is POLLIN; ready: revents has POLLIN. */
  datatype PollFd = PollFd(fd: int, watched: bool, ready: bool)

  /**
   * The server between two statements: the slots in use, fd_size, every send so far. history, copied
   * (elements moved by realloc) and peak (most slots ever in use) are records; no step depends on them.
   */
  datatype Server = Server(
    listener: int, slots: seq<PollFd>, size: nat, sent: seq<Delivery>,
    history: seq<Event>, copied: nat, peak: nat)

  datatype Received = Failed | Got(bytes: seq<Byte>)

  /**
   * The kernel's answers during one pass: accept, given the open descriptors, what revents of an
   * appended slot happens to hold, and recv at each index.
   */
  datatype Io = Io(accept: set<int> -> int, stale: bool, recv: nat -> Received)

  /** accept fails with -1 or returns a descriptor that is not open. */
  ghost predicate KernelOk(io: Io) {
    forall open :: Fresh(io.accept(open), open)
  }

  function Fds(slots: seq<PollFd>): (s: set<int>)
    ensures forall i | 0 <= i < |slots| :: slots[i].fd in s
    ensures forall fd | fd in s :: exists i :: 0 <= i < |slots| && slots[i].fd == fd
  {
    set i | 0 <= i < |slots| :: slots[i].fd
  }

  function Clients(s: Server): set<int> {
    Fds(s.slots) - {s.listener}
  }

  function Start(listener: int, ready: bool): Server {
    Server(listener, [PollFd(listener, true, ready)], 5, [], [], 0, 1)
  }

  /** add_to_pfds: double a full table, append, leave revents as the memory had it. */
  function Add(s: Server, fd: int, stale: bool): Server {
    var full := |s.slots| == s.size;
    s.(
      slots := s.slots + [PollFd(fd, true, stale)],
      size := if full then 2 * s.size else s.size,
      copied := if full then s.copied + s.size else s.copied,
      peak := if |s.slots| + 1 > s.peak then |s.slots| + 1 else s.peak)
  }

  /** del_pfds: the last slot takes the place of the deleted one. */
  function Delete(slots: seq<PollFd>, i: nat): seq<PollFd>
    requires i < |slots|
  {
    slots[i := slots[|slots| - 1]][..|slots| - 1]
  }

  /** The broadcast loop: one send per slot other than the listener's and the sender's, in table order. */
  function Broadcast(slots: seq<PollFd>, listener: int, sender: int, note: Note): seq<Delivery> {
    if slots == [] then []
    else
      var fd := slots[|slots| - 1].fd;
      Broadcast(slots[..|slots| - 1], listener, sender, note) +
      if fd != listener && fd != sender then [Delivery(fd, sender, note)] else []
  }

  // ---------------------------------------------------------------------------------------------
  // Passes
  // ---------------------------------------------------------------------------------------------

  /** One iteration of the pass. */
  function Visit(s: Server, i: nat, io: Io): Server
    requires i < |s.slots|
  {
    var fd := s.slots[i].fd;
    if !s.slots[i].ready then s
    else if fd == s.listener then Accept(s, io.accept(Fds(s.slots)), io.stale)
    else Receive(s, i, io.recv(i))
  }

  function Accept(s: Server, fd: int, stale: bool): Server {
    if fd == -1 then s else Add(s, fd, stale).(history := s.history + [Join(fd)])
  }

  function Receive(s: Server, i: nat, r: Received): Server
    requires i < |s.slots|
  {
    var fd := s.slots[i].fd;
    if r == Failed || r.bytes == [] then s.(slots := Delete(s.slots, i), history := s.history + [Leave(fd)])
    else
      s.(
        sent := s.sent + Broadcast(s.slots, s.listener, fd, Said(r.bytes)),
        history := s.history + [Say(fd, r.bytes)])
  }

  /** The rest of a pass; the index moves on even where a deletion has put another slot there. */
  ghost function Pass(s: Server, i: nat, io: Io): Server
    requires Table(s) && KernelOk(io)
    decreases if i == 0 then 1 else 0, if i < |s.slots| then |s.slots| - i else 0
  {
    if i >= |s.slots| then s
    else
      VisitKeepsTable(s, i, io);
      Pass(Visit(s, i, io), i + 1, io)
  }

  /** poll reports on every watched slot. */
  function Poll(s: Server, revents: nat -> bool): Server {
    s.(slots := seq(|s.slots|, i requires 0 <= i < |s.slots| =>
      s.slots[i].(ready := s.slots[i].watched && revents(i))))
  }

  /** One turn of the server's endless loop. */
  datatype Turn = Turn(revents: nat -> bool, io: Io)

  ghost function TakeTurn(s: Server, t: Turn): Server
    requires Table(s) && KernelOk(t.io)
  {
    PollKeepsTable(s, t.revents);
    Pass(Poll(s, t.revents), 0, t.io)
  }

  ghost predicate KernelAlwaysOk(turns: seq<Turn>) {
    forall k | 0 <= k < |turns| :: KernelOk(turns[k].io)
  }

  ghost function TakeTurns(s: Server, turns: seq<Turn>): (s': Server)
    requires Table(s) && KernelAlwaysOk(turns)
    ensures Table(s')
    decreases |turns|
  {
    if turns == [] then s
    else
      TurnKeepsTable(s, turns[0]);
      TakeTurns(TakeTurn(s, turns[0]), turns[1..])
  }

  // ---------------------------------------------------------------------------------------------
  // The shape of the table
  // ---------------------------------------------------------------------------------------------

  ghost predicate DistinctFds(slots: seq<PollFd>) {
    forall i, j | 0 <= i < j < |slots| :: slots[i].fd != slots[j].fd
  }

  /** The listener is at index 0 and nowhere else, descriptors are distinct, every slot is watched. */
  ghost predicate Table(s: Server) {
    && 1 <= |s.slots| <= s.size
    && s.slots[0].fd == s.listener
    && DistinctFds(s.slots)
    && forall i | 0 <= i < |s.slots| :: s.slots[i].watched
  }

  lemma VisitKeepsTable(s: Server, i: nat, io: Io)
    requires Table(s) && KernelOk(io) && i < |s.slots|
    ensures Table(Visit(s, i, io))
    ensures i > 0 ==> |Visit(s, i, io).slots| <= |s.slots|
  {
    var open := Fds(s.slots);
    assert Fresh(io.accept(open), open);
  }

  lemma PollKeepsTable(s: Server, revents: nat -> bool)
    requires Table(s)
    ensures Table(Poll(s, revents))
  {
  }

  lemma {:induction false} PassKeepsTable(s: Server, i: nat, io: Io)
    requires Table(s) && KernelOk(io)
    ensures Table(Pass(s, i, io))
    decreases if i == 0 then 1 else 0, if i < |s.slots| then |s.slots| - i else 0
  {
    if i < |s.slots| {
      VisitKeepsTable(s, i, io);
      PassKeepsTable(Visit(s, i, io), i + 1, io);
    }
  }

  lemma TurnKeepsTable(s: Server, t: Turn)
    requires Table(s) && KernelOk(t.io)
    ensures Table(TakeTurn(s, t))
  {
    PollKeepsTable(s, t.revents);
    PassKeepsTable(Poll(s, t.revents), 0, t.io);
  }

  // ---------------------------------------------------------------------------------------------
  // Capacity
  // ---------------------------------------------------------------------------------------------

  function FiveTimesPow2(k: nat): nat {
    if k == 0 then 5 else 2 * FiveTimesPow2(k - 1)
  }

  /** What the doubling keeps: all realloc copying together is less than the size, the size less than twice the peak. */
  ghost predicate Capacity(s: Server) {
    && (exists k: nat :: s.size == FiveTimesPow2(k))
    && s.copied == s.size - 5
    && |s.slots| <= s.peak <= s.size
    && (s.size == 5 || s.size < 2 * s.peak)
  }

  lemma VisitKeepsCapacity(s: Server, i: nat, io: Io)
    requires Table(s) && Capacity(s) && i < |s.slots|
    ensures Capacity(Visit(s, i, io))
  {
    var k: nat :| s.size == FiveTimesPow2(k);
    assert FiveTimesPow2(k + 1) == 2 * s.size;
  }

  // ---------------------------------------------------------------------------------------------
  // Refinement of the chat room
  // ---------------------------------------------------------------------------------------------

  /** The members are the clients in the table and the sends so far are the room's deliveries. */
  ghost predicate Refines(s: Server) {
    && Lived(false, s.history)
    && After(false, s.history) == Room(Clients(s), multiset(s.sent))
    && ToOthersOnly(s.sent, s.listener)
    && InOrder(false, s.sent, s.history)
  }

  lemma {:induction false} FdsAppend(slots: seq<PollFd>, slot: PollFd)
    ensures Fds(slots + [slot]) == Fds(slots) + {slot.fd}
  {
    var all := slots + [slot];
    forall fd | fd in Fds(slots) + {slot.fd}
      ensures fd in Fds(all)
    {
      if fd in Fds(slots) {
        var j :| 0 <= j < |slots| && slots[j].fd == fd;
        assert all[j].fd == fd;
      } else {
        assert all[|slots|].fd == fd;
      }
    }
  }

  lemma {:induction false} LastIsNew(slots: seq<PollFd>)
    requires slots != [] && DistinctFds(slots)
    ensures slots[|slots| - 1].fd !in Fds(slots[..|slots| - 1])
    ensures Fds(slots) == Fds(slots[..|slots| - 1]) + {slots[|slots| - 1].fd}
  {
  }

  lemma {:induction false} BroadcastOnce(slots: seq<PollFd>, listener: int, sender: int, note: Note)
    requires DistinctFds(slots)
    ensures multiset(Broadcast(slots, listener, sender, note)) == ToAll(Fds(slots) - {listener, sender}, sender, note)
  {
    if slots != [] {
      hide Fds, ToAll;
      var front, fd := slots[..|slots| - 1], slots[|slots| - 1].fd;
      var others := Fds(front) - {listener, sender};
      BroadcastOnce(front, listener, sender, note);
      LastIsNew(slots);
      if fd != listener && fd != sender {
        assert Fds(slots) - {listener, sender} == others + {fd};
        ToOneMore(others, fd, sender, note);
      } else {
        assert Fds(slots) - {listener, sender} == others;
      }
    }
  }

  lemma {:induction false} BroadcastToOthers(slots: seq<PollFd>, listener: int, sender: int, note: Note)
    ensures ToOthersOnly(Broadcast(slots, listener, sender, note), listener)
  {
    if slots != [] {
      BroadcastToOthers(slots[..|slots| - 1], listener, sender, note);
    }
  }

  lemma {:induction false} DeleteRemoves(slots: seq<PollFd>, i: nat)
    requires DistinctFds(slots) && i < |slots|
    ensures Fds(Delete(slots, i)) == Fds(slots) - {slots[i].fd}
  {
    var n := |slots| - 1;
    forall fd | fd in Fds(slots) - {slots[i].fd}
      ensures fd in Fds(Delete(slots, i))
    {
      var j :| 0 <= j < |slots| && slots[j].fd == fd;
      assert if j == n then Delete(slots, i)[i].fd == fd else Delete(slots, i)[j].fd == fd;
    }
  }

  lemma {:induction false} VisitRefines(s: Server, i: nat, io: Io)
    requires Table(s) && KernelOk(io) && Refines(s) && i < |s.slots|
    ensures Refines(Visit(s, i, io))
  {
    var fd := s.slots[i].fd;
    if s.slots[i].ready && fd == s.listener {
      AcceptRefines(s, io.accept(Fds(s.slots)), io.stale);
    } else if s.slots[i].ready {
      ReceiveRefines(s, i, io.recv(i));
    }
  }

  lemma {:induction false} AcceptRefines(s: Server, fd: int, stale: bool)
    requires Table(s) && Refines(s) && Fresh(fd, Fds(s.slots))
    ensures Refines(Accept(s, fd, stale))
  {
    hide Lived, After, Fds;
    if fd != -1 {
      assert s.slots[0].fd in Fds(s.slots);
      LivedStep(false, s.history, Join(fd));
      InOrderStep(false, s.sent, s.history, Join(fd), []);
      assert s.sent + [] == s.sent;
      FdsAppend(s.slots, PollFd(fd, true, stale));
      assert Clients(Accept(s, fd, stale)) == Clients(s) + {fd};
    }
  }

  lemma {:induction false} ReceiveRefines(s: Server, i: nat, r: Received)
    requires Table(s) && Refines(s) && i < |s.slots| && s.slots[i].fd != s.listener
    ensures Refines(Receive(s, i, r))
  {
    hide Lived, After, Fds, ToAll, Broadcast, Delete;
    var fd := s.slots[i].fd;
    assert fd in Clients(s);
    if r == Failed || r.bytes == [] {
      LivedStep(false, s.history, Leave(fd));
      InOrderStep(false, s.sent, s.history, Leave(fd), []);
      assert s.sent + [] == s.sent;
      DeleteRemoves(s.slots, i);
      assert Clients(Receive(s, i, r)) == Clients(s) - {fd};
    } else {
      LivedStep(false, s.history, Say(fd, r.bytes));
      BroadcastOnce(s.slots, s.listener, fd, Said(r.bytes));
      BroadcastToOthers(s.slots, s.listener, fd, Said(r.bytes));
      assert Fds(s.slots) - {s.listener, fd} == Clients(s) - {fd};
      var sends := Broadcast(s.slots, s.listener, fd, Said(r.bytes));
      InOrderStep(false, s.sent, s.history, Say(fd, r.bytes), sends);
    }
  }

  // ---------------------------------------------------------------------------------------------
  // Every run
  // ---------------------------------------------------------------------------------------------

  ghost predicate Good(s: Server) {
    Table(s) && Capacity(s) && Refines(s)
  }

  lemma {:induction false} PassKeepsGood(s: Server, i: nat, io: Io)
    requires Good(s) && KernelOk(io)
    ensures Good(Pass(s, i, io))
    decreases if i == 0 then 1 else 0, if i < |s.slots| then |s.slots| - i else 0
  {
    hide Table, Capacity, Refines, Visit;
    if i < |s.slots| {
      VisitKeepsTable(s, i, io);
      VisitKeepsCapacity(s, i, io);
      VisitRefines(s, i, io);
      PassKeepsGood(Visit(s, i, io), i + 1, io);
    }
  }

  lemma {:induction false} PollKeepsGood(s: Server, revents: nat -> bool)
    requires Good(s)
    ensures Good(Poll(s, revents))
  {
    hide Lived, After;
    PollKeepsTable(s, revents);
    PolledFds(s, revents);
  }

  lemma {:induction false} StartIsGood(listener: int, ready: bool)
    ensures Good(Start(listener, ready))
  {
    var s := Start(listener, ready);
    assert s.size == FiveTimesPow2(0);
    assert s.slots[0].fd == listener;
    assert Fds(s.slots) == {listener};
  }

  lemma {:induction false} TurnsKeepGood(s: Server, turns: seq<Turn>)
    requires Good(s) && KernelAlwaysOk(turns)
    ensures Good(TakeTurns(s, turns))
    decreases |turns|
  {
    if turns != [] {
      PollKeepsGood(s, turns[0].revents);
      PassKeepsGood(Poll(s, turns[0].revents), 0, turns[0].io);
      TurnKeepsTable(s, turns[0]);
      TurnsKeepGood(TakeTurn(s, turns[0]), turns[1..]);
    }
  }

  /** In every run the table is the listener and the room's members, and the sends are the room's deliveries. */
  lemma {:induction false} EveryRunRefines(listener: int, ready: bool, turns: seq<Turn>)
    requires KernelAlwaysOk(turns)
    ensures
      Table(Start(listener, ready)) &&
      var s := TakeTurns(Start(listener, ready), turns);
      && Lived(false, s.history)
      && After(false, s.history) == Room(Fds(s.slots) - {listener}, multiset(s.sent))
      && ToOthersOnly(s.sent, listener)
  {
    StartIsGood(listener, ready);
    TurnsKeepGood(Start(listener, ready), turns);
    TurnsKeepListener(Start(listener, ready), turns);
  }

  /** In every run each message is sent to a descriptor as often as it was said while that was another member. */
  lemma {:induction false} SentExactlyWhenDue(listener: int, ready: bool, turns: seq<Turn>, d: Delivery)
    requires KernelAlwaysOk(turns)
    ensures
      Table(Start(listener, ready)) &&
      var s := TakeTurns(Start(listener, ready), turns);
      multiset(s.sent)[d] == TimesDue(false, s.history, d) && (d.to == listener ==> d !in s.sent)
  {
    hide Lived, After, TimesDue;
    StartIsGood(listener, ready);
    EveryRunRefines(listener, ready, turns);
    DeliveredExactlyWhenDue(false, TakeTurns(Start(listener, ready), turns).history, d);
  }

  /** In every run each descriptor has been sent what was due to it in the order in which it was said. */
  lemma {:induction false} HeardInOrder(listener: int, ready: bool, turns: seq<Turn>, fd: int)
    requires KernelAlwaysOk(turns)
    ensures
      Table(Start(listener, ready)) &&
      var s := TakeTurns(Start(listener, ready), turns);
      HeardBy(s.sent, fd) == DueTo(false, s.history, fd)
  {
    hide HeardBy, DueTo;
    StartIsGood(listener, ready);
    TurnsKeepGood(Start(listener, ready), turns);
  }

  /** In every run the table has the listener first, distinct descriptors, and amortised doubling. */
  lemma {:induction false} EveryRunFits(listener: int, ready: bool, turns: seq<Turn>)
    requires KernelAlwaysOk(turns)
    ensures
      Table(Start(listener, ready)) &&
      var s := TakeTurns(Start(listener, ready), turns);
      && 1 <= |s.slots| <= s.size && s.slots[0].fd == listener && DistinctFds(s.slots)
      && (exists k: nat :: s.size == FiveTimesPow2(k))
      && |s.slots| <= s.peak <= s.size
      && s.copied < s.size && (s.size == 5 || s.size < 2 * s.peak)
  {
    StartIsGood(listener, ready);
    TurnsKeepGood(Start(listener, ready), turns);
    TurnsKeepListener(Start(listener, ready), turns);
  }

  lemma {:induction false} PassKeepsListener(s: Server, i: nat, io: Io)
    requires Table(s) && KernelOk(io)
    ensures Pass(s, i, io).listener == s.listener
    ensures s.history <= Pass(s, i, io).history
    decreases if i == 0 then 1 else 0, if i < |s.slots| then |s.slots| - i else 0
  {
    if i < |s.slots| {
      VisitKeepsTable(s, i, io);
      PassKeepsListener(Visit(s, i, io), i + 1, io);
    }
  }

  lemma {:induction false} TurnsKeepListener(s: Server, turns: seq<Turn>)
    requires Table(s) && KernelAlwaysOk(turns)
    ensures TakeTurns(s, turns).listener == s.listener
    ensures s.history <= TakeTurns(s, turns).history
    decreases |turns|
  {
    if turns != [] {
      PollKeepsTable(s, turns[0].revents);
      PassKeepsListener(Poll(s, turns[0].revents), 0, turns[0].io);
      TurnKeepsTable(s, turns[0]);
      TurnsKeepListener(TakeTurn(s, turns[0]), turns[1..]);
    }
  }

  // ---------------------------------------------------------------------------------------------
  // Bounded deferral
  // ---------------------------------------------------------------------------------------------

  /** Between s and t something is received from fd. */
  ghost predicate Served(s: Server, t: Server, fd: int) {
    exists k | |s.history| <= k < |t.history| :: !t.history[k].Join? && t.history[k].fd == fd
  }

  lemma ServedStays(s: Server, t: Server, u: Server, fd: int)
    requires Served(s, t, fd) && t.history <= u.history
    ensures Served(s, u, fd)
  {
  }

  lemma ServedLater(s: Server, t: Server, u: Server, fd: int)
    requires Served(t, u, fd) && |s.history| <= |t.history|
    ensures Served(s, u, fd)
  {
  }

  /** A pass does not touch the slots it has left behind. */
  lemma {:induction false} PassLeavesBehind(s: Server, i: nat, io: Io, j: nat)
    requires Table(s) && KernelOk(io) && j <= i && j <= |s.slots|
    ensures j <= |Pass(s, i, io).slots| && Pass(s, i, io).slots[..j] == s.slots[..j]
    decreases if i == 0 then 1 else 0, if i < |s.slots| then |s.slots| - i else 0
  {
    if i < |s.slots| {
      VisitKeepsTable(s, i, io);
      assert Visit(s, i, io).slots[..j] == s.slots[..j];
      PassLeavesBehind(Visit(s, i, io), i + 1, io, j);
    }
  }

  /** In one pass a ready client is served, or swap-remove has moved it to a smaller index. */
  lemma {:induction false} PassServesOrMoves(s: Server, i: nat, io: Io, p: nat) returns (q: nat)
    requires Table(s) && KernelOk(io) && i <= p && 1 <= p < |s.slots| && s.slots[p].ready
    ensures
      var t := Pass(s, i, io);
      var fd := s.slots[p].fd;
      Served(s, t, fd) || (1 <= q < p && q < |t.slots| && t.slots[q].fd == fd)
    decreases if i == 0 then 1 else 0, if i < |s.slots| then |s.slots| - i else 0
  {
    var v := Visit(s, i, io);
    var fd := s.slots[p].fd;
    VisitKeepsTable(s, i, io);
    PassKeepsListener(v, i + 1, io);
    if i == p {
      q := 0;
      assert v.history[|s.history|].fd == fd;
      ServedStays(s, v, Pass(s, i, io), fd);
    } else if p < |v.slots| && v.slots[p] == s.slots[p] {
      q := PassServesOrMoves(v, i + 1, io, p);
      if Served(v, Pass(v, i + 1, io), fd) {
        ServedLater(s, v, Pass(v, i + 1, io), fd);
      }
    } else {
      // slot i was deleted and p was the last slot
      q := i;
      assert v.slots[i].fd == fd;
      PassLeavesBehind(v, i + 1, io, i + 1);
      assert Pass(v, i + 1, io).slots[..i + 1][i] == v.slots[..i + 1][i];
    }
  }

  /** poll finds fd ready at the start of each of the turns, for as long as fd is in the table. */
  ghost predicate StaysReady(s: Server, turns: seq<Turn>, fd: int)
    requires Table(s) && KernelAlwaysOk(turns)
    decreases |turns|
  {
    turns == [] || (
      && (forall k | 0 <= k < |s.slots| && s.slots[k].fd == fd :: turns[0].revents(k))
      && Table(TakeTurn(s, turns[0]))
      && StaysReady(TakeTurn(s, turns[0]), turns[1..], fd))
  }

  /** A client at index p that stays ready is served within p turns. */
  lemma {:induction false} ServedWithinIndex(s: Server, turns: seq<Turn>, p: nat)
    requires Table(s) && KernelAlwaysOk(turns) && 1 <= p < |s.slots| && p <= |turns|
    requires StaysReady(s, turns, s.slots[p].fd)
    ensures Served(s, TakeTurns(s, turns), s.slots[p].fd)
    decreases p
  {
    var fd := s.slots[p].fd;
    var ready := Poll(s, turns[0].revents);
    var t := TakeTurn(s, turns[0]);
    PollKeepsTable(s, turns[0].revents);
    TurnKeepsTable(s, turns[0]);
    PassKeepsListener(ready, 0, turns[0].io);
    TurnsKeepListener(t, turns[1..]);
    assert ready.slots[p].ready && ready.slots[p].fd == fd;
    var q := PassServesOrMoves(ready, 0, turns[0].io, p);
    if Served(ready, t, fd) {
      ServedStays(s, t, TakeTurns(s, turns), fd);
    } else {
      ServedWithinIndex(t, turns[1..], q);
      ServedLater(s, t, TakeTurns(s, turns), fd);
    }
  }

  // ---------------------------------------------------------------------------------------------
  // One visit per pass
  // ---------------------------------------------------------------------------------------------

  /** What a pass from i on adds to the history. */
  ghost function News(s: Server, i: nat, io: Io): (events: seq<Event>)
    requires Table(s) && KernelOk(io)
    ensures Pass(s, i, io).history == s.history + events
  {
    PassKeepsListener(s, i, io);
    Pass(s, i, io).history[|s.history|..]
  }

  /** fd is at index i or above and ready, so the rest of a pass may still come to it. */
  ghost predicate Ahead(slots: seq<PollFd>, i: nat, fd: int) {
    exists j | i <= j < |slots| :: slots[j].fd == fd && slots[j].ready
  }

  lemma AheadAfterVisit(s: Server, i: nat, io: Io, fd: int)
    requires Table(s) && KernelOk(io) && 1 <= i < |s.slots| && Ahead(Visit(s, i, io).slots, i + 1, fd)
    ensures Ahead(s.slots, i + 1, fd) && fd != s.slots[i].fd
  {
    var v := Visit(s, i, io);
    var j :| i + 1 <= j < |v.slots| && v.slots[j].fd == fd && v.slots[j].ready;
    assert s.slots[j] == v.slots[j];
  }

  lemma {:induction false} ActorsAhead(s: Server, i: nat, io: Io)
    requires Table(s) && KernelOk(io) && 1 <= i
    ensures NoRepeats(Actors(News(s, i, io)))
    ensures forall fd | fd in Actors(News(s, i, io)) :: Ahead(s.slots, i, fd)
    decreases if i < |s.slots| then |s.slots| - i else 0
  {
    if i < |s.slots| {
      var v := Visit(s, i, io);
      var rest := News(v, i + 1, io);
      VisitKeepsTable(s, i, io);
      ActorsAhead(v, i + 1, io);
      forall fd | fd in Actors(rest)
        ensures Ahead(s.slots, i, fd) && fd != s.slots[i].fd
      {
        AheadAfterVisit(s, i, io, fd);
      }
      if s.slots[i].ready {
        var e := v.history[|s.history|];
        assert News(s, i, io) == [e] + rest;
        assert ([e] + rest)[1..] == rest;
        assert Ahead(s.slots, i, e.fd);
      } else {
        assert News(s, i, io) == rest;
      }
    }
  }

  /** No client is received from twice in one pass. */
  lemma {:induction false} OneVisitPerPass(s: Server, io: Io)
    requires Table(s) && KernelOk(io)
    ensures NoRepeats(Actors(News(s, 0, io)))
  {
    var v := Visit(s, 0, io);
    var rest := News(v, 1, io);
    VisitKeepsTable(s, 0, io);
    ActorsAhead(v, 1, io);
    if v.history == s.history {
      assert News(s, 0, io) == rest;
    } else {
      var e := v.history[|s.history|];
      assert e.Join? && News(s, 0, io) == [e] + rest;
      assert ([e] + rest)[1..] == rest;
    }
  }

  // ---------------------------------------------------------------------------------------------
  // What the server makes of the kernel's answers
  // ---------------------------------------------------------------------------------------------

  /** t follows s by what the kernel answers at index i, told by descriptors and sends. */
  ghost predicate Obeys(s: Server, i: nat, io: Io, t: Server)
    requires i < |s.slots|
  {
    var fd := s.slots[i].fd;
    if !s.slots[i].ready then t == s
    else if fd == s.listener then
      var newFd := io.accept(Fds(s.slots));
      if newFd == -1 then t == s
      else
        && t.slots == s.slots + [PollFd(newFd, true, io.stale)]
        && t.sent == s.sent && t.history == s.history + [Join(newFd)]
    else if io.recv(i) == Failed || io.recv(i) == Got([]) then
      && Fds(t.slots) == Fds(s.slots) - {fd} && |t.slots| == |s.slots| - 1
      && t.sent == s.sent && t.history == s.history + [Leave(fd)]
    else
      && t.slots == s.slots
      && s.sent <= t.sent
      && multiset(t.sent[|s.sent|..]) == ToAll(Clients(s) - {fd}, fd, Said(io.recv(i).bytes))
      && t.history == s.history + [Say(fd, io.recv(i).bytes)]
  }

  lemma {:induction false} VisitObeys(s: Server, i: nat, io: Io)
    requires Table(s) && i < |s.slots|
    ensures Obeys(s, i, io, Visit(s, i, io))
  {
    var fd := s.slots[i].fd;
    if s.slots[i].ready && fd != s.listener {
      if io.recv(i) == Failed || io.recv(i) == Got([]) {
        DeleteRemoves(s.slots, i);
      } else {
        var sends := Broadcast(s.slots, s.listener, fd, Said(io.recv(i).bytes));
        BroadcastOnce(s.slots, s.listener, fd, Said(io.recv(i).bytes));
        assert Fds(s.slots) - {s.listener, fd} == Clients(s) - {fd};
        assert (s.sent + sends)[|s.sent|..] == sends;
      }
    }
  }

  /**
   * The events a pass over these slots makes of the kernel's answers from index i on: what recv returns
   * at a ready slot is said if it is a message, and otherwise the slot is lost to the last one.
   */
  function Answers(slots: seq<PollFd>, i: nat, recv: nat -> Received): seq<Event>
    decreases if i < |slots| then |slots| - i else 0
  {
    if i >= |slots| then []
    else if !slots[i].ready then Answers(slots, i + 1, recv)
    else if recv(i) == Failed || recv(i) == Got([]) then
      [Leave(slots[i].fd)] + Answers(slots[i := slots[|slots| - 1]][..|slots| - 1], i + 1, recv)
    else [Say(slots[i].fd, recv(i).bytes)] + Answers(slots, i + 1, recv)
  }

  lemma {:induction false} PassAnswers(s: Server, i: nat, io: Io)
    requires Table(s) && KernelOk(io) && 1 <= i
    ensures Pass(s, i, io).history == s.history + Answers(s.slots, i, io.recv)
    decreases if i < |s.slots| then |s.slots| - i else 0
  {
    if i < |s.slots| {
      VisitKeepsTable(s, i, io);
      PassAnswers(Visit(s, i, io), i + 1, io);
    }
  }

  /** The slots of a table as poll leaves them. */
  function Polled(slots: seq<PollFd>, revents: nat -> bool): seq<PollFd> {
    seq(|slots|, i requires 0 <= i < |slots| => PollFd(slots[i].fd, true, revents(i)))
  }

  /**
   * One turn: whom poll reports at the listener is let in under the descriptor accept returns, and then
   * every ready slot makes the event the kernel answers for it, none else and none twice.
   */
  lemma {:induction false} TurnAnswers(s: Server, t: Turn)
    requires Table(s) && KernelOk(t.io)
    ensures
      var slots := Polled(s.slots, t.revents);
      var newFd := t.io.accept(Fds(s.slots));
      TakeTurn(s, t).history ==
      if t.revents(0) && newFd != -1 then
        s.history + [Join(newFd)] + Answers(slots + [PollFd(newFd, true, t.io.stale)], 1, t.io.recv)
      else s.history + Answers(slots, 1, t.io.recv)
  {
    var r := Poll(s, t.revents);
    PollKeepsTable(s, t.revents);
    PolledFds(s, t.revents);
    VisitKeepsTable(r, 0, t.io);
    PassAnswers(Visit(r, 0, t.io), 1, t.io);
  }

  lemma {:induction false} PolledFds(s: Server, revents: nat -> bool)
    requires Table(s)
    ensures Poll(s, revents).slots == Polled(s.slots, revents) && Fds(Poll(s, revents).slots) == Fds(s.slots)
  {
    var t := Poll(s, revents);
    forall fd | fd in Fds(s.slots)
      ensures fd in Fds(t.slots)
    {
      var j :| 0 <= j < |s.slots| && s.slots[j].fd == fd;
      assert t.slots[j].fd == fd;
    }
  }

  /** A run takes its turns one after the other. */
  lemma {:induction false} RunByTurns(s: Server, turns: seq<Turn>, t: Turn)
    requires Table(s) && KernelAlwaysOk(turns + [t])
    ensures KernelAlwaysOk(turns) && KernelOk(t.io)
    ensures TakeTurns(s, turns + [t]) == TakeTurn(TakeTurns(s, turns), t)
    decreases |turns|
  {
    assert (turns + [t])[|turns|] == t;
    assert forall k | 0 <= k < |turns| :: (turns + [t])[k] == turns[k];
    if turns != [] {
      TurnKeepsTable(s, turns[0]);
      assert (turns + [t])[1..] == turns[1..] + [t];
      RunByTurns(TakeTurn(s, turns[0]), turns[1..], t);
    } else {
      TurnKeepsTable(s, t);
      assert (turns + [t])[1..] == [];
    }
  }

  // ---------------------------------------------------------------------------------------------
  // How long a ready client waits in the worst case
  // ---------------------------------------------------------------------------------------------

  /** So long a table that the deletions a pass can make before index p never leave p the last slot. */
  lemma {:induction false} LongTableServes(s: Server, i: nat, io: Io, p: nat)
    requires Table(s) && KernelOk(io) && i <= p && 1 <= p < |s.slots| && s.slots[p].ready
    requires |s.slots| >= if i == 0 then 2 * p else 2 * p + 1 - i
    ensures Served(s, Pass(s, i, io), s.slots[p].fd)
    decreases p - i
  {
    var v := Visit(s, i, io);
    var fd := s.slots[p].fd;
    VisitKeepsTable(s, i, io);
    PassKeepsListener(v, i + 1, io);
    if i == p {
      assert v.history[|s.history|].fd == fd;
      ServedStays(s, v, Pass(s, i, io), fd);
    } else {
      assert v.slots[p] == s.slots[p];
      LongTableServes(v, i + 1, io, p);
      ServedLater(s, v, Pass(v, i + 1, io), fd);
    }
  }

  lemma {:induction false} LongTableServesAtOnce(s: Server, t: Turn, p: nat)
    requires Table(s) && KernelOk(t.io) && 1 <= p < |s.slots| && 2 * p <= |s.slots| && t.revents(p)
    ensures Served(s, TakeTurn(s, t), s.slots[p].fd)
  {
    PollKeepsTable(s, t.revents);
    LongTableServes(Poll(s, t.revents), 0, t.io, p);
  }

  /** The clients from index lo on hang up, as many as a table of n slots needs to move the one at p. */
  ghost function HangUps(n: nat, p: nat): Turn {
    Turn(k => 2 * p - n <= k <= p, Io(_ => -1, false, _ => Got([])))
  }

  lemma {:induction false} PassSkips(s: Server, i: nat, io: Io, j: nat)
    requires Table(s) && KernelOk(io) && i <= j <= |s.slots|
    requires forall k | i <= k < j :: !s.slots[k].ready
    ensures Pass(s, i, io) == Pass(s, j, io)
    decreases j - i
  {
    if i < j {
      assert Visit(s, i, io) == s;
      PassSkips(s, i + 1, io, j);
    }
  }

  /** One deletion per index up to p - 1, where the client at p has become the last and moves back unserved. */
  lemma {:induction false} HangUpsMove(s: Server, i: nat, io: Io, p: nat)
    requires Table(s) && KernelOk(io) && 1 <= i < p && |s.slots| == 2 * p - i
    requires forall k | i <= k <= p :: s.slots[k].ready
    requires forall k :: io.recv(k) == Got([])
    ensures
      var t := Pass(s, i, io);
      var fd := s.slots[p].fd;
      |t.slots| == p && t.slots[p - 1].fd == fd && s.history <= t.history && !Served(s, t, fd)
    decreases p - i
  {
    var v := Visit(s, i, io);
    var fd := s.slots[p].fd;
    VisitKeepsTable(s, i, io);
    PassKeepsListener(v, i + 1, io);
    assert s.slots[i].fd != s.listener && s.slots[i].fd != fd;
    assert io.recv(i) == Got([]);
    assert v.slots == Delete(s.slots, i) && v.history == s.history + [Leave(s.slots[i].fd)];
    assert !Served(s, v, fd);
    if i + 1 < p {
      HangUpsMove(v, i + 1, io, p);
    }
    NotServedInTwoParts(s, v, Pass(v, i + 1, io), fd);
  }

  /** In a shorter table the kernel can keep the client at p unserved and leave it last at p - 1. */
  lemma {:induction false} ShortTableDefers(s: Server, p: nat)
    requires Table(s) && 1 <= p < |s.slots| < 2 * p
    ensures
      var turn := HangUps(|s.slots|, p);
      var fd := s.slots[p].fd;
      && KernelOk(turn.io) && turn.revents(p)
      && var t := TakeTurn(s, turn);
      Table(t) && |t.slots| == p && t.slots[p - 1].fd == fd && s.history <= t.history && !Served(s, t, fd)
  {
    var n := |s.slots|;
    var turn := HangUps(n, p);
    var r := Poll(s, turn.revents);
    PollKeepsTable(s, turn.revents);
    TurnKeepsTable(s, turn);
    PassSkips(r, 0, turn.io, 2 * p - n);
    HangUpsMove(r, 2 * p - n, turn.io, p);
  }

  lemma NotServedInTwoParts(s: Server, t: Server, u: Server, fd: int)
    requires s.history <= t.history <= u.history
    requires !Served(s, t, fd) && !Served(t, u, fd)
    ensures !Served(s, u, fd)
  {
  }

  /** A client at p is sure to be served in the pass that finds it ready exactly in a table of 2 * p slots or more. */
  lemma {:induction false} ServedAtOnceIff(s: Server, p: nat)
    requires Table(s) && 1 <= p < |s.slots|
    ensures
      (forall t: Turn | KernelOk(t.io) && t.revents(p) :: Served(s, TakeTurn(s, t), s.slots[p].fd)) <==>
      |s.slots| >= 2 * p
  {
    if |s.slots| >= 2 * p {
      forall t: Turn | KernelOk(t.io) && t.revents(p)
        ensures Served(s, TakeTurn(s, t), s.slots[p].fd)
      {
        LongTableServesAtOnce(s, t, p);
      }
    } else {
      ShortTableDefers(s, p);
    }
  }

  /** Clients that hang up keep a client of a shorter table waiting to the very last turn of its bound. */
  lemma {:induction false} DeferralIsTight(s: Server, p: nat) returns (turns: seq<Turn>)
    requires Table(s) && 1 <= p < |s.slots| && (|s.slots| < 2 * p || p == 1)
    ensures |turns| == p - 1 && KernelAlwaysOk(turns) && StaysReady(s, turns, s.slots[p].fd)
    ensures !Served(s, TakeTurns(s, turns), s.slots[p].fd)
    decreases p
  {
    var fd := s.slots[p].fd;
    if p == 1 {
      turns := [];
    } else {
      ShortTableDefers(s, p);
      var turn := HangUps(|s.slots|, p);
      var t := TakeTurn(s, turn);
      var rest := DeferralIsTight(t, p - 1);
      turns := [turn] + rest;
      assert turns[1..] == rest;
      TurnsKeepListener(t, rest);
      NotServedInTwoParts(s, t, TakeTurns(t, rest), fd);
    }
  }

  /** How many turns a ready client at index p of a table of n slots waits at most. */
  function LongestWait(n: nat, p: nat): nat {
    if 2 * p <= n then 1 else p
  }

  /** Whatever the kernel does, a client that stays ready is served within that many turns, and no sooner for sure. */
  lemma {:induction false} WorstCase(s: Server, p: nat)
    requires Table(s) && 1 <= p < |s.slots|
    ensures forall turns |
      KernelAlwaysOk(turns) && |turns| >= LongestWait(|s.slots|, p) && StaysReady(s, turns, s.slots[p].fd) ::
      Served(s, TakeTurns(s, turns), s.slots[p].fd)
    ensures exists turns ::
      && KernelAlwaysOk(turns) && |turns| == LongestWait(|s.slots|, p) - 1
      && StaysReady(s, turns, s.slots[p].fd) && !Served(s, TakeTurns(s, turns), s.slots[p].fd)
  {
    var fd := s.slots[p].fd;
    forall turns | KernelAlwaysOk(turns) && |turns| >= LongestWait(|s.slots|, p) && StaysReady(s, turns, fd)
      ensures Served(s, TakeTurns(s, turns), fd)
    {
      if 2 * p <= |s.slots| {
        var t := TakeTurn(s, turns[0]);
        LongTableServesAtOnce(s, turns[0], p);
        TurnKeepsTable(s, turns[0]);
        TurnsKeepListener(t, turns[1..]);
        ServedStays(s, t, TakeTurns(s, turns), fd);
      } else {
        ServedWithinIndex(s, turns, p);
      }
    }
    var turns := [];
    if 2 * p > |s.slots| {
      turns := DeferralIsTight(s, p);
    }
    assert KernelAlwaysOk(turns) && StaysReady(s, turns, fd) && !Served(s, TakeTurns(s, turns), fd);
  }
}
