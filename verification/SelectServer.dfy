/** The telnet server over select: master set, snapshot, high-water mark, and the class that updates them. */
module SelectServer {
  import opened Basics
  import opened ChatRoom

  /** history is a record; no step depends on it. */
  datatype Server = Server(listener: int, master: set<int>, fdMax: int, sent: seq<Delivery>, history: seq<Event>)

  /** The kernel's answers during one pass: accept, given the open descriptors, and recv, empty at hang-up. */
  datatype Io = Io(accept: set<int> -> int, recv: int -> seq<Byte>)

  /** One turn of the endless loop: which of the given descriptors select leaves in the snapshot. */
  datatype Turn = Turn(select: set<int> -> set<int>, io: Io)

  ghost predicate KernelOk(io: Io) {
    forall open :: Fresh(io.accept(open), open)
  }

  ghost predicate KernelAlwaysOk(turns: seq<Turn>) {
    forall k | 0 <= k < |turns| :: KernelOk(turns[k].io) && forall m :: turns[k].select(m) <= m
  }

  function Clients(s: Server): set<int> {
    s.master - {s.listener}
  }

  function Start(listener: int): Server {
    Server(listener, {listener}, listener, [], [])
  }

  /** The broadcast loops: one send per member below n other than the listener and the one it is about. */
  function Broadcast(master: set<int>, n: nat, listener: int, about: int, note: Note): seq<Delivery> {
    if n == 0 then []
    else
      Broadcast(master, n - 1, listener, about, note) +
      if n - 1 in master && n - 1 != listener && n - 1 != about then [Delivery(n - 1, about, note)] else []
  }

  /** All of the master set is below this. */
  function Bound(s: Server): nat {
    if s.fdMax < 0 then 0 else s.fdMax + 1
  }

  function Accept(s: Server, fd: int): Server {
    if fd == -1 then s
    else
      var t := Joining(s, fd);
      t.(
        sent := s.sent + Broadcast(t.master, Bound(t), s.listener, fd, Joined),
        history := s.history + [Join(fd)])
  }

  function Receive(s: Server, fd: int, message: seq<Byte>): Server {
    if message == [] then
      s.(
        master := s.master - {fd},
        sent := s.sent + Broadcast(s.master, Bound(s), s.listener, fd, Left),
        history := s.history + [Leave(fd)])
    else
      s.(
        sent := s.sent + Broadcast(s.master, Bound(s), s.listener, fd, Said(message)),
        history := s.history + [Say(fd, message)])
  }

  /** One iteration of the pass: the test is against the snapshot, the work on the master set. */
  function Visit(s: Server, snapshot: set<int>, i: nat, io: Io): Server {
    if i !in snapshot then s
    else if i == s.listener then Accept(s, io.accept(s.master))
    else Receive(s, i, io.recv(i))
  }

  /** The rest of a pass; the bound fd_max + 1 is evaluated anew each time. */
  function Pass(s: Server, snapshot: set<int>, i: nat, io: Io): Server
    decreases if i <= s.listener then 1 else 0, if i <= s.fdMax + 1 then s.fdMax + 2 - i else 0
  {
    if i > s.fdMax + 1 then s else Pass(Visit(s, snapshot, i, io), snapshot, i + 1, io)
  }

  function TakeTurn(s: Server, t: Turn): Server {
    Pass(s, t.select(s.master), 0, t.io)
  }

  function TakeTurns(s: Server, turns: seq<Turn>): Server
    decreases |turns|
  {
    if turns == [] then s else TakeTurns(TakeTurn(s, turns[0]), turns[1..])
  }

  // ---------------------------------------------------------------------------------------------
  // What every step keeps
  // ---------------------------------------------------------------------------------------------

  /** fd_max bounds the master set, and the listener is in it. */
  ghost predicate Sets(s: Server) {
    && s.listener in s.master
    && forall fd | fd in s.master :: 0 <= fd <= s.fdMax
  }

  ghost predicate Refines(s: Server) {
    && Lived(true, s.history)
    && After(true, s.history) == Room(Clients(s), multiset(s.sent))
    && ToOthersOnly(s.sent, s.listener)
    && InOrder(true, s.sent, s.history)
  }

  /** What is still to be visited is in the master set. */
  ghost predicate Pending(s: Server, snapshot: set<int>, i: nat) {
    forall fd | fd in snapshot && fd >= i :: fd in s.master
  }

  function Audience(master: set<int>, n: nat, listener: int, about: int): set<int> {
    set fd | fd in master && 0 <= fd < n && fd != listener && fd != about
  }

  predicate Hears(master: set<int>, fd: nat, listener: int, about: int) {
    fd in master && fd != listener && fd != about
  }

  lemma BroadcastStep(master: set<int>, n: nat, listener: int, about: int, note: Note)
    ensures
      multiset(Broadcast(master, n + 1, listener, about, note)) ==
      multiset(Broadcast(master, n, listener, about, note)) +
      if Hears(master, n, listener, about) then multiset{Delivery(n, about, note)} else multiset{}
  {
  }

  lemma AudienceStep(master: set<int>, n: nat, listener: int, about: int)
    ensures
      Audience(master, n + 1, listener, about) ==
      Audience(master, n, listener, about) + if Hears(master, n, listener, about) then {n} else {}
    ensures n !in Audience(master, n, listener, about)
  {
  }

  lemma BroadcastToNone(master: set<int>, listener: int, about: int, note: Note)
    ensures Broadcast(master, 0, listener, about, note) == []
    ensures ToAll(Audience(master, 0, listener, about), about, note) == multiset{}
  {
  }

  lemma {:induction false} BroadcastBelow(master: set<int>, n: nat, listener: int, about: int, note: Note)
    ensures
      multiset(Broadcast(master, n, listener, about, note)) ==
      ToAll(Audience(master, n, listener, about), about, note)
  {
    hide Audience, ToAll, Broadcast, Hears;
    if n == 0 {
      BroadcastToNone(master, listener, about, note);
    } else {
      var others := Audience(master, n - 1, listener, about);
      BroadcastBelow(master, n - 1, listener, about, note);
      BroadcastStep(master, n - 1, listener, about, note);
      AudienceStep(master, n - 1, listener, about);
      if Hears(master, n - 1, listener, about) {
        ToOneMore(others, n - 1, about, note);
      } else {
        assert others + {} == others;
      }
    }
  }

  /** Every broadcast reaches each client other than the one it is about once, and never the listener. */
  lemma {:induction false} BroadcastOnce(s: Server, about: int, note: Note)
    requires Sets(s)
    ensures
      multiset(Broadcast(s.master, Bound(s), s.listener, about, note)) == ToAll(Clients(s) - {about}, about, note)
  {
    hide Broadcast, ToAll;
    BroadcastBelow(s.master, Bound(s), s.listener, about, note);
    assert Clients(s) - {about} == Audience(s.master, Bound(s), s.listener, about);
  }

  lemma {:induction false} BroadcastToOthers(master: set<int>, n: nat, listener: int, about: int, note: Note)
    ensures ToOthersOnly(Broadcast(master, n, listener, about, note), listener)
  {
    if n > 0 {
      BroadcastToOthers(master, n - 1, listener, about, note);
    }
  }

  function Joining(s: Server, fd: int): Server {
    s.(master := s.master + {fd}, fdMax := if fd > s.fdMax then fd else s.fdMax)
  }

  lemma {:induction false} JoiningKeeps(s: Server, fd: int)
    requires Sets(s) && fd >= 0 && fd !in s.master
    ensures Sets(Joining(s, fd)) && s.fdMax <= Joining(s, fd).fdMax
    ensures Clients(Joining(s, fd)) == Clients(s) + {fd} && Clients(Joining(s, fd)) - {fd} == Clients(s) - {fd}
  {
  }

  lemma {:induction false} AcceptKeeps(s: Server, fd: int)
    requires Sets(s) && Refines(s) && Fresh(fd, s.master)
    ensures Sets(Accept(s, fd)) && Refines(Accept(s, fd)) && s.fdMax <= Accept(s, fd).fdMax
  {
    if fd != -1 {
      JoiningKeeps(s, fd);
      BroadcastOnce(Joining(s, fd), fd, Joined);
      BroadcastToOthers(Joining(s, fd).master, Bound(Joining(s, fd)), s.listener, fd, Joined);
      hide Lived, After, Broadcast, ToAll, Clients;
      LivedStep(true, s.history, Join(fd));
      NotAClient(s, fd);
      var t := Joining(s, fd);
      InOrderStep(true, s.sent, s.history, Join(fd), Broadcast(t.master, Bound(t), s.listener, fd, Joined));
    }
  }

  lemma NotAClient(s: Server, fd: int)
    requires fd !in s.master
    ensures fd !in Clients(s)
  {
  }

  lemma {:induction false} ReceiveKeeps(s: Server, fd: int, message: seq<Byte>)
    requires Sets(s) && Refines(s) && fd in s.master && fd != s.listener
    ensures Sets(Receive(s, fd, message)) && Refines(Receive(s, fd, message))
  {
    hide Lived, After, Broadcast, ToAll;
    if message == [] {
      LivedStep(true, s.history, Leave(fd));
      BroadcastOnce(s, fd, Left);
      BroadcastToOthers(s.master, Bound(s), s.listener, fd, Left);
      InOrderStep(true, s.sent, s.history, Leave(fd), Broadcast(s.master, Bound(s), s.listener, fd, Left));
      assert Clients(Receive(s, fd, message)) == Clients(s) - {fd};
    } else {
      LivedStep(true, s.history, Say(fd, message));
      BroadcastOnce(s, fd, Said(message));
      BroadcastToOthers(s.master, Bound(s), s.listener, fd, Said(message));
      var sends := Broadcast(s.master, Bound(s), s.listener, fd, Said(message));
      InOrderStep(true, s.sent, s.history, Say(fd, message), sends);
    }
  }

  lemma {:induction false} VisitKeeps(s: Server, snapshot: set<int>, i: nat, io: Io)
    requires Sets(s) && Refines(s) && KernelOk(io) && Pending(s, snapshot, i)
    ensures
      var t := Visit(s, snapshot, i, io);
      && Sets(t) && Refines(t) && Pending(t, snapshot, i + 1)
      && t.listener == s.listener && s.fdMax <= t.fdMax && s.history <= t.history
  {
    hide Refines, Broadcast;
    if i in snapshot && i == s.listener {
      var open := s.master;
      assert Fresh(io.accept(open), open);
      AcceptKeeps(s, io.accept(open));
    } else if i in snapshot {
      ReceiveKeeps(s, i, io.recv(i));
    }
  }

  /** Every descriptor of the snapshot that the pass comes to is in the master set at that point. */
  ghost predicate VisitsMembersOnly(s: Server, snapshot: set<int>, i: nat, io: Io)
    decreases if i <= s.listener then 1 else 0, if i <= s.fdMax + 1 then s.fdMax + 2 - i else 0
  {
    i > s.fdMax + 1 || (
      && (i in snapshot ==> i in s.master)
      && VisitsMembersOnly(Visit(s, snapshot, i, io), snapshot, i + 1, io))
  }

  lemma {:induction false} PassKeeps(s: Server, snapshot: set<int>, i: nat, io: Io)
    requires Sets(s) && Refines(s) && KernelOk(io) && Pending(s, snapshot, i)
    ensures
      var t := Pass(s, snapshot, i, io);
      && Sets(t) && Refines(t) && t.listener == s.listener && s.fdMax <= t.fdMax && s.history <= t.history
    ensures VisitsMembersOnly(s, snapshot, i, io)
    decreases if i <= s.listener then 1 else 0, if i <= s.fdMax + 1 then s.fdMax + 2 - i else 0
  {
    hide Refines, Sets, Pending, Visit;
    if i <= s.fdMax + 1 {
      var v := Visit(s, snapshot, i, io);
      PendingNow(s, snapshot, i);
      VisitKeeps(s, snapshot, i, io);
      VisitBound(s, snapshot, i, io);
      PassKeeps(v, snapshot, i + 1, io);
    }
  }

  lemma PendingNow(s: Server, snapshot: set<int>, i: nat)
    requires Pending(s, snapshot, i)
    ensures i in snapshot ==> i in s.master
  {
  }

  lemma VisitBound(s: Server, snapshot: set<int>, i: nat, io: Io)
    ensures i != s.listener ==> Visit(s, snapshot, i, io).fdMax == s.fdMax
  {
  }

  // ---------------------------------------------------------------------------------------------
  // One pass
  // ---------------------------------------------------------------------------------------------

  /** What a pass from i on adds to the history. */
  ghost function News(s: Server, snapshot: set<int>, i: nat, io: Io): (events: seq<Event>)
    requires Sets(s) && Refines(s) && KernelOk(io) && Pending(s, snapshot, i)
    ensures Pass(s, snapshot, i, io).history == s.history + events
  {
    PassKeeps(s, snapshot, i, io);
    Pass(s, snapshot, i, io).history[|s.history|..]
  }

  /** The clients of a snapshot from i to n, in rising order. */
  function Rising(snapshot: set<int>, listener: int, i: nat, n: nat): (fds: seq<int>)
    ensures forall fd :: fd in fds <==> fd in snapshot && fd != listener && i <= fd < n
    decreases n - i
  {
    if i >= n then []
    else (if i in snapshot && i != listener then [i] else []) + Rising(snapshot, listener, i + 1, n)
  }

  predicate Rises(fds: seq<int>) {
    forall j, k | 0 <= j < k < |fds| :: fds[j] < fds[k]
  }

  lemma RisesFrom(fd: int, rest: seq<int>)
    requires Rises(rest) && forall other | other in rest :: fd < other
    ensures Rises([fd] + rest)
  {
    var fds := [fd] + rest;
    assert forall k | 0 < k < |fds| :: fds[k] == rest[k - 1] && fds[k] in rest;
  }

  lemma {:induction false} RisingRises(snapshot: set<int>, listener: int, i: nat, n: nat)
    ensures Rises(Rising(snapshot, listener, i, n))
    decreases n - i
  {
    if i < n {
      hide Rises;
      RisingRises(snapshot, listener, i + 1, n);
      RisesFrom(i, Rising(snapshot, listener, i + 1, n));
    }
  }

  lemma {:induction false} NoneLeft(s: Server, snapshot: set<int>, i: nat, n: nat)
    requires Sets(s) && Pending(s, snapshot, i) && i > s.fdMax
    ensures Rising(snapshot, s.listener, i, n) == []
    decreases n - i
  {
    if i < n {
      assert i !in snapshot;
      NoneLeft(s, snapshot, i + 1, n);
    }
  }

  /** The event of one iteration, if there is one. */
  lemma {:induction false} VisitNews(s: Server, snapshot: set<int>, i: nat, io: Io) returns (events: seq<Event>)
    ensures Visit(s, snapshot, i, io).history == s.history + events
    ensures forall rest ::
      Actors(events + rest) == (if i in snapshot && i != s.listener then [i] else []) + Actors(rest)
  {
    var v := Visit(s, snapshot, i, io);
    events := v.history[|s.history|..];
    forall rest: seq<Event>
      ensures Actors(events + rest) == (if i in snapshot && i != s.listener then [i] else []) + Actors(rest)
    {
      if events == [] {
        assert events + rest == rest;
      } else {
        assert (events + rest)[1..] == rest;
      }
    }
  }

  lemma {:induction false} ActorsAreTheSnapshot(s: Server, snapshot: set<int>, i: nat, io: Io, n: nat)
    requires Sets(s) && Refines(s) && KernelOk(io) && Pending(s, snapshot, i)
    requires forall fd | fd in snapshot :: fd < n
    ensures Actors(News(s, snapshot, i, io)) == Rising(snapshot, s.listener, i, n)
    decreases if i <= s.listener then 1 else 0, if i <= s.fdMax + 1 then s.fdMax + 2 - i else 0
  {
    hide Sets, Refines, Pending, KernelOk, Visit, Actors;
    if i > s.fdMax + 1 {
      NoneLeft(s, snapshot, i, n);
      assert News(s, snapshot, i, io) == [];
      ActorsOfNone();
    } else {
      var v := Visit(s, snapshot, i, io);
      VisitKeeps(s, snapshot, i, io);
      VisitBound(s, snapshot, i, io);
      var events := VisitNews(s, snapshot, i, io);
      var rest := News(v, snapshot, i + 1, io);
      ActorsAreTheSnapshot(v, snapshot, i + 1, io, n);
      assert News(s, snapshot, i, io) == events + rest;
    }
  }

  lemma ActorsOfNone()
    ensures Actors([]) == []
  {
  }

  /**
   * In one pass every client of the snapshot is received from exactly once, in rising order, even
   * when accept hands out a descriptor that was closed earlier in the pass; fd_max does not fall.
   */
  lemma {:induction false} PassServesSnapshot(s: Server, snapshot: set<int>, io: Io)
    requires Sets(s) && Refines(s) && KernelOk(io) && snapshot <= s.master
    ensures Actors(News(s, snapshot, 0, io)) == Rising(snapshot, s.listener, 0, Bound(s))
    ensures NoRepeats(Actors(News(s, snapshot, 0, io)))
    ensures forall fd :: fd in Actors(News(s, snapshot, 0, io)) <==> fd in snapshot - {s.listener}
    ensures s.fdMax <= Pass(s, snapshot, 0, io).fdMax
  {
    PassKeeps(s, snapshot, 0, io);
    ActorsAreTheSnapshot(s, snapshot, 0, io, Bound(s));
    RisingRises(snapshot, s.listener, 0, Bound(s));
  }

  // ---------------------------------------------------------------------------------------------
  // What the server makes of the kernel's answers
  // ---------------------------------------------------------------------------------------------

  /** t follows s by what the kernel answers at descriptor i, told by the master set and the sends. */
  ghost predicate Obeys(s: Server, snapshot: set<int>, i: nat, io: Io, t: Server) {
    if i !in snapshot then t == s
    else if i == s.listener then
      var newFd := io.accept(s.master);
      if newFd == -1 then t == s
      else
        && t.master == s.master + {newFd} && t.fdMax == (if newFd > s.fdMax then newFd else s.fdMax)
        && s.sent <= t.sent && multiset(t.sent[|s.sent|..]) == ToAll(Clients(s), newFd, Joined)
        && t.history == s.history + [Join(newFd)]
    else if io.recv(i) == [] then
      && t.master == s.master - {i} && t.fdMax == s.fdMax
      && s.sent <= t.sent && multiset(t.sent[|s.sent|..]) == ToAll(Clients(s) - {i}, i, Left)
      && t.history == s.history + [Leave(i)]
    else
      && t.master == s.master && t.fdMax == s.fdMax
      && s.sent <= t.sent && multiset(t.sent[|s.sent|..]) == ToAll(Clients(s) - {i}, i, Said(io.recv(i)))
      && t.history == s.history + [Say(i, io.recv(i))]
  }

  lemma Appended<T>(a: seq<T>, b: seq<T>)
    ensures a <= a + b && (a + b)[|a|..] == b
  {
  }

  lemma {:induction false} VisitObeys(s: Server, snapshot: set<int>, i: nat, io: Io)
    requires Sets(s) && KernelOk(io)
    ensures Obeys(s, snapshot, i, io, Visit(s, snapshot, i, io))
  {
    hide Broadcast, ToAll;
    if i in snapshot && i == s.listener {
      var newFd := io.accept(s.master);
      assert Fresh(newFd, s.master);
      if newFd != -1 {
        var t := Joining(s, newFd);
        JoiningKeeps(s, newFd);
        NotAClient(s, newFd);
        BroadcastOnce(t, newFd, Joined);
        assert Clients(t) - {newFd} == Clients(s);
        Appended(s.sent, Broadcast(t.master, Bound(t), s.listener, newFd, Joined));
      }
    } else if i in snapshot {
      var note := if io.recv(i) == [] then Left else Said(io.recv(i));
      BroadcastOnce(s, i, note);
      Appended(s.sent, Broadcast(s.master, Bound(s), s.listener, i, note));
    }
  }

  /** The event of each descriptor of the snapshot from i to n: what recv returns is said, if it is not empty. */
  function Answers(snapshot: set<int>, i: nat, n: nat, recv: int -> seq<Byte>): seq<Event>
    decreases n - i
  {
    if i >= n then []
    else
      (if i !in snapshot then [] else if recv(i) == [] then [Leave(i)] else [Say(i, recv(i))]) +
      Answers(snapshot, i + 1, n, recv)
  }

  /** The descriptors of the snapshot from i to n that hang up. */
  function HungUp(snapshot: set<int>, i: nat, n: nat, recv: int -> seq<Byte>): set<int> {
    set fd | fd in snapshot && i <= fd < n && recv(fd) == []
  }

  lemma HungUpStep(snapshot: set<int>, i: nat, n: nat, recv: int -> seq<Byte>)
    requires i < n
    ensures
      HungUp(snapshot, i, n, recv) ==
      HungUp(snapshot, i + 1, n, recv) + if i in snapshot && recv(i) == [] then {i} else {}
  {
  }

  lemma {:induction false} NoAnswers(s: Server, snapshot: set<int>, i: nat, n: nat, recv: int -> seq<Byte>)
    requires Sets(s) && Pending(s, snapshot, i) && i > s.fdMax
    ensures Answers(snapshot, i, n, recv) == [] && HungUp(snapshot, i, n, recv) == {}
    decreases n - i
  {
    if i < n {
      assert i !in snapshot;
      NoAnswers(s, snapshot, i + 1, n, recv);
    }
  }

  /** What one client's iteration adds to the history and takes from the master set. */
  lemma {:induction false} ClientAnswers(s: Server, snapshot: set<int>, i: nat, io: Io, n: nat)
    requires i != s.listener && i < n
    ensures
      var v := Visit(s, snapshot, i, io);
      && v.listener == s.listener && v.fdMax == s.fdMax
      && v.history + Answers(snapshot, i + 1, n, io.recv) == s.history + Answers(snapshot, i, n, io.recv)
      && v.master - HungUp(snapshot, i + 1, n, io.recv) == s.master - HungUp(snapshot, i, n, io.recv)
  {
    HungUpStep(snapshot, i, n, io.recv);
    hide HungUp, Broadcast;
    var v := Visit(s, snapshot, i, io);
    assert v.master == s.master - if i in snapshot && io.recv(i) == [] then {i} else {};
  }

  /** The rest of a pass past the listener. */
  lemma {:induction false} AnswersAbove(s: Server, snapshot: set<int>, i: nat, io: Io, n: nat)
    requires Sets(s) && Refines(s) && KernelOk(io) && Pending(s, snapshot, i) && s.listener < i
    requires forall fd | fd in snapshot :: fd < n
    ensures
      var t := Pass(s, snapshot, i, io);
      && t.history == s.history + Answers(snapshot, i, n, io.recv)
      && t.master == s.master - HungUp(snapshot, i, n, io.recv)
    decreases s.fdMax + 2 - i
  {
    hide Sets, Refines, KernelOk, Pending, Visit, Answers, HungUp;
    if i > s.fdMax + 1 {
      NoAnswers(s, snapshot, i, n, io.recv);
    } else {
      var v := Visit(s, snapshot, i, io);
      VisitKeeps(s, snapshot, i, io);
      VisitBound(s, snapshot, i, io);
      AnswersAbove(v, snapshot, i + 1, io, n);
      if i < n {
        ClientAnswers(s, snapshot, i, io, n);
      } else {
        NothingFrom(s, snapshot, i, io, n);
      }
    }
  }

  lemma NothingFrom(s: Server, snapshot: set<int>, i: nat, io: Io, n: nat)
    requires n <= i && forall fd | fd in snapshot :: fd < n
    ensures Visit(s, snapshot, i, io) == s
    ensures Answers(snapshot, i, n, io.recv) == Answers(snapshot, i + 1, n, io.recv) == []
    ensures HungUp(snapshot, i, n, io.recv) == HungUp(snapshot, i + 1, n, io.recv) == {}
  {
  }

  lemma NoneBetween(snapshot: set<int>, i: nat, recv: int -> seq<Byte>)
    ensures Answers(snapshot, i, i, recv) == [] && HungUp(snapshot, i, i, recv) == {}
  {
  }

  /** The part of a pass before the listener, which leads to r. */
  lemma {:induction false} AnswersBelow(s: Server, snapshot: set<int>, i: nat, io: Io) returns (r: Server)
    requires Sets(s) && Refines(s) && KernelOk(io) && Pending(s, snapshot, i) && i <= s.listener
    ensures r.listener == s.listener && r.fdMax == s.fdMax
    ensures Sets(r) && Refines(r) && Pending(r, snapshot, r.listener)
    ensures Pass(s, snapshot, i, io) == Pass(r, snapshot, r.listener, io)
    ensures r.history == s.history + Answers(snapshot, i, s.listener, io.recv)
    ensures r.master == s.master - HungUp(snapshot, i, s.listener, io.recv)
    decreases s.listener - i
  {
    hide Refines, KernelOk, Pending, Visit, Answers, HungUp;
    assert s.listener <= s.fdMax;
    hide Sets;
    if i == s.listener {
      r := s;
      NoneBetween(snapshot, i, io.recv);
    } else {
      VisitKeeps(s, snapshot, i, io);
      r := AnswersBelow(Visit(s, snapshot, i, io), snapshot, i + 1, io);
      ClientAnswers(s, snapshot, i, io, s.listener);
    }
  }

  /**
   * One turn, by the kernel's answers alone: each client select reports says what recv returns, or leaves if
   * that is empty, in rising order, and between those below and above it the listener lets in the descriptor
   * accept returns. Nobody else leaves or joins the master set.
   */
  lemma {:induction false} TurnAnswers(s: Server, t: Turn)
    requires Sets(s) && Refines(s) && KernelOk(t.io) && t.select(s.master) <= s.master
    ensures
      var snapshot, recv, n := t.select(s.master), t.io.recv, Bound(s);
      var newFd := t.io.accept(s.master - HungUp(snapshot, 0, s.listener, recv));
      var joins := s.listener in snapshot && newFd != -1;
      && TakeTurn(s, t).history ==
        s.history + Answers(snapshot, 0, s.listener, recv) +
        (if joins then [Join(newFd)] else []) + Answers(snapshot, s.listener + 1, n, recv)
      && TakeTurn(s, t).master ==
        s.master - HungUp(snapshot, 0, s.listener, recv) - HungUp(snapshot, s.listener + 1, n, recv) +
        if joins then {newFd} else {}
  {
    var snapshot, recv, n := t.select(s.master), t.io.recv, Bound(s);
    hide Refines, Visit, Answers, HungUp;
    assert Pending(s, snapshot, 0) && s.listener <= s.fdMax && forall fd | fd in snapshot :: fd < n;
    var r := AnswersBelow(s, snapshot, 0, t.io);
    ListenerAnswers(r, snapshot, t.io);
    HungUpArePending(r, snapshot, r.listener + 1, n, recv);
    var v := Visit(r, snapshot, r.listener, t.io);
    VisitKeeps(r, snapshot, r.listener, t.io);
    hide Sets, KernelOk, Pending;
    AnswersAbove(v, snapshot, r.listener + 1, t.io, n);
  }

  /** The listener's iteration. */
  lemma {:induction false} ListenerAnswers(r: Server, snapshot: set<int>, io: Io)
    requires Sets(r) && KernelOk(io)
    ensures
      var newFd := io.accept(r.master);
      var v := Visit(r, snapshot, r.listener, io);
      var joins := r.listener in snapshot && newFd != -1;
      && v.listener == r.listener && newFd !in r.master
      && v.history == r.history + (if joins then [Join(newFd)] else [])
      && v.master == r.master + if joins then {newFd} else {}
  {
    hide Broadcast;
    assert Fresh(io.accept(r.master), r.master);
  }

  lemma HungUpArePending(s: Server, snapshot: set<int>, i: nat, n: nat, recv: int -> seq<Byte>)
    requires i > 0 && Pending(s, snapshot, i - 1)
    ensures HungUp(snapshot, i, n, recv) <= s.master
  {
  }

  /** A run takes its turns one after the other. */
  lemma {:induction false} RunByTurns(s: Server, turns: seq<Turn>, t: Turn)
    ensures TakeTurns(s, turns + [t]) == TakeTurn(TakeTurns(s, turns), t)
    decreases |turns|
  {
    if turns != [] {
      assert (turns + [t])[1..] == turns[1..] + [t];
      RunByTurns(TakeTurn(s, turns[0]), turns[1..], t);
    } else {
      assert (turns + [t])[1..] == [];
    }
  }

  // ---------------------------------------------------------------------------------------------
  // Descriptors that come back within a pass
  // ---------------------------------------------------------------------------------------------

  lemma VisitsAnother(s: Server, snapshot: set<int>, i: nat, io: Io, fd: int)
    requires i != fd && i != s.listener
    ensures fd in Visit(s, snapshot, i, io).master <==> fd in s.master
  {
  }

  /** Past both the listener and fd a pass neither adds nor removes fd. */
  lemma {:induction false} PastBoth(s: Server, snapshot: set<int>, i: nat, io: Io, fd: int)
    requires s.listener < i && fd < i
    ensures fd in Pass(s, snapshot, i, io).master <==> fd in s.master
    decreases s.fdMax + 2 - i
  {
    if i <= s.fdMax + 1 {
      hide Visit;
      VisitsAnother(s, snapshot, i, io, fd);
      VisitBound(s, snapshot, i, io);
      PastBoth(Visit(s, snapshot, i, io), snapshot, i + 1, io, fd);
    }
  }

  lemma HangsUp(s: Server, snapshot: set<int>, fd: nat, io: Io)
    requires fd in snapshot && fd != s.listener && io.recv(fd) == []
    ensures fd !in Visit(s, snapshot, fd, io).master
  {
  }

  /** A client above the listener that hangs up cannot rejoin: accept has had its turn. */
  lemma {:induction false} NoRejoin(s: Server, snapshot: set<int>, i: nat, io: Io, fd: int)
    requires Sets(s) && Refines(s) && KernelOk(io) && Pending(s, snapshot, i)
    requires i <= fd && s.listener < fd && fd in snapshot && io.recv(fd) == []
    ensures fd !in Pass(s, snapshot, i, io).master
    decreases fd - i
  {
    hide Refines, KernelOk, Visit;
    assert fd in s.master && i <= s.fdMax;
    hide Sets, Pending;
    var v := Visit(s, snapshot, i, io);
    VisitKeeps(s, snapshot, i, io);
    if i == fd {
      HangsUp(s, snapshot, fd, io);
      PastBoth(v, snapshot, i + 1, io, fd);
    } else {
      NoRejoin(v, snapshot, i + 1, io, fd);
    }
  }

  /** A kernel on which fd hangs up, and which hands fd out again as soon as it is free. */
  function Recycling(fd: nat): Io {
    Io(open => if fd in open then -1 else fd, _ => [])
  }

  lemma Recycled(s: Server, snapshot: set<int>, i: nat, fd: nat)
    requires i == s.listener && i in snapshot
    ensures KernelOk(Recycling(fd))
    ensures fd in Visit(s, snapshot, i, Recycling(fd)).master
  {
  }

  /** At fd it hangs up, up to the listener nothing is accepted, there it is back. */
  lemma {:induction false} Rejoins(s: Server, snapshot: set<int>, i: nat, fd: nat)
    requires Sets(s) && Refines(s) && Pending(s, snapshot, i)
    requires fd < s.listener && s.listener in snapshot && i <= s.listener
    ensures fd in Pass(s, snapshot, i, Recycling(fd)).master
    decreases s.listener - i
  {
    hide Refines, Visit;
    assert KernelOk(Recycling(fd)) && s.listener <= s.fdMax;
    hide Sets, KernelOk, Pending, Recycling;
    var v := Visit(s, snapshot, i, Recycling(fd));
    VisitKeeps(s, snapshot, i, Recycling(fd));
    if i == s.listener {
      Recycled(s, snapshot, i, fd);
      PastBoth(v, snapshot, i + 1, Recycling(fd), fd);
    } else {
      Rejoins(v, snapshot, i + 1, fd);
    }
  }

  /**
   * A client that hangs up in a pass with a waiting connection can have its descriptor accepted again
   * in the same pass exactly when it is below the listener.
   */
  lemma {:induction false} ReuseWithinAPass(s: Server, snapshot: set<int>, fd: nat)
    requires Sets(s) && Refines(s) && snapshot <= s.master
    requires fd in snapshot && s.listener in snapshot && fd != s.listener
    ensures
      (exists io :: KernelOk(io) && io.recv(fd) == [] && fd in Pass(s, snapshot, 0, io).master) <==> fd < s.listener
  {
    if fd < s.listener {
      Rejoins(s, snapshot, 0, fd);
      assert KernelOk(Recycling(fd)) && Recycling(fd).recv(fd) == [];
    } else {
      forall io | KernelOk(io) && io.recv(fd) == []
        ensures fd !in Pass(s, snapshot, 0, io).master
      {
        NoRejoin(s, snapshot, 0, io, fd);
      }
    }
  }

  // ---------------------------------------------------------------------------------------------
  // Every run
  // ---------------------------------------------------------------------------------------------

  lemma {:induction false} StartKeeps(listener: nat)
    ensures Sets(Start(listener)) && Refines(Start(listener))
  {
  }

  lemma {:induction false} TurnsKeep(s: Server, turns: seq<Turn>)
    requires Sets(s) && Refines(s) && KernelAlwaysOk(turns)
    ensures
      var t := TakeTurns(s, turns);
      Sets(t) && Refines(t) && t.listener == s.listener && s.fdMax <= t.fdMax
    decreases |turns|
  {
    if turns != [] {
      assert turns[0].select(s.master) <= s.master;
      PassKeeps(s, turns[0].select(s.master), 0, turns[0].io);
      TurnsKeep(TakeTurn(s, turns[0]), turns[1..]);
    }
  }

  /** In every run the master set is the listener and the room's members, and the sends are the room's deliveries. */
  lemma {:induction false} EveryRunRefines(listener: nat, turns: seq<Turn>)
    requires KernelAlwaysOk(turns)
    ensures
      var s := TakeTurns(Start(listener), turns);
      && Lived(true, s.history)
      && After(true, s.history) == Room(s.master - {listener}, multiset(s.sent))
      && ToOthersOnly(s.sent, listener)
      && listener in s.master && (forall fd | fd in s.master :: 0 <= fd <= s.fdMax)
  {
    StartKeeps(listener);
    TurnsKeep(Start(listener), turns);
  }

  /** In every run each note is sent to a descriptor as often as it was due to that as another member. */
  lemma {:induction false} SentExactlyWhenDue(listener: nat, turns: seq<Turn>, d: Delivery)
    requires KernelAlwaysOk(turns)
    ensures
      var s := TakeTurns(Start(listener), turns);
      multiset(s.sent)[d] == TimesDue(true, s.history, d) && (d.to == listener ==> d !in s.sent)
  {
    hide Lived, After, TimesDue;
    EveryRunRefines(listener, turns);
    DeliveredExactlyWhenDue(true, TakeTurns(Start(listener), turns).history, d);
  }

  /** In every run each descriptor has been sent what was due to it in the order of the events. */
  lemma {:induction false} HeardInOrder(listener: nat, turns: seq<Turn>, fd: int)
    requires KernelAlwaysOk(turns)
    ensures
      var s := TakeTurns(Start(listener), turns);
      HeardBy(s.sent, fd) == DueTo(true, s.history, fd)
  {
    hide HeardBy, DueTo;
    StartKeeps(listener);
    TurnsKeep(Start(listener), turns);
  }

  // ---------------------------------------------------------------------------------------------
  // The code
  // ---------------------------------------------------------------------------------------------

  class Selector {
    const listener: int
    var masterSet: set<int>
    var fdMax: int
    var sent: seq<Delivery>
    ghost var history: seq<Event>

    ghost function Value(): Server
      reads this
    {
      Server(listener, masterSet, fdMax, sent, history)
    }

    constructor (listener: int)
      ensures Value() == Start(listener)
    {
      this.listener := listener;
      masterSet, fdMax := {listener}, listener;
      sent, history := [], [];
    }

    /** Each of the three inner loops over j. */
    method SendToOthers(about: int, note: Note)
      modifies this`sent
      ensures
        var s := old(Value());
        Value() == s.(sent := s.sent + Broadcast(s.master, Bound(s), s.listener, about, note))
    {
      var j := 0;
      while j <= fdMax
        invariant 0 <= j <= Bound(old(Value()))
        invariant sent == old(sent) + Broadcast(masterSet, j, listener, about, note)
      {
        if j in masterSet {
          if j != listener && j != about {
            sent := sent + [Delivery(j, about, note)];
          }
        }
        j := j + 1;
      }
    }

    method VisitFd(i: nat, selectSet: set<int>, io: Io)
      modifies this
      ensures Value() == Visit(old(Value()), selectSet, i, io)
      ensures Sets(old(Value())) && KernelOk(io) ==> Obeys(old(Value()), selectSet, i, io, Value())
    {
      ghost var before := Value();
      if i in selectSet {
        if i == listener {
          var newFd := io.accept(masterSet);
          if newFd != -1 {
            masterSet := masterSet + {newFd};
            if newFd > fdMax {
              fdMax := newFd;
            }
            SendToOthers(newFd, Joined);
            history := history + [Join(newFd)];
          }
        } else {
          var message := io.recv(i);
          if message == [] {
            SendToOthers(i, Left);
            masterSet := masterSet - {i};
            history := history + [Leave(i)];
          } else {
            SendToOthers(i, Said(message));
            history := history + [Say(i, message)];
          }
        }
      }
      if Sets(before) && KernelOk(io) {
        VisitObeys(before, selectSet, i, io);
      }
    }

    /** The loop over i after select has reduced a copy of the master set to the ready descriptors. */
    method RunPass(select: set<int> -> set<int>, io: Io)
      modifies this
      ensures Value() == TakeTurn(old(Value()), Turn(select, io))
    {
      var selectSet := select(masterSet);
      var i := 0;
      while i <= fdMax + 1
        invariant 0 <= i && Pass(Value(), selectSet, i, io) == Pass(old(Value()), selectSet, 0, io)
        decreases if i <= listener then 1 else 0, if i <= fdMax + 1 then fdMax + 2 - i else 0
      {
        ghost var before := Value();
        VisitFd(i, selectSet, io);
        VisitBound(before, selectSet, i, io);
        i := i + 1;
      }
    }
  }
}
