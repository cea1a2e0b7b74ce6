/** What both telnet servers are for: a room whose members hear each other. */
module ChatRoom {
  import opened Basics

  datatype Note = Joined | Left | Said(message: seq<Byte>)

  /** One send to one member, about another. */
  datatype Delivery = Delivery(to: int, from: int, note: Note)

  datatype Event = Join(fd: int) | Leave(fd: int) | Say(fd: int, message: seq<Byte>)

  datatype Room = Room(members: set<int>, delivered: multiset<Delivery>)

  const EMPTY := Room({}, multiset{})

  /** One delivery to each of a set of members. */
  function ToAll(members: set<int>, from: int, note: Note): multiset<Delivery> {
    multiset(set m | m in members :: Delivery(m, from, note))
  }

  lemma ToOneMore(members: set<int>, fd: int, from: int, note: Note)
    requires fd !in members
    ensures ToAll(members + {fd}, from, note) == ToAll(members, from, note) + multiset{Delivery(fd, from, note)}
  {
  }

  predicate Possible(room: Room, e: Event) {
    e.Join? <==> e.fd !in room.members
  }

  /** A room that announces tells the others who joins and who leaves. */
  function Happen(announces: bool, room: Room, e: Event): Room {
    var others := room.members - {e.fd};
    match e
    case Join(fd) =>
      Room(room.members + {fd}, room.delivered + if announces then ToAll(others, fd, Joined) else multiset{})
    case Leave(fd) =>
      Room(others, room.delivered + if announces then ToAll(others, fd, Left) else multiset{})
    case Say(fd, message) =>
      room.(delivered := room.delivered + ToAll(others, fd, Said(message)))
  }

  /** The room after a history of events, each possible when it happens. */
  predicate Lived(announces: bool, history: seq<Event>) {
    history == [] ||
    var front := history[..|history| - 1];
    Lived(announces, front) && Possible(After(announces, front), history[|history| - 1])
  }

  function After(announces: bool, history: seq<Event>): Room {
    if history == [] then EMPTY
    else
      var front, last := history[..|history| - 1], history[|history| - 1];
      Happen(announces, After(announces, front), last)
  }

  lemma LivedStep(announces: bool, history: seq<Event>, e: Event)
    requires Lived(announces, history) && Possible(After(announces, history), e)
    ensures Lived(announces, history + [e])
    ensures After(announces, history + [e]) == Happen(announces, After(announces, history), e)
  {
  }

  /** What the others are told of an event. */
  function NoteOf(e: Event): Note {
    match e
    case Join(_) => Joined
    case Leave(_) => Left
    case Say(_, message) => Said(message)
  }

  /** The event, in that room, calls for that delivery: to a member other than the one it is about. */
  predicate Due(announces: bool, room: Room, e: Event, d: Delivery) {
    && d.to in room.members && d.to != e.fd
    && d.from == e.fd && d.note == NoteOf(e)
    && (announces || e.Say?)
  }

  /** How many events of a history called for a delivery when they happened. */
  function TimesDue(announces: bool, history: seq<Event>, d: Delivery): nat {
    if history == [] then 0
    else
      var front, last := history[..|history| - 1], history[|history| - 1];
      TimesDue(announces, front, d) + if Due(announces, After(announces, front), last, d) then 1 else 0
  }

  lemma HappenDelivers(announces: bool, room: Room, e: Event, d: Delivery)
    ensures
      Happen(announces, room, e).delivered[d] == room.delivered[d] + if Due(announces, room, e, d) then 1 else 0
  {
  }

  /** Over a whole history each delivery happens exactly as often as events call for it. */
  lemma {:induction false} DeliveredExactlyWhenDue(announces: bool, history: seq<Event>, d: Delivery)
    ensures After(announces, history).delivered[d] == TimesDue(announces, history, d)
  {
    if history != [] {
      hide Happen, Due;
      var front, last := history[..|history| - 1], history[|history| - 1];
      DeliveredExactlyWhenDue(announces, front, d);
      HappenDelivers(announces, After(announces, front), last, d);
    }
  }

  // ---------------------------------------------------------------------------------------------
  // Order
  // ---------------------------------------------------------------------------------------------

  /** The sends to one descriptor, in the order in which they were made. */
  function HeardBy(sent: seq<Delivery>, fd: int): seq<Delivery> {
    if sent == [] then []
    else
      var last := sent[|sent| - 1];
      HeardBy(sent[..|sent| - 1], fd) + if last.to == fd then [last] else []
  }

  /** What an event in that room calls for to be sent to one descriptor. */
  function DueOf(announces: bool, room: Room, e: Event, fd: int): seq<Delivery> {
    var d := Delivery(fd, e.fd, NoteOf(e));
    if Due(announces, room, e, d) then [d] else []
  }

  /** What a history calls for to be sent to one descriptor, in the order of the events. */
  function DueTo(announces: bool, history: seq<Event>, fd: int): seq<Delivery> {
    if history == [] then []
    else
      var front, last := history[..|history| - 1], history[|history| - 1];
      DueTo(announces, front, fd) + DueOf(announces, After(announces, front), last, fd)
  }

  /** Every descriptor hears what is due to it, no more, no less, and in the order of the events. */
  ghost predicate InOrder(announces: bool, sent: seq<Delivery>, history: seq<Event>) {
    forall fd :: HeardBy(sent, fd) == DueTo(announces, history, fd)
  }

  lemma {:induction false} HeardByConcat(s: seq<Delivery>, t: seq<Delivery>, fd: int)
    ensures HeardBy(s + t, fd) == HeardBy(s, fd) + HeardBy(t, fd)
  {
    if t == [] {
      assert s + t == s;
    } else {
      assert (s + t)[..|s + t| - 1] == s + t[..|t| - 1];
      HeardByConcat(s, t[..|t| - 1], fd);
    }
  }

  /** The last of some sends that make one delivery to each of a set of members. */
  lemma {:induction false} LastOfAll(sent: seq<Delivery>, members: set<int>, from: int, note: Note)
    requires sent != [] && multiset(sent) == ToAll(members, from, note)
    ensures
      var front, last := sent[..|sent| - 1], sent[|sent| - 1];
      && last.to in members && last == Delivery(last.to, from, note)
      && multiset(front) == ToAll(members - {last.to}, from, note)
  {
    var front, last := sent[..|sent| - 1], sent[|sent| - 1];
    assert last in multiset(sent);
    assert last.to in members && last == Delivery(last.to, from, note);
    hide ToAll;
    var others := members - {last.to};
    ToOneMore(others, last.to, from, note);
    assert members == others + {last.to};
    assert sent == front + [last];
    assert multiset(front) == multiset(sent) - multiset{last};
  }

  lemma ToEach(members: set<int>, from: int, note: Note, fd: int)
    ensures fd in members ==> Delivery(fd, from, note) in ToAll(members, from, note)
  {
  }

  /** Sends that make one delivery to each of a set of members reach each of these once, in whatever order. */
  lemma {:induction false} HeardOnce(sent: seq<Delivery>, members: set<int>, from: int, note: Note, fd: int)
    requires multiset(sent) == ToAll(members, from, note)
    ensures HeardBy(sent, fd) == if fd in members then [Delivery(fd, from, note)] else []
  {
    hide ToAll;
    if sent == [] {
      ToEach(members, from, note, fd);
    } else {
      var front, last := sent[..|sent| - 1], sent[|sent| - 1];
      LastOfAll(sent, members, from, note);
      HeardOnce(front, members - {last.to}, from, note, fd);
    }
  }

  /** An event that sends what it calls for keeps the order. */
  lemma {:induction false} InOrderStep(
      announces: bool, sent: seq<Delivery>, history: seq<Event>, e: Event, more: seq<Delivery>)
    requires InOrder(announces, sent, history)
    requires
      var room := After(announces, history);
      multiset(more) == if announces || e.Say? then ToAll(room.members - {e.fd}, e.fd, NoteOf(e)) else multiset{}
    ensures InOrder(announces, sent + more, history + [e])
  {
    hide After, ToAll;
    var room := After(announces, history);
    assert (history + [e])[..|history|] == history;
    forall fd
      ensures HeardBy(sent + more, fd) == DueTo(announces, history + [e], fd)
    {
      HeardByConcat(sent, more, fd);
      if announces || e.Say? {
        HeardOnce(more, room.members - {e.fd}, e.fd, NoteOf(e), fd);
      } else {
        assert more == [];
      }
      assert HeardBy(more, fd) == DueOf(announces, room, e, fd);
    }
  }

  // ---------------------------------------------------------------------------------------------
  // Shared by both servers
  // ---------------------------------------------------------------------------------------------

  /** No send goes to the listener or back to the one it is about. */
  predicate ToOthersOnly(sent: seq<Delivery>, listener: int) {
    forall k | 0 <= k < |sent| :: sent[k].to != listener && sent[k].to != sent[k].from
  }

  /** The clients received from, in order. */
  function Actors(events: seq<Event>): (fds: seq<int>) {
    if events == [] then []
    else if events[0].Join? then Actors(events[1..])
    else [events[0].fd] + Actors(events[1..])
  }

  predicate NoRepeats(fds: seq<int>) {
    forall i, j | 0 <= i < j < |fds| :: fds[i] != fds[j]
  }

  /** accept fails with -1 or returns a descriptor that is not open. */
  predicate Fresh(fd: int, open: set<int>) {
    fd == -1 || (fd >= 0 && fd !in open)
  }
}
