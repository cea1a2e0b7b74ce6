/** The inotify buffer walk of UnixFileEventWatching.c and the messages it prints. */
module EventWalk {
  import opened Basics

  // ---------------------------------------------------------------------------------------------
  // Event records: wd, mask, cookie and len of four bytes each, then len bytes of name
  // ---------------------------------------------------------------------------------------------

  type Uint32 = x: int | 0 <= x < 0x1_0000_0000

  const HEADER := 16

  datatype Event = Event(wd: Uint32, mask: Uint32, cookie: Uint32, name: seq<Byte>) {
    predicate Valid() {
      |name| < 0x1_0000_0000
    }
  }

  predicate AllValid(events: seq<Event>) {
    forall i | 0 <= i < |events| :: events[i].Valid()
  }

  function Le32(n: Uint32): (b: seq<Byte>)
    ensures |b| == 4
  {
    [n % 0x100, n / 0x100 % 0x100, n / 0x1_0000 % 0x100, n / 0x100_0000]
  }

  /** Loads the 32-bit field at p; the load touches no byte outside b. */
  function Load32(b: seq<Byte>, p: nat): nat
    requires p + 4 <= |b|
  {
    Join32(b[p], b[p + 1], b[p + 2], b[p + 3])
  }

  function Join32(b0: int, b1: int, b2: int, b3: int): int {
    b0 + 0x100 * b1 + 0x1_0000 * b2 + 0x100_0000 * b3
  }

  function Encode(e: Event): (b: seq<Byte>)
    requires e.Valid()
    ensures |b| == HEADER + |e.name|
  {
    Le32(e.wd) + Le32(e.mask) + Le32(e.cookie) + Le32(|e.name|) + e.name
  }

  function EncodeAll(events: seq<Event>): seq<Byte>
    requires AllValid(events)
  {
    if events == [] then [] else Encode(events[0]) + EncodeAll(events[1..])
  }

  lemma JoinLe32(n: Uint32)
    ensures var b := Le32(n); Join32(b[0], b[1], b[2], b[3]) == n
  {
    var x: int := n;
    assert x / 0x100 == x / 0x1_0000 * 0x100 + x / 0x100 % 0x100;
    assert x / 0x1_0000 == x / 0x100_0000 * 0x100 + x / 0x1_0000 % 0x100;
  }

  lemma {:induction false} LoadLe32(b: seq<Byte>, p: nat, n: Uint32)
    requires p + 4 <= |b| && b[p..p + 4] == Le32(n)
    ensures Load32(b, p) == n
  {
    hide Le32, Join32;
    var field := b[p..p + 4];
    assert field[0] == b[p] && field[1] == b[p + 1] && field[2] == b[p + 2] && field[3] == b[p + 3];
    JoinLe32(n);
  }

  lemma FiveParts<T>(a: seq<T>, b: seq<T>, c: seq<T>, d: seq<T>, e: seq<T>)
    requires |a| == |b| == |c| == |d| == 4
    ensures var r := a + b + c + d + e; r[..4] == a && r[4..8] == b && r[8..12] == c && r[12..16] == d && r[16..] == e
  {
  }

  lemma SliceOfSlice<T>(b: seq<T>, p: nat, q: nat, i: nat, j: nat)
    requires p <= q <= |b| && i <= j <= q - p
    ensures b[p..q][i..j] == b[p + i..p + j]
  {
    var inner := b[p..q];
    forall k | 0 <= k < j - i
      ensures inner[i..j][k] == b[p + i..p + j][k]
    {
      assert inner[i + k] == b[p + (i + k)];
    }
  }

  /** The four fields of a record that starts at p. */
  lemma {:induction false} LoadRecord(b: seq<Byte>, p: nat, e: Event)
    requires e.Valid() && p + HEADER + |e.name| <= |b|
    requires b[p..p + HEADER + |e.name|] == Encode(e)
    ensures Load32(b, p) == e.wd && Load32(b, p + 4) == e.mask && Load32(b, p + 8) == e.cookie
    ensures Load32(b, p + 12) == |e.name| && b[p + HEADER..p + HEADER + |e.name|] == e.name
  {
    hide Le32, Load32;
    var end := p + HEADER + |e.name|;
    FiveParts(Le32(e.wd), Le32(e.mask), Le32(e.cookie), Le32(|e.name|), e.name);
    SliceOfSlice(b, p, end, 0, 4);
    SliceOfSlice(b, p, end, 4, 8);
    SliceOfSlice(b, p, end, 8, 12);
    SliceOfSlice(b, p, end, 12, 16);
    SliceOfSlice(b, p, end, 16, end - p);
    LoadLe32(b, p, e.wd);
    LoadLe32(b, p + 4, e.mask);
    LoadLe32(b, p + 8, e.cookie);
    LoadLe32(b, p + 12, |e.name|);
  }

  lemma {:induction false} EncodeAppend(a: seq<Event>, b: seq<Event>)
    requires AllValid(a) && AllValid(b)
    ensures AllValid(a + b) && EncodeAll(a + b) == EncodeAll(a) + EncodeAll(b)
  {
    if a == [] {
      assert a + b == b;
    } else {
      hide Encode;
      assert (a + b)[0] == a[0] && (a + b)[1..] == a[1..] + b;
      EncodeAppend(a[1..], b);
    }
  }

  /** The bytes determine the events, so the walk cannot find others in them. */
  lemma {:induction false} EncodingIsInjective(a: seq<Event>, b: seq<Event>)
    requires AllValid(a) && AllValid(b) && EncodeAll(a) == EncodeAll(b)
    ensures a == b
  {
    if a != [] && b != [] {
      var bytes := EncodeAll(a);
      assert bytes[0..HEADER + |a[0].name|] == Encode(a[0]);
      assert bytes[0..HEADER + |b[0].name|] == Encode(b[0]);
      LoadRecord(bytes, 0, a[0]);
      LoadRecord(bytes, 0, b[0]);
      assert a[0] == b[0];
      assert EncodeAll(a[1..]) == bytes[HEADER + |a[0].name|..];
      assert EncodeAll(b[1..]) == bytes[HEADER + |b[0].name|..];
      EncodingIsInjective(a[1..], b[1..]);
    }
  }

  // ---------------------------------------------------------------------------------------------
  // Messages
  // ---------------------------------------------------------------------------------------------

  datatype Message = Null | Created | Deleted | Accessed | WrittenAndClosed | Modified | Moved

  const IN_ACCESS := 0x1
  const IN_MODIFY := 0x2
  const IN_CLOSE_WRITE := 0x8
  const IN_CREATE := 0x100
  const IN_DELETE := 0x200
  const IN_MOVE_SELF := 0x800

  /** mask & bit, for a power of two. */
  predicate Has(mask: nat, bit: nat)
    requires bit > 0
  {
    mask / bit % 2 == 1
  }

  /** The message after an event, given the message before it: each test that matches overwrites. */
  function Update(message: Message, mask: nat): Message {
    var m1 := if Has(mask, IN_CREATE) then Created else message;
    var m2 := if Has(mask, IN_DELETE) then Deleted else m1;
    var m3 := if Has(mask, IN_ACCESS) then Accessed else m2;
    var m4 := if Has(mask, IN_CLOSE_WRITE) then WrittenAndClosed else m3;
    var m5 := if Has(mask, IN_MODIFY) then Modified else m4;
    if Has(mask, IN_MOVE_SELF) then Moved else m5
  }

  predicate AnyMatch(mask: nat) {
    Update(Null, mask) != Null
  }

  /** The last matching test wins: create, delete, access, close after writing, modify, move, in that order. */
  lemma LastTestWins(message: Message, mask: nat)
    ensures
      Update(message, mask) ==
      if mask / 0x800 % 2 == 1 then Moved
      else if mask / 2 % 2 == 1 then Modified
      else if mask / 8 % 2 == 1 then WrittenAndClosed
      else if mask % 2 == 1 then Accessed
      else if mask / 0x200 % 2 == 1 then Deleted
      else if mask / 0x100 % 2 == 1 then Created
      else message
    ensures AnyMatch(mask) ==> Update(message, mask) == Update(Null, mask)
    ensures !AnyMatch(mask) ==> Update(message, mask) == message
  {
  }

  function Carry(events: seq<Event>, message: Message): Message {
    if events == [] then message else Carry(events[1..], Update(message, events[0].mask))
  }

  function Line(message: Message): seq<Message> {
    if message == Null then [] else [message]
  }

  /** What is printed: one line per event, once there is a message at all. */
  function Trace(events: seq<Event>, message: Message): seq<Message> {
    if events == [] then []
    else
      var m := Update(message, events[0].mask);
      Line(m) + Trace(events[1..], m)
  }

  lemma {:induction false} CarryAppend(a: seq<Event>, b: seq<Event>, message: Message)
    ensures Carry(a + b, message) == Carry(b, Carry(a, message))
  {
    if a == [] {
      assert a + b == b;
    } else {
      assert (a + b)[1..] == a[1..] + b;
      CarryAppend(a[1..], b, Update(message, a[0].mask));
    }
  }

  /** The message carries over, so it does not matter how the kernel batches events into reads. */
  lemma {:induction false} TraceAppend(a: seq<Event>, b: seq<Event>, message: Message)
    ensures Trace(a + b, message) == Trace(a, message) + Trace(b, Carry(a, message))
  {
    if a == [] {
      assert a + b == b;
    } else {
      assert (a + b)[1..] == a[1..] + b;
      TraceAppend(a[1..], b, Update(message, a[0].mask));
    }
  }

  /** The printed trace of a session, read after read. */
  function Session(batches: seq<seq<Event>>, message: Message): seq<Message> {
    if batches == [] then [] else Trace(batches[0], message) + Session(batches[1..], Carry(batches[0], message))
  }

  lemma {:induction false} BatchingDoesNotMatter(batches: seq<seq<Event>>, message: Message)
    ensures Session(batches, message) == Trace(Concat(batches), message)
  {
    if batches != [] {
      BatchingDoesNotMatter(batches[1..], Carry(batches[0], message));
      TraceAppend(batches[0], Concat(batches[1..]), message);
    }
  }

  /** The last event that matches any test, counted from 1; zero if none does. */
  function LastMatching(events: seq<Event>): (n: nat)
    ensures n <= |events|
    ensures n > 0 ==> AnyMatch(events[n - 1].mask)
    ensures forall j | n <= j < |events| :: !AnyMatch(events[j].mask)
  {
    if events == [] then 0
    else if AnyMatch(events[|events| - 1].mask) then |events|
    else LastMatching(events[..|events| - 1])
  }

  /** An event that matches no test repeats the message of the last one that did. */
  lemma {:induction false} CarryIsLastMatch(events: seq<Event>, message: Message)
    ensures
      var n := LastMatching(events);
      Carry(events, message) == if n == 0 then message else Update(Null, events[n - 1].mask)
    decreases |events|
  {
    if events != [] {
      var front, last := events[..|events| - 1], events[|events| - 1];
      assert events == front + [last];
      CarryAppend(front, [last], message);
      assert Carry([last], Carry(front, message)) == Update(Carry(front, message), last.mask);
      LastTestWins(Carry(front, message), last.mask);
      if !AnyMatch(last.mask) {
        CarryIsLastMatch(front, message);
      }
    }
  }

  /** Line k of the trace shows the last event up to k that matched a test, or else the initial message. */
  lemma {:induction false} TraceAt(events: seq<Event>, message: Message, k: nat)
    requires message != Null && k < |events|
    ensures |Trace(events, message)| == |events|
    ensures
      var n := LastMatching(events[..k + 1]);
      Trace(events, message)[k] == if n == 0 then message else Update(Null, events[n - 1].mask)
    ensures
      var mask := events[k].mask;
      Trace(events, message)[k] ==
      if mask / 0x800 % 2 == 1 then Moved
      else if mask / 2 % 2 == 1 then Modified
      else if mask / 8 % 2 == 1 then WrittenAndClosed
      else if mask % 2 == 1 then Accessed
      else if mask / 0x200 % 2 == 1 then Deleted
      else if mask / 0x100 % 2 == 1 then Created
      else if k == 0 then message
      else Trace(events, message)[k - 1]
  {
    hide Update, LastMatching;
    LineIsCarry(events, message, k);
    CarryIsLastMatch(events[..k + 1], message);
    LinePerEvent(events, message);
    PrefixStep(events, k, message);
    LastTestWins(Carry(events[..k], message), events[k].mask);
    if k == 0 {
      NothingWalked(message);
    } else {
      LineIsCarry(events, message, k - 1);
    }
  }

  lemma {:induction false} LineIsCarry(events: seq<Event>, message: Message, k: nat)
    requires message != Null && k < |events|
    ensures |Trace(events, message)| == |events| && Trace(events, message)[k] == Carry(events[..k + 1], message)
  {
    var front := events[..k + 1];
    assert events == front + events[k + 1..];
    TraceAppend(front, events[k + 1..], message);
    LinePerEvent(front, message);
    LinePerEvent(events, message);
  }

  lemma UpdateNotNull(message: Message, mask: nat)
    requires message != Null || AnyMatch(mask)
    ensures Update(message, mask) != Null
  {
  }

  lemma {:induction false} LinePerEvent(events: seq<Event>, message: Message)
    requires message != Null
    ensures |Trace(events, message)| == |events|
    ensures events != [] ==> Trace(events, message)[|events| - 1] == Carry(events, message)
  {
    if events != [] {
      UpdateNotNull(message, events[0].mask);
      LinePerEvent(events[1..], Update(message, events[0].mask));
    }
  }

  /** With no message yet, nothing is printed before the first event that matches a test. */
  lemma {:induction false} SilentBeforeFirstMatch(events: seq<Event>, k: nat)
    requires k <= |events| && forall j | 0 <= j < k :: !AnyMatch(events[j].mask)
    ensures Trace(events, Null) == Trace(events[k..], Null)
  {
    if k > 0 {
      SilentBeforeFirstMatch(events[1..], k - 1);
      assert events[1..][k - 1..] == events[k..];
    }
  }

  // ---------------------------------------------------------------------------------------------
  // The walk
  // ---------------------------------------------------------------------------------------------

  /** Where each record starts. */
  function Starts(events: seq<Event>): (starts: seq<nat>)
    requires AllValid(events)
    ensures |starts| == |events|
  {
    seq(|events|, i requires 0 <= i < |events| => |EncodeAll(events[..i])|)
  }

  lemma {:induction false} RecordAt(events: seq<Event>, k: nat)
    requires AllValid(events) && k < |events|
    ensures
      var bytes, p := EncodeAll(events), |EncodeAll(events[..k])|;
      var end := p + HEADER + |events[k].name|;
      end <= |bytes| && bytes[p..end] == Encode(events[k]) && end == |EncodeAll(events[..k + 1])|
  {
    assert events == events[..k] + events[k..];
    EncodeAppend(events[..k], events[k..]);
    assert events[..k + 1] == events[..k] + [events[k]];
    EncodeAppend(events[..k], [events[k]]);
    assert EncodeAll([events[k]]) == Encode(events[k]) + EncodeAll([]);
  }

  lemma {:induction false} MoreEvents(events: seq<Event>, k: nat)
    requires AllValid(events) && k <= |events|
    ensures |EncodeAll(events[..k])| < |EncodeAll(events)| <==> k < |events|
  {
    if k < |events| {
      RecordAt(events, k);
    } else {
      assert events[..k] == events;
    }
  }

  lemma {:induction false} RecordFields(events: seq<Event>, k: nat)
    requires AllValid(events) && k < |events|
    ensures
      var bytes, p := EncodeAll(events), |EncodeAll(events[..k])|;
      p + HEADER + |events[k].name| == |EncodeAll(events[..k + 1])| <= |bytes| &&
      Load32(bytes, p + 4) == events[k].mask && Load32(bytes, p + 12) == |events[k].name|
  {
    hide Load32, Encode, EncodeAll;
    RecordAt(events, k);
    LoadRecord(EncodeAll(events), |EncodeAll(events[..k])|, events[k]);
  }

  /** The mask tests as the program writes them: each match overwrites the message. */
  method Notify(mask: nat, message: Message) returns (m: Message)
    ensures m == Update(message, mask)
    ensures
      m ==
      if mask / 0x800 % 2 == 1 then Moved
      else if mask / 2 % 2 == 1 then Modified
      else if mask / 8 % 2 == 1 then WrittenAndClosed
      else if mask % 2 == 1 then Accessed
      else if mask / 0x200 % 2 == 1 then Deleted
      else if mask / 0x100 % 2 == 1 then Created
      else message
  {
    m := message;
    if Has(mask, IN_CREATE) {
      m := Created;
    }
    if Has(mask, IN_DELETE) {
      m := Deleted;
    }
    if Has(mask, IN_ACCESS) {
      m := Accessed;
    }
    if Has(mask, IN_CLOSE_WRITE) {
      m := WrittenAndClosed;
    }
    if Has(mask, IN_MODIFY) {
      m := Modified;
    }
    if Has(mask, IN_MOVE_SELF) {
      m := Moved;
    }
  }

  /**
   * The walk over one read: it visits exactly the record starts in order, looks at no byte from
   * readLength on, and prints the trace. The rest of the reused buffer may hold anything.
   */
  method Walk(buffer: array<Byte>, readLength: nat, message: Message, ghost events: seq<Event>)
      returns (printed: seq<Message>, m: Message, ghost visited: seq<nat>, ghost touched: nat)
    requires readLength <= buffer.Length && AllValid(events) && buffer[..readLength] == EncodeAll(events)
    ensures printed == Trace(events, message) && m == Carry(events, message)
    ensures visited == Starts(events) && touched <= readLength
  {
    hide Load32, EncodeAll, Trace, Carry, Update;
    var bufferPointer := 0;
    NothingWalked(message);
    printed, m, visited, touched := [], message, [], 0;
    assert events[..0] == [];
    while bufferPointer < readLength
      invariant |visited| <= |events| && visited == Starts(events)[..|visited|]
      invariant bufferPointer == |EncodeAll(events[..|visited|])| && touched <= readLength
      invariant printed == Trace(events[..|visited|], message) && m == Carry(events[..|visited|], message)
    {
      ghost var k := |visited|;
      MoreEvents(events, k);
      RecordFields(events, k);
      visited, touched := visited + [bufferPointer], bufferPointer + HEADER;
      var mask := Load32(buffer[..readLength], bufferPointer + 4);
      var length := Load32(buffer[..readLength], bufferPointer + 12);
      var before := m;
      m := Notify(mask, before);
      if m != Null {
        printed := printed + [m];
      }
      bufferPointer := bufferPointer + HEADER + length;
      PrefixStep(events, k, message);
    }
    MoreEvents(events, |visited|);
    assert events[..|events|] == events;
  }

  lemma NothingWalked(message: Message)
    ensures EncodeAll([]) == [] && Trace([], message) == [] && Carry([], message) == message
  {
  }

  lemma {:induction false} PrefixStep(events: seq<Event>, k: nat, message: Message)
    requires k < |events|
    ensures Carry(events[..k + 1], message) == Update(Carry(events[..k], message), events[k].mask)
    ensures
      Trace(events[..k + 1], message) ==
      Trace(events[..k], message) + Line(Update(Carry(events[..k], message), events[k].mask))
  {
    var m := Carry(events[..k], message);
    assert events[..k + 1] == events[..k] + [events[k]];
    CarryAppend(events[..k], [events[k]], message);
    TraceAppend(events[..k], [events[k]], message);
    assert Carry([events[k]], m) == Update(m, events[k].mask);
    assert Trace([events[k]], m) == Line(Update(m, events[k].mask)) + [];
  }
}
