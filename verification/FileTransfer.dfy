/** The client and the server of the file transfer over a byte stream that keeps no message borders. */
module FileTransfer {
  import opened Arithmetic
  import opened Basics
  import opened Runs

  /**
   * The bytes fread finds, the size stat reported, the buffer size of both programs and how many
   * bytes the connection holds at most. An unchanged file has size == |file|.
   */
  datatype Config = Config(file: seq<Byte>, size: nat, chunk: nat, capacity: nat) {
    predicate Valid() {
      chunk > 0 && capacity > 0
    }
  }

  datatype Client = Fread | Check | Send(count: nat) | Close | ClientDone

  datatype Server = Recv | Fwrite(bytes: seq<Byte>) | ServerDone

  /**
   * position is the client's place in the file, buffer what of its last fread is not yet sent, and
   * channel what the kernel holds; written is the server's file.
   */
  datatype State = State(
    client: Client, position: nat, buffer: seq<Byte>, byteTotal: nat,
    channel: seq<Byte>, closed: bool, server: Server, written: seq<Byte>)

  /** A blocked send moves n bytes as room appears; recv returns any n bytes that are there. */
  datatype Action = ClientStep(n: nat) | ServerStep(n: nat)

  const START := State(Fread, 0, [], 0, [], false, Recv, [])

  predicate Enabled(c: Config, s: State, a: Action) {
    match a
    case ClientStep(n) => (
      match s.client
      case Send(_) => s.buffer == [] || (0 < n <= |s.buffer| && |s.channel| + n <= c.capacity)
      case ClientDone => false
      case _ => true)
    case ServerStep(n) => (
      match s.server
      case Recv => if s.channel == [] then s.closed else 0 < n <= |s.channel| && n <= c.chunk
      case Fwrite(_) => true
      case ServerDone => false)
  }

  function Min(a: int, b: int): int {
    if a < b then a else b
  }

  function ClientNext(c: Config, s: State, n: nat): State
    requires Enabled(c, s, ClientStep(n)) && s.position <= |c.file|
  {
    match s.client
    case Fread =>
      var end := Min(s.position + c.chunk, |c.file|);
      if end == s.position then s.(client := Close)
      else s.(client := Check, position := end, buffer := c.file[s.position..end])
    case Check => if s.byteTotal == c.size then s.(client := Close, buffer := []) else s.(client := Send(|s.buffer|))
    case Send(count) =>
      if s.buffer == [] then s.(client := Fread, byteTotal := s.byteTotal + count)
      else s.(channel := s.channel + s.buffer[..n], buffer := s.buffer[n..])
    case Close => s.(client := ClientDone, closed := true)
  }

  function ServerNext(c: Config, s: State, n: nat): State
    requires Enabled(c, s, ServerStep(n))
  {
    match s.server
    case Recv =>
      if s.channel == [] then s.(server := ServerDone)
      else s.(server := Fwrite(s.channel[..n]), channel := s.channel[n..])
    case Fwrite(bytes) => s.(server := Recv, written := s.written + bytes)
  }

  function Apply(c: Config, s: State, a: Action): State
    requires Enabled(c, s, a) && s.position <= |c.file|
  {
    match a
    case ClientStep(n) => ClientNext(c, s, n)
    case ServerStep(n) => ServerNext(c, s, n)
  }

  ghost predicate Next(c: Config, s: State, a: Action, s': State) {
    s.position <= |c.file| && Enabled(c, s, a) && s' == Apply(c, s, a)
  }

  ghost function Program(c: Config): System<State, Action> {
    System(START, (s, a, s') => Next(c, s, a, s'))
  }

  // ---------------------------------------------------------------------------------------------
  // How much gets across
  // ---------------------------------------------------------------------------------------------

  /** n is a whole number of buffers. */
  predicate Whole(c: Config, n: nat)
    requires c.Valid()
  {
    Mod(n, c.chunk) == 0
  }

  /** The early break fires: the file has grown past a size that is a whole number of buffers. */
  predicate BreaksEarly(c: Config)
    requires c.Valid()
  {
    c.size < |c.file| && Whole(c, c.size)
  }

  function Target(c: Config): nat
    requires c.Valid()
  {
    if BreaksEarly(c) then c.size else |c.file|
  }

  lemma NextWhole(c: Config, n: nat)
    requires c.Valid() && Whole(c, n)
    ensures Whole(c, n + c.chunk)
  {
    MulDistributes(Div(n, c.chunk), 1, c.chunk);
    DivModIs(n + c.chunk, c.chunk, Div(n, c.chunk) + 1, 0);
  }

  /** Between two whole numbers of buffers lies at least one buffer. */
  lemma WholeGap(c: Config, m: nat, n: nat)
    requires c.Valid() && Whole(c, m) && Whole(c, n) && m < n
    ensures m + c.chunk <= n
  {
    var i, j := Div(m, c.chunk), Div(n, c.chunk);
    CompareScaled(i, j, c.chunk);
    MulMonotone(i + 1, j, c.chunk);
    MulDistributes(i, 1, c.chunk);
  }

  // ---------------------------------------------------------------------------------------------
  // What every step keeps
  // ---------------------------------------------------------------------------------------------

  /** How many bytes of the file the client has handed to the kernel. */
  function Sent(s: State): int {
    match s.client
    case Send(count) => s.byteTotal + count - |s.buffer|
    case _ => s.byteTotal
  }

  function InHand(s: State): seq<Byte> {
    if s.server.Fwrite? then s.server.bytes else []
  }

  ghost predicate ClientInv(c: Config, s: State)
    requires c.Valid()
  {
    && s.position <= |c.file|
    && s.byteTotal <= Target(c)
    && (match s.client
        case Fread => s.position == s.byteTotal && s.buffer == [] && (Whole(c, s.byteTotal) || s.byteTotal == |c.file|)
        case Check =>
          && Whole(c, s.byteTotal)
          && s.position == Min(s.byteTotal + c.chunk, |c.file|) > s.byteTotal
          && s.buffer == c.file[s.byteTotal..s.position]
        case Send(count) =>
          && Whole(c, s.byteTotal) && s.byteTotal != c.size
          && s.position == Min(s.byteTotal + c.chunk, |c.file|) == s.byteTotal + count
          && |s.buffer| <= count && s.buffer == c.file[s.position - |s.buffer|..s.position]
        case _ => s.byteTotal == Target(c) && s.buffer == [])
    && s.closed == (s.client == ClientDone)
  }

  /** The server's file, the bytes in its hand and the channel are the part of the file sent so far. */
  ghost predicate StreamInv(c: Config, s: State) {
    && 0 <= Sent(s) <= |c.file|
    && |s.channel| <= c.capacity
    && s.written + InHand(s) + s.channel == c.file[..Sent(s)]
    && (s.server.Fwrite? ==> 0 < |s.server.bytes| <= c.chunk)
    && (s.server == ServerDone ==> s.closed && s.channel == [])
  }

  ghost predicate Inv(c: Config, s: State) {
    c.Valid() && ClientInv(c, s) && StreamInv(c, s)
  }

  lemma {:induction false} TargetReach(c: Config, s: State)
    requires c.Valid() && ClientInv(c, s) && s.client.Send?
    ensures s.position <= Target(c)
  {
    if BreaksEarly(c) {
      if s.byteTotal < c.size {
        WholeGap(c, s.byteTotal, c.size);
      }
    }
  }

  lemma {:induction false} ClientKeepsClient(c: Config, s: State, n: nat)
    requires c.Valid() && ClientInv(c, s) && Enabled(c, s, ClientStep(n))
    ensures ClientInv(c, ClientNext(c, s, n))
  {
    if s.client.Send? && s.buffer == [] {
      TargetReach(c, s);
      NextWhole(c, s.byteTotal);
    } else if s.client.Send? {
      var cut := s.position - |s.buffer|;
      assert c.file[cut..s.position][n..] == c.file[cut + n..s.position];
    }
  }

  lemma {:induction false} ClientKeepsStream(c: Config, s: State, n: nat)
    requires c.Valid() && ClientInv(c, s) && StreamInv(c, s) && Enabled(c, s, ClientStep(n))
    ensures StreamInv(c, ClientNext(c, s, n))
  {
    if s.client.Send? && s.buffer != [] {
      var cut := s.position - |s.buffer|;
      assert s.position == s.byteTotal + s.client.count && s.buffer == c.file[cut..s.position];
      hide ClientInv;
      MoreSent(c.file, s.written + InHand(s), s.channel, cut, s.position, n);
    }
  }

  lemma MoreSent(file: seq<Byte>, arrived: seq<Byte>, channel: seq<Byte>, cut: nat, position: nat, n: nat)
    requires cut + n <= position <= |file| && arrived + channel == file[..cut]
    ensures arrived + (channel + file[cut..position][..n]) == file[..cut + n]
  {
    assert file[cut..position][..n] == file[cut..cut + n];
    assert arrived + (channel + file[cut..cut + n]) == (arrived + channel) + file[cut..cut + n];
  }

  lemma {:induction false} ServerKeepsClient(c: Config, s: State, n: nat)
    requires c.Valid() && ClientInv(c, s) && Enabled(c, s, ServerStep(n))
    ensures ClientInv(c, ServerNext(c, s, n))
  {
  }

  lemma {:induction false} ServerKeepsStream(c: Config, s: State, n: nat)
    requires StreamInv(c, s) && Enabled(c, s, ServerStep(n))
    ensures StreamInv(c, ServerNext(c, s, n))
  {
    if s.server == Recv && s.channel != [] {
      assert s.channel == s.channel[..n] + s.channel[n..];
      assert s.written + [] + s.channel == s.written + s.channel[..n] + s.channel[n..];
    }
  }

  lemma {:induction false} InvKept(c: Config)
    requires c.Valid()
    ensures Kept(Program(c), s => Inv(c, s))
  {
    assert Inv(c, START);
    forall s, a, s' | Inv(c, s) && Next(c, s, a, s')
      ensures Inv(c, s')
    {
      hide ClientInv, StreamInv, Enabled, ClientNext, ServerNext;
      match a {
        case ClientStep(n) =>
          ClientKeepsClient(c, s, n);
          ClientKeepsStream(c, s, n);
        case ServerStep(n) =>
          ServerKeepsClient(c, s, n);
          ServerKeepsStream(c, s, n);
      }
    }
  }

  lemma {:induction false} InvHolds(c: Config, s: State)
    requires c.Valid() && Reachable(Program(c), s)
    ensures Inv(c, s)
  {
    InvKept(c);
    var run :| Reaches(Program(c), run, s);
    Invariant(Program(c), s => Inv(c, s), run, s);
  }

  /** At the loop heads what is written and what is in flight is file[..byte_total], however recv cuts it. */
  lemma {:induction false} StreamIsFaithful(c: Config, s: State)
    requires c.Valid() && Reachable(Program(c), s) && s.client == Fread
    ensures s.byteTotal <= |c.file|
    ensures s.written + InHand(s) + s.channel == c.file[..s.byteTotal]
  {
    InvHolds(c, s);
  }

  /** Neither program's buffer nor the connection ever holds more than it can, and no empty piece is written. */
  lemma {:induction false} BuffersFit(c: Config, s: State)
    requires c.Valid() && Reachable(Program(c), s)
    ensures |s.buffer| <= c.chunk && |s.channel| <= c.capacity
    ensures s.server.Fwrite? ==> 0 < |s.server.bytes| <= c.chunk
  {
    InvHolds(c, s);
  }

  /** The early break never fires for an unchanged file. */
  lemma {:induction false} UnchangedFileNeverBreaks(c: Config, s: State)
    requires c.Valid() && c.size == |c.file|
    requires Reachable(Program(c), s) && s.client == Check
    ensures s.byteTotal < c.size
  {
    InvHolds(c, s);
  }

  // ---------------------------------------------------------------------------------------------
  // Every run ends, and how
  // ---------------------------------------------------------------------------------------------

  function Remaining(c: Config, s: State): nat {
    6 * Minus(|c.file|, s.position) + 3 * |s.buffer| + 2 * |s.channel| +
    (match s.client
     case Fread => 2
     case Check => 4
     case Send(_) => 3
     case Close => 1
     case ClientDone => 0) +
    (match s.server
     case Recv => 1
     case Fwrite(_) => 2
     case ServerDone => 0)
  }

  lemma {:induction false} StepShortens(c: Config, s: State, a: Action)
    requires Inv(c, s) && Enabled(c, s, a)
    ensures Remaining(c, Apply(c, s, a)) < Remaining(c, s)
  {
  }

  lemma {:induction false} RunsAreBounded(c: Config, run: seq<Action>, s: State)
    requires c.Valid() && Reaches(Program(c), run, s)
    ensures |run| <= 6 * |c.file| + 3
  {
    hide Inv, Enabled, Apply;
    InvKept(c);
    forall s, a, s' | Inv(c, s) && Next(c, s, a, s')
      ensures Remaining(c, s') < Remaining(c, s)
    {
      hide Remaining;
      StepShortens(c, s, a);
    }
    Bounded(Program(c), s => Inv(c, s), s => Remaining(c, s), run, s);
  }

  predicate Finished(s: State) {
    s.client == ClientDone && s.server == ServerDone
  }

  lemma {:induction false} SomeActionEnabled(c: Config, s: State) returns (a: Action)
    requires Inv(c, s) && !Finished(s)
    ensures Enabled(c, s, a)
  {
    a := if Enabled(c, s, ServerStep(1)) then ServerStep(1) else ClientStep(1);
  }

  /** Every complete run leaves the server with the target part of the file; none deadlocks. */
  lemma {:induction false} CompleteRuns(c: Config, s: State)
    requires c.Valid() && Reachable(Program(c), s)
    ensures Stuck(Program(c), s) <==> Finished(s)
    ensures Finished(s) ==> s.written == c.file[..Target(c)]
  {
    InvHolds(c, s);
    if !Finished(s) {
      var a := SomeActionEnabled(c, s);
      assert Follows(Program(c), s, a, Apply(c, s, a));
    }
  }

  /** The server's file equals the client's exactly when the early break does not fire. */
  lemma {:induction false} TransferCompleteIff(c: Config, s: State)
    requires c.Valid() && Reachable(Program(c), s) && Stuck(Program(c), s)
    ensures s.written == c.file <==> !(c.size < |c.file| && c.size % c.chunk == 0)
    ensures s.written == if c.size < |c.file| && c.size % c.chunk == 0 then c.file[..c.size] else c.file
    ensures c.size == |c.file| ==> s.written == c.file
  {
    CompleteRuns(c, s);
    assert c.file[..|c.file|] == c.file;
  }

  // ---------------------------------------------------------------------------------------------
  // The two loops on their own
  // ---------------------------------------------------------------------------------------------

  /** What the client's loop has sent: nonempty pieces, all full but perhaps one that ends the file. */
  ghost predicate Pieces(c: Config, sends: seq<seq<Byte>>, byteTotal: nat)
    requires c.Valid()
  {
    && byteTotal <= Target(c) && Concat(sends) == c.file[..byteTotal]
    && (Whole(c, byteTotal) || byteTotal == |c.file|)
    && (forall i | 0 <= i < |sends| :: 0 < |sends[i]| <= c.chunk)
    && (forall i | 0 <= i < |sends| - 1 :: |sends[i]| == c.chunk)
    && (sends != [] ==> |sends[|sends| - 1]| == c.chunk || byteTotal == |c.file|)
  }

  /** Where the next read ends, if there is one and the early break does not fire. */
  lemma {:induction false} NextRead(c: Config, byteTotal: nat)
    requires c.Valid() && byteTotal <= Target(c) && (Whole(c, byteTotal) || byteTotal == |c.file|)
    ensures
      var end := Min(byteTotal + c.chunk, |c.file|);
      if byteTotal == |c.file| || byteTotal == c.size then byteTotal == Target(c)
      else byteTotal < end <= Target(c) && (Whole(c, end) || end == |c.file|)
  {
    if byteTotal != |c.file| && byteTotal != c.size {
      if BreaksEarly(c) {
        WholeGap(c, byteTotal, c.size);
      }
      NextWhole(c, byteTotal);
    }
  }

  lemma {:induction false} OneMorePiece(c: Config, sends: seq<seq<Byte>>, byteTotal: nat, end: nat)
    requires c.Valid() && Pieces(c, sends, byteTotal) && byteTotal < |c.file|
    requires end == Min(byteTotal + c.chunk, |c.file|) && end <= Target(c) && (Whole(c, end) || end == |c.file|)
    ensures Pieces(c, sends + [c.file[byteTotal..end]], end)
  {
    hide Concat, Target, Whole;
    var buffer := c.file[byteTotal..end];
    ConcatSnoc(sends, buffer);
    assert c.file[..end] == c.file[..byteTotal] + buffer;
  }

  /** The client's loop: fread, the early break, send, and the byte count. */
  method SendFile(c: Config) returns (sends: seq<seq<Byte>>, byteTotal: nat)
    requires c.Valid()
    ensures byteTotal == if c.size < |c.file| && c.size % c.chunk == 0 then c.size else |c.file|
    ensures Concat(sends) == c.file[..byteTotal]
    ensures forall i | 0 <= i < |sends| :: 0 < |sends[i]| <= c.chunk
    ensures forall i | 0 <= i < |sends| - 1 :: |sends[i]| == c.chunk
  {
    sends, byteTotal := [], 0;
    var position, done := 0, false;
    while !done
      invariant position == byteTotal <= |c.file| && Pieces(c, sends, byteTotal)
      invariant done ==> byteTotal == Target(c)
      decreases !done, |c.file| - position
    {
      hide Concat, Target, Whole;
      var end := Min(position + c.chunk, |c.file|);
      var buffer := c.file[position..end];
      NextRead(c, byteTotal);
      if buffer == [] || byteTotal == c.size {
        done := true;
      } else {
        OneMorePiece(c, sends, byteTotal, end);
        sends, byteTotal, position := sends + [buffer], byteTotal + |buffer|, end;
      }
    }
  }

  /** The server's loop over what its recv calls return, up to the empty result. */
  method ReceiveFile(recvs: seq<seq<Byte>>) returns (written: seq<Byte>, calls: nat)
    ensures calls <= |recvs| && written == Concat(recvs[..calls])
    ensures forall i | 0 <= i < calls :: |recvs[i]| > 0
    ensures calls < |recvs| ==> |recvs[calls]| == 0
  {
    written, calls := [], 0;
    while calls < |recvs| && |recvs[calls]| > 0
      invariant calls <= |recvs| && written == Concat(recvs[..calls])
      invariant forall i | 0 <= i < calls :: |recvs[i]| > 0
    {
      hide Concat;
      assert recvs[..calls + 1] == recvs[..calls] + [recvs[calls]];
      ConcatSnoc(recvs[..calls], recvs[calls]);
      written, calls := written + recvs[calls], calls + 1;
    }
  }
}
