/**
 * The request/response exchange: a client asks for iters messages of msgSize bytes and then
 * sends size 0; a server answers each request and stops at size 0. One step is one read or write
 * call that moves some bytes, over two bounded channels that keep the order of bytes.
 */
module Exchange {
  import opened ExactTransfer

  const SIZE_BYTES: nat := 4
  const DEFAULT_BUF_SIZE: nat := 1048576

  datatype Setup = Setup(iters: nat, msgSize: nat, toServerRoom: nat, toClientRoom: nat) {
    predicate Sound() {
      0 < msgSize < 0x1_0000_0000 && toServerRoom > 0 && toClientRoom > 0
    }
  }

  // ---- the size field ----

  function Encode(size: nat, bytes: nat): (r: seq<byte>)
    ensures |r| == bytes
    decreases bytes, size
  {
    if bytes == 0 then [] else [size % 256] + Encode(size / 256, bytes - 1)
  }

  function Decode(data: seq<byte>): nat {
    if data == [] then 0 else data[0] + 256 * Decode(data[1..])
  }

  function Pow256(n: nat): nat {
    if n == 0 then 1 else 256 * Pow256(n - 1)
  }

  lemma {:induction false} DecodeEncode(size: nat, bytes: nat)
    requires size < Pow256(bytes)
    ensures Decode(Encode(size, bytes)) == size
  {
    if bytes > 0 {
      DecodeEncode(size / 256, bytes - 1);
      assert Encode(size, bytes)[1..] == Encode(size / 256, bytes - 1);
    }
  }

  lemma SizesSurvive(size: nat)
    requires size < 0x1_0000_0000
    ensures Decode(Encode(size, SIZE_BYTES)) == size
  {
    assert Pow256(4) == 256 * Pow256(3) && Pow256(2) == 256 * Pow256(1) && Pow256(0) == 1;
    DecodeEncode(size, SIZE_BYTES);
  }

  lemma FourBytes(data: seq<byte>)
    requires |data| == 4
    ensures Decode(data) == data[0] + 256 * data[1] as nat + 65536 * data[2] as nat + 16777216 * data[3] as nat
  {
    var rest := data[1..];
    assert Decode(data) == data[0] + 256 * Decode(rest);
    assert Decode(rest) == rest[0] + 256 * Decode(rest[1..]);
    assert Decode(rest[1..]) == rest[1] + 256 * Decode(rest[2..]);
    assert Decode(rest[2..]) == rest[2];
  }

  /** The size field on the wire: four bytes, the least significant one first. */
  lemma SizeField(size: nat)
    requires size < 0x1_0000_0000
    ensures var e := Encode(size, SIZE_BYTES);
            |e| == 4 && size == e[0] + 256 * e[1] as nat + 65536 * e[2] as nat + 16777216 * e[3] as nat
  {
    SizesSurvive(size);
    FourBytes(Encode(size, SIZE_BYTES));
  }

  // ---- the two programs, between calls ----

  datatype Client =
    | Requesting(i: nat, sent: nat)
    | Receiving(i: nat, received: nat)
    | Completing(sent: nat)
    | ClientDone

  datatype Server =
    | ReadingSize(iters: nat, got: seq<byte>)
    | Replying(iters: nat, msgSize: nat, sent: nat)
    | ServerDone(iters: nat)

  datatype State = State(client: Client, server: Server, toServer: seq<byte>, toClient: seq<byte>)

  /** The top of the client's loop. */
  function ClientAt(c: Setup, i: nat): Client {
    if i < c.iters then Requesting(i, 0) else Completing(0)
  }

  function Start(c: Setup): State {
    State(ClientAt(c, 0), ReadingSize(0, []), [], [])
  }

  // ---- one successful call of either program ----

  predicate ClientWrites(cl: Client) {
    cl.Requesting? || cl.Completing?
  }

  /** A call of the client may move n bytes. */
  predicate ClientMay(cl: Client, n: nat, c: Setup) {
    n > 0 &&
    match cl
    case Requesting(_, sent) => sent + n <= SIZE_BYTES
    case Receiving(_, received) => n <= DEFAULT_BUF_SIZE && received + n <= c.msgSize
    case Completing(sent) => sent + n <= SIZE_BYTES
    case ClientDone => false
  }

  function ClientNext(cl: Client, n: nat, c: Setup): Client
    requires ClientMay(cl, n, c)
  {
    match cl
    case Requesting(i, sent) => if sent + n < SIZE_BYTES then Requesting(i, sent + n) else Receiving(i, 0)
    case Receiving(i, received) =>
      if received + n < c.msgSize then Receiving(i, received + n) else ClientAt(c, i + 1)
    case Completing(sent) => if sent + n < SIZE_BYTES then Completing(sent + n) else ClientDone
  }

  /** The bytes that a call of the client writes. */
  function ClientOutput(cl: Client, n: nat, c: Setup): seq<byte>
    requires ClientMay(cl, n, c)
  {
    match cl
    case Requesting(_, sent) => Piece(Encode(c.msgSize, SIZE_BYTES), sent, n)
    case Completing(sent) => Piece(Encode(0, SIZE_BYTES), sent, n)
    case _ => []
  }

  /** A call of the server may move n bytes. */
  predicate ServerMay(sv: Server, n: nat) {
    n > 0 &&
    match sv
    case ReadingSize(_, got) => |got| + n <= SIZE_BYTES
    case Replying(_, msgSize, sent) => n <= DEFAULT_BUF_SIZE && sent + n <= msgSize
    case ServerDone(_) => false
  }

  /** The server after a call that moved n bytes; what it reads comes off the stream. */
  function ServerNext(sv: Server, n: nat, stream: seq<byte>): Server
    requires ServerMay(sv, n) && (sv.ReadingSize? ==> n <= |stream|)
  {
    match sv
    case ReadingSize(iters, got) => Parsed(iters, got + stream[..n])
    case Replying(iters, msgSize, sent) =>
      if sent + n < msgSize then Replying(iters, msgSize, sent + n) else ReadingSize(iters + 1, [])
  }

  /** The server after a read of the size field. */
  function Parsed(iters: nat, got: seq<byte>): Server {
    if |got| < SIZE_BYTES then ReadingSize(iters, got)
    else if Decode(got) == 0 then ServerDone(iters)
    else Replying(iters, Decode(got), 0)
  }

  function Piece(data: seq<byte>, start: nat, n: nat): seq<byte>
    requires start + n <= |data|
  {
    data[start..start + n]
  }

  // ---- both together ----

  datatype Action = ClientWrite(n: nat) | ClientRead(n: nat) | ServerRead(n: nat) | ServerWrite(n: nat)

  predicate Enabled(s: State, a: Action, c: Setup) {
    match a
    case ClientWrite(n) => ClientWrites(s.client) && ClientMay(s.client, n, c) && |s.toServer| + n <= c.toServerRoom
    case ClientRead(n) => s.client.Receiving? && ClientMay(s.client, n, c) && n <= |s.toClient|
    case ServerRead(n) => s.server.ReadingSize? && ServerMay(s.server, n) && n <= |s.toServer|
    case ServerWrite(n) => s.server.Replying? && ServerMay(s.server, n) && |s.toClient| + n <= c.toClientRoom
  }

  function Next(s: State, a: Action, c: Setup): State
    requires Enabled(s, a, c)
  {
    match a
    case ClientWrite(n) =>
      s.(client := ClientNext(s.client, n, c), toServer := s.toServer + ClientOutput(s.client, n, c))
    case ClientRead(n) =>
      s.(client := ClientNext(s.client, n, c), toClient := s.toClient[n..])
    case ServerRead(n) =>
      s.(server := ServerNext(s.server, n, s.toServer), toServer := s.toServer[n..])
    case ServerWrite(n) =>
      s.(server := ServerNext(s.server, n, []), toClient := s.toClient + seq(n, _ => 0))
  }

  ghost predicate Runs(s: State, actions: seq<Action>, s': State, c: Setup)
    decreases |actions|
  {
    if actions == [] then s == s'
    else Enabled(s, actions[0], c) && Runs(Next(s, actions[0], c), actions[1..], s', c)
  }

  predicate Finished(s: State) {
    s.client.ClientDone? && s.server.ServerDone?
  }

  // ---- what every reachable state satisfies ----

  /** The part of a size field that the server has, followed by what is under way to it. */
  predicate SizeUnderWay(s: State, size: nat, sent: nat) {
    && sent <= SIZE_BYTES && s.toClient == [] && s.server.ReadingSize? && |s.server.got| < SIZE_BYTES
    && s.server.got + s.toServer == Encode(size, SIZE_BYTES)[..sent]
  }

  /** The server starts to read a size field exactly where the client started to write one. */
  predicate Inv(s: State, c: Setup) {
    match s.client
    case Requesting(i, sent) => i < c.iters && sent < SIZE_BYTES && s.server.iters == i && SizeUnderWay(s, c.msgSize, sent)
    case Receiving(i, received) =>
      && i < c.iters && received < c.msgSize
      && if s.server.iters == i
         then if s.server.ReadingSize? then received == 0 && SizeUnderWay(s, c.msgSize, SIZE_BYTES)
              else && s.server.Replying? && s.server.msgSize == c.msgSize && s.toServer == []
                   && received + |s.toClient| == s.server.sent < c.msgSize
         else && s.server == ReadingSize(i + 1, []) && s.toServer == []
              && received + |s.toClient| == c.msgSize
    case Completing(sent) => sent < SIZE_BYTES && s.server.iters == c.iters && SizeUnderWay(s, 0, sent)
    case ClientDone =>
      && s.server.iters == c.iters && s.toClient == []
      && if s.server.ReadingSize? then SizeUnderWay(s, 0, SIZE_BYTES) else s.server.ServerDone? && s.toServer == []
  }

  lemma StartInv(c: Setup)
    requires c.Sound()
    ensures Inv(Start(c), c)
  {
  }

  lemma ServerReadKeepsInv(s: State, n: nat, c: Setup)
    requires c.Sound() && Inv(s, c) && Enabled(s, ServerRead(n), c)
    ensures Inv(Next(s, ServerRead(n), c), c)
  {
    var s' := Next(s, ServerRead(n), c);
    var got := s.server.got + s.toServer[..n];
    assert got + s.toServer[n..] == s.server.got + s.toServer;
    SizesSurvive(c.msgSize);
    SizesSurvive(0);
    assert |got| == SIZE_BYTES ==> got == (s.server.got + s.toServer)[..SIZE_BYTES];
    assert Encode(c.msgSize, SIZE_BYTES)[..SIZE_BYTES] == Encode(c.msgSize, SIZE_BYTES);
    assert Encode(0, SIZE_BYTES)[..SIZE_BYTES] == Encode(0, SIZE_BYTES);
  }

  lemma MoreOfTheSize(s: State, size: nat, sent: nat, n: nat)
    requires SizeUnderWay(s, size, sent) && sent + n <= SIZE_BYTES
    ensures SizeUnderWay(s.(toServer := s.toServer + Piece(Encode(size, SIZE_BYTES), sent, n)), size, sent + n)
  {
    var data := Encode(size, SIZE_BYTES);
    assert data[..sent] + Piece(data, sent, n) == data[..sent + n];
    assert s.server.got + (s.toServer + Piece(data, sent, n)) == s.server.got + s.toServer + Piece(data, sent, n);
  }

  lemma ClientWriteKeepsInv(s: State, n: nat, c: Setup)
    requires c.Sound() && Inv(s, c) && Enabled(s, ClientWrite(n), c)
    ensures Inv(Next(s, ClientWrite(n), c), c)
  {
    MoreOfTheSize(s, if s.client.Requesting? then c.msgSize else 0, s.client.sent, n);
  }

  lemma StepKeepsInv(s: State, a: Action, c: Setup)
    requires c.Sound() && Inv(s, c) && Enabled(s, a, c)
    ensures Inv(Next(s, a, c), c)
  {
    match a
    case ClientWrite(n) => ClientWriteKeepsInv(s, n, c);
    case ServerRead(n) => ServerReadKeepsInv(s, n, c);
    case ClientRead(n) =>
    case ServerWrite(n) =>
  }

  lemma {:induction false} RunKeepsInv(s: State, actions: seq<Action>, s': State, c: Setup)
    requires c.Sound() && Inv(s, c) && Runs(s, actions, s', c)
    ensures Inv(s', c)
    decreases |actions|
  {
    if actions != [] {
      StepKeepsInv(s, actions[0], c);
      RunKeepsInv(Next(s, actions[0], c), actions[1..], s', c);
    }
  }

  // ---- no deadlock ----

  /** Some call can move a byte until both programs have succeeded. */
  lemma StopsOnlyFinished(s: State, c: Setup)
    requires c.Sound() && Inv(s, c)
    ensures Finished(s) <==> forall a :: !Enabled(s, a, c)
  {
    if s.toServer != [] {
      assert Enabled(s, ServerRead(1), c);
    } else if s.toClient != [] {
      assert Enabled(s, ClientRead(1), c);
    } else if s.client.Requesting? || s.client.Completing? {
      assert Enabled(s, ClientWrite(1), c);
    } else if s.server.Replying? {
      assert Enabled(s, ServerWrite(1), c);
    }
  }

  // ---- every run ends ----

  /** The bytes of a number of rounds, as one program sees them. */
  function Rounds(n: nat, c: Setup): nat {
    if n == 0 then 0 else SIZE_BYTES + c.msgSize + Rounds(n - 1, c)
  }

  /** The bytes that the two programs still have to move. */
  function ClientLeft(s: State, c: Setup): int {
    match s.client
    case Requesting(i, sent) => (if i < c.iters then Rounds(c.iters - i, c) else 0) - sent + SIZE_BYTES
    case Receiving(i, received) => (if i < c.iters then Rounds(c.iters - i, c) else 0) - received
    case Completing(sent) => SIZE_BYTES - sent
    case ClientDone => 0
  }

  function ServerLeft(s: State, c: Setup): int {
    match s.server
    case ReadingSize(i, got) => (if i < c.iters then Rounds(c.iters - i, c) else 0) - |got| + SIZE_BYTES
    case Replying(i, _, sent) => (if i < c.iters then Rounds(c.iters - i, c) else 0) - sent
    case ServerDone(_) => 0
  }

  /** Each call that moves n bytes brings the end n bytes nearer. */
  lemma StepApproachesEnd(s: State, a: Action, c: Setup)
    requires c.Sound() && Inv(s, c) && Enabled(s, a, c)
    ensures ClientLeft(Next(s, a, c), c) + ServerLeft(Next(s, a, c), c) == ClientLeft(s, c) + ServerLeft(s, c) - a.n
  {
    if a.ServerRead? {
      ServerReadKeepsInv(s, a.n, c);
    }
  }

  lemma WorkIsLeft(s: State, c: Setup)
    requires c.Sound() && Inv(s, c)
    ensures ClientLeft(s, c) >= 0 && ServerLeft(s, c) >= 0
    ensures Finished(s) <==> ClientLeft(s, c) + ServerLeft(s, c) == 0
  {
  }

  function Moved(actions: seq<Action>): nat {
    if actions == [] then 0 else actions[0].n + Moved(actions[1..])
  }

  lemma {:induction false} RunApproachesEnd(s: State, actions: seq<Action>, s': State, c: Setup)
    requires c.Sound() && Inv(s, c) && Runs(s, actions, s', c)
    ensures ClientLeft(s', c) + ServerLeft(s', c) + Moved(actions) == ClientLeft(s, c) + ServerLeft(s, c)
    ensures |actions| <= Moved(actions)
    decreases |actions|
  {
    if actions != [] {
      StepKeepsInv(s, actions[0], c);
      StepApproachesEnd(s, actions[0], c);
      RunApproachesEnd(Next(s, actions[0], c), actions[1..], s', c);
    }
  }

  /** The bytes that both programs move in a whole exchange. */
  function WholeExchange(c: Setup): nat {
    2 * (c.iters * (SIZE_BYTES + c.msgSize) + SIZE_BYTES)
  }

  lemma {:induction false} RoundsIs(n: nat, c: Setup)
    ensures Rounds(n, c) == n * (SIZE_BYTES + c.msgSize)
  {
    if n > 0 {
      RoundsIs(n - 1, c);
    }
  }

  lemma StartLeft(c: Setup)
    ensures ClientLeft(Start(c), c) + ServerLeft(Start(c), c) == WholeExchange(c)
  {
    RoundsIs(c.iters, c);
  }

  lemma ServerDoneIsFinished(s: State, c: Setup)
    requires Inv(s, c)
    ensures s.server.ServerDone? ==>
              Finished(s) && s.server.iters == c.iters && s.toServer == [] && s.toClient == []
    ensures s.server.Replying? ==> s.server.msgSize == c.msgSize
  {
  }

  /**
   * Every run from the start, whatever the short reads and writes: it makes a bounded number of
   * calls, it can go on until both programs succeed, and exactly then every byte of the exchange
   * has been moved; the server then counted as many messages as the client, and no byte is left over.
   */
  lemma EveryRunSucceeds(actions: seq<Action>, s: State, c: Setup)
    requires c.Sound() && Runs(Start(c), actions, s, c)
    ensures |actions| <= Moved(actions) <= WholeExchange(c)
    ensures Finished(s) <==> forall a :: !Enabled(s, a, c)
    ensures Finished(s) <==> Moved(actions) == WholeExchange(c)
    ensures s.server.ServerDone? ==>
              Finished(s) && s.server.iters == c.iters && s.toServer == [] && s.toClient == []
    ensures s.server.Replying? ==> s.server.msgSize == c.msgSize
  {
    StartInv(c);
    RunKeepsInv(Start(c), actions, s, c);
    RunEnds(actions, s, c);
    StopsOnlyFinished(s, c);
    ServerDoneIsFinished(s, c);
  }

  lemma RunEnds(actions: seq<Action>, s: State, c: Setup)
    requires c.Sound() && Inv(Start(c), c) && Inv(s, c) && Runs(Start(c), actions, s, c)
    ensures |actions| <= Moved(actions) <= WholeExchange(c)
    ensures Finished(s) <==> Moved(actions) == WholeExchange(c)
  {
    RunApproachesEnd(Start(c), actions, s, c);
    StartLeft(c);
    WorkIsLeft(s, c);
  }
}
