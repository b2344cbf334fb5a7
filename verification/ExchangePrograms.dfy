/**
 * The client's and the server's main loops over `write_exact` and `read_exact`. Every successful
 * call that either program makes is an action of the exchange, and every run of the exchange is,
 * program by program, what the loops do on sockets that answer accordingly.
 */
module ExchangePrograms {
  import opened Basics
  import opened ExactTransfer
  import opened Exchange

  // ---- the calls of one program ----

  /** log, the bytes moved by successive calls, takes the client from cl to cl'. */
  ghost predicate ClientTrace(cl: Client, log: seq<nat>, c: Setup, cl': Client)
    decreases |log|
  {
    if log == [] then cl == cl'
    else ClientMay(cl, log[0], c) && ClientTrace(ClientNext(cl, log[0], c), log[1..], c, cl')
  }

  /** The same for the server, which reads from the stream on its way. */
  ghost predicate ServerTrace(sv: Server, stream: seq<byte>, log: seq<nat>, sv': Server, stream': seq<byte>)
    decreases |log|
  {
    if log == [] then sv == sv' && stream == stream'
    else
      && ServerMay(sv, log[0]) && (sv.ReadingSize? ==> log[0] <= |stream|)
      && ServerTrace(ServerNext(sv, log[0], stream), if sv.ReadingSize? then stream[log[0]..] else stream,
                     log[1..], sv', stream')
  }

  /** Everything that the client writes in the course of some calls. */
  function Written(cl: Client, log: seq<nat>, c: Setup): seq<byte>
    decreases |log|
  {
    if log == [] || !ClientMay(cl, log[0], c) then []
    else ClientOutput(cl, log[0], c) + Written(ClientNext(cl, log[0], c), log[1..], c)
  }

  /** How many bytes the client reads in the course of some calls. */
  function TakenIn(cl: Client, log: seq<nat>, c: Setup): nat
    decreases |log|
  {
    if log == [] || !ClientMay(cl, log[0], c) then 0
    else (if cl.Receiving? then log[0] else 0) + TakenIn(ClientNext(cl, log[0], c), log[1..], c)
  }

  /** How many bytes of replies the server writes in the course of some calls. */
  function ReplyBytes(sv: Server, stream: seq<byte>, log: seq<nat>): nat
    decreases |log|
  {
    if log == [] || !ServerMay(sv, log[0]) || (sv.ReadingSize? && log[0] > |stream|) then 0
    else (if sv.Replying? then log[0] else 0) +
         ReplyBytes(ServerNext(sv, log[0], stream), if sv.ReadingSize? then stream[log[0]..] else stream, log[1..])
  }

  // ---- what the sockets grant ----

  /** The most that the client's next call can move. */
  function ClientMost(cl: Client, available: nat, c: Setup): nat {
    match cl
    case Requesting(_, sent) => Most(SIZE_BYTES - sent, SIZE_BYTES, SIZE_BYTES - sent)
    case Receiving(_, received) => Most(c.msgSize - received, DEFAULT_BUF_SIZE, available)
    case Completing(sent) => Most(SIZE_BYTES - sent, SIZE_BYTES, SIZE_BYTES - sent)
    case ClientDone => 0
  }

  /** log takes the client from cl to cl', and is what a socket grants from its k-th call on while
      `available` bytes are there to be read; `available'` are left. */
  ghost predicate ClientGrants(cl: Client, log: seq<nat>, c: Setup, cl': Client,
                               answer: nat -> int, k: nat, available: nat, available': nat)
    decreases |log|
  {
    if log == [] then cl == cl' && available == available'
    else
      && ClientMay(cl, log[0], c) && log[0] == Cut(answer(k), ClientMost(cl, available, c))
      && (cl.Receiving? ==> log[0] <= available)
      && ClientGrants(ClientNext(cl, log[0], c), log[1..], c, cl',
                      answer, k + 1, if cl.Receiving? then available - log[0] else available, available')
  }

  ghost predicate ClientStops(cl: Client, c: Setup, answer: nat -> int, k: nat, available: nat) {
    cl.ClientDone? || Cut(answer(k), ClientMost(cl, available, c)) <= 0
  }

  function ServerMost(sv: Server, stream: seq<byte>): nat {
    match sv
    case ReadingSize(_, got) => Most(SIZE_BYTES - |got|, SIZE_BYTES, |stream|)
    case Replying(_, msgSize, sent) => Most(msgSize - sent, DEFAULT_BUF_SIZE, msgSize - sent)
    case ServerDone(_) => 0
  }

  ghost predicate ServerGrants(sv: Server, stream: seq<byte>, log: seq<nat>, sv': Server, stream': seq<byte>,
                               answer: nat -> int, k: nat)
    decreases |log|
  {
    if log == [] then sv == sv' && stream == stream'
    else
      && ServerMay(sv, log[0]) && log[0] == Cut(answer(k), ServerMost(sv, stream))
      && (sv.ReadingSize? ==> log[0] <= |stream|)
      && ServerGrants(ServerNext(sv, log[0], stream), if sv.ReadingSize? then stream[log[0]..] else stream,
                      log[1..], sv', stream', answer, k + 1)
  }

  ghost predicate ServerStops(sv: Server, stream: seq<byte>, answer: nat -> int, k: nat) {
    sv.ServerDone? || Cut(answer(k), ServerMost(sv, stream)) <= 0
  }

  lemma {:induction false} ClientGrantsConcat(cl: Client, a: seq<nat>, m: Client, b: seq<nat>, cl': Client, c: Setup,
                                              answer: nat -> int, k: nat, x: nat, y: nat, z: nat)
    requires ClientGrants(cl, a, c, m, answer, k, x, y) && ClientGrants(m, b, c, cl', answer, k + |a|, y, z)
    ensures ClientGrants(cl, a + b, c, cl', answer, k, x, z)
    decreases |a|
  {
    if a == [] {
      assert a + b == b;
    } else {
      assert (a + b)[1..] == a[1..] + b;
      ClientGrantsConcat(ClientNext(cl, a[0], c), a[1..], m, b, cl', c, answer, k + 1,
                         if cl.Receiving? then x - a[0] else x, y, z);
    }
  }

  lemma {:induction false} WrittenConcat(cl: Client, a: seq<nat>, m: Client, b: seq<nat>, c: Setup)
    requires ClientTrace(cl, a, c, m)
    ensures Written(cl, a + b, c) == Written(cl, a, c) + Written(m, b, c)
    decreases |a|
  {
    if a == [] {
      assert a + b == b;
    } else {
      assert (a + b)[1..] == a[1..] + b;
      WrittenConcat(ClientNext(cl, a[0], c), a[1..], m, b, c);
      Associate(ClientOutput(cl, a[0], c), Written(ClientNext(cl, a[0], c), a[1..], c), Written(m, b, c));
    }
  }

  lemma Associate(a: seq<byte>, b: seq<byte>, d: seq<byte>)
    ensures a + (b + d) == (a + b) + d
  {
  }

  /** The client's calls a, and then b. */
  lemma ClientGoesOn(cl: Client, a: seq<nat>, m: Client, b: seq<nat>, cl': Client, c: Setup,
                     answer: nat -> int, k: nat, x: nat, y: nat, z: nat)
    requires ClientGrants(cl, a, c, m, answer, k, x, y) && ClientGrants(m, b, c, cl', answer, k + |a|, y, z)
    ensures ClientGrants(cl, a + b, c, cl', answer, k, x, z)
    ensures Written(cl, a + b, c) == Written(cl, a, c) + Written(m, b, c)
  {
    ClientGrantsConcat(cl, a, m, b, cl', c, answer, k, x, y, z);
    ClientGrantsTrace(cl, a, c, m, answer, k, x, y);
    WrittenConcat(cl, a, m, b, c);
  }

  lemma {:induction false} ServerGrantsConcat(sv: Server, s: seq<byte>, a: seq<nat>, m: Server, t: seq<byte>,
                                              b: seq<nat>, sv': Server, u: seq<byte>, answer: nat -> int, k: nat)
    requires ServerGrants(sv, s, a, m, t, answer, k) && ServerGrants(m, t, b, sv', u, answer, k + |a|)
    ensures ServerGrants(sv, s, a + b, sv', u, answer, k)
    decreases |a|
  {
    if a == [] {
      assert a + b == b;
    } else {
      assert (a + b)[1..] == a[1..] + b;
      ServerGrantsConcat(ServerNext(sv, a[0], s), if sv.ReadingSize? then s[a[0]..] else s, a[1..], m, t, b, sv', u,
                         answer, k + 1);
    }
  }

  lemma {:induction false} ReplyBytesConcat(sv: Server, s: seq<byte>, a: seq<nat>, m: Server, t: seq<byte>, b: seq<nat>)
    requires ServerTrace(sv, s, a, m, t)
    ensures ReplyBytes(sv, s, a + b) == ReplyBytes(sv, s, a) + ReplyBytes(m, t, b)
    decreases |a|
  {
    if a == [] {
      assert a + b == b;
    } else {
      assert (a + b)[1..] == a[1..] + b;
      ReplyBytesConcat(ServerNext(sv, a[0], s), if sv.ReadingSize? then s[a[0]..] else s, a[1..], m, t, b);
    }
  }

  /** The server's calls a, and then b. */
  lemma ServerGoesOn(sv: Server, s: seq<byte>, a: seq<nat>, m: Server, t: seq<byte>,
                     b: seq<nat>, sv': Server, u: seq<byte>, answer: nat -> int, k: nat)
    requires ServerGrants(sv, s, a, m, t, answer, k) && ServerGrants(m, t, b, sv', u, answer, k + |a|)
    ensures ServerGrants(sv, s, a + b, sv', u, answer, k)
    ensures ReplyBytes(sv, s, a + b) == ReplyBytes(sv, s, a) + ReplyBytes(m, t, b)
  {
    ServerGrantsConcat(sv, s, a, m, t, b, sv', u, answer, k);
    ServerGrantsTrace(sv, s, a, m, t, answer, k);
    ReplyBytesConcat(sv, s, a, m, t, b);
  }

  /** What is granted is a trace. */
  lemma {:induction false} ClientGrantsTrace(cl: Client, log: seq<nat>, c: Setup, cl': Client,
                                             answer: nat -> int, k: nat, x: nat, y: nat)
    requires ClientGrants(cl, log, c, cl', answer, k, x, y)
    ensures ClientTrace(cl, log, c, cl') && x == y + TakenIn(cl, log, c)
    decreases |log|
  {
    if log != [] {
      ClientGrantsTrace(ClientNext(cl, log[0], c), log[1..], c, cl', answer, k + 1,
                        if cl.Receiving? then x - log[0] else x, y);
    }
  }

  lemma {:induction false} ServerGrantsTrace(sv: Server, s: seq<byte>, log: seq<nat>, sv': Server, t: seq<byte>,
                                             answer: nat -> int, k: nat)
    requires ServerGrants(sv, s, log, sv', t, answer, k)
    ensures ServerTrace(sv, s, log, sv', t)
    decreases |log|
  {
    if log != [] {
      ServerGrantsTrace(ServerNext(sv, log[0], s), if sv.ReadingSize? then s[log[0]..] else s, log[1..], sv', t,
                        answer, k + 1);
    }
  }

  // ---- a whole transfer ----

  predicate ClientTransfer(cl: Client) {
    cl == Completing(0) || (cl.Requesting? && cl.sent == 0) || (cl.Receiving? && cl.received == 0)
  }

  function TransferSize(cl: Client, c: Setup): nat {
    if cl.Receiving? then c.msgSize else SIZE_BYTES
  }

  function TransferMax(cl: Client): nat {
    if cl.Receiving? then DEFAULT_BUF_SIZE else SIZE_BYTES
  }

  /** The client after the first k bytes of a transfer. */
  function Transferred(cl: Client, k: nat, c: Setup): Client
    requires ClientTransfer(cl)
  {
    match cl
    case Requesting(i, _) => if k < SIZE_BYTES then Requesting(i, k) else Receiving(i, 0)
    case Receiving(i, _) => if k < c.msgSize then Receiving(i, k) else ClientAt(c, i + 1)
    case Completing(_) => if k < SIZE_BYTES then Completing(k) else ClientDone
  }

  /** The calls of one write_exact or read_exact of the client. */
  lemma {:induction false} ClientCalls(cl: Client, log: seq<nat>, c: Setup, answer: nat -> int, k: nat, available: nat)
    requires c.Sound() && ClientTransfer(cl)
    requires Made(answer, k, TransferSize(cl, c), TransferMax(cl), Offered(cl, c, available), log)
    requires Sum(log) <= TransferSize(cl, c) && Sum(log) <= Offered(cl, c, available)
    ensures ClientGrants(cl, log, c, Transferred(cl, Sum(log), c), answer, k, available, Untaken(cl, available, Sum(log)))
    decreases |log|
  {
    if log != [] {
      var front, n := log[..|log| - 1], log[|log| - 1];
      var m, m' := Transferred(cl, Sum(front), c), Transferred(cl, Sum(log), c);
      var y, z := Untaken(cl, available, Sum(front)), Untaken(cl, available, Sum(log));
      ClientCalls(cl, front, c, answer, k, available);
      OneClientCall(cl, Sum(front), n, c, answer, k + |front|, y);
      ClientGrantsConcat(cl, front, m, [n], m', c, answer, k, available, y, z);
      assert front + [n] == log;
    }
  }

  /** What they write is the size field, as far as they got. */
  lemma {:induction false} TransferWrites(cl: Client, log: seq<nat>, c: Setup, answer: nat -> int, k: nat, available: nat)
    requires c.Sound() && ClientTransfer(cl)
    requires Made(answer, k, TransferSize(cl, c), TransferMax(cl), Offered(cl, c, available), log)
    requires Sum(log) <= TransferSize(cl, c) && Sum(log) <= Offered(cl, c, available)
    ensures Written(cl, log, c) == SentOf(cl, c, Sum(log))
    decreases |log|
  {
    if log == [] {
      assert SentOf(cl, c, 0) == [];
    } else {
      var front, n := log[..|log| - 1], log[|log| - 1];
      TransferWrites(cl, front, c, answer, k, available);
      FrontIsTrace(cl, front, c, answer, k, available);
      WritesOn(cl, front, Sum(front), n, c);
      assert front + [n] == log;
    }
  }

  lemma WritesOn(cl: Client, front: seq<nat>, done: nat, n: nat, c: Setup)
    requires c.Sound() && ClientTransfer(cl) && 0 < n <= TransferMax(cl) && done + n <= TransferSize(cl, c)
    requires ClientTrace(cl, front, c, Transferred(cl, done, c)) && Written(cl, front, c) == SentOf(cl, c, done)
    ensures Written(cl, front + [n], c) == SentOf(cl, c, done + n)
  {
    WrittenConcat(cl, front, Transferred(cl, done, c), [n], c);
    OneClientWrite(cl, done, n, c);
  }

  lemma FrontIsTrace(cl: Client, log: seq<nat>, c: Setup, answer: nat -> int, k: nat, available: nat)
    requires c.Sound() && ClientTransfer(cl)
    requires Made(answer, k, TransferSize(cl, c), TransferMax(cl), Offered(cl, c, available), log)
    requires Sum(log) <= TransferSize(cl, c) && Sum(log) <= Offered(cl, c, available)
    ensures ClientTrace(cl, log, c, Transferred(cl, Sum(log), c))
  {
    ClientCalls(cl, log, c, answer, k, available);
    ClientGrantsTrace(cl, log, c, Transferred(cl, Sum(log), c), answer, k, available, Untaken(cl, available, Sum(log)));
  }

  lemma OneClientWrite(cl: Client, done: nat, n: nat, c: Setup)
    requires c.Sound() && ClientTransfer(cl) && n > 0 && done + n <= TransferSize(cl, c)
    requires n <= TransferMax(cl)
    ensures SentOf(cl, c, done) + Written(Transferred(cl, done, c), [n], c) == SentOf(cl, c, done + n)
  {
    var m, field := Transferred(cl, done, c), SizeField(cl, c);
    assert ClientMay(m, n, c) && [n][1..] == [];
    assert Written(m, [n], c) == ClientOutput(m, n, c) + [];
    if !cl.Receiving? {
      assert ClientOutput(m, n, c) == Piece(field, done, n);
      assert field[..done] + (Piece(field, done, n) + []) == field[..done + n];
    }
  }

  /** The bytes that a transfer can count on: what a reader will be sent, and a writer's own. */
  function Offered(cl: Client, c: Setup, available: nat): nat {
    if cl.Receiving? then available else TransferSize(cl, c)
  }

  function Untaken(cl: Client, available: nat, k: nat): nat
    requires cl.Receiving? ==> k <= available
  {
    if cl.Receiving? then available - k else available
  }

  /** What a transfer has written after k bytes. */
  function SentOf(cl: Client, c: Setup, k: nat): seq<byte>
    requires cl.Receiving? || k <= SIZE_BYTES
  {
    if cl.Receiving? then [] else SizeField(cl, c)[..k]
  }

  /** The size field that a transfer of the client sends. */
  function SizeField(cl: Client, c: Setup): (r: seq<byte>)
    ensures |r| == SIZE_BYTES
  {
    Encode(if cl.Completing? then 0 else c.msgSize, SIZE_BYTES)
  }

  lemma OneClientCall(cl: Client, done: nat, n: nat, c: Setup, answer: nat -> int, k: nat, available: nat)
    requires c.Sound() && ClientTransfer(cl) && n > 0 && done + n <= TransferSize(cl, c)
    requires n == Cut(answer(k), Most(TransferSize(cl, c) - done, TransferMax(cl),
                                      if cl.Receiving? then available else TransferSize(cl, c) - done))
    requires cl.Receiving? ==> n <= available
    ensures ClientGrants(Transferred(cl, done, c), [n], c, Transferred(cl, done + n, c), answer, k,
                         available, if cl.Receiving? then available - n else available)
  {
    var m := Transferred(cl, done, c);
    assert ClientMay(m, n, c) && ClientNext(m, n, c) == Transferred(cl, done + n, c);
    assert [n][1..] == [];
  }

  /** The server after it read the first k bytes of a size. */
  function SizeRead(iters: nat, stream: seq<byte>, k: nat): Server
    requires k <= |stream|
  {
    Parsed(iters, stream[..k])
  }

  lemma {:induction false} SizeCalls(iters: nat, stream: seq<byte>, log: seq<nat>, answer: nat -> int, k: nat)
    requires Made(answer, k, SIZE_BYTES, SIZE_BYTES, |stream|, log) && Sum(log) <= SIZE_BYTES && Sum(log) <= |stream|
    ensures ServerGrants(ReadingSize(iters, []), stream, log, SizeRead(iters, stream, Sum(log)), stream[Sum(log)..],
                         answer, k)
    ensures ReplyBytes(ReadingSize(iters, []), stream, log) == 0
    decreases |log|
  {
    if log == [] {
      assert stream[..0] == [] && stream[0..] == stream;
    } else {
      var front, n := log[..|log| - 1], log[|log| - 1];
      SizeCalls(iters, stream, front, answer, k);
      OneSizeCall(iters, stream, Sum(front), n, answer, k + |front|);
      ServerGoesOn(ReadingSize(iters, []), stream, front, SizeRead(iters, stream, Sum(front)), stream[Sum(front)..],
                         [n], SizeRead(iters, stream, Sum(log)), stream[Sum(log)..], answer, k);
      assert front + [n] == log;
    }
  }

  lemma OneSizeCall(iters: nat, stream: seq<byte>, done: nat, n: nat, answer: nat -> int, k: nat)
    requires n > 0 && done + n <= SIZE_BYTES && done + n <= |stream|
    requires n == Cut(answer(k), Most(SIZE_BYTES - done, SIZE_BYTES, |stream| - done))
    ensures ServerGrants(SizeRead(iters, stream, done), stream[done..], [n],
                         SizeRead(iters, stream, done + n), stream[done + n..], answer, k)
    ensures ReplyBytes(SizeRead(iters, stream, done), stream[done..], [n]) == 0
  {
    var m, rest := SizeRead(iters, stream, done), stream[done..];
    assert stream[..done] + rest[..n] == stream[..done + n] && rest[n..] == stream[done + n..];
    assert ServerNext(m, n, rest) == SizeRead(iters, stream, done + n);
    assert [n][1..] == [];
  }

  function Replied(iters: nat, msgSize: nat, k: nat): Server {
    if k < msgSize then Replying(iters, msgSize, k) else ReadingSize(iters + 1, [])
  }

  lemma {:induction false} ReplyCalls(iters: nat, msgSize: nat, stream: seq<byte>, log: seq<nat>,
                                      answer: nat -> int, k: nat)
    requires msgSize > 0 && Made(answer, k, msgSize, DEFAULT_BUF_SIZE, msgSize, log) && Sum(log) <= msgSize
    ensures ServerGrants(Replying(iters, msgSize, 0), stream, log, Replied(iters, msgSize, Sum(log)), stream, answer, k)
    ensures ReplyBytes(Replying(iters, msgSize, 0), stream, log) == Sum(log)
    decreases |log|
  {
    if log != [] {
      var front, n := log[..|log| - 1], log[|log| - 1];
      ReplyCalls(iters, msgSize, stream, front, answer, k);
      var m, m' := Replied(iters, msgSize, Sum(front)), Replied(iters, msgSize, Sum(log));
      assert ServerNext(m, n, stream) == m' && [n][1..] == [];
      assert ServerGrants(m, stream, [n], m', stream, answer, k + |front|);
      ServerGoesOn(Replying(iters, msgSize, 0), stream, front, m, stream, [n], m', stream, answer, k);
      assert front + [n] == log;
    }
  }

  // ---- the client's main loop ----

  /** What the client has written once it has made n requests. */
  function Requests(n: nat, c: Setup): seq<byte> {
    if n == 0 then [] else Requests(n - 1, c) + Encode(c.msgSize, SIZE_BYTES)
  }

  method SizeBuffer(size: nat) returns (buf: array<byte>)
    ensures fresh(buf) && buf[..] == Encode(size, SIZE_BYTES)
  {
    var field := Encode(size, SIZE_BYTES);
    buf := new byte[SIZE_BYTES](i requires 0 <= i < SIZE_BYTES => field[i]);
  }

  /** Sends a size; on failure fewer bytes than its four have gone out. */
  method SendSize(sock: Socket, buf: array<byte>, ghost cl: Client, ghost c: Setup)
    returns (ok: bool, ghost log: seq<nat>, ghost cl': Client)
    requires c.Sound() && ClientTransfer(cl) && ClientWrites(cl) && buf[..] == SizeField(cl, c)
    modifies sock`calls, sock`last, sock`moved, sock`outgoing
    ensures ClientGrants(cl, log, c, cl', sock.answer, old(sock.calls), |sock.incoming|, |sock.incoming|)
    ensures sock.moved == old(sock.moved) + log && sock.outgoing == old(sock.outgoing) + Written(cl, log, c)
    ensures ok ==> cl' == Transferred(cl, SIZE_BYTES, c) && sock.calls == old(sock.calls) + |log|
    ensures ok ==> sock.outgoing == old(sock.outgoing) + buf[..]
    ensures !ok ==> sock.last <= 0 && ClientWrites(cl')
    ensures !ok ==> ClientStops(cl', c, sock.answer, old(sock.calls) + |log|, |sock.incoming|)
  {
    var written: nat;
    assert |buf[..]| == SIZE_BYTES;
    written, log := WriteExact(sock, buf, SIZE_BYTES, SIZE_BYTES, false);
    ok := written == SIZE_BYTES;
    ClientCalls(cl, log, c, sock.answer, old(sock.calls), |sock.incoming|);
    TransferWrites(cl, log, c, sock.answer, old(sock.calls), |sock.incoming|);
    cl' := Transferred(cl, written, c);
    assert buf[..written] == SizeField(cl, c)[..written];
  }

  /** Receives a message, the contents of which do not matter. */
  method ReceiveMessage(sock: Socket, buf: array<byte>, i: nat, c: Setup)
    returns (ok: bool, ghost log: seq<nat>, ghost cl': Client)
    requires c.Sound() && buf.Length == DEFAULT_BUF_SIZE
    modifies sock`calls, sock`last, sock`moved, sock`incoming, buf
    ensures ClientGrants(Receiving(i, 0), log, c, cl', sock.answer, old(sock.calls), |old(sock.incoming)|, |sock.incoming|)
    ensures sock.moved == old(sock.moved) + log && Written(Receiving(i, 0), log, c) == []
    ensures ok ==> cl' == ClientAt(c, i + 1) && sock.calls == old(sock.calls) + |log|
    ensures ok ==> |old(sock.incoming)| == c.msgSize + |sock.incoming|
    ensures !ok ==> sock.last <= 0 && cl'.Receiving?
    ensures !ok ==> ClientStops(cl', c, sock.answer, old(sock.calls) + |log|, |sock.incoming|)
  {
    var received: nat;
    received, log := ReadExact(sock, buf, c.msgSize, DEFAULT_BUF_SIZE, true);
    ok := received == c.msgSize;
    ClientCalls(Receiving(i, 0), log, c, sock.answer, old(sock.calls), |old(sock.incoming)|);
    TransferWrites(Receiving(i, 0), log, c, sock.answer, old(sock.calls), |old(sock.incoming)|);
    cl' := Transferred(Receiving(i, 0), received, c);
  }

  /** Where a program found its socket. */
  datatype Found = Found(calls: nat, available: nat, outgoing: seq<byte>, moved: seq<nat>)

  ghost function Find(sock: Socket): Found
    reads sock
  {
    Found(sock.calls, |sock.incoming|, sock.outgoing, sock.moved)
  }

  /** The client has made exactly the calls in log: they took it to cl, and nothing else was moved. */
  ghost predicate ClientIs(sock: Socket, c: Setup, f: Found, log: seq<nat>, cl: Client)
    reads sock
  {
    && ClientGrants(ClientAt(c, 0), log, c, cl, sock.answer, f.calls, f.available, |sock.incoming|)
    && sock.moved == f.moved + log && sock.outgoing == f.outgoing + Written(ClientAt(c, 0), log, c)
  }

  /** No further call of the client succeeds. */
  ghost predicate ClientIsOver(sock: Socket, c: Setup, f: Found, log: seq<nat>, cl: Client)
    reads sock
  {
    ClientStops(cl, c, sock.answer, f.calls + |log|, |sock.incoming|)
  }

  lemma ClientAdvances(f: Found, log: seq<nat>, m: Client, part: seq<nat>, cl': Client, c: Setup,
                       answer: nat -> int, y: nat, z: nat)
    requires ClientGrants(ClientAt(c, 0), log, c, m, answer, f.calls, f.available, y)
    requires ClientGrants(m, part, c, cl', answer, f.calls + |log|, y, z)
    ensures ClientGrants(ClientAt(c, 0), log + part, c, cl', answer, f.calls, f.available, z)
    ensures Written(ClientAt(c, 0), log + part, c) == Written(ClientAt(c, 0), log, c) + Written(m, part, c)
    ensures f.moved + log + part == f.moved + (log + part)
    ensures f.outgoing + Written(ClientAt(c, 0), log, c) + Written(m, part, c) ==
            f.outgoing + Written(ClientAt(c, 0), log + part, c)
  {
    ClientGoesOn(ClientAt(c, 0), log, m, part, cl', c, answer, f.calls, f.available, y, z);
    Associate(f.outgoing, Written(ClientAt(c, 0), log, c), Written(m, part, c));
  }

  /** Sends a size in the course of the main loop. */
  method NextSize(sock: Socket, buf: array<byte>, ghost cl: Client, c: Setup, ghost f: Found, ghost log: seq<nat>)
    returns (ok: bool, ghost log': seq<nat>, ghost cl': Client)
    requires c.Sound() && ClientTransfer(cl) && ClientWrites(cl) && buf[..] == SizeField(cl, c)
    requires ClientIs(sock, c, f, log, cl) && sock.calls == f.calls + |log|
    modifies sock`calls, sock`last, sock`moved, sock`outgoing
    ensures ClientIs(sock, c, f, log', cl')
    ensures ok ==> cl' == Transferred(cl, SIZE_BYTES, c) && sock.calls == f.calls + |log'|
    ensures ok ==> sock.outgoing == old(sock.outgoing) + buf[..]
    ensures !ok ==> sock.last <= 0 && ClientWrites(cl') && ClientIsOver(sock, c, f, log', cl')
  {
    ghost var part: seq<nat>;
    ok, part, cl' := SendSize(sock, buf, cl, c);
    log' := log + part;
    ClientAdvances(f, log, cl, part, cl', c, sock.answer, |sock.incoming|, |sock.incoming|);
  }

  /** Receives a message in the course of the main loop. */
  method NextMessage(sock: Socket, buf: array<byte>, i: nat, c: Setup, ghost f: Found, ghost log: seq<nat>)
    returns (ok: bool, ghost log': seq<nat>, ghost cl': Client)
    requires c.Sound() && buf.Length == DEFAULT_BUF_SIZE
    requires ClientIs(sock, c, f, log, Receiving(i, 0)) && sock.calls == f.calls + |log|
    modifies sock`calls, sock`last, sock`moved, sock`incoming, buf
    ensures ClientIs(sock, c, f, log', cl')
    ensures ok ==> cl' == ClientAt(c, i + 1) && sock.calls == f.calls + |log'|
    ensures ok ==> |old(sock.incoming)| == c.msgSize + |sock.incoming|
    ensures !ok ==> sock.last <= 0 && cl'.Receiving? && ClientIsOver(sock, c, f, log', cl')
  {
    ghost var part: seq<nat>;
    ok, part, cl' := ReceiveMessage(sock, buf, i, c);
    log' := log + part;
    ClientAdvances(f, log, Receiving(i, 0), part, cl', c, sock.answer, |old(sock.incoming)|, |sock.incoming|);
  }

  /** One turn of the main loop: a request and its reply. */
  method Round(sock: Socket, writeBuf: array<byte>, readBuf: array<byte>, i: nat, c: Setup,
               ghost f: Found, ghost log: seq<nat>)
    returns (ok: bool, ghost log': seq<nat>, ghost cl': Client)
    requires c.Sound() && i < c.iters && readBuf.Length == DEFAULT_BUF_SIZE && readBuf != writeBuf
    requires writeBuf[..] == Encode(c.msgSize, SIZE_BYTES)
    requires ClientIs(sock, c, f, log, Requesting(i, 0)) && sock.calls == f.calls + |log|
    modifies sock`calls, sock`last, sock`moved, sock`outgoing, sock`incoming, readBuf
    ensures ClientIs(sock, c, f, log', cl')
    ensures ok ==> cl' == ClientAt(c, i + 1) && sock.calls == f.calls + |log'|
    ensures ok ==> sock.outgoing == old(sock.outgoing) + writeBuf[..]
    ensures ok ==> |old(sock.incoming)| == c.msgSize + |sock.incoming|
    ensures !ok ==> sock.last <= 0 && !cl'.ClientDone? && ClientIsOver(sock, c, f, log', cl')
  {
    ok, log', cl' := NextSize(sock, writeBuf, Requesting(i, 0), c, f, log);
    if ok {
      ok, log', cl' := NextMessage(sock, readBuf, i, c, f, log');
    }
  }

  /**
   * The client's main loop. Its successful calls are exactly what the socket grants: a trace of the
   * exchange that goes on until the client is done or a call fails. What they write is all that is
   * written; in case of success these are the requests and the final 0.
   */
  method RunClient(sock: Socket, c: Setup) returns (ok: bool, ghost log: seq<nat>, ghost final: Client)
    requires c.Sound()
    modifies sock
    ensures ClientIs(sock, c, old(Find(sock)), log, final) && ClientIsOver(sock, c, old(Find(sock)), log, final)
    ensures ok <==> final.ClientDone?
    ensures !ok ==> sock.last <= 0
    ensures ok ==> sock.outgoing == old(sock.outgoing) + (Requests(c.iters, c) + Encode(0, SIZE_BYTES))
    ensures ok ==> |old(sock.incoming)| == c.iters * c.msgSize + |sock.incoming|
  {
    var readBuf := new byte[DEFAULT_BUF_SIZE](_ => 0);
    var writeBuf := SizeBuffer(c.msgSize);
    ghost var f := Find(sock);
    log, final := [], ClientAt(c, 0);
    for i := 0 to c.iters
      invariant fresh(readBuf) && fresh(writeBuf) && writeBuf[..] == Encode(c.msgSize, SIZE_BYTES)
      invariant ClientIs(sock, c, f, log, final) && final == ClientAt(c, i) && sock.calls == f.calls + |log|
      invariant sock.outgoing == f.outgoing + Requests(i, c)
      invariant f.available == i * c.msgSize + |sock.incoming|
    {
      ok, log, final := Round(sock, writeBuf, readBuf, i, c, f, log);
      if !ok {
        return;
      }
      Associate(f.outgoing, Requests(i, c), writeBuf[..]);
      assert (i + 1) * c.msgSize == i * c.msgSize + c.msgSize;
    }
    var complete := SizeBuffer(0);
    Associate(f.outgoing, Requests(c.iters, c), complete[..]);
    ok, log, final := NextSize(sock, complete, final, c, f, log);
  }

  // ---- the server's main loop ----

  /** Reads a size, unless the call fails. */
  method ReadSize(sock: Socket, iters: nat) returns (ok: bool, size: nat, ghost log: seq<nat>, ghost sv: Server)
    modifies sock`calls, sock`last, sock`moved, sock`incoming
    ensures ServerGrants(ReadingSize(iters, []), old(sock.incoming), log, sv, sock.incoming, sock.answer, old(sock.calls))
    ensures sock.moved == old(sock.moved) + log && ReplyBytes(ReadingSize(iters, []), old(sock.incoming), log) == 0
    ensures ok ==> sv == (if size == 0 then ServerDone(iters) else Replying(iters, size, 0)) &&
                   |sock.incoming| < |old(sock.incoming)| && sock.calls == old(sock.calls) + |log|
    ensures !ok ==> sock.last <= 0 && sv.ReadingSize?
    ensures !ok ==> ServerStops(sv, sock.incoming, sock.answer, old(sock.calls) + |log|)
  {
    var buf := new byte[SIZE_BYTES](_ => 0);
    ghost var stream := sock.incoming;
    var bytesRead: nat;
    bytesRead, log := ReadExact(sock, buf, SIZE_BYTES, SIZE_BYTES, false);
    ok := bytesRead == SIZE_BYTES;
    SizeCalls(iters, stream, log, sock.answer, old(sock.calls));
    sv := SizeRead(iters, stream, bytesRead);
    size := Decode(buf[..]);
    assert ok ==> buf[..] == stream[..SIZE_BYTES];
  }

  method Reply(sock: Socket, buf: array<byte>, iters: nat, size: nat)
    returns (ok: bool, ghost log: seq<nat>, ghost sv: Server)
    requires size > 0 && buf.Length == DEFAULT_BUF_SIZE
    modifies sock`calls, sock`last, sock`moved, sock`outgoing
    ensures ServerGrants(Replying(iters, size, 0), sock.incoming, log, sv, sock.incoming, sock.answer, old(sock.calls))
    ensures sock.moved == old(sock.moved) + log
    ensures |sock.outgoing| == |old(sock.outgoing)| + ReplyBytes(Replying(iters, size, 0), sock.incoming, log)
    ensures old(sock.outgoing) <= sock.outgoing
    ensures ok ==> sv == ReadingSize(iters + 1, []) && sock.calls == old(sock.calls) + |log|
    ensures !ok ==> sock.last <= 0 && sv.Replying?
    ensures !ok ==> ServerStops(sv, sock.incoming, sock.answer, old(sock.calls) + |log|)
  {
    var written: nat;
    written, log := WriteExact(sock, buf, size, DEFAULT_BUF_SIZE, true);
    ok := written == size;
    ReplyCalls(iters, size, sock.incoming, log, sock.answer, old(sock.calls));
    sv := Replied(iters, size, written);
  }

  /** The server has made exactly the calls in log: they took it to sv, and the replies among them
      are all that was written. */
  ghost predicate ServerIs(sock: Socket, f: Found, stream: seq<byte>, log: seq<nat>, sv: Server)
    reads sock
  {
    && ServerGrants(ReadingSize(0, []), stream, log, sv, sock.incoming, sock.answer, f.calls)
    && sock.moved == f.moved + log
    && |sock.outgoing| == |f.outgoing| + ReplyBytes(ReadingSize(0, []), stream, log)
    && f.outgoing <= sock.outgoing
  }

  /** No further call of the server succeeds. */
  ghost predicate ServerIsOver(sock: Socket, f: Found, log: seq<nat>, sv: Server)
    reads sock
  {
    ServerStops(sv, sock.incoming, sock.answer, f.calls + |log|)
  }

  /** Reads a size in the course of the main loop. */
  method NextRequest(sock: Socket, iters: nat, ghost f: Found, ghost stream: seq<byte>, ghost log: seq<nat>)
    returns (ok: bool, size: nat, ghost log': seq<nat>, ghost sv: Server)
    requires ServerIs(sock, f, stream, log, ReadingSize(iters, [])) && sock.calls == f.calls + |log|
    modifies sock`calls, sock`last, sock`moved, sock`incoming
    ensures ServerIs(sock, f, stream, log', sv)
    ensures ok ==> sv == (if size == 0 then ServerDone(iters) else Replying(iters, size, 0)) &&
                   |sock.incoming| < |old(sock.incoming)| && sock.calls == f.calls + |log'|
    ensures !ok ==> sock.last <= 0 && sv.ReadingSize? && ServerIsOver(sock, f, log', sv)
  {
    ghost var part: seq<nat>;
    ok, size, part, sv := ReadSize(sock, iters);
    log' := log + part;
    ServerGoesOn(ReadingSize(0, []), stream, log, ReadingSize(iters, []), old(sock.incoming), part, sv, sock.incoming,
                       sock.answer, f.calls);
  }

  /** Sends a reply in the course of the main loop. */
  method NextReply(sock: Socket, buf: array<byte>, iters: nat, size: nat,
                   ghost f: Found, ghost stream: seq<byte>, ghost log: seq<nat>)
    returns (ok: bool, ghost log': seq<nat>, ghost sv: Server)
    requires size > 0 && buf.Length == DEFAULT_BUF_SIZE
    requires ServerIs(sock, f, stream, log, Replying(iters, size, 0)) && sock.calls == f.calls + |log|
    modifies sock`calls, sock`last, sock`moved, sock`outgoing
    ensures ServerIs(sock, f, stream, log', sv)
    ensures ok ==> sv == ReadingSize(iters + 1, []) && sock.calls == f.calls + |log'|
    ensures !ok ==> sock.last <= 0 && sv.Replying? && ServerIsOver(sock, f, log', sv)
  {
    ghost var part: seq<nat>;
    ok, part, sv := Reply(sock, buf, iters, size);
    log' := log + part;
    ServerGoesOn(ReadingSize(0, []), stream, log, Replying(iters, size, 0), sock.incoming, part, sv, sock.incoming,
                       sock.answer, f.calls);
  }

  /**
   * The server's main loop. Its successful calls are exactly what the socket grants: a trace of the
   * exchange that goes on until the server is done or a call fails, and the replies in it are all
   * that is written.
   */
  method RunServer(sock: Socket) returns (ok: bool, iters: nat, ghost log: seq<nat>, ghost final: Server)
    modifies sock
    ensures ServerIs(sock, old(Find(sock)), old(sock.incoming), log, final) &&
            ServerIsOver(sock, old(Find(sock)), log, final)
    ensures ok <==> final.ServerDone?
    ensures ok ==> iters == final.iters
    ensures !ok ==> sock.last <= 0
  {
    var writeBuf := new byte[DEFAULT_BUF_SIZE](_ => 0);
    iters := 0;
    ghost var f, stream := Find(sock), sock.incoming;
    log, final := [], ReadingSize(0, []);
    while true
      invariant ServerIs(sock, f, stream, log, final) && final == ReadingSize(iters, []) && sock.calls == f.calls + |log|
      decreases |sock.incoming|
    {
      var size;
      ok, size, log, final := NextRequest(sock, iters, f, stream, log);
      if !ok || size == 0 {
        return;
      }
      ok, log, final := NextReply(sock, writeBuf, iters, size, f, stream, log);
      if !ok {
        return;
      }
      iters := iters + 1;
    }
  }

  // ---- sockets that answer as a trace tells them ----

  function Scripted(log: seq<nat>): nat -> int {
    (k: nat) => if k < |log| then log[k] else 0
  }

  /** From the k-th call on the answers are those in log. */
  ghost predicate Follows(answer: nat -> int, k: nat, log: seq<nat>)
    decreases |log|
  {
    log == [] || (answer(k) == log[0] && Follows(answer, k + 1, log[1..]))
  }

  lemma {:induction false} ScriptFollows(log: seq<nat>, k: nat)
    requires k <= |log|
    ensures Follows(Scripted(log), k, log[k..])
    decreases |log| - k
  {
    if k < |log| {
      ScriptFollows(log, k + 1);
      assert log[k..][1..] == log[k + 1..];
    }
  }

  lemma {:induction false} ClientScript(cl: Client, log: seq<nat>, c: Setup, cl': Client,
                                        answer: nat -> int, k: nat, available: nat)
    requires ClientTrace(cl, log, c, cl') && available >= TakenIn(cl, log, c) && Follows(answer, k, log)
    ensures ClientGrants(cl, log, c, cl', answer, k, available, available - TakenIn(cl, log, c))
    decreases |log|
  {
    if log != [] {
      ClientScript(ClientNext(cl, log[0], c), log[1..], c, cl', answer, k + 1,
                   if cl.Receiving? then available - log[0] else available);
    }
  }

  lemma {:induction false} ServerScript(sv: Server, s: seq<byte>, log: seq<nat>, sv': Server, t: seq<byte>,
                                        answer: nat -> int, k: nat)
    requires ServerTrace(sv, s, log, sv', t) && Follows(answer, k, log)
    ensures ServerGrants(sv, s, log, sv', t, answer, k)
    decreases |log|
  {
    if log != [] {
      var n := log[0];
      ServerScript(ServerNext(sv, n, s), if sv.ReadingSize? then s[n..] else s, log[1..], sv', t, answer, k + 1);
    }
  }

  /** A socket determines the client's calls, if they go on until they have to stop. */
  lemma {:induction false} ClientIsDetermined(cl: Client, a: seq<nat>, a': Client, b: seq<nat>, b': Client, c: Setup,
                                              answer: nat -> int, k: nat, x: nat, y: nat, z: nat)
    requires ClientGrants(cl, a, c, a', answer, k, x, y) && ClientStops(a', c, answer, k + |a|, y)
    requires ClientGrants(cl, b, c, b', answer, k, x, z) && ClientStops(b', c, answer, k + |b|, z)
    ensures a == b && a' == b'
    decreases |a|
  {
    if a != [] && b != [] {
      ClientIsDetermined(ClientNext(cl, a[0], c), a[1..], a', b[1..], b', c, answer, k + 1,
                         if cl.Receiving? then x - a[0] else x, y, z);
      assert a == [a[0]] + a[1..] && b == [b[0]] + b[1..];
    }
  }

  lemma {:induction false} ServerIsDetermined(sv: Server, s: seq<byte>, a: seq<nat>, a': Server, t: seq<byte>,
                                              b: seq<nat>, b': Server, u: seq<byte>, answer: nat -> int, k: nat)
    requires ServerGrants(sv, s, a, a', t, answer, k) && ServerStops(a', t, answer, k + |a|)
    requires ServerGrants(sv, s, b, b', u, answer, k) && ServerStops(b', u, answer, k + |b|)
    ensures a == b && a' == b' && t == u
    decreases |a|
  {
    if a != [] && b != [] {
      ServerIsDetermined(ServerNext(sv, a[0], s), if sv.ReadingSize? then s[a[0]..] else s, a[1..], a', t,
                         b[1..], b', u, answer, k + 1);
      assert a == [a[0]] + a[1..] && b == [b[0]] + b[1..];
    }
  }

  // ---- runs of the exchange ----

  function ClientLog(actions: seq<Action>): seq<nat> {
    if actions == [] then []
    else (if actions[0].ClientWrite? || actions[0].ClientRead? then [actions[0].n] else []) + ClientLog(actions[1..])
  }

  function ServerLog(actions: seq<Action>): seq<nat> {
    if actions == [] then []
    else (if actions[0].ServerWrite? || actions[0].ServerRead? then [actions[0].n] else []) + ServerLog(actions[1..])
  }

  lemma {:induction false} ClientOfRun(s: State, actions: seq<Action>, s': State, c: Setup)
    requires Runs(s, actions, s', c)
    ensures ClientTrace(s.client, ClientLog(actions), c, s'.client)
    decreases |actions|
  {
    if actions != [] {
      var a, next := actions[0], Next(s, actions[0], c);
      ClientOfRun(next, actions[1..], s', c);
      if a.ClientWrite? || a.ClientRead? {
        assert ClientLog(actions)[1..] == ClientLog(actions[1..]);
      } else {
        assert ClientLog(actions) == ClientLog(actions[1..]);
      }
    }
  }

  /** What the server has to read: what is on its way, and what the client will write. */
  function ToRead(s: State, actions: seq<Action>, c: Setup): seq<byte> {
    s.toServer + Written(s.client, ClientLog(actions), c)
  }

  lemma WrittenNext(cl: Client, n: nat, log: seq<nat>, c: Setup)
    requires ClientMay(cl, n, c)
    ensures Written(cl, [n] + log, c) == ClientOutput(cl, n, c) + Written(ClientNext(cl, n, c), log, c)
  {
    assert ([n] + log)[1..] == log;
  }

  lemma TakeFront(a: seq<byte>, b: seq<byte>, n: nat)
    requires n <= |a|
    ensures (a + b)[..n] == a[..n] && (a + b)[n..] == a[n..] + b
  {
  }

  lemma Regroup(a: seq<byte>, b: seq<byte>, d: seq<byte>)
    ensures a + (b + d) == (a + b) + d
  {
  }

  lemma ToReadNext(s: State, actions: seq<Action>, c: Setup)
    requires actions != [] && Enabled(s, actions[0], c)
    ensures var a, next := actions[0], ToRead(Next(s, actions[0], c), actions[1..], c);
            if a.ServerRead? then a.n <= |ToRead(s, actions, c)| &&
                                  ToRead(s, actions, c)[..a.n] == s.toServer[..a.n] &&
                                  ToRead(s, actions, c)[a.n..] == next
            else ToRead(s, actions, c) == next
  {
    var a, rest := actions[0], ClientLog(actions[1..]);
    ClientLogNext(actions);
    if a.ClientWrite? || a.ClientRead? {
      WrittenNext(s.client, a.n, rest, c);
      Regroup(s.toServer, ClientOutput(s.client, a.n, c), Written(ClientNext(s.client, a.n, c), rest, c));
      assert a.ClientRead? ==> s.toServer + ClientOutput(s.client, a.n, c) == s.toServer;
    } else if a.ServerRead? {
      TakeFront(s.toServer, Written(s.client, rest, c), a.n);
    }
  }

  lemma ClientLogNext(actions: seq<Action>)
    requires actions != []
    ensures var a, rest := actions[0], ClientLog(actions[1..]);
            if a.ClientRead? || a.ClientWrite? then ClientLog(actions) == [a.n] + rest else ClientLog(actions) == rest
  {
  }

  lemma ServerLogNext(actions: seq<Action>)
    requires actions != []
    ensures var a, rest := actions[0], ServerLog(actions[1..]);
            if a.ServerRead? || a.ServerWrite? then ServerLog(actions) == [a.n] + rest else ServerLog(actions) == rest
  {
  }

  lemma {:induction false} ServerOfRun(s: State, actions: seq<Action>, s': State, c: Setup)
    requires Runs(s, actions, s', c)
    ensures ServerTrace(s.server, ToRead(s, actions, c), ServerLog(actions), s'.server, s'.toServer)
    decreases |actions|
  {
    if actions == [] {
      assert ToRead(s, actions, c) == s.toServer;
    } else {
      var a, next, log := actions[0], Next(s, actions[0], c), ServerLog(actions[1..]);
      ServerOfRun(next, actions[1..], s', c);
      ToReadNext(s, actions, c);
      ServerLogNext(actions);
      if a.ServerRead? || a.ServerWrite? {
        assert ([a.n] + log)[1..] == log;
      }
    }
  }

  /** In every run of the exchange each program's actions are a trace of its own. */
  lemma RunsAreTraces(actions: seq<Action>, s: State, c: Setup)
    requires Runs(Start(c), actions, s, c)
    ensures ClientTrace(ClientAt(c, 0), ClientLog(actions), c, s.client)
    ensures ServerTrace(ReadingSize(0, []), Written(ClientAt(c, 0), ClientLog(actions), c), ServerLog(actions),
                        s.server, s.toServer)
  {
    ClientOfRun(Start(c), actions, s, c);
    ServerOfRun(Start(c), actions, s, c);
    assert ToRead(Start(c), actions, c) == Written(ClientAt(c, 0), ClientLog(actions), c);
  }

  /**
   * Every run of the exchange can be made by the two main loops: on sockets that answer as it tells
   * them, they make exactly its actions and end up where it does.
   */
  method Replay(ghost actions: seq<Action>, ghost s: State, c: Setup, clientAnswers: nat -> int, serverAnswers: nat -> int,
                replies: seq<byte>, requests: seq<byte>)
    returns (client: Socket, server: Socket, clientOk: bool, serverOk: bool)
    requires c.Sound() && Runs(Start(c), actions, s, c)
    requires clientAnswers == Scripted(ClientLog(actions)) && serverAnswers == Scripted(ServerLog(actions))
    requires requests == Written(ClientAt(c, 0), ClientLog(actions), c)
    requires |replies| == TakenIn(ClientAt(c, 0), ClientLog(actions), c)
    ensures client.moved == ClientLog(actions) && client.outgoing == requests
    ensures server.moved == ServerLog(actions)
    ensures |server.outgoing| == ReplyBytes(ReadingSize(0, []), requests, ServerLog(actions))
    ensures clientOk <==> s.client.ClientDone?
    ensures serverOk <==> s.server.ServerDone?
  {
    RunsAreTraces(actions, s, c);
    client := new Socket(clientAnswers, replies);
    server := new Socket(serverAnswers, requests);
    ghost var clientLog, clientEnd, serverLog, serverEnd;
    var iters;
    clientOk, clientLog, clientEnd := RunClient(client, c);
    serverOk, iters, serverLog, serverEnd := RunServer(server);
    ClientFollowsScript(actions, s, c, clientLog, clientEnd, |replies|, |client.incoming|);
    ServerFollowsScript(actions, s, c, serverLog, serverEnd, server.incoming);
  }

  lemma ClientFollowsScript(actions: seq<Action>, s: State, c: Setup, log: seq<nat>, final: Client, x: nat, y: nat)
    requires ClientTrace(ClientAt(c, 0), ClientLog(actions), c, s.client)
    requires x == TakenIn(ClientAt(c, 0), ClientLog(actions), c)
    requires ClientGrants(ClientAt(c, 0), log, c, final, Scripted(ClientLog(actions)), 0, x, y)
    requires ClientStops(final, c, Scripted(ClientLog(actions)), |log|, y)
    ensures log == ClientLog(actions) && final == s.client
  {
    var script := ClientLog(actions);
    ScriptFollows(script, 0);
    assert script[0..] == script;
    ClientScript(ClientAt(c, 0), script, c, s.client, Scripted(script), 0, x);
    ClientIsDetermined(ClientAt(c, 0), log, final, script, s.client, c, Scripted(script), 0, x, y, 0);
  }

  lemma ServerFollowsScript(actions: seq<Action>, s: State, c: Setup, log: seq<nat>, final: Server, rest: seq<byte>)
    requires ServerTrace(ReadingSize(0, []), Written(ClientAt(c, 0), ClientLog(actions), c), ServerLog(actions),
                         s.server, s.toServer)
    requires ServerGrants(ReadingSize(0, []), Written(ClientAt(c, 0), ClientLog(actions), c), log, final, rest,
                          Scripted(ServerLog(actions)), 0)
    requires ServerStops(final, rest, Scripted(ServerLog(actions)), |log|)
    ensures log == ServerLog(actions) && final == s.server
  {
    var script, stream := ServerLog(actions), Written(ClientAt(c, 0), ClientLog(actions), c);
    ScriptFollows(script, 0);
    assert script[0..] == script;
    ServerScript(ReadingSize(0, []), stream, script, s.server, s.toServer, Scripted(script), 0);
    ServerIsDetermined(ReadingSize(0, []), stream, log, final, rest, script, s.server, s.toServer, Scripted(script), 0);
  }
}
