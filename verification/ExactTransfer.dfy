/** write_exact and read_exact over a socket whose calls move as many bytes as they please. */
module ExactTransfer {
  import opened Basics

  type byte = x: int | 0 <= x < 256

  /**
   * A connected socket. The k-th call returns answer(k), cut down to what was asked for and,
   * for a read, to what will ever arrive; zero and negative results are end of file and errors.
   */
  class Socket {
    const answer: nat -> int
    var calls: nat
    var last: int
    var outgoing: seq<byte>
    var incoming: seq<byte>
    ghost var moved: seq<nat>    // how many bytes each successful call moved

    constructor (answer: nat -> int, incoming: seq<byte>)
      ensures this.answer == answer && this.incoming == incoming && outgoing == [] && calls == 0 && moved == []
    {
      this.answer, this.incoming := answer, incoming;
      outgoing, calls, last, moved := [], 0, 1, [];
    }

    function Granted(most: nat): (n: int)
      reads this
      ensures n <= most
    {
      Cut(answer(calls), most)
    }

    method Write(buf: array<byte>, start: nat, size: nat) returns (n: int)
      requires start + size <= buf.Length
      modifies this`calls, this`last, this`moved, this`outgoing
      ensures n == last == old(Granted(size)) && calls == old(calls) + 1
      ensures moved == old(moved) + (if n > 0 then [n] else [])
      ensures outgoing == old(outgoing) + (if n > 0 then buf[start..start + n] else [])
    {
      n := Granted(size);
      calls, last := calls + 1, n;
      if n > 0 {
        outgoing, moved := outgoing + buf[start..start + n], moved + [n];
      }
    }

    method Read(buf: array<byte>, start: nat, size: nat) returns (n: int)
      requires start + size <= buf.Length
      modifies this`calls, this`last, this`moved, this`incoming, buf
      ensures n == last == old(Granted(if size < |incoming| then size else |incoming|)) && calls == old(calls) + 1
      ensures moved == old(moved) + (if n > 0 then [n] else [])
      ensures n <= 0 ==> incoming == old(incoming) && buf[..] == old(buf[..])
      ensures n > 0 ==> incoming == old(incoming)[n..]
      ensures n > 0 ==> buf[..] == old(buf[..start]) + old(incoming)[..n] + old(buf[start + n..])
    {
      n := Granted(if size < |incoming| then size else |incoming|);
      calls, last := calls + 1, n;
      if n > 0 {
        forall i | 0 <= i < n {
          buf[start + i] := incoming[i];
        }
        incoming, moved := incoming[n..], moved + [n];
      }
    }
  }

  // ---- the calls of one transfer ----

  /** An answer, cut down to what a call can move. */
  function Cut(answer: int, most: nat): (n: int)
    ensures n <= most
  {
    if answer > most then most else answer
  }

  function Sum(log: seq<nat>): nat {
    if log == [] then 0 else Sum(log[..|log| - 1]) + log[|log| - 1]
  }

  /** What the next call of a transfer can move: no more than is left, than one call may, and
      than will ever be there. */
  function Most(left: int, maxPerCall: nat, available: int): nat {
    if left <= 0 || available <= 0 then 0 else Min(Min(left, maxPerCall), available)
  }

  /** The calls of a transfer of count bytes, from the k-th call of the socket on: each of them
      succeeded and moved what the socket granted. */
  ghost predicate Made(answer: nat -> int, k: nat, count: nat, maxPerCall: nat, available: nat, log: seq<nat>)
    decreases |log|
  {
    log == [] ||
    var front, n := log[..|log| - 1], log[|log| - 1];
    && Made(answer, k, count, maxPerCall, available, front)
    && 0 < n == Cut(answer(k + |front|), Most(count - Sum(front), maxPerCall, available - Sum(front)))
  }

  /** No call moves more than one call may, and each moves all that the socket would, unless it
      has reached that limit, the end of the transfer or the end of what there is. */
  lemma {:induction false} CallOf(answer: nat -> int, k: nat, count: nat, maxPerCall: nat, available: nat,
                                  log: seq<nat>, i: nat)
    requires Made(answer, k, count, maxPerCall, available, log) && i < |log|
    ensures 0 < log[i] <= maxPerCall && log[i] <= answer(k + i)
    ensures Sum(log[..i + 1]) <= count && Sum(log[..i + 1]) <= available
    ensures log[i] == answer(k + i) || log[i] == maxPerCall ||
            Sum(log[..i + 1]) == count || Sum(log[..i + 1]) == available
    decreases |log|
  {
    var n := |log| - 1;
    if i < n {
      CallOf(answer, k, count, maxPerCall, available, log[..n], i);
      assert log[..n][..i + 1] == log[..i + 1];
    } else {
      assert log[..i + 1] == log;
    }
  }

  lemma NoneFailed(answer: nat -> int, k: nat, count: nat, maxPerCall: nat, available: nat, log: seq<nat>)
    requires Made(answer, k, count, maxPerCall, available, log)
    ensures forall j :: k <= j < k + |log| ==> answer(j) > 0
  {
    forall j | k <= j < k + |log| ensures answer(j) > 0 {
      CallOf(answer, k, count, maxPerCall, available, log, j - k);
    }
  }

  /** The transfer is over: nothing is left, or the next call failed. */
  ghost predicate Over(answer: nat -> int, k: nat, count: nat, maxPerCall: nat, available: nat, log: seq<nat>) {
    Sum(log) == count || Cut(answer(k + |log|), Most(count - Sum(log), maxPerCall, available - Sum(log))) <= 0
  }

  /** log holds the calls so far: they moved done bytes, and the next one is call number calls. */
  ghost predicate Logged(answer: nat -> int, k: nat, count: nat, maxPerCall: nat, available: nat,
                         log: seq<nat>, done: nat, calls: nat) {
    Made(answer, k, count, maxPerCall, available, log) && Sum(log) == done && calls == k + |log|
  }

  lemma NextCall(answer: nat -> int, k: nat, count: nat, maxPerCall: nat, available: nat,
                 log: seq<nat>, done: nat, calls: nat, n: int)
    requires Logged(answer, k, count, maxPerCall, available, log, done, calls)
    requires n == Cut(answer(calls), Most(count - done, maxPerCall, available - done))
    ensures n > 0 ==> Logged(answer, k, count, maxPerCall, available, log + [n], done + n, calls + 1)
    ensures n <= 0 ==> Over(answer, k, count, maxPerCall, available, log)
  {
    if n > 0 {
      assert (log + [n])[..|log|] == log;
    }
  }

  /** The room a caller owes: with a dummy buffer, only as much as one call moves. */
  predicate RoomFor(length: nat, count: nat, maxPerCall: nat, dummy: bool) {
    length >= if dummy then Min(count, maxPerCall) else count
  }

  /** One turn of the write loop. */
  method WriteSome(sock: Socket, buf: array<byte>, done: nat, left: nat, maxPerWrite: nat, dummy: bool,
                   ghost count: nat, ghost k: nat, ghost log: seq<nat>) returns (n: int)
    requires RoomFor(buf.Length, count, maxPerWrite, dummy) && left > 0 && count == done + left
    requires Logged(sock.answer, k, count, maxPerWrite, count, log, done, sock.calls)
    modifies sock`calls, sock`last, sock`moved, sock`outgoing
    ensures n == sock.last && sock.calls == old(sock.calls) + 1 && n <= left
    ensures n > 0 ==> Logged(sock.answer, k, count, maxPerWrite, count, log + [n], done + n, sock.calls)
    ensures n <= 0 ==> Over(sock.answer, k, count, maxPerWrite, count, log)
    ensures sock.moved == old(sock.moved) + (if n > 0 then [n] else [])
    ensures |sock.outgoing| == |old(sock.outgoing)| + (if n > 0 then n else 0)
    ensures old(sock.outgoing) <= sock.outgoing
    ensures n > 0 && !dummy ==> sock.outgoing == old(sock.outgoing) + buf[done..done + n]
    ensures sock.answer(old(sock.calls)) > 0 && maxPerWrite > 0 ==> n > 0
    ensures n > 0 ==> sock.answer(old(sock.calls)) > 0
  {
    var size := if left > maxPerWrite then maxPerWrite else left;
    NextCall(sock.answer, k, count, maxPerWrite, count, log, done, sock.calls, sock.Granted(size));
    n := sock.Write(buf, if dummy then 0 else done, size);
  }

  lemma Appended(a: seq<byte>, b: seq<byte>, done: nat, n: nat)
    requires done + n <= |b|
    ensures a + b[..done] + b[done..done + n] == a + b[..done + n]
  {
  }

  /** Fewer bytes than asked for exactly when the last call failed; no earlier one did. */
  method WriteExact(sock: Socket, buf: array?<byte>, count: nat, maxPerWrite: nat, dummy: bool)
    returns (written: nat, ghost log: seq<nat>)
    requires buf != null ==> RoomFor(buf.Length, count, maxPerWrite, dummy)
    modifies sock`calls, sock`last, sock`moved, sock`outgoing
    ensures buf == null ==> written == 0 && sock.calls == old(sock.calls) && sock.outgoing == old(sock.outgoing)
    ensures sock.moved == old(sock.moved) + log && Sum(log) == written
    ensures buf != null ==> Made(sock.answer, old(sock.calls), count, maxPerWrite, count, log)
    ensures buf != null ==> Over(sock.answer, old(sock.calls), count, maxPerWrite, count, log)
    ensures buf != null && written == count ==> sock.calls == old(sock.calls) + |log|
    ensures written <= count && |sock.outgoing| == |old(sock.outgoing)| + written
    ensures old(sock.outgoing) <= sock.outgoing
    ensures buf != null && !dummy ==> sock.outgoing == old(sock.outgoing) + buf[..written]
    ensures buf != null ==> (written < count <==> sock.calls > old(sock.calls) && sock.last <= 0)
    ensures forall k :: old(sock.calls) <= k < sock.calls - 1 ==> sock.answer(k) > 0
    ensures maxPerWrite > 0 && buf != null && (forall k :: k >= old(sock.calls) ==> sock.answer(k) > 0) ==>
              written == count
  {
    written, log := 0, [];
    if buf == null {
      return;
    }
    var left: nat := count;
    assert buf[..0] == [];
    while left > 0
      invariant sock.moved == old(sock.moved) + log
      invariant Logged(sock.answer, old(sock.calls), count, maxPerWrite, count, log, written, sock.calls)
      invariant left >= 0 && written + left == count && |sock.outgoing| == |old(sock.outgoing)| + written
      invariant old(sock.outgoing) <= sock.outgoing
      invariant !dummy ==> sock.outgoing == old(sock.outgoing) + buf[..written]
      invariant sock.calls >= old(sock.calls) && (sock.calls > old(sock.calls) ==> sock.last > 0)
      decreases left
    {
      var n := WriteSome(sock, buf, written, left, maxPerWrite, dummy, count, old(sock.calls), log);
      if n <= 0 {
        NoneFailed(sock.answer, old(sock.calls), count, maxPerWrite, count, log);
        return;
      }
      if !dummy {
        Appended(old(sock.outgoing), buf[..], written, n);
      }
      written, log := written + n, log + [n];
      left := left - n;
    }
    NoneFailed(sock.answer, old(sock.calls), count, maxPerWrite, count, log);
  }

  /** A buffer after done bytes of the stream were read into it. */
  ghost predicate Filled(now: seq<byte>, before: seq<byte>, stream: seq<byte>, done: nat, dummy: bool, used: nat) {
    && |now| == |before| && done <= |stream|
    && if dummy then used <= |before| && now[used..] == before[used..]
       else done <= |before| && now == stream[..done] + before[done..]
  }

  lemma FilledStep(prior: seq<byte>, now: seq<byte>, before: seq<byte>, stream: seq<byte>,
                   done: nat, dummy: bool, used: nat, n: nat)
    requires Filled(prior, before, stream, done, dummy, used) && done + n <= |stream|
    requires if dummy then n <= used else done + n <= |before|
    requires var start := if dummy then 0 else done;
             now == prior[..start] + stream[done..][..n] + prior[start + n..]
    ensures Filled(now, before, stream, done + n, dummy, used)
    ensures stream[done..][n..] == stream[done + n..]
  {
    if dummy {
      assert now[used..] == prior[used..];
    }
  }

  /** A read call, into its place in the buffer. */
  method ReadInto(sock: Socket, buf: array<byte>, done: nat, size: nat, dummy: bool,
                  ghost before: seq<byte>, ghost stream: seq<byte>, ghost used: nat) returns (n: int)
    requires Filled(buf[..], before, stream, done, dummy, used) && sock.incoming == stream[done..]
    requires size <= if dummy then used else buf.Length - done
    modifies sock`calls, sock`last, sock`moved, sock`incoming, buf
    ensures n == sock.last == Cut(sock.answer(old(sock.calls)), Min(size, |stream| - done))
    ensures sock.calls == old(sock.calls) + 1 && sock.moved == old(sock.moved) + (if n > 0 then [n] else [])
    ensures var done' := if n > 0 then done + n else done;
            Filled(buf[..], before, stream, done', dummy, used) && sock.incoming == stream[done'..]
  {
    ghost var prior := buf[..];
    n := sock.Read(buf, if dummy then 0 else done, size);
    if n > 0 {
      FilledStep(prior, buf[..], before, stream, done, dummy, used, n);
    }
  }

  /** One turn of the read loop. */
  method ReadSome(sock: Socket, buf: array<byte>, done: nat, left: nat, maxPerRead: nat, dummy: bool,
                  ghost before: seq<byte>, ghost stream: seq<byte>, ghost count: nat, ghost k: nat, ghost log: seq<nat>)
    returns (n: int)
    requires RoomFor(buf.Length, count, maxPerRead, dummy) && left > 0 && count == done + left && done <= |stream|
    requires var used := Min(count, maxPerRead);
             Filled(buf[..], before, stream, done, dummy, used) && sock.incoming == stream[done..]
    requires Logged(sock.answer, k, count, maxPerRead, |stream|, log, done, sock.calls)
    modifies sock`calls, sock`last, sock`moved, sock`incoming, buf
    ensures n == sock.last && sock.calls == old(sock.calls) + 1 && n <= left && n <= |stream| - done
    ensures n > 0 ==> Logged(sock.answer, k, count, maxPerRead, |stream|, log + [n], done + n, sock.calls)
    ensures n <= 0 ==> Over(sock.answer, k, count, maxPerRead, |stream|, log)
    ensures sock.moved == old(sock.moved) + (if n > 0 then [n] else [])
    ensures var used, done' := Min(count, maxPerRead), if n > 0 then done + n else done;
            Filled(buf[..], before, stream, done', dummy, used) && sock.incoming == stream[done'..]
    ensures sock.answer(old(sock.calls)) > 0 && maxPerRead > 0 && done < |stream| ==> n > 0
  {
    var size := if left > maxPerRead then maxPerRead else left;
    NextCall(sock.answer, k, count, maxPerRead, |stream|, log, done, sock.calls,
             Cut(sock.answer(sock.calls), Min(size, |stream| - done)));
    n := ReadInto(sock, buf, done, size, dummy, before, stream, Min(count, maxPerRead));
  }

  /** What was read is taken off the stream; without a dummy buffer it is in the buffer, in order. */
  method ReadExact(sock: Socket, buf: array?<byte>, count: nat, maxPerRead: nat, dummy: bool)
    returns (bytesRead: nat, ghost log: seq<nat>)
    requires buf != null ==> RoomFor(buf.Length, count, maxPerRead, dummy)
    modifies sock`calls, sock`last, sock`moved, sock`incoming
    modifies if buf == null then {} else {buf}
    ensures buf == null ==> bytesRead == 0 && sock.calls == old(sock.calls) && sock.incoming == old(sock.incoming)
    ensures sock.moved == old(sock.moved) + log && Sum(log) == bytesRead
    ensures buf != null ==> Made(sock.answer, old(sock.calls), count, maxPerRead, |old(sock.incoming)|, log)
    ensures buf != null ==> Over(sock.answer, old(sock.calls), count, maxPerRead, |old(sock.incoming)|, log)
    ensures buf != null && bytesRead == count ==> sock.calls == old(sock.calls) + |log|
    ensures bytesRead <= count && bytesRead <= |old(sock.incoming)|
    ensures sock.incoming == old(sock.incoming)[bytesRead..]
    ensures buf != null ==>
              Filled(buf[..], old(buf[..]), old(sock.incoming), bytesRead, dummy, Min(count, maxPerRead))
    ensures buf != null ==> (bytesRead < count <==> sock.calls > old(sock.calls) && sock.last <= 0)
    ensures maxPerRead > 0 && buf != null && |old(sock.incoming)| >= count ==>
              (forall k :: k >= old(sock.calls) ==> sock.answer(k) > 0) ==> bytesRead == count
  {
    bytesRead, log := 0, [];
    if buf == null {
      return;
    }
    var left: nat := count;
    ghost var stream, before := sock.incoming, buf[..];
    while left > 0
      invariant sock.moved == old(sock.moved) + log
      invariant Logged(sock.answer, old(sock.calls), count, maxPerRead, |stream|, log, bytesRead, sock.calls)
      invariant left >= 0 && bytesRead + left == count && bytesRead <= |stream|
      invariant sock.incoming == stream[bytesRead..]
      invariant Filled(buf[..], before, stream, bytesRead, dummy, Min(count, maxPerRead))
      invariant sock.calls >= old(sock.calls) && (sock.calls > old(sock.calls) ==> sock.last > 0)
      decreases left
    {
      var n := ReadSome(sock, buf, bytesRead, left, maxPerRead, dummy, before, stream, count, old(sock.calls), log);
      if n <= 0 {
        return;
      }
      bytesRead, log := bytesRead + n, log + [n];
      left := left - n;
    }
  }
}
