/** The select-based echo server: its slot table, its descriptor set, and one turn of its
    main loop. What select, accept and read deliver are parameters of the turn. */
module SelectServer {
  import opened DescriptorSlots

  const FD_SETSIZE: nat := 1024

  /** The clients of the given slots that are ready, in slot order. */
  function Ready(slots: seq<int>, rset: set<int>): seq<int> {
    if slots == [] then []
    else
      var front := Ready(slots[..|slots| - 1], rset);
      var fd := slots[|slots| - 1];
      if fd >= 0 && fd in rset then front + [fd] else front
  }

  /** A slot after its client was served: freed at end of file and on an error. */
  function AfterRead(fd: int, rset: set<int>, got: int -> int): int {
    if fd >= 0 && fd in rset && got(fd) <= 0 then -1 else fd
  }

  function AfterReads(slots: seq<int>, rset: set<int>, got: int -> int): (r: seq<int>)
    ensures |r| == |slots|
  {
    seq(|slots|, i requires 0 <= i < |slots| => AfterRead(slots[i], rset, got))
  }

  /** The new client goes into the first free slot. */
  ghost predicate StoredFirstFree(before: seq<int>, after: seq<int>, fd: int) {
    exists i :: 0 <= i < |before| && before[i] < 0 && (forall j :: 0 <= j < i ==> before[j] >= 0) &&
                after == before[i := fd]
  }

  /** Of the clients served, those at end of file or with an error have lost their slots; every
      other slot is as it was. */
  ghost predicate Freed(before: seq<int>, after: seq<int>, served: seq<int>, got: int -> int) {
    && |after| == |before|
    && forall i :: 0 <= i < |before| ==>
         if before[i] in served && got(before[i]) <= 0 then after[i] == -1 else after[i] == before[i]
  }

  /** The descriptors that are closed. */
  ghost function Closed(served: seq<int>, got: int -> int): set<int> {
    set fd | fd in served && got(fd) <= 0
  }

  /** The slots after a turn: a new client in the first free one, and the ready clients served. */
  ghost predicate TurnOutcome(before: seq<int>, after: seq<int>, joins: bool, accepted: int,
                              served: seq<int>, got: int -> int) {
    if joins
    then exists joined :: StoredFirstFree(before, joined, accepted) && Freed(joined, after, served, got)
    else Freed(before, after, served, got)
  }

  // ---- ready clients are counted and met once ----

  lemma {:induction false} ReadyMembers(slots: seq<int>, rset: set<int>, fd: int)
    ensures fd in Ready(slots, rset) <==> fd in slots && fd >= 0 && fd in rset
  {
    if slots != [] {
      var n := |slots| - 1;
      assert slots == slots[..n] + [slots[n]];
      ReadyMembers(slots[..n], rset, fd);
    }
  }

  lemma {:induction false} ReadyDistinct(slots: seq<int>, rset: set<int>)
    requires forall i, j :: 0 <= i < j < |slots| && slots[i] >= 0 ==> slots[i] != slots[j]
    ensures forall i, j :: 0 <= i < j < |Ready(slots, rset)| ==> Ready(slots, rset)[i] != Ready(slots, rset)[j]
    ensures |Ready(slots, rset)| == |set fd | fd in Ready(slots, rset)|
  {
    if slots != [] {
      var n := |slots| - 1;
      var front := Ready(slots[..n], rset);
      ReadyDistinct(slots[..n], rset);
      if slots[n] >= 0 && slots[n] in rset {
        ReadyMembers(slots[..n], rset, slots[n]);
        assert (set fd | fd in front + [slots[n]]) == (set fd | fd in front) + {slots[n]};
      }
    }
  }

  lemma {:induction false} ReadyConcat(a: seq<int>, b: seq<int>, rset: set<int>)
    ensures Ready(a + b, rset) == Ready(a, rset) + Ready(b, rset)
    decreases |b|
  {
    if b == [] {
      assert a + b == a;
    } else {
      var n := |b| - 1;
      assert (a + b)[..|a + b| - 1] == a + b[..n];
      ReadyConcat(a, b[..n], rset);
    }
  }

  lemma {:induction false} NoneReady(slots: seq<int>, rset: set<int>)
    requires forall i :: 0 <= i < |slots| ==> slots[i] < 0
    ensures Ready(slots, rset) == []
  {
    if slots != [] {
      NoneReady(slots[..|slots| - 1], rset);
    }
  }

  lemma {:induction false} NothingReadyNothingChanges(slots: seq<int>, rset: set<int>, got: int -> int)
    requires Ready(slots, rset) == []
    ensures AfterReads(slots, rset, got) == slots
  {
    forall i | 0 <= i < |slots| ensures AfterRead(slots[i], rset, got) == slots[i] {
      ReadyMembers(slots, rset, slots[i]);
    }
  }

  /** What select reports ready, apart from the listening socket, is what the scan will meet. */
  lemma ReadyCount(slots: seq<int>, listenfd: int, rset: set<int>)
    requires SlotsValid(slots) && listenfd !in slots && rset <= {listenfd} + Descriptors(slots)
    ensures |Ready(slots, rset)| == |rset - {listenfd}|
    ensures forall fd :: fd in rset - {listenfd} <==> fd in Ready(slots, rset)
  {
    forall fd ensures fd in rset - {listenfd} <==> fd in Ready(slots, rset) {
      ReadyMembers(slots, rset, fd);
    }
    ReadyDistinct(slots, rset);
    assert rset - {listenfd} == set fd | fd in Ready(slots, rset);
  }

  /** What the scan leaves, in terms of who was served. */
  lemma AfterReadsFreed(slots: seq<int>, rset: set<int>, got: int -> int)
    ensures var after, served := AfterReads(slots, rset, got), Ready(slots, rset);
            Freed(slots, after, served, got) && Descriptors(after) == Descriptors(slots) - Closed(served, got)
  {
    var after, served := AfterReads(slots, rset, got), Ready(slots, rset);
    forall i | 0 <= i < |slots|
      ensures if slots[i] in served && got(slots[i]) <= 0 then after[i] == -1 else after[i] == slots[i]
    {
      ReadyMembers(slots, rset, slots[i]);
    }
    forall fd | fd in Descriptors(slots) - Closed(served, got) ensures fd in after {
      var i :| 0 <= i < |slots| && slots[i] == fd;
      assert after[i] == fd;
    }
  }

  class Server {
    const listenfd: int
    const clients: array<int>
    var allset: set<int>
    var maxi: int
    var maxfd: int

    ghost predicate Valid()
      reads this, clients
    {
      && clients.Length == FD_SETSIZE && 0 <= listenfd < FD_SETSIZE
      && SlotsValid(clients[..]) && listenfd !in clients[..]
      && allset == {listenfd} + Descriptors(clients[..])
      && -1 <= maxi < FD_SETSIZE
      && (forall i :: maxi < i < FD_SETSIZE ==> clients[i] == -1)
      && (forall fd :: fd in allset ==> fd <= maxfd)
    }

    constructor (listenfd: int)
      requires 0 <= listenfd < FD_SETSIZE
      ensures Valid() && fresh(clients) && this.listenfd == listenfd && allset == {listenfd}
    {
      this.listenfd := listenfd;
      maxfd := listenfd;
      maxi := -1;
      clients := new int[FD_SETSIZE](_ => -1);
      allset := {listenfd};
    }

    /** Stores a connection that accept returned. */
    method AddClient(connfd: int)
      requires Valid() && 0 <= connfd < FD_SETSIZE && connfd !in allset
      modifies this, clients
      ensures Valid() && allset == old(allset) + {connfd}
      ensures StoredFirstFree(old(clients[..]), clients[..], connfd)
      ensures maxfd == (if connfd > old(maxfd) then connfd else old(maxfd))
      ensures maxi >= old(maxi) && (maxi > old(maxi) ==> clients[maxi] == connfd)
    {
      var i := 0;
      ghost var before := clients[..];
      while i < FD_SETSIZE && clients[i] >= 0
        invariant 0 <= i <= FD_SETSIZE
        invariant forall j :: 0 <= j < i ==> clients[j] >= 0
      {
        i := i + 1;
      }
      if i == FD_SETSIZE {
        FreeSlotExists(before, listenfd);
        assert false;
      }
      StoreDescriptor(before, i, connfd);
      clients[i] := connfd;
      assert clients[..] == before[i := connfd];
      allset := allset + {connfd};
      if connfd > maxfd {
        maxfd := connfd;
      }
      if i > maxi {
        maxi := i;
      }
    }

    /**
     * One turn of the main loop. select left rset and returned nready; accepted is what accept
     * would return and got what a read from each client would. The turn fails only when accept
     * does. Otherwise every ready client is read from exactly once, whatever the early exits.
     */
    method Turn(rset: set<int>, nready: int, accepted: int, got: int -> int)
      returns (failed: bool, served: seq<int>)
      requires Valid() && (nready > 0 ==> rset <= allset && nready == |rset|)
      requires accepted < 0 || (accepted < FD_SETSIZE && accepted !in allset)
      modifies this, clients
      ensures Valid()
      ensures failed <==> nready > 0 && listenfd in rset && accepted < 0
      ensures nready <= 0 || failed ==> clients[..] == old(clients[..]) && allset == old(allset) && served == []
      ensures nready > 0 && !failed ==>
                && (forall fd :: fd in served <==> fd in rset && fd != listenfd)
                && (forall i, j :: 0 <= i < j < |served| ==> served[i] != served[j])
                && allset == old(allset) + (if listenfd in rset then {accepted} else {}) - Closed(served, got)
                && TurnOutcome(old(clients[..]), clients[..], listenfd in rset, accepted, served, got)
    {
      failed, served := false, [];
      if nready <= 0 {
        return;
      }
      var left := nready;
      if listenfd in rset {
        if accepted < 0 {
          failed := true;
          return;
        }
        AddClient(accepted);
        left := left - 1;
      }
      ghost var joined := clients[..];
      served := ServeReady(rset, left, got);
    }

    /** What follows the listening socket: left ready descriptors, all of them clients. */
    method ServeReady(rset: set<int>, left: nat, got: int -> int) returns (served: seq<int>)
      requires Valid() && rset <= allset && left == |rset - {listenfd}|
      modifies this`allset, clients
      ensures Valid() && Freed(old(clients[..]), clients[..], served, got)
      ensures allset == old(allset) - Closed(served, got)
      ensures forall fd :: fd in served <==> fd in rset && fd != listenfd
      ensures forall i, j :: 0 <= i < j < |served| ==> served[i] != served[j]
    {
      ReadyCount(clients[..], listenfd, rset);
      ReadyDistinct(clients[..], rset);
      if left <= 0 {
        return [];
      }
      served := ServeClients(rset, left, got);
    }

    /** The scan over all slots; it stops early once every ready client has been served. */
    method ServeClients(rset: set<int>, ready: nat, got: int -> int) returns (served: seq<int>)
      requires Valid() && ready > 0 && |Ready(clients[..], rset)| == ready
      modifies this`allset, clients
      ensures Valid() && served == Ready(old(clients[..]), rset)
      ensures Freed(old(clients[..]), clients[..], served, got) && allset == old(allset) - Closed(served, got)
    {
      served := [];
      var nready := ready;
      var i := 0;
      ghost var slots, all := clients[..], allset;
      ScanStarts(slots, rset, got);
      while i <= maxi
        invariant 0 <= i <= maxi + 1 && Valid()
        invariant Scanned(slots, clients[..], i, rset, got, served, nready)
        decreases maxi - i
      {
        served, nready := ServeSlot(slots, i, rset, got, served, nready);
        i := i + 1;
        if nready <= 0 {
          break;
        }
      }
      ScanIsOver(slots, all, i, rset, got, served, nready);
    }

    /** The scan stops once no ready client is left to count, or past the highest used slot. */
    lemma ScanIsOver(slots: seq<int>, all: set<int>, i: nat, rset: set<int>, got: int -> int,
                     served: seq<int>, nready: nat)
      requires Valid() && Scanned(slots, clients[..], i, rset, got, served, nready)
      requires listenfd !in slots && all == {listenfd} + Descriptors(slots)
      requires nready == 0 || i > maxi
      ensures Freed(slots, clients[..], served, got) && served == Ready(slots, rset)
      ensures allset == all - Closed(served, got)
    {
      ScanEnds(slots, clients[..], i, rset, got, served, nready);
      AfterReadsFreed(slots, rset, got);
      ReadyMembers(slots, rset, listenfd);
    }

    /** One slot of the scan: a ready client is read from, and closed at end of file and on an error. */
    method ServeSlot(ghost slots: seq<int>, i: nat, rset: set<int>, got: int -> int, served: seq<int>, nready: nat)
      returns (served': seq<int>, nready': nat)
      requires Valid() && i < FD_SETSIZE
      requires Scanned(slots, clients[..], i, rset, got, served, nready)
      modifies this`allset, clients
      ensures Valid() && Scanned(slots, clients[..], i + 1, rset, got, served', nready')
    {
      ScanStep(slots, clients[..], i, rset, got, served, nready);
      served', nready' := served, nready;
      var sockfd := clients[i];
      ghost var before := clients[..];
      if sockfd >= 0 && sockfd in rset {
        served' := served + [sockfd];
        if got(sockfd) <= 0 {
          FreeClient(i);
        }
        nready' := nready - 1;
      }
      assert clients[..] == before[i := AfterRead(sockfd, rset, got)];
    }

    /** Closes the client in slot i. */
    method FreeClient(i: nat)
      requires Valid() && i < FD_SETSIZE && clients[i] >= 0
      modifies this`allset, clients
      ensures Valid() && clients[..] == old(clients[..])[i := -1]
      ensures allset == old(allset) - {old(clients[i])}
    {
      FreeDescriptor(clients[..], i);
      ghost var before := clients[..];
      allset := allset - {clients[i]};
      clients[i] := -1;
      assert clients[..] == before[i := -1];
    }
  }

  // ---- the scan, slot by slot ----

  /** The first i slots were scanned: what they hold now, who was served, how many are still to come. */
  ghost predicate Scanned(slots: seq<int>, now: seq<int>, i: nat, rset: set<int>, got: int -> int,
                          served: seq<int>, nready: nat) {
    && i <= |slots| && now == AfterReads(slots[..i], rset, got) + slots[i..]
    && served == Ready(slots[..i], rset) && |Ready(slots[i..], rset)| == nready
  }

  lemma ScanStarts(slots: seq<int>, rset: set<int>, got: int -> int)
    ensures Scanned(slots, slots, 0, rset, got, [], |Ready(slots, rset)|)
  {
    assert slots[..0] == [] && slots[0..] == slots;
  }

  lemma ScanStep(slots: seq<int>, now: seq<int>, i: nat, rset: set<int>, got: int -> int,
                 served: seq<int>, nready: nat)
    requires Scanned(slots, now, i, rset, got, served, nready) && i < |slots|
    ensures now[i] == slots[i]
    ensures var next := now[i := AfterRead(now[i], rset, got)];
            if now[i] >= 0 && now[i] in rset
            then nready > 0 && Scanned(slots, next, i + 1, rset, got, served + [now[i]], nready - 1)
            else Scanned(slots, next, i + 1, rset, got, served, nready)
  {
    assert slots[..i + 1][..i] == slots[..i];
    assert slots[i..] == [slots[i]] + slots[i + 1..];
    ReadyConcat([slots[i]], slots[i + 1..], rset);
    assert [slots[i]][..0] == [];
  }

  /** The scan ends with no client to come: none is counted any more, or the other slots are free. */
  lemma ScanEnds(slots: seq<int>, now: seq<int>, i: nat, rset: set<int>, got: int -> int,
                 served: seq<int>, nready: nat)
    requires Scanned(slots, now, i, rset, got, served, nready)
    requires nready == 0 || forall j :: i <= j < |now| ==> now[j] < 0
    ensures now == AfterReads(slots, rset, got) && served == Ready(slots, rset) && nready == 0
  {
    var rest := slots[i..];
    if nready > 0 {
      forall j | 0 <= j < |rest| ensures rest[j] < 0 {
        assert rest[j] == now[i + j];
      }
      NoneReady(rest, rset);
    }
    NothingReadyNothingChanges(rest, rset, got);
    AfterReadsSplit(slots[..i], rest, rset, got);
    assert slots == slots[..i] + rest;
    ReadyConcat(slots[..i], rest, rset);
  }

  lemma AfterReadsSplit(a: seq<int>, b: seq<int>, rset: set<int>, got: int -> int)
    ensures AfterReads(a + b, rset, got) == AfterReads(a, rset, got) + AfterReads(b, rset, got)
  {
  }
}
