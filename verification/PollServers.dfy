/** The slot table of the poll-based echo server, whose slot 0 holds the listening socket. */
module PollServers {
  import opened DescriptorSlots

  class PollServer {
    const OPEN_MAX: nat
    const listenfd: int
    const fds: array<int>
    const events: array<bool>
    var maxi: int

    /** Every slot that poll is not told about is free, and every descriptor waits for input. */
    ghost predicate Valid()
      reads this, fds, events
    {
      && fds.Length == OPEN_MAX && events.Length == OPEN_MAX
      && SlotsValid(fds[..]) && 0 <= maxi < OPEN_MAX && fds[0] == listenfd >= 0
      && (forall i :: maxi < i < OPEN_MAX ==> fds[i] == -1)
      && (forall i :: 0 <= i < OPEN_MAX && fds[i] >= 0 ==> events[i])
    }

    constructor (openMax: nat, listenfd: int)
      requires 0 <= listenfd < openMax
      ensures Valid() && fresh(fds) && fresh(events) && OPEN_MAX == openMax && this.listenfd == listenfd
      ensures Descriptors(fds[..]) == {listenfd}
    {
      OPEN_MAX := openMax;
      this.listenfd := listenfd;
      var slots := new int[openMax](i => if i == 0 then listenfd else -1);
      fds := slots;
      events := new bool[openMax](i => i == 0);
      maxi := 0;
      new;
      assert slots[..][0] == listenfd;
    }

    /** Stores a connection that accept returned: always in a slot of the table, never over another. */
    method Accept(connfd: int) returns (i: nat)
      requires Valid() && 0 <= connfd < OPEN_MAX && connfd !in fds[..]
      modifies this, fds, events
      ensures Valid() && 0 < i < OPEN_MAX && old(fds[i]) < 0
      ensures forall j :: 0 <= j < i ==> old(fds[j]) >= 0
      ensures fds[..] == old(fds[..])[i := connfd]
      ensures Descriptors(fds[..]) == old(Descriptors(fds[..])) + {connfd}
      ensures maxi == (if i > old(maxi) then i else old(maxi))
    {
      ghost var before := fds[..];
      i := 0;
      while i < OPEN_MAX && fds[i] >= 0
        invariant 0 <= i <= OPEN_MAX
        invariant forall j :: 0 <= j < i ==> fds[j] >= 0
      {
        i := i + 1;
      }
      if i == OPEN_MAX {
        FreeSlotExists(before, connfd);
        assert false;
      }
      StoreDescriptor(before, i, connfd);
      fds[i] := connfd;
      assert fds[..] == before[i := connfd];
      events[i] := true;
      if i > maxi {
        maxi := i;
      }
    }

    /** Closes a client at end of file or on an error; the listening socket is never in its range. */
    method Close(i: nat)
      requires Valid() && 1 <= i <= maxi && fds[i] >= 0
      modifies fds
      ensures Valid() && fds[..] == old(fds[..])[i := -1]
      ensures Descriptors(fds[..]) == old(Descriptors(fds[..])) - {old(fds[i])}
    {
      FreeDescriptor(fds[..], i);
      ghost var before := fds[..];
      fds[i] := -1;
      assert fds[..] == before[i := -1];
    }
  }
}
