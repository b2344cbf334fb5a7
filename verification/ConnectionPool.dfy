/** The ns-2 traffic generator: per-group pools of TCP connections that grow on demand, and
    the counters of generated and finished flows. */
module ConnectionPool {
  import opened Basics

  // ---- what one event does to a group, as values ----

  /** A group: which of its connections are busy, their flow ids, and its busy counter. */
  datatype Group = Group(busy: seq<bool>, fids: seq<nat>, nrBusy: int)

  /** The global counters. */
  datatype Counters = Counters(flowGen: nat, flowFin: nat, initFid: nat)

  /** The first connection that is not busy, or the number of connections. */
  function FirstFree(busy: seq<bool>): (i: nat)
    ensures i <= |busy|
    ensures i < |busy| ==> !busy[i]
    ensures forall j :: 0 <= j < i ==> busy[j]
  {
    if busy == [] || !busy[0] then 0 else 1 + FirstFree(busy[1..])
  }

  lemma {:induction false} FirstFreeIs(busy: seq<bool>, i: nat)
    requires i <= |busy| && forall j :: 0 <= j < i ==> busy[j]
    requires i < |busy| ==> !busy[i]
    ensures FirstFree(busy) == i
  {
  }

  datatype Outcome = Outcome(group: Group, counters: Counters, sent: Option<int>)

  function Schedule(g: Group, c: Counters, flowTot: nat): Outcome {
    if c.flowGen >= flowTot then Outcome(g, c, None)
    else if g.nrBusy == |g.busy| then
      Outcome(Group(g.busy + [false], g.fids + [c.initFid], g.nrBusy + 1),
              c.(flowGen := c.flowGen + 1, initFid := c.initFid + 1),
              Some(|g.busy|))
    else
      var i := FirstFree(g.busy);
      Outcome(g.(nrBusy := g.nrBusy + 1),
              c.(flowGen := c.flowGen + 1),
              Some(if i < |g.busy| then i else -1))
  }

  // ---- the simulator's objects ----

  class Simulation {
    const flowTot: nat
    var flowGen: nat
    var flowFin: nat
    var initFid: nat
    var finished: bool

    constructor (flowTot: nat, firstFid: nat)
      ensures this.flowTot == flowTot && Now() == Counters(0, 0, firstFid) && !finished
    {
      this.flowTot := flowTot;
      flowGen, flowFin, initFid, finished := 0, 0, firstFid, false;
    }

    function Now(): Counters
      reads this
    {
      Counters(flowGen, flowFin, initFid)
    }
  }

  class TcpPair {
    const pairId: nat
    const flowId: nat
    var isBusy: bool

    constructor (pairId: nat, flowId: nat)
      ensures this.pairId == pairId && this.flowId == flowId && !isBusy
    {
      this.pairId, this.flowId := pairId, flowId;
      isBusy := false;
    }
  }

  class AggrPair {
    var pairs: seq<TcpPair>
    var nrPairs: nat
    var nrBusyPairs: int

    ghost predicate Valid()
      reads this
    {
      && nrPairs == |pairs|
      && forall i :: 0 <= i < |pairs| ==> pairs[i].pairId == i
    }

    ghost function View(): Group
      reads this, pairs
    {
      Group(seq(|pairs|, i requires 0 <= i < |pairs| reads this, pairs => pairs[i].isBusy),
            seq(|pairs|, i requires 0 <= i < |pairs| reads this => pairs[i].flowId),
            nrBusyPairs)
    }

    constructor Setup(sim: Simulation, nr: nat)
      modifies sim`initFid
      ensures Valid() && fresh(pairs) && sim.initFid == old(sim.initFid) + nr
      ensures View() == FreshPool(nr, old(sim.initFid)).group
    {
      pairs := [];
      nrPairs := nr;
      nrBusyPairs := 0;
      new;
      for i := 0 to nr
        invariant nrPairs == nr && nrBusyPairs == 0 && |pairs| == i && fresh(pairs)
        invariant sim.initFid == old(sim.initFid) + i
        invariant forall k :: 0 <= k < i ==>
                    pairs[k].pairId == k && pairs[k].flowId == old(sim.initFid) + k && !pairs[k].isBusy
      {
        var pair := new TcpPair(i, sim.initFid);
        pairs := pairs + [pair];
        sim.initFid := sim.initFid + 1;
      }
    }

    /** A flow arrives. `sent` is the connection whose send is put into the event queue. */
    method ScheduleFlow(sim: Simulation) returns (sent: Option<int>)
      requires Valid()
      modifies this, sim
      ensures Valid() && sim.finished == old(sim.finished)
      ensures Outcome(View(), sim.Now(), sent) == Schedule(old(View()), old(sim.Now()), sim.flowTot)
      ensures sent.Some? <==> old(sim.flowGen) < sim.flowTot
      ensures sim.flowGen - old(sim.flowGen) == nrBusyPairs - old(nrBusyPairs) == if sent.Some? then 1 else 0
      ensures sim.initFid - old(sim.initFid) == nrPairs - old(nrPairs) ==
              if sent.Some? && old(nrBusyPairs) == old(nrPairs) then 1 else 0
      ensures old(pairs) <= pairs
      ensures nrPairs > old(nrPairs) ==> pairs[old(nrPairs)].flowId == old(sim.initFid) && !pairs[old(nrPairs)].isBusy
    {
      if sim.flowGen >= sim.flowTot {
        return None;
      }
      if nrBusyPairs == nrPairs {
        var pair := new TcpPair(nrPairs, sim.initFid);
        pairs := pairs + [pair];
        sim.initFid := sim.initFid + 1;
        nrPairs := nrPairs + 1;
        sim.flowGen := sim.flowGen + 1;
        nrBusyPairs := nrBusyPairs + 1;
        assert View().busy == old(View().busy) + [false];
        assert View().fids == old(View().fids) + [old(sim.initFid)];
        return Some(nrPairs - 1);
      } else {
        var id := -1;
        var i := 0;
        while i < nrPairs && id < 0
          invariant 0 <= i <= nrPairs
          invariant id == -1 ==> forall k :: 0 <= k < i ==> pairs[k].isBusy
          invariant id != -1 ==> 0 <= id < nrPairs && !pairs[id].isBusy && forall k :: 0 <= k < id ==> pairs[k].isBusy
        {
          if !pairs[i].isBusy {
            id := i;
          }
          i := i + 1;
        }
        sim.flowGen := sim.flowGen + 1;
        nrBusyPairs := nrBusyPairs + 1;
        assert View().busy == old(View().busy) && View().fids == old(View().fids);
        FirstFreeIs(View().busy, if id < 0 then nrPairs else id);
        return Some(id);
      }
    }

    /** The queued send runs. */
    method Send(id: nat)
      requires Valid() && id < |pairs|
      modifies pairs[id]
      ensures Valid() && View() == old(View()).(busy := old(View()).busy[id := true])
    {
      pairs[id].isBusy := true;
    }

    /** The connection's send buffer has run empty: fin_notify of the pair, then of its group. */
    method FinNotify(id: nat, sim: Simulation)
      requires Valid() && id < |pairs|
      modifies this`nrBusyPairs, pairs[id], sim
      ensures Valid()
      ensures View() == old(View()).(busy := old(View()).busy[id := false], nrBusy := old(View()).nrBusy - 1)
      ensures sim.Now() == old(sim.Now()).(flowFin := old(sim.flowFin) + 1)
      ensures sim.finished == (old(sim.finished) || old(sim.flowFin) + 1 >= sim.flowTot)
    {
      pairs[id].isBusy := false;
      nrBusyPairs := nrBusyPairs - 1;
      sim.flowFin := sim.flowFin + 1;
      if sim.flowFin >= sim.flowTot {
        sim.finished := true;
      }
    }
  }

  // ---- whole runs ----

  /** A group inside a run: its state, the sends still in the event queue, and for the record
      its initial size and the highest busy count it has had. */
  datatype Pool = Pool(group: Group, queued: seq<int>, initial: nat, peak: int)

  datatype World = World(pools: seq<Pool>, counters: Counters, finished: bool)

  datatype Event =
    | Arrival(g: nat)            // schedule
    | Send(g: nat, pos: nat)     // one of the group's queued sends, in whatever order
    | Completion(g: nat, id: nat)

  predicate Enabled(w: World, e: Event) {
    !w.finished && e.g < |w.pools| &&
    match e
    case Arrival(g) => true
    case Send(g, pos) => pos < |w.pools[g].queued| && 0 <= w.pools[g].queued[pos] < |w.pools[g].group.busy|
    case Completion(g, id) => id < |w.pools[g].group.busy| && w.pools[g].group.busy[id]
  }

  function Removed(queued: seq<int>, pos: nat): seq<int>
    requires pos < |queued|
  {
    queued[..pos] + queued[pos + 1..]
  }

  function AfterArrival(p: Pool, c: Counters, flowTot: nat): Pool {
    var o := Schedule(p.group, c, flowTot);
    var queued := if o.sent.Some? then p.queued + [o.sent.value] else p.queued;
    Pool(o.group, queued, p.initial, Max(p.peak, o.group.nrBusy))
  }

  function AfterSend(p: Pool, pos: nat): Pool
    requires pos < |p.queued| && 0 <= p.queued[pos] < |p.group.busy|
  {
    p.(group := p.group.(busy := p.group.busy[p.queued[pos] := true]), queued := Removed(p.queued, pos))
  }

  function AfterCompletion(p: Pool, id: nat): Pool
    requires id < |p.group.busy|
  {
    p.(group := p.group.(busy := p.group.busy[id := false], nrBusy := p.group.nrBusy - 1))
  }

  function Next(w: World, e: Event, flowTot: nat): (w': World)
    requires Enabled(w, e)
    ensures |w'.pools| == |w.pools|
  {
    var p := w.pools[e.g];
    match e
    case Arrival(g) =>
      World(w.pools[g := AfterArrival(p, w.counters, flowTot)],
            Schedule(p.group, w.counters, flowTot).counters, false)
    case Send(g, pos) =>
      w.(pools := w.pools[g := AfterSend(p, pos)])
    case Completion(g, id) =>
      World(w.pools[g := AfterCompletion(p, id)],
            w.counters.(flowFin := w.counters.flowFin + 1),
            w.counters.flowFin + 1 >= flowTot)
  }

  /** An arrival does not choose a connection that a queued send is about to use. */
  predicate Fresh(p: Pool) {
    p.group.nrBusy == |p.group.busy| || FirstFree(p.group.busy) !in p.queued
  }

  predicate Guarded(w: World, e: Event, flowTot: nat) {
    e.Arrival? && e.g < |w.pools| && w.counters.flowGen < flowTot ==> Fresh(w.pools[e.g])
  }

  function BusyCount(busy: seq<bool>): nat {
    multiset(busy)[true]
  }

  /** The queued sends are for different connections, none of which is busy yet. */
  ghost predicate QueueInv(busy: seq<bool>, queued: seq<int>) {
    && (forall i :: 0 <= i < |queued| ==> 0 <= queued[i] < |busy| && !busy[queued[i]])
    && (forall i, j :: 0 <= i < j < |queued| ==> queued[i] != queued[j])
  }

  /** A group between two events, with any number of sends queued. */
  ghost predicate PoolInv(p: Pool) {
    && |p.group.fids| == |p.group.busy|
    && QueueInv(p.group.busy, p.queued)
    && p.group.nrBusy == BusyCount(p.group.busy) + |p.queued|
    && p.group.nrBusy <= p.peak
    && |p.group.busy| == Max(p.initial, p.peak)
  }

  ghost predicate PoolsInv(pools: seq<Pool>) {
    forall g :: 0 <= g < |pools| ==> PoolInv(pools[g])
  }

  function TotalBusy(pools: seq<Pool>): int {
    if pools == [] then 0 else pools[0].group.nrBusy + TotalBusy(pools[1..])
  }

  ghost predicate FidsBelow(pools: seq<Pool>, bound: nat) {
    forall g, i :: 0 <= g < |pools| && 0 <= i < |pools[g].group.fids| ==> pools[g].group.fids[i] < bound
  }

  /** No two connections of any groups share a flow id. */
  ghost predicate FidsDistinct(pools: seq<Pool>) {
    forall g, i, h, j ::
      (0 <= g < |pools| && 0 <= i < |pools[g].group.fids| && 0 <= h < |pools| && 0 <= j < |pools[h].group.fids| &&
       pools[g].group.fids[i] == pools[h].group.fids[j]) ==> g == h && i == j
  }

  predicate HasFid(pools: seq<Pool>, fid: nat) {
    exists g, i :: 0 <= g < |pools| && 0 <= i < |pools[g].group.fids| && pools[g].group.fids[i] == fid
  }

  /** Every flow id from low up to high is some connection's. */
  ghost predicate FidsTaken(pools: seq<Pool>, low: nat, high: nat) {
    forall fid: nat :: low <= fid < high ==> HasFid(pools, fid)
  }

  function TotalPairs(pools: seq<Pool>): nat {
    if pools == [] then 0 else |pools[0].group.fids| + TotalPairs(pools[1..])
  }

  /** In a world in order the flow ids are those from 0 up to the counter, each used once, and the
      counter is the number of connections. */
  ghost predicate Inv(w: World, flowTot: nat) {
    && PoolsInv(w.pools)
    && TotalBusy(w.pools) == w.counters.flowGen - w.counters.flowFin
    && w.counters.flowGen <= flowTot
    && (w.finished <==> flowTot > 0 && w.counters.flowFin == flowTot)
    && FidsBelow(w.pools, w.counters.initFid) && FidsDistinct(w.pools) && FidsTaken(w.pools, 0, w.counters.initFid)
    && TotalPairs(w.pools) == w.counters.initFid
  }

  lemma {:induction false} TotalBusyUpdate(pools: seq<Pool>, g: nat, p: Pool)
    requires g < |pools|
    ensures TotalBusy(pools[g := p]) == TotalBusy(pools) - pools[g].group.nrBusy + p.group.nrBusy
  {
    if g == 0 {
      assert pools[g := p][1..] == pools[1..];
    } else {
      assert pools[g := p][1..] == pools[1..][g - 1 := p];
      TotalBusyUpdate(pools[1..], g - 1, p);
    }
  }

  lemma {:induction false} TotalPairsUpdate(pools: seq<Pool>, g: nat, p: Pool)
    requires g < |pools|
    ensures TotalPairs(pools[g := p]) == TotalPairs(pools) - |pools[g].group.fids| + |p.group.fids|
  {
    if g == 0 {
      assert pools[g := p][1..] == pools[1..];
    } else {
      assert pools[g := p][1..] == pools[1..][g - 1 := p];
      TotalPairsUpdate(pools[1..], g - 1, p);
    }
  }

  lemma BusyCountUpdate(busy: seq<bool>, i: nat, b: bool)
    requires i < |busy|
    ensures BusyCount(busy[i := b]) == BusyCount(busy) - (if busy[i] then 1 else 0) + (if b then 1 else 0)
  {
    assert multiset(busy[i := b]) == multiset(busy) - multiset{busy[i]} + multiset{b};
    assert busy[i] in multiset(busy);
  }

  lemma {:induction false} AllBusyCount(busy: seq<bool>)
    ensures BusyCount(busy) <= |busy|
    ensures (forall i :: 0 <= i < |busy| ==> busy[i]) <==> BusyCount(busy) == |busy|
  {
    if busy != [] {
      var n := |busy| - 1;
      AllBusyCount(busy[..n]);
      assert busy == busy[..n] + [busy[n]];
      assert BusyCount(busy) == BusyCount(busy[..n]) + (if busy[n] then 1 else 0);
    }
  }

  /** The busy connections once every queued send has run. */
  function Drained(busy: seq<bool>, queued: seq<int>): (r: seq<bool>)
    requires forall i :: 0 <= i < |queued| ==> 0 <= queued[i] < |busy|
    ensures |r| == |busy|
    ensures forall i :: 0 <= i < |busy| ==> (r[i] <==> busy[i] || i in queued)
  {
    if queued == [] then busy
    else
      var n := |queued| - 1;
      assert queued == queued[..n] + [queued[n]];
      Drained(busy, queued[..n])[queued[n] := true]
  }

  lemma {:induction false} DrainedCount(busy: seq<bool>, queued: seq<int>)
    requires QueueInv(busy, queued)
    ensures BusyCount(Drained(busy, queued)) == BusyCount(busy) + |queued|
  {
    if queued != [] {
      var n := |queued| - 1;
      DrainedCount(busy, queued[..n]);
      assert queued[n] !in queued[..n];
      BusyCountUpdate(Drained(busy, queued[..n]), queued[n], true);
    }
  }

  lemma NoMoreThanAll(p: Pool)
    requires PoolInv(p)
    ensures p.group.nrBusy <= |p.group.busy|
  {
    DrainedCount(p.group.busy, p.queued);
    AllBusyCount(Drained(p.group.busy, p.queued));
  }

  /** The else branch always finds a free connection. */
  lemma FreePairIsFound(p: Pool)
    requires PoolInv(p) && p.group.nrBusy != |p.group.busy|
    ensures FirstFree(p.group.busy) < |p.group.busy|
  {
    NoMoreThanAll(p);
    AllBusyCount(p.group.busy);
  }

  lemma AnotherQueued(busy: seq<bool>, queued: seq<int>, id: int)
    requires QueueInv(busy, queued) && 0 <= id < |busy| && !busy[id]
    ensures QueueInv(busy, queued + [id]) <==> id !in queued
  {
    var all := queued + [id];
    if id in queued {
      var i :| 0 <= i < |queued| && queued[i] == id;
      assert all[i] == all[|queued|];
    }
  }

  /** An arrival keeps its group in order if and only if it is fresh; the connection it takes
      exists in any case, and the group has grown only if every connection was taken. */
  lemma ArrivalKeepsPool(p: Pool, c: Counters, flowTot: nat)
    requires PoolInv(p) && c.flowGen < flowTot
    ensures PoolInv(AfterArrival(p, c, flowTot)) <==> Fresh(p)
    ensures var o := Schedule(p.group, c, flowTot); o.sent.Some? && 0 <= o.sent.value < |o.group.busy|
  {
    if p.group.nrBusy == |p.group.busy| {
      ArrivalGrowsPool(p, c, flowTot);
    } else {
      ArrivalTakesFree(p, c, flowTot);
    }
  }

  lemma ArrivalTakesFree(p: Pool, c: Counters, flowTot: nat)
    requires PoolInv(p) && c.flowGen < flowTot && p.group.nrBusy != |p.group.busy|
    ensures FirstFree(p.group.busy) < |p.group.busy|
    ensures AfterArrival(p, c, flowTot) ==
            Pool(p.group.(nrBusy := p.group.nrBusy + 1), p.queued + [FirstFree(p.group.busy)],
                 p.initial, Max(p.peak, p.group.nrBusy + 1))
    ensures PoolInv(AfterArrival(p, c, flowTot)) <==> Fresh(p)
  {
    FreePairIsFound(p);
    NoMoreThanAll(p);
    AnotherQueued(p.group.busy, p.queued, FirstFree(p.group.busy));
  }

  lemma ArrivalGrowsPool(p: Pool, c: Counters, flowTot: nat)
    requires PoolInv(p) && c.flowGen < flowTot && p.group.nrBusy == |p.group.busy|
    ensures PoolInv(AfterArrival(p, c, flowTot))
  {
    var busy := p.group.busy + [false];
    assert BusyCount(busy) == BusyCount(p.group.busy);
    assert QueueInv(busy, p.queued);
    AnotherQueued(busy, p.queued, |p.group.busy|);
  }

  lemma SendKeepsPool(p: Pool, pos: nat)
    requires PoolInv(p) && pos < |p.queued|
    ensures PoolInv(AfterSend(p, pos))
  {
    BusyCountUpdate(p.group.busy, p.queued[pos], true);
    var queued := Removed(p.queued, pos);
    forall i | 0 <= i < |queued| ensures queued[i] == p.queued[if i < pos then i else i + 1] {
    }
  }

  lemma CompletionKeepsPool(p: Pool, id: nat)
    requires PoolInv(p) && id < |p.group.busy| && p.group.busy[id]
    ensures PoolInv(AfterCompletion(p, id))
  {
    BusyCountUpdate(p.group.busy, id, false);
  }

  /** Sends and completions always keep a group in order, an arrival exactly if it is fresh. */
  lemma StepKeepsPools(w: World, e: Event, flowTot: nat)
    requires Inv(w, flowTot) && Enabled(w, e)
    ensures PoolInv(Next(w, e, flowTot).pools[e.g]) <==> Guarded(w, e, flowTot)
  {
    var p := w.pools[e.g];
    match e
    case Arrival(g) =>
      if w.counters.flowGen < flowTot {
        ArrivalKeepsPool(p, w.counters, flowTot);
      }
    case Send(g, pos) =>
      SendKeepsPool(p, pos);
    case Completion(g, id) =>
      CompletionKeepsPool(p, id);
  }

  lemma SameFids(pools: seq<Pool>, g: nat, p: Pool, bound: nat)
    requires g < |pools| && p.group.fids == pools[g].group.fids
    requires FidsBelow(pools, bound) && FidsDistinct(pools)
    ensures FidsBelow(pools[g := p], bound) && FidsDistinct(pools[g := p])
  {
    var pools' := pools[g := p];
    assert forall h :: 0 <= h < |pools| ==> pools'[h].group.fids == pools[h].group.fids;
  }

  lemma NewFid(pools: seq<Pool>, g: nat, p: Pool, fid: nat)
    requires g < |pools| && p.group.fids == pools[g].group.fids + [fid]
    requires FidsBelow(pools, fid) && FidsDistinct(pools)
    ensures FidsBelow(pools[g := p], fid + 1) && FidsDistinct(pools[g := p])
  {
    var pools' := pools[g := p];
    forall h, i | 0 <= h < |pools'| && 0 <= i < |pools'[h].group.fids|
      ensures pools'[h].group.fids[i] == fid <==> h == g && i == |pools[g].group.fids|
      ensures pools'[h].group.fids[i] <= fid
    {
      if h != g || i < |pools[g].group.fids| {
        assert pools'[h].group.fids[i] == pools[h].group.fids[i];
      }
    }
    forall h, i, k, j | 0 <= h < |pools'| && 0 <= i < |pools'[h].group.fids| &&
                        0 <= k < |pools'| && 0 <= j < |pools'[k].group.fids| &&
                        pools'[h].group.fids[i] == pools'[k].group.fids[j]
      ensures h == k && i == j
    {
      if pools'[h].group.fids[i] != fid {
        assert pools[h].group.fids[i] == pools[k].group.fids[j];
      }
    }
  }

  lemma FidStays(pools: seq<Pool>, g: nat, p: Pool, fid: nat)
    requires g < |pools| && pools[g].group.fids <= p.group.fids && HasFid(pools, fid)
    ensures HasFid(pools[g := p], fid)
  {
    var h, i :| 0 <= h < |pools| && 0 <= i < |pools[h].group.fids| && pools[h].group.fids[i] == fid;
    assert pools[g := p][h].group.fids[i] == fid;
  }

  lemma FidsStayTaken(pools: seq<Pool>, g: nat, p: Pool, bound: nat)
    requires g < |pools| && FidsTaken(pools, 0, bound)
    requires p.group.fids == pools[g].group.fids || p.group.fids == pools[g].group.fids + [bound]
    ensures FidsTaken(pools[g := p], 0, bound + |p.group.fids| - |pools[g].group.fids|)
    ensures TotalPairs(pools[g := p]) == TotalPairs(pools) + |p.group.fids| - |pools[g].group.fids|
  {
    TotalPairsUpdate(pools, g, p);
    var pools' := pools[g := p];
    forall fid: nat | fid < bound ensures HasFid(pools', fid) {
      FidStays(pools, g, p, fid);
    }
    if p.group.fids != pools[g].group.fids {
      assert pools'[g].group.fids[|p.group.fids| - 1] == bound;
    }
  }

  lemma StepKeepsFids(w: World, e: Event, flowTot: nat)
    requires Inv(w, flowTot) && Enabled(w, e)
    ensures var w' := Next(w, e, flowTot); FidsBelow(w'.pools, w'.counters.initFid) && FidsDistinct(w'.pools)
    ensures var w' := Next(w, e, flowTot);
            FidsTaken(w'.pools, 0, w'.counters.initFid) && TotalPairs(w'.pools) == w'.counters.initFid
  {
    var w' := Next(w, e, flowTot);
    FidsStayTaken(w.pools, e.g, w'.pools[e.g], w.counters.initFid);
    if w'.counters.initFid == w.counters.initFid {
      SameFids(w.pools, e.g, w'.pools[e.g], w.counters.initFid);
    } else {
      NewFid(w.pools, e.g, w'.pools[e.g], w.counters.initFid);
    }
  }

  lemma StepKeepsTotals(w: World, e: Event, flowTot: nat)
    requires Inv(w, flowTot) && Enabled(w, e)
    ensures var w' := Next(w, e, flowTot);
            TotalBusy(w'.pools) == w'.counters.flowGen - w'.counters.flowFin && w'.counters.flowGen <= flowTot
  {
    TotalBusyUpdate(w.pools, e.g, Next(w, e, flowTot).pools[e.g]);
  }

  lemma {:induction false} TotalBusyBound(pools: seq<Pool>)
    requires PoolsInv(pools)
    ensures TotalBusy(pools) >= 0
  {
    if pools != [] {
      TotalBusyBound(pools[1..]);
    }
  }

  /** An event keeps everything in order if and only if it is guarded. */
  lemma StepKeepsInv(w: World, e: Event, flowTot: nat)
    requires Inv(w, flowTot) && Enabled(w, e)
    ensures Inv(Next(w, e, flowTot), flowTot) <==> Guarded(w, e, flowTot)
  {
    var w' := Next(w, e, flowTot);
    StepKeepsPools(w, e, flowTot);
    if Guarded(w, e, flowTot) {
      StepKeepsFids(w, e, flowTot);
      StepKeepsTotals(w, e, flowTot);
      forall g | 0 <= g < |w'.pools| ensures PoolInv(w'.pools[g]) {
        if g != e.g {
          assert w'.pools[g] == w.pools[g];
        }
      }
      TotalBusyBound(w'.pools);
    }
  }

  /** A possible sequence of events. */
  ghost predicate Possible(w: World, events: seq<Event>, flowTot: nat)
    decreases |events|
  {
    events == [] || (Enabled(w, events[0]) && Possible(Next(w, events[0], flowTot), events[1..], flowTot))
  }

  function After(w: World, events: seq<Event>, flowTot: nat): World
    requires Possible(w, events, flowTot)
    decreases |events|
  {
    if events == [] then w else After(Next(w, events[0], flowTot), events[1..], flowTot)
  }

  ghost predicate AllGuarded(w: World, events: seq<Event>, flowTot: nat)
    requires Possible(w, events, flowTot)
    decreases |events|
  {
    events == [] ||
    (Guarded(w, events[0], flowTot) && AllGuarded(Next(w, events[0], flowTot), events[1..], flowTot))
  }

  ghost predicate AlwaysInOrder(w: World, events: seq<Event>, flowTot: nat)
    requires Possible(w, events, flowTot)
    decreases |events|
  {
    Inv(w, flowTot) && (events == [] || AlwaysInOrder(Next(w, events[0], flowTot), events[1..], flowTot))
  }

  /** The counters, pools and flow ids are in order all along a run exactly if every arrival is fresh. */
  lemma {:induction false} RunKeepsInv(w: World, events: seq<Event>, flowTot: nat)
    requires Inv(w, flowTot) && Possible(w, events, flowTot)
    ensures AlwaysInOrder(w, events, flowTot) <==> AllGuarded(w, events, flowTot)
    ensures AllGuarded(w, events, flowTot) ==> Inv(After(w, events, flowTot), flowTot)
    decreases |events|
  {
    if events != [] {
      var w' := Next(w, events[0], flowTot);
      StepKeepsInv(w, events[0], flowTot);
      if Guarded(w, events[0], flowTot) {
        RunKeepsInv(w', events[1..], flowTot);
      } else {
        assert !Inv(w', flowTot);
      }
    }
  }

  /** The groups as Setup leaves them, given their sizes. */
  function SetUp(sizes: seq<nat>, firstFid: nat): seq<Pool> {
    if sizes == [] then []
    else [FreshPool(sizes[0], firstFid)] + SetUp(sizes[1..], firstFid + sizes[0])
  }

  function FreshPool(n: nat, firstFid: nat): Pool {
    Pool(Group(seq(n, _ => false), seq(n, i => firstFid + i), 0), [], n, 0)
  }

  function Sum(sizes: seq<nat>): nat {
    if sizes == [] then 0 else sizes[0] + Sum(sizes[1..])
  }

  function Start(sizes: seq<nat>): World {
    World(SetUp(sizes, 0), Counters(0, 0, Sum(sizes)), false)
  }

  lemma NoneBusy(n: nat)
    ensures BusyCount(seq(n, _ => false)) == 0
  {
    var busy := seq(n, _ => false);
    assert true !in busy;
  }

  ghost predicate FidsFrom(pools: seq<Pool>, bound: nat) {
    forall g, i :: 0 <= g < |pools| && 0 <= i < |pools[g].group.fids| ==> pools[g].group.fids[i] >= bound
  }

  lemma PrependFids(p: Pool, rest: seq<Pool>, lo: nat, mid: nat, hi: nat)
    requires lo <= mid <= hi && p.group.fids == seq(mid - lo, i => lo + i)
    requires FidsFrom(rest, mid) && FidsBelow(rest, hi) && FidsDistinct(rest)
    ensures var pools := [p] + rest; FidsFrom(pools, lo) && FidsBelow(pools, hi) && FidsDistinct(pools)
  {
    var pools := [p] + rest;
    assert pools[0] == p && forall g :: 0 < g < |pools| ==> pools[g] == rest[g - 1];
    forall g, i, h, j | 0 <= g < |pools| && 0 <= i < |pools[g].group.fids| &&
                        0 <= h < |pools| && 0 <= j < |pools[h].group.fids| &&
                        pools[g].group.fids[i] == pools[h].group.fids[j]
      ensures g == h && i == j
    {
      if g > 0 && h > 0 {
        assert rest[g - 1].group.fids[i] == rest[h - 1].group.fids[j];
      }
    }
  }

  lemma PrependTaken(p: Pool, rest: seq<Pool>, lo: nat, mid: nat, hi: nat)
    requires lo <= mid <= hi && p.group.fids == seq(mid - lo, i => lo + i) && FidsTaken(rest, mid, hi)
    ensures FidsTaken([p] + rest, lo, hi) && TotalPairs([p] + rest) == mid - lo + TotalPairs(rest)
  {
    var pools := [p] + rest;
    assert pools[0] == p && pools[1..] == rest;
    forall fid: nat | lo <= fid < hi ensures HasFid(pools, fid) {
      if fid < mid {
        assert pools[0].group.fids[fid - lo] == fid;
      } else {
        assert HasFid(rest, fid);
        var g, i :| 0 <= g < |rest| && 0 <= i < |rest[g].group.fids| && rest[g].group.fids[i] == fid;
        assert pools[g + 1].group.fids[i] == fid;
      }
    }
  }

  lemma PrependPool(p: Pool, rest: seq<Pool>)
    requires PoolInv(p) && PoolsInv(rest)
    ensures PoolsInv([p] + rest) && TotalBusy([p] + rest) == p.group.nrBusy + TotalBusy(rest)
  {
    assert ([p] + rest)[1..] == rest;
  }

  lemma FreshPoolInv(n: nat, firstFid: nat)
    ensures var p := FreshPool(n, firstFid);
            PoolInv(p) && p.group.nrBusy == 0 && p.group.fids == seq(n, i => firstFid + i)
  {
    NoneBusy(n);
  }

  /** Freshly set up groups number their connections consecutively. */
  lemma {:induction false} SetUpInv(sizes: seq<nat>, firstFid: nat)
    ensures var pools := SetUp(sizes, firstFid);
            && |pools| == |sizes|
            && PoolsInv(pools) && TotalBusy(pools) == 0
            && FidsFrom(pools, firstFid) && FidsBelow(pools, firstFid + Sum(sizes)) && FidsDistinct(pools)
            && FidsTaken(pools, firstFid, firstFid + Sum(sizes)) && TotalPairs(pools) == Sum(sizes)
  {
    if sizes != [] {
      var n := sizes[0];
      var first, rest := FreshPool(n, firstFid), SetUp(sizes[1..], firstFid + n);
      SetUpInv(sizes[1..], firstFid + n);
      FreshPoolInv(n, firstFid);
      PrependPool(first, rest);
      PrependFids(first, rest, firstFid, firstFid + n, firstFid + Sum(sizes));
      PrependTaken(first, rest, firstFid, firstFid + n, firstFid + Sum(sizes));
    }
  }

  /** The guarantees for a whole simulation, whatever the order of its events: they hold all
      along exactly if no arrival takes a connection that a queued send is about to use. */
  lemma SimulationIsInOrder(sizes: seq<nat>, events: seq<Event>, flowTot: nat)
    requires Possible(Start(sizes), events, flowTot)
    ensures AlwaysInOrder(Start(sizes), events, flowTot) <==> AllGuarded(Start(sizes), events, flowTot)
    ensures AllGuarded(Start(sizes), events, flowTot) ==> Inv(After(Start(sizes), events, flowTot), flowTot)
  {
    SetUpInv(sizes, 0);
    RunKeepsInv(Start(sizes), events, flowTot);
  }

  // ---- why the scripts' arrivals are fresh: one chain of arrivals per group ----

  /** What a group has in the simulator's event queue, in the order in which it will run. */
  datatype Pending = ToSend(id: int) | ToSchedule

  function Sends(queued: seq<int>): (r: seq<Pending>)
    ensures |r| == |queued|
  {
    seq(|queued|, i requires 0 <= i < |queued| => ToSend(queued[i]))
  }

  /** schedule queues its send first and its own next run after it. */
  function Requeued(agenda: seq<Pending>, p: Pool, c: Counters, flowTot: nat): seq<Pending>
    requires agenda != []
  {
    var o := Schedule(p.group, c, flowTot);
    agenda[1..] + (if o.sent.Some? then [ToSend(o.sent.value)] else [])
                + (if o.sent.Some? && o.counters.flowGen < flowTot then [ToSchedule] else [])
  }

  predicate Due(agendas: seq<seq<Pending>>, e: Event) {
    e.g < |agendas| &&
    match e
    case Arrival(g) => agendas[g] != [] && agendas[g][0] == ToSchedule
    case Send(g, pos) => pos == 0 && agendas[g] != [] && agendas[g][0].ToSend?
    case Completion(g, id) => true
  }

  function NextAgendas(w: World, agendas: seq<seq<Pending>>, e: Event, flowTot: nat): (r: seq<seq<Pending>>)
    requires e.g < |w.pools| == |agendas| && Due(agendas, e)
    ensures |r| == |agendas|
  {
    match e
    case Arrival(g) => agendas[g := Requeued(agendas[g], w.pools[g], w.counters, flowTot)]
    case Send(g, _) => agendas[g := agendas[g][1..]]
    case Completion(_, _) => agendas
  }

  /** Every group's own events run in the order in which they were queued. */
  ghost predicate InQueueOrder(w: World, agendas: seq<seq<Pending>>, events: seq<Event>, flowTot: nat)
    requires |agendas| == |w.pools| && Possible(w, events, flowTot)
    decreases |events|
  {
    events == [] ||
    (Due(agendas, events[0]) &&
     InQueueOrder(Next(w, events[0], flowTot), NextAgendas(w, agendas, events[0], flowTot), events[1..], flowTot))
  }

  /** A group's agenda: its queued sends, and last the next arrival. */
  predicate AgendaOf(p: Pool, agenda: seq<Pending>) {
    agenda == Sends(p.queued) || agenda == Sends(p.queued) + [ToSchedule]
  }

  lemma AgendaStep(w: World, agendas: seq<seq<Pending>>, e: Event, flowTot: nat)
    requires |agendas| == |w.pools| && Enabled(w, e) && Due(agendas, e)
    requires AgendaOf(w.pools[e.g], agendas[e.g])
    ensures AgendaOf(Next(w, e, flowTot).pools[e.g], NextAgendas(w, agendas, e, flowTot)[e.g])
    ensures e.Arrival? ==> w.pools[e.g].queued == []
  {
    var queued, agenda := w.pools[e.g].queued, agendas[e.g];
    if queued != [] {
      assert agenda[0] == ToSend(queued[0]);
      assert Sends(queued)[1..] == Sends(queued[1..]);
      assert agenda[1..] == Sends(queued[1..]) || agenda[1..] == Sends(queued[1..]) + [ToSchedule];
      assert Removed(queued, 0) == queued[1..];
    } else {
      assert Sends(queued) == [];
      forall id: int ensures Sends([id]) == [ToSend(id)] {
      }
    }
  }

  /** With one chain of arrivals per group every arrival finds its group's queue empty. */
  lemma {:induction false} ChainsAreGuarded(w: World, agendas: seq<seq<Pending>>, events: seq<Event>, flowTot: nat)
    requires |agendas| == |w.pools| && Possible(w, events, flowTot) && InQueueOrder(w, agendas, events, flowTot)
    requires forall g :: 0 <= g < |agendas| ==> AgendaOf(w.pools[g], agendas[g])
    ensures AllGuarded(w, events, flowTot)
    decreases |events|
  {
    if events != [] {
      AgendaStep(w, agendas, events[0], flowTot);
      ChainsAreGuarded(Next(w, events[0], flowTot), NextAgendas(w, agendas, events[0], flowTot), events[1..], flowTot);
    }
  }

  /** So in the scripts, which start one chain per group, everything stays in order. */
  lemma ChainedSimulationIsInOrder(sizes: seq<nat>, events: seq<Event>, flowTot: nat)
    requires var w := Start(sizes);
             Possible(w, events, flowTot) &&
             InQueueOrder(w, seq(|w.pools|, _ => [ToSchedule]), events, flowTot)
    ensures AlwaysInOrder(Start(sizes), events, flowTot)
  {
    var w := Start(sizes);
    SetUpQueues(sizes, 0);
    ChainsAreGuarded(w, seq(|w.pools|, _ => [ToSchedule]), events, flowTot);
    SimulationIsInOrder(sizes, events, flowTot);
  }

  lemma {:induction false} SetUpQueues(sizes: seq<nat>, firstFid: nat)
    ensures forall g :: 0 <= g < |SetUp(sizes, firstFid)| ==> SetUp(sizes, firstFid)[g].queued == []
  {
    if sizes != [] {
      SetUpQueues(sizes[1..], firstFid + sizes[0]);
    }
  }

  // ---- arrivals that are not fresh ----

  lemma SentTwice(busy: seq<bool>, queued: seq<int>, id: int)
    requires QueueInv(busy, queued) && id in queued
    ensures Drained(busy, queued + [id]) == Drained(busy, queued)
  {
    assert forall i :: i in queued + [id] <==> i in queued;
  }

  /** After an arrival and all queued sends the busy counter is right exactly if it was fresh. */
  lemma CounterIsRightIffFresh(p: Pool, c: Counters, flowTot: nat)
    requires PoolInv(p) && c.flowGen < flowTot
    ensures var p' := AfterArrival(p, c, flowTot);
            && (forall i :: 0 <= i < |p'.queued| ==> 0 <= p'.queued[i] < |p'.group.busy|)
            && (BusyCount(Drained(p'.group.busy, p'.queued)) == p'.group.nrBusy <==> Fresh(p))
  {
    var p' := AfterArrival(p, c, flowTot);
    ArrivalKeepsPool(p, c, flowTot);
    if Fresh(p) {
      DrainedCount(p'.group.busy, p'.queued);
    } else {
      ArrivalTakesFree(p, c, flowTot);
      DrainedCount(p.group.busy, p.queued);
      SentTwice(p.group.busy, p.queued, FirstFree(p.group.busy));
    }
  }

  /** Of two arrivals in a row, the second takes the first's connection again exactly if two or
      more were free: the first one's send has not marked it busy yet. */
  lemma UnsentConnectionIsTakenAgain(p: Pool, c: Counters, flowTot: nat)
    requires PoolInv(p) && p.queued == [] && c.flowGen + 1 < flowTot
    ensures var first := Schedule(p.group, c, flowTot);
            var second := Schedule(first.group, first.counters, flowTot);
            && first.sent.Some? && second.sent.Some?
            && (second.sent == first.sent <==> p.group.nrBusy + 1 < |p.group.busy|)
  {
    AllBusyCount(p.group.busy);
    if p.group.nrBusy != |p.group.busy| {
      FreePairIsFound(p);
    }
  }

  /** Two arrivals before their sends: both flows end up on connection 0, and when both sends
      have run one connection is busy and the counter says 2. */
  lemma OvertakenSend()
    ensures var w0 := Start([2]);
            var events := [Arrival(0), Arrival(0), Send(0, 0), Send(0, 0)];
            && Possible(w0, events, 3)
            && (var p := After(w0, events, 3).pools[0];
                p.queued == [] && p.group.busy == [true, false] && BusyCount(p.group.busy) == 1 && p.group.nrBusy == 2)
  {
    var w0 := Start([2]);
    assert w0.pools[0].group.busy == [false, false];
    var w1 := Next(w0, Arrival(0), 3);
    var w2 := Next(w1, Arrival(0), 3);
    assert w2.pools[0].queued == [0, 0];
    var w3 := Next(w2, Send(0, 0), 3);
    assert w3.pools[0].queued == [0] && w3.pools[0].group.busy == [true, false];
    var w4 := Next(w3, Send(0, 0), 3);
    assert w4.pools[0].queued == [] && w4.pools[0].group.busy == [true, false];
    assert After(w3, [Send(0, 0)], 3) == w4;
    assert After(w2, [Send(0, 0), Send(0, 0)], 3) == w4 by {
      assert [Send(0, 0), Send(0, 0)][1..] == [Send(0, 0)];
    }
    assert After(w1, [Arrival(0), Send(0, 0), Send(0, 0)], 3) == w4 by {
      assert [Arrival(0), Send(0, 0), Send(0, 0)][1..] == [Send(0, 0), Send(0, 0)];
    }
    assert [Arrival(0), Arrival(0), Send(0, 0), Send(0, 0)][1..] == [Arrival(0), Send(0, 0), Send(0, 0)];
    assert BusyCount([true, false]) == 1;
  }
}
