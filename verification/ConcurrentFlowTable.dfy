/** The flow table under concurrent callers.

    Every locked region and every atomic counter update is one step. Between the steps of
    one call any other thread may run: an insert gives up the lock between looking for the
    flow and linking its entry, and counts it only after that. */
module ConcurrentFlowTable {
  import opened FlowHash

  /** Where a thread is inside insert_table or delete_table. */
  datatype Pc =
    | Idle
    | Checked(flow: FlowKey)      // insert: the flow was not found, the lock is free again
    | Allocated(flow: FlowKey)    // insert: memory for the entry is there
    | Linked                      // insert: the entry is in its chain, not yet counted
    | Unlinked                    // delete: the entry is out of its chain, still counted

  datatype State = State(chains: seq<seq<FlowKey>>, numFlows: int, threads: seq<Pc>)

  datatype Action =
    | Check(t: nat, flow: FlowKey)
    | Allocate(t: nat, ok: bool)
    | Link(t: nat)
    | Increment(t: nat)
    | Unlink(t: nat, flow: FlowKey)
    | Decrement(t: nat)

  /** The hash of a table: it gives every flow one of the table's chains. */
  type Hash = FlowKey -> nat

  ghost predicate WellFormed(bucket: Hash, s: State) {
    forall k :: bucket(k) < |s.chains|
  }

  predicate Enabled(s: State, a: Action) {
    a.t < |s.threads| &&
    match a
    case Check(t, _) => s.threads[t].Idle?
    case Allocate(t, _) => s.threads[t].Checked?
    case Link(t) => s.threads[t].Allocated?
    case Increment(t) => s.threads[t].Linked?
    case Unlink(t, _) => s.threads[t].Idle?
    case Decrement(t) => s.threads[t].Unlinked?
  }

  function Position(chain: seq<FlowKey>, flow: FlowKey): (pos: nat)
    ensures pos <= |chain|
    ensures pos < |chain| <==> flow in chain
    ensures pos < |chain| ==> chain[pos] == flow
  {
    if chain == [] || chain[0] == flow then 0 else 1 + Position(chain[1..], flow)
  }

  function Without(chain: seq<FlowKey>, pos: nat): seq<FlowKey>
    requires pos < |chain|
  {
    chain[..pos] + chain[pos + 1..]
  }

  function Next(bucket: Hash, s: State, a: Action): (s': State)
    requires Enabled(s, a) && forall k :: bucket(k) < |s.chains|
    ensures |s'.chains| == |s.chains| && |s'.threads| == |s.threads|
  {
    match a
    case Check(t, flow) =>
      if flow in s.chains[bucket(flow)] then s else s.(threads := s.threads[t := Checked(flow)])
    case Allocate(t, ok) =>
      s.(threads := s.threads[t := if ok then Allocated(s.threads[t].flow) else Idle])
    case Link(t) =>
      var flow := s.threads[t].flow;
      var i := bucket(flow);
      s.(chains := s.chains[i := [flow] + s.chains[i]], threads := s.threads[t := Linked])
    case Increment(t) =>
      s.(numFlows := s.numFlows + 1, threads := s.threads[t := Idle])
    case Unlink(t, flow) =>
      var i := bucket(flow);
      var pos := Position(s.chains[i], flow);
      if pos == |s.chains[i]| then s
      else s.(chains := s.chains[i := Without(s.chains[i], pos)], threads := s.threads[t := Unlinked])
    case Decrement(t) =>
      s.(numFlows := s.numFlows - 1, threads := s.threads[t := Idle])
  }

  /** Any number of threads, all idle, on an empty table. */
  function Init(chains: nat, threads: nat): State {
    State(seq(chains, _ => []), 0, seq(threads, _ => Idle))
  }

  /** s' is what some interleaving of the threads' steps leads to from s. */
  ghost predicate Runs(bucket: Hash, s: State, actions: seq<Action>, s': State)
    decreases |actions|
  {
    if actions == [] then s == s'
    else
      WellFormed(bucket, s) && Enabled(s, actions[0]) &&
      Runs(bucket, Next(bucket, s, actions[0]), actions[1..], s')
  }

  // ---- counting ----

  function Entries(chains: seq<seq<FlowKey>>): multiset<FlowKey> {
    if chains == [] then multiset{} else multiset(chains[0]) + Entries(chains[1..])
  }

  /** Entries linked but not yet counted, less those unlinked but still counted. */
  function Uncounted(threads: seq<Pc>): int {
    multiset(threads)[Linked] as int - multiset(threads)[Unlinked] as int
  }

  /** Threads that have found the flow absent and have not linked it yet. */
  function Pending(threads: seq<Pc>, k: FlowKey): nat {
    multiset(threads)[Checked(k)] + multiset(threads)[Allocated(k)]
  }

  lemma ThreadMoves(threads: seq<Pc>, t: nat, p: Pc)
    requires t < |threads|
    ensures multiset(threads[t := p]) == multiset(threads) - multiset{threads[t]} + multiset{p}
    ensures threads[t] in multiset(threads)
  {
  }

  lemma UncountedMoves(threads: seq<Pc>, t: nat, p: Pc)
    requires t < |threads|
    ensures Uncounted(threads[t := p]) == Uncounted(threads)
              - (match threads[t] case Linked => 1 case Unlinked => -1 case _ => 0)
              + (match p case Linked => 1 case Unlinked => -1 case _ => 0)
  {
    ThreadMoves(threads, t, p);
  }

  lemma PendingMoves(threads: seq<Pc>, t: nat, p: Pc, k: FlowKey)
    requires t < |threads|
    ensures Pending(threads[t := p], k) == Pending(threads, k)
              - (if threads[t] == Checked(k) || threads[t] == Allocated(k) then 1 else 0)
              + (if p == Checked(k) || p == Allocated(k) then 1 else 0)
  {
    ThreadMoves(threads, t, p);
  }

  lemma ReplacedInRest(first: multiset<FlowKey>, rest: multiset<FlowKey>, a: multiset<FlowKey>, b: multiset<FlowKey>)
    requires a <= rest
    ensures a <= first + rest && first + (rest - a + b) == first + rest - a + b
  {
  }

  lemma {:induction false} EntriesUpdate(chains: seq<seq<FlowKey>>, i: nat, chain: seq<FlowKey>)
    requires i < |chains|
    ensures multiset(chains[i]) <= Entries(chains)
    ensures Entries(chains[i := chain]) == Entries(chains) - multiset(chains[i]) + multiset(chain)
  {
    if i == 0 {
      assert chains[i := chain][1..] == chains[1..];
    } else {
      EntriesUpdate(chains[1..], i - 1, chain);
      assert chains[i := chain][1..] == chains[1..][i - 1 := chain];
      ReplacedInRest(multiset(chains[0]), Entries(chains[1..]), multiset(chains[i]), multiset(chain));
    }
  }

  lemma {:induction false} EntriesNowhere(chains: seq<seq<FlowKey>>, k: FlowKey)
    requires forall j :: 0 <= j < |chains| ==> k !in chains[j]
    ensures Entries(chains)[k] == 0
  {
    if chains != [] {
      assert k !in chains[0];
      EntriesNowhere(chains[1..], k);
    }
  }

  lemma LinkAddsOne(chains: seq<seq<FlowKey>>, i: nat, flow: FlowKey)
    requires i < |chains|
    ensures Entries(chains[i := [flow] + chains[i]]) == Entries(chains) + multiset{flow}
  {
    EntriesUpdate(chains, i, [flow] + chains[i]);
  }

  lemma UnlinkTakesOne(chains: seq<seq<FlowKey>>, i: nat, pos: nat)
    requires i < |chains| && pos < |chains[i]|
    ensures chains[i][pos] in Entries(chains)
    ensures Entries(chains[i := Without(chains[i], pos)]) == Entries(chains) - multiset{chains[i][pos]}
  {
    var chain := chains[i];
    assert chain == chain[..pos] + [chain[pos]] + chain[pos + 1..];
    EntriesUpdate(chains, i, Without(chain, pos));
  }

  // ---- the invariants ----

  /** Every entry sits in the chain that its hash names. */
  ghost predicate Hashed(bucket: Hash, chains: seq<seq<FlowKey>>) {
    forall i, k :: 0 <= i < |chains| && k in chains[i] ==> bucket(k) == i
  }

  /** The counter lags by the inserts not yet counted and leads by the deletes not yet counted. */
  ghost predicate Counted(s: State) {
    s.numFlows == |Entries(s.chains)| - Uncounted(s.threads)
  }

  ghost predicate CopiesAtMost(s: State, bound: nat) {
    forall k :: Entries(s.chains)[k] + Pending(s.threads, k) <= bound
  }

  ghost predicate Inv(bucket: Hash, s: State) {
    WellFormed(bucket, s) && Hashed(bucket, s.chains) && Counted(s) && CopiesAtMost(s, |s.threads|)
  }

  lemma NotFoundIsAbsent(bucket: Hash, chains: seq<seq<FlowKey>>, k: FlowKey)
    requires bucket(k) < |chains| && Hashed(bucket, chains) && k !in chains[bucket(k)]
    ensures Entries(chains)[k] == 0
  {
    forall j | 0 <= j < |chains| ensures k !in chains[j] {
    }
    EntriesNowhere(chains, k);
  }

  /** A flow has an entry exactly if it is anywhere in the chain that its hash names. */
  lemma FoundIffPresent(bucket: Hash, chains: seq<seq<FlowKey>>, k: FlowKey)
    requires bucket(k) < |chains| && Hashed(bucket, chains)
    ensures k in chains[bucket(k)] <==> Entries(chains)[k] > 0
  {
    if k in chains[bucket(k)] {
      EntriesUpdate(chains, bucket(k), []);
      assert k in multiset(chains[bucket(k)]);
    } else {
      NotFoundIsAbsent(bucket, chains, k);
    }
  }

  lemma PendingLeavesIdle(threads: seq<Pc>, t: nat, k: FlowKey)
    requires t < |threads| && threads[t] == Idle
    ensures Pending(threads, k) < |threads|
  {
    var m := multiset(threads);
    var rest := m[Idle := 0];
    assert m == rest + multiset{}[Idle := m[Idle]];
    var rest2 := rest[Checked(k) := 0];
    assert rest == rest2 + multiset{}[Checked(k) := rest[Checked(k)]];
    var rest3 := rest2[Allocated(k) := 0];
    assert rest2 == rest3 + multiset{}[Allocated(k) := rest2[Allocated(k)]];
    assert threads[t] in m;
  }

  lemma StepKeepsHashed(bucket: Hash, s: State, a: Action)
    requires WellFormed(bucket, s) && Hashed(bucket, s.chains) && Enabled(s, a)
    ensures Hashed(bucket, Next(bucket, s, a).chains)
  {
  }

  lemma StepKeepsCounted(bucket: Hash, s: State, a: Action)
    requires WellFormed(bucket, s) && Counted(s) && Enabled(s, a)
    ensures Counted(Next(bucket, s, a))
  {
    var s' := Next(bucket, s, a);
    if s'.threads != s.threads {
      UncountedMoves(s.threads, a.t, s'.threads[a.t]);
    }
    match a
    case Link(t) =>
      LinkAddsOne(s.chains, bucket(s.threads[t].flow), s.threads[t].flow);
    case Unlink(t, flow) =>
      UnlinkIfFound(bucket, s, t, flow);
    case _ =>
  }

  lemma UnlinkIfFound(bucket: Hash, s: State, t: nat, flow: FlowKey)
    requires WellFormed(bucket, s) && Enabled(s, Unlink(t, flow))
    ensures var s' := Next(bucket, s, Unlink(t, flow));
            s' == s || (flow in Entries(s.chains) && s'.numFlows == s.numFlows &&
                        Entries(s'.chains) == Entries(s.chains) - multiset{flow} &&
                        s'.threads == s.threads[t := Unlinked])
  {
    var i := bucket(flow);
    var pos := Position(s.chains[i], flow);
    if pos < |s.chains[i]| {
      UnlinkTakesOne(s.chains, i, pos);
    }
  }

  /** A delete takes out one entry of its flow, wherever in the chain it is, exactly if there is one. */
  lemma UnlinkOnEntries(bucket: Hash, s: State, t: nat, flow: FlowKey)
    requires WellFormed(bucket, s) && Hashed(bucket, s.chains) && Enabled(s, Unlink(t, flow))
    ensures var s' := Next(bucket, s, Unlink(t, flow));
            if Entries(s.chains)[flow] > 0
            then Entries(s'.chains) == Entries(s.chains) - multiset{flow} && s'.numFlows == s.numFlows &&
                 s'.threads == s.threads[t := Unlinked]
            else s' == s
  {
    FoundIffPresent(bucket, s.chains, flow);
    if flow in s.chains[bucket(flow)] {
      UnlinkTakesOne(s.chains, bucket(flow), Position(s.chains[bucket(flow)], flow));
    }
  }

  /** What every step does to the entries, wherever they are in their chains. */
  lemma StepOnEntries(bucket: Hash, s: State, a: Action)
    requires WellFormed(bucket, s) && Hashed(bucket, s.chains) && Enabled(s, a)
    ensures var s', t := Next(bucket, s, a), a.t;
            match a
            case Check(_, k) =>
              s' == if Entries(s.chains)[k] > 0 then s else s.(threads := s.threads[t := Checked(k)])
            case Allocate(_, ok) =>
              s' == s.(threads := s.threads[t := if ok then Allocated(s.threads[t].flow) else Idle])
            case Link(_) =>
              Entries(s'.chains) == Entries(s.chains) + multiset{s.threads[t].flow} &&
              s'.numFlows == s.numFlows && s'.threads == s.threads[t := Linked]
            case Increment(_) =>
              s' == s.(numFlows := s.numFlows + 1, threads := s.threads[t := Idle])
            case Unlink(_, k) =>
              if Entries(s.chains)[k] > 0
              then Entries(s'.chains) == Entries(s.chains) - multiset{k} &&
                   s'.numFlows == s.numFlows && s'.threads == s.threads[t := Unlinked]
              else s' == s
            case Decrement(_) =>
              s' == s.(numFlows := s.numFlows - 1, threads := s.threads[t := Idle])
  {
    match a
    case Check(_, k) => FoundIffPresent(bucket, s.chains, k);
    case Link(t) => LinkAddsOne(s.chains, bucket(s.threads[t].flow), s.threads[t].flow);
    case Unlink(t, k) => UnlinkOnEntries(bucket, s, t, k);
    case _ =>
  }

  /** A step by which a thread becomes pending finds the bound not yet used up. */
  lemma StepKeepsCopies(bucket: Hash, s: State, a: Action, bound: nat)
    requires WellFormed(bucket, s) && Hashed(bucket, s.chains) && Enabled(s, a) && CopiesAtMost(s, bound)
    requires a.Check? ==> Pending(s.threads, a.flow) < bound
    ensures CopiesAtMost(Next(bucket, s, a), bound)
  {
    var s' := Next(bucket, s, a);
    forall k ensures Entries(s'.chains)[k] + Pending(s'.threads, k) <= bound {
      FlowStaysBounded(bucket, s, a, bound, k);
    }
  }

  lemma FlowStaysBounded(bucket: Hash, s: State, a: Action, bound: nat, k: FlowKey)
    requires WellFormed(bucket, s) && Hashed(bucket, s.chains) && Enabled(s, a)
    requires Entries(s.chains)[k] + Pending(s.threads, k) <= bound
    requires a.Check? ==> Pending(s.threads, a.flow) < bound
    ensures var s' := Next(bucket, s, a); Entries(s'.chains)[k] + Pending(s'.threads, k) <= bound
  {
    if a.Link? {
      LinkStaysBounded(bucket, s, a.t, k);
    } else if a.Unlink? {
      UnlinkStaysBounded(bucket, s, a.t, a.flow, k);
    } else {
      var s' := Next(bucket, s, a);
      if s'.threads != s.threads {
        PendingMoves(s.threads, a.t, s'.threads[a.t], k);
      }
      if a.Check? && a.flow !in s.chains[bucket(a.flow)] {
        NotFoundIsAbsent(bucket, s.chains, a.flow);
      }
    }
  }

  lemma LinkStaysBounded(bucket: Hash, s: State, t: nat, k: FlowKey)
    requires WellFormed(bucket, s) && Enabled(s, Link(t))
    ensures var s' := Next(bucket, s, Link(t));
            Entries(s'.chains)[k] + Pending(s'.threads, k) == Entries(s.chains)[k] + Pending(s.threads, k)
  {
    var flow := s.threads[t].flow;
    PendingMoves(s.threads, t, Linked, k);
    LinkAddsOne(s.chains, bucket(flow), flow);
  }

  lemma UnlinkStaysBounded(bucket: Hash, s: State, t: nat, flow: FlowKey, k: FlowKey)
    requires WellFormed(bucket, s) && Enabled(s, Unlink(t, flow))
    ensures var s' := Next(bucket, s, Unlink(t, flow));
            Entries(s'.chains)[k] + Pending(s'.threads, k) <= Entries(s.chains)[k] + Pending(s.threads, k)
  {
    PendingMoves(s.threads, t, Unlinked, k);
    UnlinkIfFound(bucket, s, t, flow);
  }

  lemma InitInv(bucket: Hash, chains: nat, threads: nat)
    requires forall k :: bucket(k) < chains
    ensures Inv(bucket, Init(chains, threads))
  {
    var s := Init(chains, threads);
    NoEntries(chains);
    NoneBusy(threads, s.threads);
  }

  lemma {:induction false} NoEntries(chains: nat)
    ensures Entries(seq(chains, _ => [])) == multiset{}
  {
    var c: seq<seq<FlowKey>> := seq(chains, _ => []);
    if chains > 0 {
      NoEntries(chains - 1);
      assert c[1..] == seq(chains - 1, _ => []);
    }
  }

  lemma NoneBusy(threads: nat, ts: seq<Pc>)
    requires ts == seq(threads, _ => Idle)
    ensures forall p :: p in multiset(ts) ==> p == Idle
  {
    forall p | p in multiset(ts) ensures p == Idle {
      assert p in ts;
    }
  }

  /** In every interleaving the counter, the chains and the number of copies are as described. */
  lemma {:induction false} RunKeepsInv(bucket: Hash, s: State, actions: seq<Action>, s': State)
    requires Inv(bucket, s) && Runs(bucket, s, actions, s')
    ensures Inv(bucket, s')
    decreases |actions|
  {
    if actions != [] {
      var a := actions[0];
      StepKeepsHashed(bucket, s, a);
      StepKeepsCounted(bucket, s, a);
      if a.Check? {
        PendingLeavesIdle(s.threads, a.t, a.flow);
      }
      StepKeepsCopies(bucket, s, a, |s.threads|);
      RunKeepsInv(bucket, Next(bucket, s, a), actions[1..], s');
    }
  }

  /** Once every call has returned, the counter is the number of entries. */
  lemma QuiescentCount(bucket: Hash, chains: nat, threads: nat, actions: seq<Action>, s: State)
    requires forall k :: bucket(k) < chains
    requires Runs(bucket, Init(chains, threads), actions, s)
    requires forall t :: 0 <= t < |s.threads| ==> s.threads[t] == Idle
    ensures s.numFlows == |Entries(s.chains)|
  {
    InitInv(bucket, chains, threads);
    RunKeepsInv(bucket, Init(chains, threads), actions, s);
    assert Linked !in s.threads && Unlinked !in s.threads;
  }

  // ---- inserts of one flow that do not overlap ----

  /** No thread looks for a flow while another one is about to link it. */
  ghost predicate Serialised(bucket: Hash, s: State, actions: seq<Action>)
    decreases |actions|
  {
    actions == [] ||
    (WellFormed(bucket, s) && Enabled(s, actions[0]) &&
     (actions[0].Check? ==> Pending(s.threads, actions[0].flow) == 0) &&
     Serialised(bucket, Next(bucket, s, actions[0]), actions[1..]))
  }

  lemma {:induction false} SerialisedRunKeepsOneCopy(bucket: Hash, s: State, actions: seq<Action>, s': State)
    requires WellFormed(bucket, s) && Hashed(bucket, s.chains) && CopiesAtMost(s, 1)
    requires Runs(bucket, s, actions, s') && Serialised(bucket, s, actions)
    ensures CopiesAtMost(s', 1)
    decreases |actions|
  {
    if actions != [] {
      StepKeepsHashed(bucket, s, actions[0]);
      StepKeepsCopies(bucket, s, actions[0], 1);
      SerialisedRunKeepsOneCopy(bucket, Next(bucket, s, actions[0]), actions[1..], s');
    }
  }

  // ---- the bound is reached ----

  lemma {:induction false} RunsConcat(bucket: Hash, s: State, a: seq<Action>, m: State, b: seq<Action>, s': State)
    requires Runs(bucket, s, a, m) && Runs(bucket, m, b, s')
    ensures Runs(bucket, s, a + b, s')
    decreases |a|
  {
    if a == [] {
      assert a + b == b;
    } else {
      assert (a + b)[1..] == a[1..] + b;
      RunsConcat(bucket, Next(bucket, s, a[0]), a[1..], m, b, s');
    }
  }

  /** Threads 0..n each find the flow absent before any of them links it. */
  lemma {:induction false} AllCheck(bucket: Hash, s: State, k: FlowKey, n: nat) returns (actions: seq<Action>, s': State)
    requires WellFormed(bucket, s) && n <= |s.threads| && k !in s.chains[bucket(k)]
    requires forall t :: 0 <= t < n ==> s.threads[t] == Idle
    ensures Runs(bucket, s, actions, s')
    ensures s'.chains == s.chains && |s'.threads| == |s.threads|
    ensures forall t :: 0 <= t < n ==> s'.threads[t] == Checked(k)
    ensures forall t :: n <= t < |s.threads| ==> s'.threads[t] == s.threads[t]
  {
    if n == 0 {
      actions, s' := [], s;
    } else {
      var front, m := AllCheck(bucket, s, k, n - 1);
      var a := Check(n - 1, k);
      s' := Next(bucket, m, a);
      actions := front + [a];
      assert Runs(bucket, m, [a], s');
      RunsConcat(bucket, s, front, m, [a], s');
    }
  }

  /** Then each of them links its own entry. */
  lemma {:induction false} AllLink(bucket: Hash, s: State, k: FlowKey, n: nat) returns (actions: seq<Action>, s': State)
    requires WellFormed(bucket, s) && n <= |s.threads|
    requires forall t :: 0 <= t < n ==> s.threads[t] == Checked(k)
    ensures Runs(bucket, s, actions, s')
    ensures Entries(s'.chains)[k] == Entries(s.chains)[k] + n
    ensures WellFormed(bucket, s') && |s'.threads| == |s.threads|
    ensures forall t :: n <= t < |s.threads| ==> s'.threads[t] == s.threads[t]
  {
    if n == 0 {
      actions, s' := [], s;
    } else {
      var front, m := AllLink(bucket, s, k, n - 1);
      var last: seq<Action>;
      last, s' := LinkNext(bucket, m, k, n - 1);
      actions := front + last;
      RunsConcat(bucket, s, front, m, last, s');
    }
  }

  lemma LinkNext(bucket: Hash, s: State, k: FlowKey, t: nat) returns (actions: seq<Action>, s': State)
    requires WellFormed(bucket, s) && t < |s.threads| && s.threads[t] == Checked(k)
    ensures Runs(bucket, s, actions, s') && WellFormed(bucket, s')
    ensures Entries(s'.chains) == Entries(s.chains) + multiset{k}
    ensures s'.chains == s.chains[bucket(k) := [k] + s.chains[bucket(k)]]
    ensures s'.threads == s.threads[t := Linked] && s'.numFlows == s.numFlows
  {
    var a, b := Allocate(t, true), Link(t);
    var m := Next(bucket, s, a);
    s' := Next(bucket, m, b);
    actions := [a, b];
    LinkAddsOne(m.chains, bucket(k), k);
    assert Runs(bucket, m, [b], s') && [a, b][1..] == [b];
  }

  /** With n threads some interleaving puts n copies of one flow into the table. */
  lemma AsManyCopiesAsThreads(bucket: Hash, chains: nat, n: nat, k: FlowKey)
    returns (actions: seq<Action>, s: State)
    requires forall f :: bucket(f) < chains
    ensures Runs(bucket, Init(chains, n), actions, s) && Entries(s.chains)[k] == n
  {
    var s0 := Init(chains, n);
    var checks, s1 := AllCheck(bucket, s0, k, n);
    var links, s2 := AllLink(bucket, s1, k, n);
    NoEntries(chains);
    RunsConcat(bucket, s0, checks, s1, links, s2);
    actions, s := checks + links, s2;
  }

  ghost predicate Reachable(bucket: Hash, chains: nat, n: nat, s: State) {
    exists actions :: Runs(bucket, Init(chains, n), actions, s)
  }

  ghost predicate OneCopyEach(s: State) {
    forall k :: Entries(s.chains)[k] <= 1
  }

  /** A flow is sure to have at most one entry exactly if at most one thread uses the table. */
  lemma OneCopyOnlyAlone(bucket: Hash, chains: nat, n: nat)
    requires forall f :: bucket(f) < chains
    ensures (forall s :: Reachable(bucket, chains, n, s) ==> OneCopyEach(s)) <==> n <= 1
  {
    if n <= 1 {
      forall s | Reachable(bucket, chains, n, s)
        ensures OneCopyEach(s)
      {
        var actions :| Runs(bucket, Init(chains, n), actions, s);
        InitInv(bucket, chains, n);
        RunKeepsInv(bucket, Init(chains, n), actions, s);
        RunKeepsThreads(bucket, Init(chains, n), actions, s);
      }
    } else {
      var k := FlowKey(0, 0, 0, 0);
      var actions, s := AsManyCopiesAsThreads(bucket, chains, n, k);
      assert Reachable(bucket, chains, n, s) && !OneCopyEach(s);
    }
  }

  lemma {:induction false} RunKeepsThreads(bucket: Hash, s: State, actions: seq<Action>, s': State)
    requires Runs(bucket, s, actions, s')
    ensures |s'.threads| == |s.threads|
    decreases |actions|
  {
    if actions != [] {
      RunKeepsThreads(bucket, Next(bucket, s, actions[0]), actions[1..], s');
    }
  }

  // ---- one call without interference ----

  /** insert_table run alone by one thread adds the flow exactly if it is absent. */
  lemma SoloInsert(bucket: Hash, s: State, t: nat, k: FlowKey) returns (s': State)
    requires WellFormed(bucket, s) && Hashed(bucket, s.chains) && t < |s.threads| && s.threads[t] == Idle
    ensures if Entries(s.chains)[k] == 0
            then Runs(bucket, s, [Check(t, k), Allocate(t, true), Link(t), Increment(t)], s') &&
                 Entries(s'.chains) == Entries(s.chains) + multiset{k} && s'.numFlows == s.numFlows + 1
            else Runs(bucket, s, [Check(t, k)], s') && s' == s
    ensures s'.threads == s.threads
  {
    var s1 := Next(bucket, s, Check(t, k));
    if k in s.chains[bucket(k)] {
      EntriesUpdate(s.chains, bucket(k), []);
      assert k in multiset(s.chains[bucket(k)]);
      s' := s1;
      assert Runs(bucket, s1, [], s');
    } else {
      NotFoundIsAbsent(bucket, s.chains, k);
      var s2 := Next(bucket, s1, Allocate(t, true));
      var s3 := Next(bucket, s2, Link(t));
      s' := Next(bucket, s3, Increment(t));
      LinkAddsOne(s.chains, bucket(k), k);
      assert Runs(bucket, s3, [Increment(t)], s');
      assert Runs(bucket, s2, [Link(t), Increment(t)], s');
      assert Runs(bucket, s1, [Allocate(t, true), Link(t), Increment(t)], s');
    }
  }

  /** insert_table without memory for the entry leaves everything as it was. */
  lemma SoloInsertWithoutMemory(bucket: Hash, s: State, t: nat, k: FlowKey)
    requires WellFormed(bucket, s) && Hashed(bucket, s.chains) && t < |s.threads| && s.threads[t] == Idle
    requires Entries(s.chains)[k] == 0
    ensures Runs(bucket, s, [Check(t, k), Allocate(t, false)], s)
  {
    var check, allocate := Check(t, k), Allocate(t, false);
    StepOnEntries(bucket, s, check);
    var s1 := Next(bucket, s, check);
    assert s1.threads[t := Idle] == s.threads;
    OneStep(bucket, s, check);
    OneStep(bucket, s1, allocate);
    RunsConcat(bucket, s, [check], s1, [allocate], s);
  }

  /** delete_table run alone by one thread takes out one entry of the flow exactly if there is one. */
  lemma SoloDelete(bucket: Hash, s: State, t: nat, k: FlowKey) returns (s': State)
    requires WellFormed(bucket, s) && Hashed(bucket, s.chains) && t < |s.threads| && s.threads[t] == Idle
    ensures if Entries(s.chains)[k] > 0
            then Runs(bucket, s, [Unlink(t, k), Decrement(t)], s') &&
                 Entries(s'.chains) == Entries(s.chains) - multiset{k} && s'.numFlows == s.numFlows - 1
            else Runs(bucket, s, [Unlink(t, k)], s') && s' == s
    ensures s'.threads == s.threads
  {
    var unlink, decrement := Unlink(t, k), Decrement(t);
    UnlinkOnEntries(bucket, s, t, k);
    OneStep(bucket, s, unlink);
    s' := Next(bucket, s, unlink);
    if Entries(s.chains)[k] > 0 {
      var s1 := s';
      s' := Next(bucket, s1, decrement);
      OneStep(bucket, s1, decrement);
      RunsConcat(bucket, s, [unlink], s1, [decrement], s');
    }
  }

  // ---- how low the counter can get ----

  function Count(threads: seq<Pc>, p: Pc): nat {
    multiset(threads)[p]
  }

  /** When all threads have linked an entry and none has counted it, the last one's is still there. */
  ghost predicate LastEntryIsThere(s: State) {
    Count(s.threads, Linked) == |s.threads| > 0 ==> Entries(s.chains) != multiset{}
  }

  lemma {:induction false} CountLess(threads: seq<Pc>, t: nat, p: Pc)
    requires t < |threads|
    ensures Count(threads, p) <= |threads|
    ensures threads[t] != p ==> Count(threads, p) < |threads|
  {
    var m := multiset(threads);
    assert m == m[p := 0] + multiset{}[p := m[p]];
    assert threads[t] in m;
  }

  lemma StepKeepsLastEntry(bucket: Hash, s: State, a: Action)
    requires WellFormed(bucket, s) && LastEntryIsThere(s) && Enabled(s, a)
    ensures LastEntryIsThere(Next(bucket, s, a))
  {
    var s' := Next(bucket, s, a);
    if a.Link? {
      var flow := s.threads[a.t].flow;
      LinkAddsOne(s.chains, bucket(flow), flow);
      assert flow in Entries(s'.chains);
    } else {
      CountLess(s'.threads, a.t, Linked);
      if s' == s {
        CountLess(s.threads, a.t, Linked);
      }
    }
  }

  lemma {:induction false} RunKeepsLastEntry(bucket: Hash, s: State, actions: seq<Action>, s': State)
    requires LastEntryIsThere(s) && Runs(bucket, s, actions, s')
    ensures LastEntryIsThere(s')
    decreases |actions|
  {
    if actions != [] {
      StepKeepsLastEntry(bucket, s, actions[0]);
      RunKeepsLastEntry(bucket, Next(bucket, s, actions[0]), actions[1..], s');
    }
  }

  /** With n threads the counter never gets below 1 - n ... */
  lemma CounterLowerBound(bucket: Hash, chains: nat, n: nat, actions: seq<Action>, s: State)
    requires n > 0 && (forall k :: bucket(k) < chains) && Runs(bucket, Init(chains, n), actions, s)
    ensures s.numFlows >= 1 - n
  {
    var s0 := Init(chains, n);
    InitInv(bucket, chains, n);
    RunKeepsInv(bucket, s0, actions, s);
    RunKeepsThreads(bucket, s0, actions, s);
    CountLess(s0.threads, 0, Linked);
    RunKeepsLastEntry(bucket, s0, actions, s);
    CountLess(s.threads, 0, Linked);
  }

  lemma OneStep(bucket: Hash, s: State, a: Action)
    requires WellFormed(bucket, s) && Enabled(s, a)
    ensures Runs(bucket, s, [a], Next(bucket, s, a))
  {
    var s' := Next(bucket, s, a);
    assert Runs(bucket, s', [a][1..], s');
  }

  /** Thread t inserts and does not get to count the entry; thread u deletes it. */
  lemma InsertThenDelete(bucket: Hash, s: State, t: nat, u: nat, k: FlowKey) returns (actions: seq<Action>, s': State)
    requires WellFormed(bucket, s) && k !in s.chains[bucket(k)]
    requires t < |s.threads| && u < |s.threads| && t != u && s.threads[t] == s.threads[u] == Idle
    ensures Runs(bucket, s, actions, s')
    ensures s' == State(s.chains, s.numFlows - 1, s.threads[t := Linked])
  {
    var i := bucket(k);
    var s1 := Next(bucket, s, Check(t, k));
    OneStep(bucket, s, Check(t, k));
    var link, s2 := LinkNext(bucket, s1, k, t);
    RunsConcat(bucket, s, [Check(t, k)], s1, link, s2);
    assert Position(s2.chains[i], k) == 0 && Without(s2.chains[i], 0) == s.chains[i];
    var s3 := Next(bucket, s2, Unlink(u, k));
    OneStep(bucket, s2, Unlink(u, k));
    RunsConcat(bucket, s, [Check(t, k)] + link, s2, [Unlink(u, k)], s3);
    s' := Next(bucket, s3, Decrement(u));
    OneStep(bucket, s3, Decrement(u));
    RunsConcat(bucket, s, [Check(t, k)] + link + [Unlink(u, k)], s3, [Decrement(u)], s');
    actions := [Check(t, k)] + link + [Unlink(u, k)] + [Decrement(u)];
    assert s'.chains == s.chains && s'.threads == s.threads[t := Linked];
  }

  /** ... and with some run it does get there: m threads insert, one deletes after each. */
  lemma {:induction false} CounterReaches(bucket: Hash, chains: nat, n: nat, k: FlowKey, m: nat)
    returns (actions: seq<Action>, s: State)
    requires m < n && forall f :: bucket(f) < chains
    ensures Runs(bucket, Init(chains, n), actions, s)
    ensures s.chains == Init(chains, n).chains && s.numFlows == 0 - m
    ensures |s.threads| == n && forall t :: m <= t < n ==> s.threads[t] == Idle
  {
    if m == 0 {
      actions, s := [], Init(chains, n);
    } else {
      var front, before := CounterReaches(bucket, chains, n, k, m - 1);
      var last: seq<Action>;
      last, s := InsertThenDelete(bucket, before, m - 1, n - 1, k);
      RunsConcat(bucket, Init(chains, n), front, before, last, s);
      actions := front + last;
    }
  }

  /** So 1 - n is the exact lower bound on the counter over all runs of n threads. */
  lemma LowestCounter(bucket: Hash, chains: nat, n: nat, low: int)
    requires n > 0 && forall f :: bucket(f) < chains
    ensures (forall s :: Reachable(bucket, chains, n, s) ==> s.numFlows >= low) <==> low <= 1 - n
  {
    forall s | Reachable(bucket, chains, n, s)
      ensures s.numFlows >= 1 - n
    {
      var actions :| Runs(bucket, Init(chains, n), actions, s);
      CounterLowerBound(bucket, chains, n, actions, s);
    }
    var actions, s := CounterReaches(bucket, chains, n, FlowKey(0, 0, 0, 0), n - 1);
    assert Reachable(bucket, chains, n, s);
  }
}
