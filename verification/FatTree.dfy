/** The fat-tree topology of the ns-2 scripts: its sizes, its wiring loops, and the network they give. */
module FatTree {
  import opened Basics

  predicate Even(k: nat) {
    k >= 2 && k % 2 == 0
  }

  /** Oversubscription x; k ports per switch. */
  function Servers(k: nat, x: nat): nat { k * k * k * x / 4 }
  function ServersPerToR(k: nat, x: nat): nat { k * x / 2 }
  function Edges(k: nat): nat { k * k / 2 }
  function Aggrs(k: nat): nat { k * k / 2 }
  function Cores(k: nat): nat { k * k / 4 }

  /** The pod of an edge or aggregation switch. */
  function Pod(k: nat, i: nat): nat
    requires Even(k)
  {
    i / (k / 2)
  }

  /** The place of an aggregation switch within its pod. */
  function Index(k: nat, a: nat): nat
    requires Even(k)
  {
    a % (k / 2)
  }

  /** The group of k/2 consecutive cores that a core is in. */
  function Group(k: nat, c: nat): nat
    requires Even(k)
  {
    c / (k / 2)
  }

  // ---- the intended network ----

  /** Servers are numbered edge switch by edge switch. */
  predicate ServerLinked(k: nat, x: nat, s: nat, e: nat) {
    && e < Edges(k)
    && e * ServersPerToR(k, x) <= s < (e + 1) * ServersPerToR(k, x)
  }

  /** Edge and aggregation switches are linked within their pod of k/2 + k/2 switches. */
  predicate SamePod(k: nat, e: nat, a: nat)
    requires Even(k)
  {
    e < Edges(k) && a < Aggrs(k) && Pod(k, e) == Pod(k, a)
  }

  /** The q-th aggregation switch of every pod is linked to the q-th group of k/2 cores. */
  predicate SameGroup(k: nat, a: nat, c: nat)
    requires Even(k)
  {
    a < Aggrs(k) && c < Cores(k) && Index(k, a) == Group(k, c)
  }

  // ---- arithmetic ----

  lemma OneMore(n: nat, h: nat)
    ensures (n + 1) * h == n * h + h
  {
  }

  lemma DivIs(b: nat, h: nat, q: nat)
    requires h > 0
    ensures b / h == q <==> q * h <= b < (q + 1) * h
  {
    var d := b / h;
    assert b == d * h + b % h;
    if d < q {
      MulMono(d + 1, q, h);
    } else if d > q {
      MulMono(q + 1, d, h);
    }
  }

  lemma ModIs(q: nat, r: nat, h: nat)
    requires r < h
    ensures (q * h + r) / h == q && (q * h + r) % h == r
  {
    DivIs(q * h + r, h, q);
  }

  /** All sizes in terms of half the number of ports. */
  lemma Sizes(k: nat, x: nat)
    requires Even(k)
    ensures var h := k / 2;
            && k == 2 * h && h > 0 && ServersPerToR(k, x) == h * x
            && Edges(k) == Aggrs(k) == k * h && Cores(k) == h * h
            && Servers(k, x) == k * h * (h * x)
  {
    var h := k / 2;
    assert k * x == 2 * (h * x);
    assert k * k == 2 * (k * h);
    assert k * k == 4 * (h * h);
    assert k * k * k * x == 4 * (k * h * (h * x)) by {
      assert k * k * k * x == (k * k) * (k * x);
      assert (k * k) * (k * x) == (2 * (k * h)) * (2 * (h * x));
    }
  }

  /** Every server has a port: the edge switches offer exactly as many as there are servers. */
  lemma PortsForServers(k: nat, x: nat)
    requires Even(k)
    ensures Edges(k) * ServersPerToR(k, x) == Servers(k, x)
  {
    Sizes(k, x);
  }

  lemma PodExists(i: nat, k: nat, h: nat)
    requires h > 0 && i < k * h
    ensures i / h < k
  {
    DivIs(i, h, i / h);
    if i / h >= k {
      MulMono(k, i / h, h);
    }
  }

  lemma PodBelow(k: nat, i: nat)
    requires Even(k) && i < Edges(k)
    ensures Pod(k, i) < k
  {
    Sizes(k, 1);
    PodExists(i, k, k / 2);
  }

  // ---- the wiring loops ----

  ghost predicate NoDuplicates(links: seq<(nat, nat)>) {
    forall p, q :: 0 <= p < q < |links| ==> links[p] != links[q]
  }

  lemma AddLink(links: seq<(nat, nat)>, l: (nat, nat))
    requires NoDuplicates(links) && l !in links
    ensures NoDuplicates(links + [l])
    ensures forall m :: m in links + [l] <==> m in links || m == l
  {
  }

  lemma ServerLinkedIs(k: nat, x: nat, s: nat, e: nat)
    requires Even(k) && x >= 1 && s < Servers(k, x)
    ensures ServersPerToR(k, x) > 0
    ensures ServerLinked(k, x, s, e) <==> e == s / ServersPerToR(k, x)
  {
    Sizes(k, x);
    var spt := ServersPerToR(k, x);
    MulMono(1, x, k / 2);
    assert spt >= k / 2;
    DivIs(s, spt, e);
    PodExists(s, Edges(k), spt);
  }

  method WireServers(k: nat, x: nat) returns (links: seq<(nat, nat)>)
    requires Even(k) && x >= 1
    ensures forall s: nat, e: nat :: (s, e) in links <==> s < Servers(k, x) && ServerLinked(k, x, s, e)
    ensures NoDuplicates(links) && |links| == Servers(k, x)
  {
    links := [];
    var i := 0;
    while i < Servers(k, x)
      invariant 0 <= i <= Servers(k, x) && |links| == i
      invariant forall s: nat, e: nat :: (s, e) in links <==> s < i && ServerLinked(k, x, s, e)
      invariant NoDuplicates(links)
    {
      ServerLinkedIs(k, x, i, 0);
      var j := i / ServersPerToR(k, x);
      forall e: nat ensures ServerLinked(k, x, i, e) <==> e == j {
        ServerLinkedIs(k, x, i, e);
      }
      AddLink(links, (i, j));
      links := links + [(i, j)];
      i := i + 1;
    }
  }

  lemma PodRange(k: nat, e: nat, a: nat)
    requires Even(k) && e < Edges(k)
    ensures var start := Pod(k, e) * k / 2;
            SamePod(k, e, a) <==> start <= a < start + k / 2
  {
    var h := k / 2;
    var pod := Pod(k, e);
    Sizes(k, 1);
    assert pod * k == 2 * (pod * h);
    assert (pod + 1) * h == pod * h + h;
    DivIs(a, h, pod);
    PodExists(e, k, h);
    MulMono(pod + 1, k, h);
  }

  /** The inner loop of both wirings: links switch i to the switches from start up to end. */
  method WireRange(links: seq<(nat, nat)>, i: nat, start: nat, end: nat) returns (r: seq<(nat, nat)>)
    requires start <= end && NoDuplicates(links) && forall l :: l in links ==> l.0 != i
    ensures forall e: nat, a: nat :: (e, a) in r <==> (e, a) in links || (e == i && start <= a < end)
    ensures NoDuplicates(r) && |r| == |links| + (end - start)
  {
    r := links;
    var j := start;
    while j < end
      invariant start <= j <= end && |r| == |links| + (j - start)
      invariant forall e: nat, a: nat :: (e, a) in r <==> (e, a) in links || (e == i && start <= a < j)
      invariant NoDuplicates(r)
    {
      AddLink(r, (i, j));
      r := r + [(i, j)];
      j := j + 1;
    }
  }

  method WireEdges(k: nat) returns (links: seq<(nat, nat)>)
    requires Even(k)
    ensures forall e: nat, a: nat :: (e, a) in links <==> SamePod(k, e, a)
    ensures NoDuplicates(links) && |links| == Edges(k) * (k / 2)
  {
    links := [];
    var i := 0;
    while i < Edges(k)
      invariant 0 <= i <= Edges(k) && |links| == i * (k / 2)
      invariant forall e: nat, a: nat :: (e, a) in links <==> e < i && SamePod(k, e, a)
      invariant NoDuplicates(links)
    {
      var pod := Pod(k, i);
      var start := pod * k / 2;
      var end := start + k / 2;
      links := WireRange(links, i, start, end);
      forall a: nat ensures SamePod(k, i, a) <==> start <= a < end {
        PodRange(k, i, a);
      }
      OneMore(i, k / 2);
      i := i + 1;
    }
  }

  lemma GroupRange(k: nat, a: nat, c: nat)
    requires Even(k) && a < Aggrs(k)
    ensures var start := Index(k, a) * k / 2;
            SameGroup(k, a, c) <==> start <= c < start + k / 2
  {
    var h := k / 2;
    var index := Index(k, a);
    Sizes(k, 1);
    assert index * k == 2 * (index * h);
    assert (index + 1) * h == index * h + h;
    DivIs(c, h, index);
    MulMono(index + 1, h, h);
  }

  method WireCores(k: nat) returns (links: seq<(nat, nat)>)
    requires Even(k)
    ensures forall a: nat, c: nat :: (a, c) in links <==> SameGroup(k, a, c)
    ensures NoDuplicates(links) && |links| == Aggrs(k) * (k / 2)
  {
    links := [];
    var i := 0;
    while i < Aggrs(k)
      invariant 0 <= i <= Aggrs(k) && |links| == i * (k / 2)
      invariant forall a: nat, c: nat :: (a, c) in links <==> a < i && SameGroup(k, a, c)
      invariant NoDuplicates(links)
    {
      var index := Index(k, i);
      var start := index * k / 2;
      var end := start + k / 2;
      links := WireRange(links, i, start, end);
      forall c: nat ensures SameGroup(k, i, c) <==> start <= c < end {
        GroupRange(k, i, c);
      }
      OneMore(i, k / 2);
      i := i + 1;
    }
  }

  // ---- the network ----

  /** The aggregation switch of a pod that leads to a core. */
  function Via(k: nat, pod: nat, c: nat): nat
    requires Even(k)
  {
    pod * (k / 2) + Group(k, c)
  }

  /** Every core has exactly one link into every pod. */
  lemma OneLinkPerPod(k: nat, pod: nat, c: nat, a: nat)
    requires Even(k) && pod < k && c < Cores(k)
    ensures SameGroup(k, a, c) && Pod(k, a) == pod <==> a == Via(k, pod, c)
  {
    var h := k / 2;
    Sizes(k, 1);
    PodExists(c, h, h);
    ModIs(pod, c / h, h);
    MulMono(pod + 1, k, h);
    assert (pod + 1) * h == pod * h + h;
    assert a == a / h * h + a % h;
  }

  /** A way from an edge switch up to a core and down to another edge switch. */
  predicate Path(k: nat, e1: nat, e2: nat, a1: nat, c: nat, a2: nat)
    requires Even(k)
  {
    SamePod(k, e1, a1) && SameGroup(k, a1, c) && SameGroup(k, a2, c) && SamePod(k, e2, a2)
  }

  ghost function Paths(k: nat, e1: nat, e2: nat): set<(nat, nat, nat)>
    requires Even(k)
  {
    set a1: nat, c: nat, a2: nat |
      a1 < Aggrs(k) && c < Cores(k) && a2 < Aggrs(k) && Path(k, e1, e2, a1, c, a2) :: (a1, c, a2)
  }

  /** A path is determined by its core, and every core is on one. */
  lemma PathThroughCore(k: nat, e1: nat, e2: nat, a1: nat, c: nat, a2: nat)
    requires Even(k) && e1 < Edges(k) && e2 < Edges(k)
    ensures Path(k, e1, e2, a1, c, a2) <==>
            c < Cores(k) && a1 == Via(k, Pod(k, e1), c) && a2 == Via(k, Pod(k, e2), c)
  {
    PodBelow(k, e1);
    PodBelow(k, e2);
    if c < Cores(k) {
      OneLinkPerPod(k, Pod(k, e1), c, a1);
      OneLinkPerPod(k, Pod(k, e2), c, a2);
    }
  }

  ghost function ThroughCoresBelow(k: nat, pod1: nat, pod2: nat, n: nat): (r: set<(nat, nat, nat)>)
    requires Even(k)
    ensures |r| == n
    ensures forall t :: t in r <==> t.1 < n && t == (Via(k, pod1, t.1), t.1, Via(k, pod2, t.1))
  {
    if n == 0 then {}
    else ThroughCoresBelow(k, pod1, pod2, n - 1) + {(Via(k, pod1, n - 1), n - 1, Via(k, pod2, n - 1))}
  }

  /** (k/2)^2 paths through the cores between any two edge switches. */
  lemma PathCount(k: nat, e1: nat, e2: nat)
    requires Even(k) && e1 < Edges(k) && e2 < Edges(k)
    ensures |Paths(k, e1, e2)| == (k / 2) * (k / 2)
  {
    var all := ThroughCoresBelow(k, Pod(k, e1), Pod(k, e2), Cores(k));
    forall t: (nat, nat, nat) ensures t in Paths(k, e1, e2) <==> t in all {
      PathThroughCore(k, e1, e2, t.0, t.1, t.2);
    }
    assert Paths(k, e1, e2) == all;
    Sizes(k, 1);
  }

  /** Edge switches share an aggregation switch exactly when they are in one pod: otherwise
      the paths through the cores are the shortest ones. */
  lemma ShorterOnlyWithinPod(k: nat, e1: nat, e2: nat)
    requires Even(k) && e1 < Edges(k) && e2 < Edges(k)
    ensures (exists a: nat :: SamePod(k, e1, a) && SamePod(k, e2, a)) <==> Pod(k, e1) == Pod(k, e2)
  {
    if Pod(k, e1) == Pod(k, e2) {
      assert SamePod(k, e1, e1) && SamePod(k, e2, e1);
    }
  }

  /** The aggregation switches of a pod share out the cores: each has k/2 of its own, none is left over. */
  lemma PodPartitionsCores(k: nat, a1: nat, a2: nat, c: nat)
    requires Even(k) && a1 < Aggrs(k) && a2 < Aggrs(k) && Pod(k, a1) == Pod(k, a2)
    requires c < Cores(k)
    ensures SameGroup(k, a1, c) && SameGroup(k, a2, c) ==> a1 == a2
    ensures var own := Via(k, Pod(k, a1), c); SameGroup(k, own, c) && Pod(k, own) == Pod(k, a1)
  {
    var pod := Pod(k, a1);
    PodBelow(k, a1);
    OneLinkPerPod(k, pod, c, a1);
    OneLinkPerPod(k, pod, c, a2);
    OneLinkPerPod(k, pod, c, Via(k, pod, c));
  }
}
