/** Thompson's breadth-first simulation: two thread lists, swapped once per character. */
module Thompson {
  import opened Basics
  import opened RegexProgram

  ghost function Elements(list: seq<nat>): set<nat> {
    set t | t in list
  }

  /** Deduplicated lists of program counters are no longer than the program. */
  lemma DistinctLength(list: seq<nat>, bound: nat)
    requires Distinct(list) && forall t :: t in list ==> t < bound
    ensures |list| <= bound
  {
    CountElements(list);
    assert Elements(list) <= Below(bound);
    if Elements(list) != Below(bound) {
      ProperSubsetIsSmaller(Elements(list), Below(bound));
    }
  }

  lemma {:induction false} CountElements(list: seq<nat>)
    requires Distinct(list)
    ensures |Elements(list)| == |list|
  {
    if list != [] {
      var last := |list| - 1;
      CountElements(list[..last]);
      assert Elements(list) == Elements(list[..last]) + {list[last]};
    }
  }

  function Added(list: seq<nat>, t: nat): (r: seq<nat>)
    ensures t in r && list <= r
  {
    if t in list then list else list + [t]
  }

  /** A vector of threads; a thread is just its program counter. */
  class ThreadList {
    var threads: seq<nat>

    constructor ()
      ensures threads == []
    {
      threads := [];
    }

    /** Appends t unless an identical thread is already listed. */
    method AddThread(t: nat)
      modifies this
      ensures threads == Added(old(threads), t)
    {
      var size := |threads|;
      for i := 0 to size
        invariant threads == old(threads)
        invariant t !in threads[..i]
      {
        if threads[i] == t {
          return;
        }
      }
      threads := threads + [t];
    }

    method Clear()
      modifies this
      ensures threads == []
    {
      threads := [];
    }
  }

  /** Both lists hold only what they should, once each, and the current list at least the seeds. */
  ghost predicate ListsSound(prog: Program, s: Subject, sp: nat, clist: seq<nat>, nlist: seq<nat>)
    requires WellFormed(prog) && sp < |s|
  {
    && Distinct(clist) && Distinct(nlist)
    && (forall pc :: pc in Seeds(prog, s, sp) ==> pc in clist)
    && (forall j :: 0 <= j < |clist| ==> clist[j] in Reach(prog, s, sp))
    && (forall q :: q in nlist ==> q in Seeds(prog, s, sp + 1))
  }

  /** The first i threads have run: what they lead to is listed, and none of them is at a Match. */
  ghost predicate Processed(prog: Program, s: Subject, sp: nat, clist: seq<nat>, nlist: seq<nat>, i: nat)
    requires WellFormed(prog) && sp < |s|
  {
    && i <= |clist| && (forall j :: 0 <= j < |clist| ==> clist[j] < |prog|)
    && (forall j, x :: 0 <= j < i && x in Branches(prog, clist[j]) ==> x in clist)
    && (forall j :: 0 <= j < i ==> !prog[clist[j]].Match?)
    && (forall j :: 0 <= j < i && Consumes(prog, s, Config(clist[j], sp)) ==> clist[j] + 1 in nlist)
  }

  /** What holds inside a pass at position sp once the first i threads have run. */
  ghost predicate PassInvariant(prog: Program, s: Subject, sp: nat, clist: seq<nat>, nlist: seq<nat>, i: nat)
    requires WellFormed(prog) && sp < |s|
  {
    ListsSound(prog, s, sp, clist, nlist) && Processed(prog, s, sp, clist, nlist, i)
  }

  lemma SoundAdvances(prog: Program, s: Subject, sp: nat, clist: seq<nat>, nlist: seq<nat>, pc: nat,
                      clist': seq<nat>, nlist': seq<nat>)
    requires WellFormed(prog) && sp < |s| && ListsSound(prog, s, sp, clist, nlist)
    requires pc < |prog| && pc in Reach(prog, s, sp)
    requires clist <= clist' && nlist <= nlist' && Distinct(clist') && Distinct(nlist')
    requires forall t :: t in clist' ==> t in clist || t in Branches(prog, pc)
    requires forall t :: t in nlist' ==> t in nlist || (t == pc + 1 && Consumes(prog, s, Config(pc, sp)))
    ensures ListsSound(prog, s, sp, clist', nlist')
  {
    assert WellFormedAt(prog, pc);
    forall j | 0 <= j < |clist'|
      ensures clist'[j] in Reach(prog, s, sp)
    {
      assert clist'[j] in clist';
      if clist'[j] !in clist {
        BranchesAreReached(prog, s, sp, pc, clist'[j]);
      }
    }
    forall q | q in nlist' && q !in nlist
      ensures q in Seeds(prog, s, sp + 1)
    {
      assert EnteredAt(prog, s, sp + 1, q);
    }
  }

  lemma ProcessedAdvances(prog: Program, s: Subject, sp: nat, clist: seq<nat>, nlist: seq<nat>, i: nat,
                          clist': seq<nat>, nlist': seq<nat>)
    requires WellFormed(prog) && sp < |s| && i < |clist| && Processed(prog, s, sp, clist, nlist, i)
    requires !prog[clist[i]].Match? && clist <= clist' && nlist <= nlist'
    requires forall x :: x in Branches(prog, clist[i]) ==> x in clist'
    requires forall t :: t in clist' ==> t in clist || t in Branches(prog, clist[i])
    requires Consumes(prog, s, Config(clist[i], sp)) ==> clist[i] + 1 in nlist'
    ensures Processed(prog, s, sp, clist', nlist', i + 1)
  {
    assert WellFormedAt(prog, clist[i]);
    assert forall j :: 0 <= j < |clist| ==> clist'[j] == clist[j];
    forall j | 0 <= j < |clist'| ensures clist'[j] < |prog| {
      assert clist'[j] in clist';
    }
    forall j, x | 0 <= j < i + 1 && x in Branches(prog, clist'[j])
      ensures x in clist'
    {
      if j < i {
        assert x in clist;
      }
    }
  }

  /** The current list once a thread at pc has run. */
  function Grown(prog: Program, clist: seq<nat>, pc: nat): seq<nat>
    requires pc < |prog|
  {
    match prog[pc]
    case Jmp(x) => Added(clist, x)
    case Split(x, y) => Added(Added(clist, x), y)
    case _ => clist
  }

  /** The next list once a thread at pc has run. */
  function Followed(prog: Program, s: Subject, sp: nat, nlist: seq<nat>, pc: nat): seq<nat>
    requires pc < |prog| && sp < |s|
  {
    if prog[pc].Char? && s[sp] == prog[pc].c then Added(nlist, pc + 1) else nlist
  }

  lemma GrownIs(prog: Program, clist: seq<nat>, pc: nat)
    requires pc < |prog| && Distinct(clist)
    ensures var r := Grown(prog, clist, pc);
            && clist <= r && Distinct(r) && (forall x :: x in Branches(prog, pc) ==> x in r)
            && (forall t :: t in r ==> t in clist || t in Branches(prog, pc))
  {
  }

  lemma FollowedIs(prog: Program, s: Subject, sp: nat, nlist: seq<nat>, pc: nat)
    requires pc < |prog| && sp < |s| && Distinct(nlist)
    ensures var r := Followed(prog, s, sp, nlist, pc);
            && nlist <= r && Distinct(r) && (Consumes(prog, s, Config(pc, sp)) ==> pc + 1 in r)
            && (forall t :: t in r ==> t in nlist || (t == pc + 1 && Consumes(prog, s, Config(pc, sp))))
  {
  }

  /** Running thread i keeps the invariant: the lists only grow at the end, by threads that
      are reachable, and hold everything thread i leads to. */
  lemma PassAdvances(prog: Program, s: Subject, sp: nat, clist: seq<nat>, nlist: seq<nat>, i: nat)
    requires WellFormed(prog) && sp < |s| && i < |clist|
    requires PassInvariant(prog, s, sp, clist, nlist, i)
    requires !prog[clist[i]].Match?
    ensures PassInvariant(prog, s, sp, Grown(prog, clist, clist[i]), Followed(prog, s, sp, nlist, clist[i]), i + 1)
  {
    var clist', nlist' := Grown(prog, clist, clist[i]), Followed(prog, s, sp, nlist, clist[i]);
    GrownIs(prog, clist, clist[i]);
    FollowedIs(prog, s, sp, nlist, clist[i]);
    SoundAdvances(prog, s, sp, clist, nlist, clist[i], clist', nlist');
    ProcessedAdvances(prog, s, sp, clist, nlist, i, clist', nlist');
  }

  /** A pass that ran out of threads has found all of Reach(sp), and its successors. */
  lemma PassComplete(prog: Program, s: Subject, sp: nat, clist: seq<nat>, nlist: seq<nat>)
    requires WellFormed(prog) && sp < |s|
    requires PassInvariant(prog, s, sp, clist, nlist, |clist|)
    ensures Elements(clist) == Reach(prog, s, sp)
    ensures Elements(nlist) == Seeds(prog, s, sp + 1)
    ensures !MatchAt(prog, s, sp)
  {
    forall pc, x | pc in Elements(clist) && pc < |prog| && x in Branches(prog, pc)
      ensures x in Elements(clist)
    {
      var j :| 0 <= j < |clist| && clist[j] == pc;
    }
    ReachIsLeast(prog, s, sp, Elements(clist));
    forall q | q in Seeds(prog, s, sp + 1)
      ensures q in nlist
    {
      assert q - 1 in Elements(clist);
      var j :| 0 <= j < |clist| && clist[j] == q - 1;
    }
    forall pc | pc in Reach(prog, s, sp)
      ensures !prog[pc].Match?
    {
      assert pc in Elements(clist);
      var j :| 0 <= j < |clist| && clist[j] == pc;
    }
  }

  /** One thread: it stops the pass at a Match, and otherwise lists what it leads to. */
  method RunThread(prog: Program, input: Subject, sp: nat, clist: ThreadList, nlist: ThreadList, pc: nat)
    returns (matched: bool)
    requires pc < |prog| && sp < |input| && clist != nlist
    modifies clist, nlist
    ensures matched <==> prog[pc].Match?
    ensures clist.threads == Grown(prog, old(clist.threads), pc)
    ensures nlist.threads == Followed(prog, input, sp, old(nlist.threads), pc)
  {
    matched := false;
    match prog[pc] {
      case Char(c) =>
        if input[sp] == c {
          nlist.AddThread(pc + 1);
        }
      case Match =>
        matched := true;
      case Jmp(x) =>
        clist.AddThread(x);
      case Split(x, y) =>
        clist.AddThread(x);
        clist.AddThread(y);
    }
  }

  /** The inner loop: runs every thread of clist, which grows while it is being walked.
      `work` counts the threads run. */
  method RunPass(prog: Program, input: Subject, sp: nat, clist: ThreadList, nlist: ThreadList)
    returns (matched: bool, work: nat)
    requires WellFormed(prog) && sp < |input| && clist != nlist
    requires Distinct(clist.threads) && Elements(clist.threads) == Seeds(prog, input, sp)
    requires nlist.threads == []
    modifies clist, nlist
    ensures matched <==> MatchAt(prog, input, sp)
    ensures !matched ==> Distinct(clist.threads) && Elements(clist.threads) == Reach(prog, input, sp)
    ensures !matched ==> Distinct(nlist.threads) && Elements(nlist.threads) == Seeds(prog, input, sp + 1)
    ensures if matched then 0 < work <= |Reach(prog, input, sp)| else work == |Reach(prog, input, sp)|
    ensures work <= |prog|
  {
    var i := 0;
    work := 0;
    PassStarts(prog, input, sp, clist.threads);
    while i < |clist.threads|
      invariant PassInvariant(prog, input, sp, clist.threads, nlist.threads, i)
      invariant work == i <= |prog|
      decreases |prog| - i
    {
      DistinctLength(clist.threads, |prog|);
      work := work + 1;
      ghost var before, nbefore := clist.threads, nlist.threads;
      var pc := clist.threads[i];
      matched := RunThread(prog, input, sp, clist, nlist, pc);
      if matched {
        assert pc in Reach(prog, input, sp);
        ListedAreReached(prog, input, sp, before);
        return;
      }
      PassAdvances(prog, input, sp, before, nbefore, i);
      i := i + 1;
    }
    matched := false;
    PassComplete(prog, input, sp, clist.threads, nlist.threads);
    CountElements(clist.threads);
  }

  /** No more threads are listed than can be reached. */
  lemma ListedAreReached(prog: Program, s: Subject, sp: nat, clist: seq<nat>)
    requires Distinct(clist) && forall j :: 0 <= j < |clist| ==> clist[j] in Reach(prog, s, sp)
    ensures |clist| <= |Reach(prog, s, sp)|
  {
    CountElements(clist);
    SubsetIsNoLarger(Elements(clist), Reach(prog, s, sp));
  }

  lemma PassStarts(prog: Program, s: Subject, sp: nat, clist: seq<nat>)
    requires WellFormed(prog) && sp < |s| && Distinct(clist) && Elements(clist) == Seeds(prog, s, sp)
    ensures PassInvariant(prog, s, sp, clist, [], 0)
  {
    forall j | 0 <= j < |clist|
      ensures clist[j] in Reach(prog, s, sp)
    {
      assert clist[j] in Elements(clist);
      SeedsAreReached(prog, s, sp, clist[j]);
    }
  }

  /** The threads of the first k passes, when each of them runs to its end. */
  ghost function WorkOfPasses(prog: Program, s: Subject, k: nat): nat {
    if k == 0 then 0 else WorkOfPasses(prog, s, k - 1) + |Reach(prog, s, k - 1)|
  }

  lemma {:induction false} WorkBound(prog: Program, s: Subject, k: nat)
    ensures WorkOfPasses(prog, s, k) <= |prog| * k
  {
    if k > 0 {
      WorkBound(prog, s, k - 1);
      ReachBound(prog, s, k - 1);
      OneMorePass(|prog|, k - 1);
    }
  }

  lemma ReachBound(prog: Program, s: Subject, k: nat)
    ensures |Reach(prog, s, k)| <= |prog|
  {
    SubsetIsNoLarger(Reach(prog, s, k), Below(|prog|));
  }

  lemma OneMorePass(n: nat, k: nat)
    ensures n * (k + 1) == n * k + n
  {
  }

  /** The first Match is met in pass k, with this much work. */
  ghost predicate StopsIn(prog: Program, s: Subject, k: nat, work: nat) {
    && MatchAt(prog, s, k) && !MatchBefore(prog, s, k)
    && WorkOfPasses(prog, s, k) < work <= WorkOfPasses(prog, s, k + 1)
  }

  /** The whole simulation. It stops before the list built from the last character is
      looked at, hence the strict bound on the characters consumed. */
  method ThompsonVm(prog: Program, input: Subject) returns (r: int, work: nat)
    requires WellFormed(prog)
    ensures r == 0 || r == 1
    ensures r == 1 <==> MatchBefore(prog, input, |input|)
    ensures r == 0 ==> work == WorkOfPasses(prog, input, |input|)
    ensures r == 1 ==> exists k: nat :: k < |input| && StopsIn(prog, input, k, work)
    ensures work <= |prog| * |input|
  {
    var clist := new ThreadList();
    var nlist := new ThreadList();
    clist.AddThread(0);
    work := 0;
    var sp := 0;
    while sp < |input|
      invariant 0 <= sp <= |input|
      invariant clist != nlist && fresh(clist) && fresh(nlist)
      invariant Distinct(clist.threads) && Elements(clist.threads) == Seeds(prog, input, sp)
      invariant nlist.threads == []
      invariant !MatchBefore(prog, input, sp)
      invariant work == WorkOfPasses(prog, input, sp)
    {
      var matched, passWork := RunPass(prog, input, sp, clist, nlist);
      work := work + passWork;
      if matched {
        assert StopsIn(prog, input, sp, work);
        WorkWithin(prog, input, sp + 1);
        return 1, work;
      }
      clist, nlist := nlist, clist;
      nlist.Clear();
      sp := sp + 1;
    }
    WorkWithin(prog, input, |input|);
    r := 0;
  }

  lemma WorkWithin(prog: Program, s: Subject, k: nat)
    requires k <= |s|
    ensures WorkOfPasses(prog, s, k) <= |prog| * |s|
  {
    WorkBound(prog, s, k);
    MulMono(k, |s|, |prog|);
  }
}
