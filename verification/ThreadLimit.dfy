/** When the explicit-stack engine gives up, and when it ends at all: exact conditions on the
    program and the subject, for every well-formed program. */
module ThreadLimit {
  import opened Basics
  import opened RegexProgram
  import opened DepthFirst
  import opened Backtracking
  import opened StackEngine

  // ---- along one path ----

  /** A path of at most n points leads to a Split that is met with 25 or more threads queued; the
      first branches left behind on it are loop-free and do not accept. */
  ghost predicate OverflowIn(prog: Program, s: Subject, pc: nat, sp: nat, height: nat, n: nat)
    requires WellFormed(prog) && pc < |prog| && sp <= |s|
    decreases n
  {
    assert WellFormedAt(prog, pc);
    n > 0 &&
    match prog[pc]
    case Char(c) => CharAt(s, sp) == c && OverflowIn(prog, s, pc + 1, sp + 1, height, n - 1)
    case Match => false
    case Jmp(x) => OverflowIn(prog, s, x, sp, height, n - 1)
    case Split(x, y) =>
      || height >= MAX_THREADS
      || OverflowIn(prog, s, x, sp, height + 1, n - 1)
      || (NoLoop(prog, s, Config(x, sp)) && !Accepts(prog, s, Config(x, sp)) &&
          OverflowIn(prog, s, y, sp, height, n - 1))
  }

  ghost predicate Overflows(prog: Program, s: Subject, pc: nat, sp: nat, height: nat)
    requires WellFormed(prog) && pc < |prog| && sp <= |s|
  {
    exists n: nat :: OverflowIn(prog, s, pc, sp, height, n)
  }

  /** A search that answers 0 is of a point without a loop ahead that does not accept. */
  lemma ZeroMeaning(prog: Program, s: Subject, pc: nat, sp: nat, height: nat, n: nat)
    requires WellFormed(prog) && pc < |prog| && sp <= |s|
    requires BoundedIn(prog, s, pc, sp, height, n).Some? && BoundedIn(prog, s, pc, sp, height, n).value.answer == 0
    ensures NoLoop(prog, s, Config(pc, sp)) && !Accepts(prog, s, Config(pc, sp))
  {
    BoundedIsRecursive(prog, s, pc, sp, height, n);
    ReturnsWithoutLoop(prog, s, pc, sp, n);
    ReturnsAccept(prog, s, pc, sp, n);
  }

  lemma {:induction false} GivingUpOverflows(prog: Program, s: Subject, pc: nat, sp: nat, height: nat, n: nat)
    requires WellFormed(prog) && pc < |prog| && sp <= |s|
    requires BoundedIn(prog, s, pc, sp, height, n).Some? && BoundedIn(prog, s, pc, sp, height, n).value.answer == -1
    ensures OverflowIn(prog, s, pc, sp, height, n)
    decreases n
  {
    assert WellFormedAt(prog, pc);
    match prog[pc]
    case Char(c) =>
      if CharAt(s, sp) == c {
        GivingUpOverflows(prog, s, pc + 1, sp + 1, height, n - 1);
      }
    case Match =>
    case Jmp(x) =>
      GivingUpOverflows(prog, s, x, sp, height, n - 1);
    case Split(x, y) =>
      if height < MAX_THREADS {
        if BoundedIn(prog, s, x, sp, height + 1, n - 1).value.answer == -1 {
          GivingUpOverflows(prog, s, x, sp, height + 1, n - 1);
        } else {
          ZeroMeaning(prog, s, x, sp, height + 1, n - 1);
          GivingUpOverflows(prog, s, y, sp, height, n - 1);
        }
      }
  }

  /** A search that does not accept and has no loop ahead answers 0, or gives up. */
  lemma NotAcceptingEnds(prog: Program, s: Subject, pc: nat, sp: nat, height: nat) returns (k: nat)
    requires WellFormed(prog) && pc < |prog| && sp <= |s|
    requires NoLoop(prog, s, Config(pc, sp)) && !Accepts(prog, s, Config(pc, sp))
    ensures BoundedIn(prog, s, pc, sp, height, k).Some?
    ensures BoundedIn(prog, s, pc, sp, height, k).value.answer == 0 ||
            BoundedIn(prog, s, pc, sp, height, k).value.answer == -1
  {
    NoLoopEnds(prog, s, pc, sp, height);
    k :| BoundedIn(prog, s, pc, sp, height, k).Some?;
    BoundedIsRecursive(prog, s, pc, sp, height, k);
    if BoundedIn(prog, s, pc, sp, height, k).value.answer != -1 {
      ReturnsAccept(prog, s, pc, sp, k);
      ZeroOrOne(prog, s, pc, sp, k);
    }
  }

  lemma {:induction false} OverflowGivesUp(prog: Program, s: Subject, pc: nat, sp: nat, height: nat, n: nat)
    returns (m: nat)
    requires WellFormed(prog) && pc < |prog| && sp <= |s| && OverflowIn(prog, s, pc, sp, height, n)
    ensures BoundedIn(prog, s, pc, sp, height, m).Some?
    ensures BoundedIn(prog, s, pc, sp, height, m).value.answer == -1
    decreases n
  {
    assert WellFormedAt(prog, pc);
    match prog[pc]
    case Char(c) =>
      m := OverflowGivesUp(prog, s, pc + 1, sp + 1, height, n - 1);
      m := m + 1;
    case Jmp(x) =>
      m := OverflowGivesUp(prog, s, x, sp, height, n - 1);
      m := m + 1;
    case Split(x, y) =>
      if height >= MAX_THREADS {
        m := 1;
      } else if OverflowIn(prog, s, x, sp, height + 1, n - 1) {
        m := OverflowGivesUp(prog, s, x, sp, height + 1, n - 1);
        m := m + 1;
      } else {
        var second := OverflowGivesUp(prog, s, y, sp, height, n - 1);
        m := SecondGivesUp(prog, s, pc, sp, height, second);
      }
  }

  lemma SecondGivesUp(prog: Program, s: Subject, pc: nat, sp: nat, height: nat, second: nat) returns (m: nat)
    requires WellFormed(prog) && pc < |prog| && sp <= |s| && prog[pc].Split? && height < MAX_THREADS
    requires WellFormedAt(prog, pc)
    requires NoLoop(prog, s, Config(prog[pc].x, sp)) && !Accepts(prog, s, Config(prog[pc].x, sp))
    requires BoundedIn(prog, s, prog[pc].y, sp, height, second).Some?
    requires BoundedIn(prog, s, prog[pc].y, sp, height, second).value.answer == -1
    ensures BoundedIn(prog, s, pc, sp, height, m).Some?
    ensures BoundedIn(prog, s, pc, sp, height, m).value.answer == -1
  {
    var first := NotAcceptingEnds(prog, s, prog[pc].x, sp, height + 1);
    var k := if first < second then second else first;
    MoreRoom(prog, s, prog[pc].x, sp, height + 1, first, k);
    MoreRoom(prog, s, prog[pc].y, sp, height, second, k);
    m := k + 1;
  }

  /** The search gives up exactly if some path leads to a Split under 25 queued threads. */
  lemma RunsOutExactly(prog: Program, s: Subject, pc: nat, sp: nat, height: nat)
    requires WellFormed(prog) && pc < |prog| && sp <= |s|
    ensures RunsOut(prog, s, pc, sp, height) <==> Overflows(prog, s, pc, sp, height)
  {
    if RunsOut(prog, s, pc, sp, height) {
      var n: nat :| BoundedIn(prog, s, pc, sp, height, n).Some? &&
                    BoundedIn(prog, s, pc, sp, height, n).value.answer == -1;
      GivingUpOverflows(prog, s, pc, sp, height, n);
    }
    if n: nat :| OverflowIn(prog, s, pc, sp, height, n) {
      var m := OverflowGivesUp(prog, s, pc, sp, height, n);
    }
  }

  /** The search ends exactly if there is no loop ahead or some path leads to a Split under 25
      queued threads; and then it answers -1 exactly in the second case. */
  lemma EndsExactly(prog: Program, s: Subject, pc: nat, sp: nat, height: nat)
    requires WellFormed(prog) && pc < |prog| && sp <= |s|
    ensures Ends(prog, s, pc, sp, height) <==>
              NoLoop(prog, s, Config(pc, sp)) || Overflows(prog, s, pc, sp, height)
    ensures Ends(prog, s, pc, sp, height) ==>
              (BoundedSearch(prog, s, pc, sp, height) == -1 <==> Overflows(prog, s, pc, sp, height))
  {
    EndsOrRunsOut(prog, s, pc, sp, height);
    RunsOutExactly(prog, s, pc, sp, height);
    if RunsOut(prog, s, pc, sp, height) {
      var n: nat :| BoundedIn(prog, s, pc, sp, height, n).Some? &&
                    BoundedIn(prog, s, pc, sp, height, n).value.answer == -1;
      SearchIs(prog, s, pc, sp, height, n);
    }
  }

  // ---- few Splits ----

  /** The most Splits on a path of at most n points. */
  ghost function SplitsMet(prog: Program, s: Subject, pc: nat, sp: nat, n: nat): nat
    requires WellFormed(prog) && pc < |prog| && sp <= |s|
    decreases n
  {
    assert WellFormedAt(prog, pc);
    if n == 0 then 0
    else
      match prog[pc]
      case Char(c) => if CharAt(s, sp) == c then SplitsMet(prog, s, pc + 1, sp + 1, n - 1) else 0
      case Match => 0
      case Jmp(x) => SplitsMet(prog, s, x, sp, n - 1)
      case Split(x, y) =>
        var first, second := SplitsMet(prog, s, x, sp, n - 1), SplitsMet(prog, s, y, sp, n - 1);
        1 + if first < second then second else first
  }

  lemma {:induction false} OverflowMeetsSplits(prog: Program, s: Subject, pc: nat, sp: nat, height: nat, n: nat)
    requires WellFormed(prog) && pc < |prog| && sp <= |s| && OverflowIn(prog, s, pc, sp, height, n)
    ensures height + SplitsMet(prog, s, pc, sp, n) > MAX_THREADS
    decreases n
  {
    assert WellFormedAt(prog, pc);
    match prog[pc]
    case Char(c) =>
      OverflowMeetsSplits(prog, s, pc + 1, sp + 1, height, n - 1);
    case Jmp(x) =>
      OverflowMeetsSplits(prog, s, x, sp, height, n - 1);
    case Split(x, y) =>
      if height < MAX_THREADS {
        if OverflowIn(prog, s, x, sp, height + 1, n - 1) {
          OverflowMeetsSplits(prog, s, x, sp, height + 1, n - 1);
        } else {
          OverflowMeetsSplits(prog, s, y, sp, height, n - 1);
        }
      }
  }

  /** If no path on the subject meets more than 25 Splits, the stack engine never gives up: it
      ends exactly where the recursive engine does, and with the same answer. */
  lemma FewSplitsNeverGiveUp(prog: Program, s: Subject)
    requires WellFormed(prog) && forall n: nat :: SplitsMet(prog, s, 0, 0, n) <= MAX_THREADS
    ensures Ends(prog, s, 0, 0, 0) <==> NoLoop(prog, s, START)
    ensures Ends(prog, s, 0, 0, 0) ==> BoundedSearch(prog, s, 0, 0, 0) == Recursive(prog, s, 0, 0)
  {
    EndsExactly(prog, s, 0, 0, 0);
    if n: nat :| OverflowIn(prog, s, 0, 0, 0, n) {
      OverflowMeetsSplits(prog, s, 0, 0, 0, n);
      assert false;
    }
    if Ends(prog, s, 0, 0, 0) {
      BoundedMeaning(prog, s, 0, 0, 0);
    }
  }

  // ---- by the branches taken ----

  datatype Branch = First | Second

  /** Follows the choices in `way`, one per Split, for at most n points, and stops at the Match
      reached with no choice left over or at the first Split for which there is none. */
  ghost function Walk(prog: Program, s: Subject, pc: nat, sp: nat, way: seq<Branch>, n: nat): (r: Option<nat>)
    requires WellFormed(prog) && pc < |prog| && sp <= |s|
    ensures r.Some? ==> r.value < |prog|
    decreases n
  {
    assert WellFormedAt(prog, pc);
    if n == 0 then None
    else
      match prog[pc]
      case Char(c) =>
        if CharAt(s, sp) != c then None else Walk(prog, s, pc + 1, sp + 1, way, n - 1)
      case Match =>
        if way == [] then Some(pc) else None
      case Jmp(x) =>
        Walk(prog, s, x, sp, way, n - 1)
      case Split(x, y) =>
        if way == [] then Some(pc)
        else Walk(prog, s, if way[0].First? then x else y, sp, way[1..], n - 1)
  }

  ghost predicate AcceptingIn(prog: Program, s: Subject, pc: nat, sp: nat, way: seq<Branch>, n: nat)
    requires WellFormed(prog) && pc < |prog| && sp <= |s|
  {
    var end := Walk(prog, s, pc, sp, way, n);
    end.Some? && prog[end.value].Match?
  }

  ghost predicate Accepting(prog: Program, s: Subject, pc: nat, sp: nat, way: seq<Branch>)
    requires WellFormed(prog) && pc < |prog| && sp <= |s|
  {
    exists n: nat :: AcceptingIn(prog, s, pc, sp, way, n)
  }

  lemma {:induction false} AcceptingAccepts(prog: Program, s: Subject, pc: nat, sp: nat, way: seq<Branch>, n: nat)
    requires WellFormed(prog) && pc < |prog| && sp <= |s| && AcceptingIn(prog, s, pc, sp, way, n)
    ensures Accepts(prog, s, Config(pc, sp))
    decreases n
  {
    assert WellFormedAt(prog, pc);
    AcceptsByCalls(prog, s, Config(pc, sp));
    match prog[pc]
    case Char(c) =>
      AcceptingAccepts(prog, s, pc + 1, sp + 1, way, n - 1);
    case Match =>
    case Jmp(x) =>
      AcceptingAccepts(prog, s, x, sp, way, n - 1);
    case Split(x, y) =>
      AcceptingAccepts(prog, s, if way[0].First? then x else y, sp, way[1..], n - 1);
  }

  lemma {:induction false} ReachedByWay(prog: Program, s: Subject, n: nat, a: Config, b: Config)
    returns (way: seq<Branch>)
    requires WellFormed(prog) && a.pc < |prog| && a.sp <= |s| && ReachIn(prog, s, n, a, b)
    requires b.pc < |prog| && prog[b.pc].Match?
    ensures AcceptingIn(prog, s, a.pc, a.sp, way, n + 1)
    decreases n
  {
    assert WellFormedAt(prog, a.pc);
    if n == 0 {
      way := [];
    } else {
      var m :| Step(prog, s, a, m) && ReachIn(prog, s, n - 1, m, b);
      var rest := ReachedByWay(prog, s, n - 1, m, b);
      if prog[a.pc].Split? {
        way := [if m.pc == prog[a.pc].x then First else Second] + rest;
        assert way[1..] == rest;
      } else {
        way := rest;
      }
    }
  }

  /** A Match can be reached exactly if some choice of branches leads to one. */
  lemma AcceptingWay(prog: Program, s: Subject, pc: nat, sp: nat)
    requires WellFormed(prog) && pc < |prog| && sp <= |s|
    ensures Accepts(prog, s, Config(pc, sp)) <==> exists v :: Accepting(prog, s, pc, sp, v)
  {
    if Accepts(prog, s, Config(pc, sp)) {
      var b, n: nat :| ReachIn(prog, s, n, Config(pc, sp), b) && b.pc < |prog| && prog[b.pc].Match?;
      var way := ReachedByWay(prog, s, n, Config(pc, sp), b);
      assert Accepting(prog, s, pc, sp, way);
    }
    if v :| Accepting(prog, s, pc, sp, v) {
      var n: nat :| AcceptingIn(prog, s, pc, sp, v, n);
      AcceptingAccepts(prog, s, pc, sp, v, n);
    }
  }

  function Firsts(way: seq<Branch>): nat {
    if way == [] then 0 else (if way[0].First? then 1 else 0) + Firsts(way[1..])
  }

  /** The order in which a depth-first search meets the nodes of the tree. */
  predicate Earlier(v: seq<Branch>, w: seq<Branch>) {
    w != [] && (v == [] || (v[0].First? && w[0].Second?) || (v[0] == w[0] && Earlier(v[1..], w[1..])))
  }

  /** The first branches that `way` leaves behind have no loop ahead. */
  ghost predicate NoLoopBefore(prog: Program, s: Subject, pc: nat, sp: nat, way: seq<Branch>, n: nat)
    requires WellFormed(prog) && pc < |prog| && sp <= |s|
    decreases n
  {
    assert WellFormedAt(prog, pc);
    n > 0 &&
    match prog[pc]
    case Char(c) => CharAt(s, sp) == c && NoLoopBefore(prog, s, pc + 1, sp + 1, way, n - 1)
    case Match => true
    case Jmp(x) => NoLoopBefore(prog, s, x, sp, way, n - 1)
    case Split(x, y) =>
      way == [] ||
      if way[0].First? then NoLoopBefore(prog, s, x, sp, way[1..], n - 1)
      else NoLoop(prog, s, Config(x, sp)) && NoLoopBefore(prog, s, y, sp, way[1..], n - 1)
  }

  ghost predicate BeforeMatch(prog: Program, s: Subject, pc: nat, sp: nat, way: seq<Branch>)
    requires WellFormed(prog) && pc < |prog| && sp <= |s|
  {
    forall v :: Accepting(prog, s, pc, sp, v) ==> !Earlier(v, way)
  }

  /** `way` leads to a Split that is met with 25 or more threads queued, past no loop and before
      any Match in depth-first order. */
  ghost predicate OverflowFirst(prog: Program, s: Subject, pc: nat, sp: nat, height: nat, way: seq<Branch>, n: nat)
    requires WellFormed(prog) && pc < |prog| && sp <= |s|
  {
    var end := Walk(prog, s, pc, sp, way, n);
    && end.Some? && prog[end.value].Split? && height + Firsts(way) >= MAX_THREADS
    && NoLoopBefore(prog, s, pc, sp, way, n) && BeforeMatch(prog, s, pc, sp, way)
  }

  ghost predicate GivesUp(prog: Program, s: Subject, pc: nat, sp: nat, height: nat)
    requires WellFormed(prog) && pc < |prog| && sp <= |s|
  {
    exists way, n: nat :: OverflowFirst(prog, s, pc, sp, height, way, n)
  }

  /** Choices are the same one Char or Jmp later. */
  lemma SameAccepting(prog: Program, s: Subject, pc: nat, sp: nat, pc': nat, sp': nat, v: seq<Branch>)
    requires WellFormed(prog) && pc < |prog| && sp <= |s| && pc' < |prog| && sp' <= |s|
    requires match prog[pc]
             case Char(c) => CharAt(s, sp) == c && pc' == pc + 1 && sp' == sp + 1
             case Jmp(x) => pc' == x && sp' == sp
             case _ => false
    ensures Accepting(prog, s, pc, sp, v) <==> Accepting(prog, s, pc', sp', v)
  {
    if n: nat :| AcceptingIn(prog, s, pc, sp, v, n) {
      assert AcceptingIn(prog, s, pc', sp', v, n - 1);
    }
    if n: nat :| AcceptingIn(prog, s, pc', sp', v, n) {
      assert AcceptingIn(prog, s, pc, sp, v, n + 1);
    }
  }

  lemma SplitAccepting(prog: Program, s: Subject, pc: nat, sp: nat, v: seq<Branch>)
    requires WellFormed(prog) && pc < |prog| && sp <= |s| && prog[pc].Split?
    ensures WellFormedAt(prog, pc)
    ensures Accepting(prog, s, pc, sp, v) <==>
              v != [] && Accepting(prog, s, if v[0].First? then prog[pc].x else prog[pc].y, sp, v[1..])
  {
    assert WellFormedAt(prog, pc);
    if n: nat :| AcceptingIn(prog, s, pc, sp, v, n) {
      assert v != [] && AcceptingIn(prog, s, if v[0].First? then prog[pc].x else prog[pc].y, sp, v[1..], n - 1);
    }
    if v != [] {
      var next := if v[0].First? then prog[pc].x else prog[pc].y;
      if n: nat :| AcceptingIn(prog, s, next, sp, v[1..], n) {
        assert AcceptingIn(prog, s, pc, sp, v, n + 1);
      }
    }
  }

  function Taken(prog: Program, pc: nat, b: Branch): nat
    requires pc < |prog| && prog[pc].Split?
  {
    if b.First? then prog[pc].x else prog[pc].y
  }

  lemma BeforeMatchInBranch(prog: Program, s: Subject, pc: nat, sp: nat, b: Branch, rest: seq<Branch>)
    requires WellFormed(prog) && pc < |prog| && sp <= |s| && prog[pc].Split?
    requires BeforeMatch(prog, s, pc, sp, [b] + rest)
    ensures WellFormedAt(prog, pc)
    ensures BeforeMatch(prog, s, Taken(prog, pc, b), sp, rest)
    ensures b.Second? ==> !Accepts(prog, s, Config(prog[pc].x, sp))
  {
    assert WellFormedAt(prog, pc);
    assert ([b] + rest)[1..] == rest;
    forall v | Accepting(prog, s, Taken(prog, pc, b), sp, v)
      ensures !Earlier(v, rest)
    {
      assert ([b] + v)[1..] == v;
      SplitAccepting(prog, s, pc, sp, [b] + v);
      assert !Earlier([b] + v, [b] + rest);
    }
    AcceptingWay(prog, s, prog[pc].x, sp);
    if b.Second? && Accepts(prog, s, Config(prog[pc].x, sp)) {
      var v :| Accepting(prog, s, prog[pc].x, sp, v);
      assert ([First] + v)[1..] == v;
      SplitAccepting(prog, s, pc, sp, [First] + v);
      assert false;
    }
  }

  lemma BeforeMatchAtSplit(prog: Program, s: Subject, pc: nat, sp: nat, b: Branch, rest: seq<Branch>)
    requires WellFormed(prog) && pc < |prog| && sp <= |s| && prog[pc].Split? && WellFormedAt(prog, pc)
    requires BeforeMatch(prog, s, Taken(prog, pc, b), sp, rest)
    requires b.Second? ==> !Accepts(prog, s, Config(prog[pc].x, sp))
    ensures BeforeMatch(prog, s, pc, sp, [b] + rest)
  {
    assert ([b] + rest)[1..] == rest;
    AcceptingWay(prog, s, prog[pc].x, sp);
    forall v | Accepting(prog, s, pc, sp, v)
      ensures !Earlier(v, [b] + rest)
    {
      SplitAccepting(prog, s, pc, sp, v);
    }
  }

  lemma SameFirst(prog: Program, s: Subject, pc: nat, sp: nat, pc': nat, sp': nat, height: nat, way: seq<Branch>, n: nat)
    requires WellFormed(prog) && pc < |prog| && sp <= |s| && pc' < |prog| && sp' <= |s|
    requires match prog[pc]
             case Char(c) => CharAt(s, sp) == c && pc' == pc + 1 && sp' == sp + 1
             case Jmp(x) => pc' == x && sp' == sp
             case _ => false
    ensures OverflowFirst(prog, s, pc, sp, height, way, n + 1) <==> OverflowFirst(prog, s, pc', sp', height, way, n)
  {
    forall v ensures Accepting(prog, s, pc, sp, v) <==> Accepting(prog, s, pc', sp', v) {
      SameAccepting(prog, s, pc, sp, pc', sp', v);
    }
  }

  lemma SplitFirst(prog: Program, s: Subject, pc: nat, sp: nat, height: nat, b: Branch, rest: seq<Branch>, n: nat)
    requires WellFormed(prog) && pc < |prog| && sp <= |s| && prog[pc].Split?
    ensures WellFormedAt(prog, pc)
    ensures OverflowFirst(prog, s, pc, sp, height, [b] + rest, n + 1) <==>
              && OverflowFirst(prog, s, Taken(prog, pc, b), sp, if b.First? then height + 1 else height, rest, n)
              && (b.Second? ==> NoLoop(prog, s, Config(prog[pc].x, sp)) && !Accepts(prog, s, Config(prog[pc].x, sp)))
  {
    assert WellFormedAt(prog, pc);
    var way := [b] + rest;
    assert way[1..] == rest;
    assert Walk(prog, s, pc, sp, way, n + 1) == Walk(prog, s, Taken(prog, pc, b), sp, rest, n);
    assert Firsts(way) == (if b.First? then 1 else 0) + Firsts(rest);
    if BeforeMatch(prog, s, pc, sp, way) {
      BeforeMatchInBranch(prog, s, pc, sp, b, rest);
    }
    if BeforeMatch(prog, s, Taken(prog, pc, b), sp, rest) &&
       (b.Second? ==> !Accepts(prog, s, Config(prog[pc].x, sp))) {
      BeforeMatchAtSplit(prog, s, pc, sp, b, rest);
    }
  }

  lemma {:induction false} OverflowByWay(prog: Program, s: Subject, pc: nat, sp: nat, height: nat, n: nat)
    returns (way: seq<Branch>)
    requires WellFormed(prog) && pc < |prog| && sp <= |s| && OverflowIn(prog, s, pc, sp, height, n)
    ensures OverflowFirst(prog, s, pc, sp, height, way, n)
    decreases n
  {
    assert WellFormedAt(prog, pc);
    match prog[pc]
    case Char(c) =>
      way := OverflowByWay(prog, s, pc + 1, sp + 1, height, n - 1);
      SameFirst(prog, s, pc, sp, pc + 1, sp + 1, height, way, n - 1);
    case Jmp(x) =>
      way := OverflowByWay(prog, s, x, sp, height, n - 1);
      SameFirst(prog, s, pc, sp, x, sp, height, way, n - 1);
    case Split(x, y) =>
      way := [];
      if height < MAX_THREADS {
        if OverflowIn(prog, s, x, sp, height + 1, n - 1) {
          var rest := OverflowByWay(prog, s, x, sp, height + 1, n - 1);
          SplitFirst(prog, s, pc, sp, height, First, rest, n - 1);
          way := [First] + rest;
        } else {
          var rest := OverflowByWay(prog, s, y, sp, height, n - 1);
          SplitFirst(prog, s, pc, sp, height, Second, rest, n - 1);
          way := [Second] + rest;
        }
      }
  }

  lemma {:induction false} WayOverflows(prog: Program, s: Subject, pc: nat, sp: nat, height: nat, way: seq<Branch>, n: nat)
    requires WellFormed(prog) && pc < |prog| && sp <= |s| && OverflowFirst(prog, s, pc, sp, height, way, n)
    ensures OverflowIn(prog, s, pc, sp, height, n)
    decreases n
  {
    assert WellFormedAt(prog, pc);
    match prog[pc]
    case Char(c) =>
      SameFirst(prog, s, pc, sp, pc + 1, sp + 1, height, way, n - 1);
      WayOverflows(prog, s, pc + 1, sp + 1, height, way, n - 1);
    case Match =>
    case Jmp(x) =>
      SameFirst(prog, s, pc, sp, x, sp, height, way, n - 1);
      WayOverflows(prog, s, x, sp, height, way, n - 1);
    case Split(x, y) =>
      if way != [] {
        assert [way[0]] + way[1..] == way;
        SplitFirst(prog, s, pc, sp, height, way[0], way[1..], n - 1);
        if way[0].First? {
          WayOverflows(prog, s, x, sp, height + 1, way[1..], n - 1);
        } else {
          WayOverflows(prog, s, y, sp, height, way[1..], n - 1);
        }
      }
  }

  /** Where the search ends it answers -1 exactly if some choice of branches leads to a Split under
      25 queued threads, past no loop and before any Match in depth-first order. */
  lemma BoundedSearchGivesUp(prog: Program, s: Subject, pc: nat, sp: nat, height: nat)
    requires WellFormed(prog) && pc < |prog| && sp <= |s|
    ensures Ends(prog, s, pc, sp, height) <==>
              NoLoop(prog, s, Config(pc, sp)) || GivesUp(prog, s, pc, sp, height)
    ensures Ends(prog, s, pc, sp, height) ==>
              (BoundedSearch(prog, s, pc, sp, height) == -1 <==> GivesUp(prog, s, pc, sp, height))
  {
    EndsExactly(prog, s, pc, sp, height);
    if n: nat :| OverflowIn(prog, s, pc, sp, height, n) {
      var way := OverflowByWay(prog, s, pc, sp, height, n);
    }
    if way, n: nat :| OverflowFirst(prog, s, pc, sp, height, way, n) {
      WayOverflows(prog, s, pc, sp, height, way, n);
    }
  }
}
