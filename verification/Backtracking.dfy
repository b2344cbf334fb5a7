/** The three depth-first engines, on every program and subject on which they terminate. */
module Backtracking {
  import opened Basics
  import opened RegexProgram
  import opened DepthFirst

  const MAX_THREADS := 25

  // ---- the recursive engine ----

  /** 1 exactly when a Match is reachable. */
  function {:induction false} Recursive(prog: Program, s: Subject, pc: nat, sp: nat): (r: int)
    requires WellFormed(prog) && pc < |prog| && sp <= |s| && NoLoop(prog, s, Config(pc, sp))
    ensures r == 0 || r == 1
    ensures r == 1 <==> Accepts(prog, s, Config(pc, sp))
    decreases CallRank(prog, s, Config(pc, sp))
  {
    assert WellFormedAt(prog, pc);
    AcceptsByCalls(prog, s, Config(pc, sp));
    match prog[pc]
    case Char(c) =>
      if CharAt(s, sp) != c then 0
      else
        Descend(prog, s, pc, sp, pc + 1, sp + 1);
        Recursive(prog, s, pc + 1, sp + 1)
    case Match => 1
    case Jmp(x) =>
      Descend(prog, s, pc, sp, x, sp);
      Recursive(prog, s, x, sp)
    case Split(x, y) =>
      Descend(prog, s, pc, sp, x, sp);
      if Recursive(prog, s, x, sp) == 1 then 1
      else
        Descend(prog, s, pc, sp, y, sp);
        Recursive(prog, s, y, sp)
  }

  lemma Descend(prog: Program, s: Subject, pc: nat, sp: nat, pc': nat, sp': nat)
    requires WellFormed(prog) && pc < |prog| && sp <= |s| && NoLoop(prog, s, Config(pc, sp))
    requires Calls(prog, s, Config(pc, sp), Config(pc', sp'))
    ensures pc' < |prog| && sp' <= |s| && NoLoop(prog, s, Config(pc', sp'))
    ensures CallRank(prog, s, Config(pc', sp')) < CallRank(prog, s, Config(pc, sp))
  {
    CallDescends(prog, s, Config(pc, sp), Config(pc', sp'));
  }

  /** `recursive` with room for n nested calls; None when that is not enough. */
  ghost function RecursiveIn(prog: Program, s: Subject, pc: nat, sp: nat, n: nat): Option<int>
    requires WellFormed(prog) && pc < |prog| && sp <= |s|
    decreases n
  {
    assert WellFormedAt(prog, pc);
    if n == 0 then None
    else
      match prog[pc]
      case Char(c) =>
        if CharAt(s, sp) != c then Some(0) else RecursiveIn(prog, s, pc + 1, sp + 1, n - 1)
      case Match => Some(1)
      case Jmp(x) => RecursiveIn(prog, s, x, sp, n - 1)
      case Split(x, y) =>
        match RecursiveIn(prog, s, x, sp, n - 1)
        case None => None
        case Some(first) => if first == 1 then Some(1) else RecursiveIn(prog, s, y, sp, n - 1)
  }

  /** `recursive` returns, however deep its calls are nested. */
  ghost predicate RecursiveReturns(prog: Program, s: Subject, pc: nat, sp: nat)
    requires WellFormed(prog) && pc < |prog| && sp <= |s|
  {
    exists n: nat :: RecursiveIn(prog, s, pc, sp, n).Some?
  }

  lemma {:induction false} ReturnsAccept(prog: Program, s: Subject, pc: nat, sp: nat, n: nat)
    requires WellFormed(prog) && pc < |prog| && sp <= |s| && RecursiveIn(prog, s, pc, sp, n).Some?
    ensures RecursiveIn(prog, s, pc, sp, n).value == 1 <==> Accepts(prog, s, Config(pc, sp))
    decreases n
  {
    assert WellFormedAt(prog, pc);
    AcceptsByCalls(prog, s, Config(pc, sp));
    match prog[pc]
    case Char(c) =>
      if CharAt(s, sp) == c {
        ReturnsAccept(prog, s, pc + 1, sp + 1, n - 1);
      }
    case Match =>
    case Jmp(x) =>
      ReturnsAccept(prog, s, x, sp, n - 1);
    case Split(x, y) =>
      ReturnsAccept(prog, s, x, sp, n - 1);
      if RecursiveIn(prog, s, x, sp, n - 1).value != 1 {
        ReturnsAccept(prog, s, y, sp, n - 1);
      }
  }

  lemma {:induction false} EnoughCalls(prog: Program, s: Subject, pc: nat, sp: nat, n: nat)
    requires WellFormed(prog) && pc < |prog| && sp <= |s| && NoLoop(prog, s, Config(pc, sp))
    requires n > CallRank(prog, s, Config(pc, sp))
    ensures RecursiveIn(prog, s, pc, sp, n).Some?
    decreases n
  {
    assert WellFormedAt(prog, pc);
    match prog[pc]
    case Char(c) =>
      if CharAt(s, sp) == c {
        Descend(prog, s, pc, sp, pc + 1, sp + 1);
        EnoughCalls(prog, s, pc + 1, sp + 1, n - 1);
      }
    case Match =>
    case Jmp(x) =>
      Descend(prog, s, pc, sp, x, sp);
      EnoughCalls(prog, s, x, sp, n - 1);
    case Split(x, y) =>
      Descend(prog, s, pc, sp, x, sp);
      EnoughCalls(prog, s, x, sp, n - 1);
      ReturnsAccept(prog, s, x, sp, n - 1);
      if RecursiveIn(prog, s, x, sp, n - 1).value != 1 {
        Descend(prog, s, pc, sp, y, sp);
        EnoughCalls(prog, s, y, sp, n - 1);
      }
  }

  lemma {:induction false} ReturnsWithoutLoop(prog: Program, s: Subject, pc: nat, sp: nat, n: nat)
    requires WellFormed(prog) && pc < |prog| && sp <= |s| && RecursiveIn(prog, s, pc, sp, n).Some?
    ensures NoLoop(prog, s, Config(pc, sp))
    decreases n
  {
    assert WellFormedAt(prog, pc);
    forall b | Calls(prog, s, Config(pc, sp), b)
      ensures NoLoop(prog, s, b)
    {
      if prog[pc].Split? {
        ReturnsAccept(prog, s, prog[pc].x, sp, n - 1);
      }
      assert RecursiveIn(prog, s, b.pc, b.sp, n - 1).Some?;
      ReturnsWithoutLoop(prog, s, b.pc, b.sp, n - 1);
    }
    NoLoopFromCalls(prog, s, Config(pc, sp));
  }

  /** The recursive engine returns exactly when its search, up to the first Match, never comes
      to a point that it is still busy with; and what it returns is Recursive. */
  lemma RecursiveTerminates(prog: Program, s: Subject, pc: nat, sp: nat)
    requires WellFormed(prog) && pc < |prog| && sp <= |s|
    ensures RecursiveReturns(prog, s, pc, sp) <==> NoLoop(prog, s, Config(pc, sp))
    ensures forall n: nat :: RecursiveIn(prog, s, pc, sp, n).Some? ==>
                               NoLoop(prog, s, Config(pc, sp)) &&
                               RecursiveIn(prog, s, pc, sp, n).value == Recursive(prog, s, pc, sp)
  {
    forall n: nat | RecursiveIn(prog, s, pc, sp, n).Some?
      ensures NoLoop(prog, s, Config(pc, sp)) &&
              RecursiveIn(prog, s, pc, sp, n).value == Recursive(prog, s, pc, sp)
    {
      ReturnsWithoutLoop(prog, s, pc, sp, n);
      ReturnsAccept(prog, s, pc, sp, n);
      ZeroOrOne(prog, s, pc, sp, n);
    }
    if NoLoop(prog, s, Config(pc, sp)) {
      EnoughCalls(prog, s, pc, sp, CallRank(prog, s, Config(pc, sp)) + 1);
    }
  }

  lemma {:induction false} ZeroOrOne(prog: Program, s: Subject, pc: nat, sp: nat, n: nat)
    requires WellFormed(prog) && pc < |prog| && sp <= |s| && RecursiveIn(prog, s, pc, sp, n).Some?
    ensures RecursiveIn(prog, s, pc, sp, n).value == 0 || RecursiveIn(prog, s, pc, sp, n).value == 1
    decreases n
  {
    assert WellFormedAt(prog, pc);
    match prog[pc]
    case Char(c) =>
      if CharAt(s, sp) == c {
        ZeroOrOne(prog, s, pc + 1, sp + 1, n - 1);
      }
    case Match =>
    case Jmp(x) =>
      ZeroOrOne(prog, s, x, sp, n - 1);
    case Split(x, y) =>
      if RecursiveIn(prog, s, x, sp, n - 1).value != 1 {
        ZeroOrOne(prog, s, y, sp, n - 1);
      }
  }

  /** From the start: 1 exactly when Match is in Reach(k) for some k up to and including |s|. */
  lemma RecursiveMeaning(prog: Program, s: Subject)
    requires WellFormed(prog) && NoLoop(prog, s, START)
    ensures Recursive(prog, s, 0, 0) == 1 <==> MatchBefore(prog, s, |s| + 1)
  {
    AcceptsIsMatchBefore(prog, s);
  }

  // ---- Thompson's answers and the recursive engine's ----

  /** Thompson's answer on s is Recursive's answer on s without its last character. */
  lemma ThompsonLagsByOne(prog: Program, s: Subject, x: char)
    requires WellFormed(prog) && NoLoop(prog, s, START) && x != NUL
    ensures MatchBefore(prog, s + [x], |s| + 1) <==> Recursive(prog, s, 0, 0) == 1
  {
    var t: Subject := s + [x];
    RecursiveMeaning(prog, s);
    forall k: nat | k < |s| + 1
      ensures MatchAt(prog, s, k) <==> MatchAt(prog, t, k)
    {
      ReachExtend(prog, s, x, k);
    }
  }

  /** What Thompson accepts the backtrackers accept. */
  lemma ThompsonImpliesRecursive(prog: Program, s: Subject)
    requires WellFormed(prog) && NoLoop(prog, s, START) && MatchBefore(prog, s, |s|)
    ensures Recursive(prog, s, 0, 0) == 1
  {
    RecursiveMeaning(prog, s);
    var k: nat :| k < |s| && MatchAt(prog, s, k);
    assert k < |s| + 1;
  }

  ghost predicate Agree(prog: Program, s: Subject)
    requires WellFormed(prog) && NoLoop(prog, s, START)
  {
    MatchBefore(prog, s, |s|) <==> Recursive(prog, s, 0, 0) == 1
  }

  /** On a subject, the empty one included, the two agree exactly if a Match that uses the
      whole subject is not the only kind there is. */
  lemma AgreeOnSubject(prog: Program, s: Subject)
    requires WellFormed(prog) && NoLoop(prog, s, START)
    ensures Agree(prog, s) <==> (MatchAt(prog, s, |s|) ==> MatchBefore(prog, s, |s|))
  {
    RecursiveMeaning(prog, s);
    if MatchBefore(prog, s, |s|) {
      ThompsonImpliesRecursive(prog, s);
    }
  }

  /** Cut at its first Match, an accepted subject is one on which the two differ. */
  lemma CutAtFirstMatch(prog: Program, s: Subject) returns (t: Subject)
    requires WellFormed(prog) && MatchBefore(prog, s, |s| + 1)
    ensures MatchAt(prog, t, |t|) && !MatchBefore(prog, t, |t|)
  {
    var k: nat :| k < |s| + 1 && MatchAt(prog, s, k);
    var first := FirstMatch(prog, s, k);
    t := s[..first];
    forall j: nat | j <= first
      ensures MatchAt(prog, s, j) <==> MatchAt(prog, t, j)
    {
      ReachPrefix(prog, s, first, j);
    }
  }

  lemma {:induction false} FirstMatch(prog: Program, s: Subject, k: nat) returns (first: nat)
    requires MatchAt(prog, s, k)
    ensures first <= k && MatchAt(prog, s, first) && !MatchBefore(prog, s, first)
    decreases k
  {
    if j: nat :| j < k && MatchAt(prog, s, j) {
      first := FirstMatch(prog, s, j);
    } else {
      first := k;
    }
  }

  /** A program's engines agree on every subject exactly if it accepts none. */
  lemma AgreeOnlyIfNothingIsAccepted(prog: Program)
    requires WellFormed(prog) && forall s: Subject :: NoLoop(prog, s, START)
    ensures (forall s: Subject :: Agree(prog, s)) <==> (forall s: Subject :: Recursive(prog, s, 0, 0) == 0)
  {
    forall s: Subject | Recursive(prog, s, 0, 0) == 0
      ensures Agree(prog, s)
    {
      if MatchBefore(prog, s, |s|) {
        ThompsonImpliesRecursive(prog, s);
      }
    }
    if (forall t: Subject :: Agree(prog, t)) {
      forall s: Subject ensures Recursive(prog, s, 0, 0) == 0 {
        RecursiveMeaning(prog, s);
        if MatchBefore(prog, s, |s| + 1) {
          var t := CutAtFirstMatch(prog, s);
          AgreeOnSubject(prog, t);
        }
      }
    } else {
      var t: Subject :| !Agree(prog, t);
      assert Recursive(prog, t, 0, 0) != 0;
    }
  }

  /** The half-iterative engine: only the first branch of a Split recurses. */
  method RecursiveLoop(prog: Program, s: Subject, pc0: nat, sp0: nat) returns (r: int)
    requires WellFormed(prog) && pc0 < |prog| && sp0 <= |s| && NoLoop(prog, s, Config(pc0, sp0))
    ensures r == Recursive(prog, s, pc0, sp0)
    decreases CallRank(prog, s, Config(pc0, sp0))
  {
    var pc: nat, sp: nat := pc0, sp0;
    while true
      invariant pc < |prog| && sp <= |s| && NoLoop(prog, s, Config(pc, sp))
      invariant Recursive(prog, s, pc, sp) == Recursive(prog, s, pc0, sp0)
      invariant CallRank(prog, s, Config(pc, sp)) <= CallRank(prog, s, Config(pc0, sp0))
      decreases CallRank(prog, s, Config(pc, sp))
    {
      assert WellFormedAt(prog, pc);
      match prog[pc] {
        case Char(c) =>
          if CharAt(s, sp) != c {
            return 0;
          }
          Descend(prog, s, pc, sp, pc + 1, sp + 1);
          pc, sp := pc + 1, sp + 1;
        case Match =>
          return 1;
        case Jmp(x) =>
          Descend(prog, s, pc, sp, x, sp);
          pc := x;
        case Split(x, y) =>
          Descend(prog, s, pc, sp, x, sp);
          var first := RecursiveLoop(prog, s, x, sp);
          if first == 1 {
            return 1;
          }
          Descend(prog, s, pc, sp, y, sp);
          pc := y;
      }
    }
  }
}
