/** The engine with an explicit stack of 25 threads. */
module StackEngine {
  import opened Basics
  import opened RegexProgram
  import opened DepthFirst
  import opened Backtracking

  // ---- one thread's search ----

  /** What a search answers, and how many points it visits. */
  datatype Trace = Trace(answer: int, visits: nat)

  function Visit(t: Option<Trace>): Option<Trace> {
    match t
    case None => None
    case Some(trace) => Some(trace.(visits := trace.visits + 1))
  }

  /** The search of one thread that runs above `height` queued threads, along at most n points
      in a row. Taking the first branch of a Split queues the second one, and a Split with 25
      threads queued gives up. */
  ghost function BoundedIn(prog: Program, s: Subject, pc: nat, sp: nat, height: nat, n: nat): Option<Trace>
    requires WellFormed(prog) && pc < |prog| && sp <= |s|
    decreases n
  {
    assert WellFormedAt(prog, pc);
    if n == 0 then None
    else
      match prog[pc]
      case Char(c) =>
        if CharAt(s, sp) != c then Some(Trace(0, 1)) else Visit(BoundedIn(prog, s, pc + 1, sp + 1, height, n - 1))
      case Match => Some(Trace(1, 1))
      case Jmp(x) => Visit(BoundedIn(prog, s, x, sp, height, n - 1))
      case Split(x, y) =>
        if height >= MAX_THREADS then Some(Trace(-1, 1))
        else
          match BoundedIn(prog, s, x, sp, height + 1, n - 1)
          case None => None
          case Some(first) =>
            if first.answer != 0 then Some(first.(visits := first.visits + 1))
            else
              match BoundedIn(prog, s, y, sp, height, n - 1)
              case None => None
              case Some(second) => Some(Trace(second.answer, 1 + first.visits + second.visits))
  }

  /** The thread's search comes to an end. */
  ghost predicate Ends(prog: Program, s: Subject, pc: nat, sp: nat, height: nat)
    requires WellFormed(prog) && pc < |prog| && sp <= |s|
  {
    exists n: nat :: BoundedIn(prog, s, pc, sp, height, n).Some?
  }

  ghost function Search(prog: Program, s: Subject, pc: nat, sp: nat, height: nat): (t: Trace)
    requires WellFormed(prog) && pc < |prog| && sp <= |s| && Ends(prog, s, pc, sp, height)
    ensures exists n: nat :: BoundedIn(prog, s, pc, sp, height, n) == Some(t)
  {
    var n: nat :| BoundedIn(prog, s, pc, sp, height, n).Some?;
    BoundedIn(prog, s, pc, sp, height, n).value
  }

  ghost function BoundedSearch(prog: Program, s: Subject, pc: nat, sp: nat, height: nat): int
    requires WellFormed(prog) && pc < |prog| && sp <= |s| && Ends(prog, s, pc, sp, height)
  {
    Search(prog, s, pc, sp, height).answer
  }

  lemma {:induction false} MoreRoom(prog: Program, s: Subject, pc: nat, sp: nat, height: nat, n: nat, m: nat)
    requires WellFormed(prog) && pc < |prog| && sp <= |s| && n <= m
    requires BoundedIn(prog, s, pc, sp, height, n).Some?
    ensures BoundedIn(prog, s, pc, sp, height, m) == BoundedIn(prog, s, pc, sp, height, n)
    decreases n
  {
    assert WellFormedAt(prog, pc);
    match prog[pc]
    case Char(c) =>
      if CharAt(s, sp) == c {
        MoreRoom(prog, s, pc + 1, sp + 1, height, n - 1, m - 1);
      }
    case Match =>
    case Jmp(x) =>
      MoreRoom(prog, s, x, sp, height, n - 1, m - 1);
    case Split(x, y) =>
      if height < MAX_THREADS {
        MoreRoom(prog, s, x, sp, height + 1, n - 1, m - 1);
        if BoundedIn(prog, s, x, sp, height + 1, n - 1).value.answer == 0 {
          MoreRoom(prog, s, y, sp, height, n - 1, m - 1);
        }
      }
  }

  lemma SearchIs(prog: Program, s: Subject, pc: nat, sp: nat, height: nat, n: nat)
    requires WellFormed(prog) && pc < |prog| && sp <= |s|
    requires BoundedIn(prog, s, pc, sp, height, n).Some?
    ensures Ends(prog, s, pc, sp, height)
    ensures Search(prog, s, pc, sp, height) == BoundedIn(prog, s, pc, sp, height, n).value
  {
    var m: nat :| BoundedIn(prog, s, pc, sp, height, m) == Some(Search(prog, s, pc, sp, height));
    if m <= n {
      MoreRoom(prog, s, pc, sp, height, m, n);
    } else {
      MoreRoom(prog, s, pc, sp, height, n, m);
    }
  }

  /** How a search that ends goes on, by the kind of instruction. */
  ghost predicate Unfolds(prog: Program, s: Subject, pc: nat, sp: nat, height: nat)
    requires WellFormed(prog) && pc < |prog| && sp <= |s| && Ends(prog, s, pc, sp, height)
  {
    assert WellFormedAt(prog, pc);
    var t := Search(prog, s, pc, sp, height);
    match prog[pc]
    case Char(c) =>
      if CharAt(s, sp) != c then t.answer == 0
      else Ends(prog, s, pc + 1, sp + 1, height) && Some(t) == Visit(Some(Search(prog, s, pc + 1, sp + 1, height)))
    case Match => t.answer == 1
    case Jmp(x) =>
      Ends(prog, s, x, sp, height) && Some(t) == Visit(Some(Search(prog, s, x, sp, height)))
    case Split(x, y) =>
      if height >= MAX_THREADS then t.answer == -1
      else
        && Ends(prog, s, x, sp, height + 1)
        && var first := Search(prog, s, x, sp, height + 1);
           if first.answer != 0 then t == first.(visits := first.visits + 1)
           else Ends(prog, s, y, sp, height) &&
                var second := Search(prog, s, y, sp, height);
                t == Trace(second.answer, 1 + first.visits + second.visits)
  }

  lemma SearchUnfolds(prog: Program, s: Subject, pc: nat, sp: nat, height: nat)
    requires WellFormed(prog) && pc < |prog| && sp <= |s| && Ends(prog, s, pc, sp, height)
    ensures Unfolds(prog, s, pc, sp, height)
  {
    assert WellFormedAt(prog, pc);
    var n: nat :| BoundedIn(prog, s, pc, sp, height, n) == Some(Search(prog, s, pc, sp, height));
    match prog[pc]
    case Char(c) =>
      if CharAt(s, sp) == c {
        SearchIs(prog, s, pc + 1, sp + 1, height, n - 1);
      }
    case Match =>
    case Jmp(x) =>
      SearchIs(prog, s, x, sp, height, n - 1);
    case Split(x, y) =>
      if height < MAX_THREADS {
        SearchIs(prog, s, x, sp, height + 1, n - 1);
        if BoundedSearch(prog, s, x, sp, height + 1) == 0 {
          SearchIs(prog, s, y, sp, height, n - 1);
        }
      }
  }

  // ---- it refines the recursive engine ----

  lemma {:induction false} BoundedIsRecursive(prog: Program, s: Subject, pc: nat, sp: nat, height: nat, n: nat)
    requires WellFormed(prog) && pc < |prog| && sp <= |s|
    requires BoundedIn(prog, s, pc, sp, height, n).Some?
    ensures var answer := BoundedIn(prog, s, pc, sp, height, n).value.answer;
            answer == -1 || RecursiveIn(prog, s, pc, sp, n) == Some(answer)
    decreases n
  {
    assert WellFormedAt(prog, pc);
    match prog[pc]
    case Char(c) =>
      if CharAt(s, sp) == c {
        BoundedIsRecursive(prog, s, pc + 1, sp + 1, height, n - 1);
      }
    case Match =>
    case Jmp(x) =>
      BoundedIsRecursive(prog, s, x, sp, height, n - 1);
    case Split(x, y) =>
      if height < MAX_THREADS {
        BoundedIsRecursive(prog, s, x, sp, height + 1, n - 1);
        var first := BoundedIn(prog, s, x, sp, height + 1, n - 1).value.answer;
        if first == 0 {
          BoundedIsRecursive(prog, s, y, sp, height, n - 1);
        } else if first != -1 {
          ZeroOrOne(prog, s, x, sp, n - 1);
        }
      }
  }

  /** A search that ends without giving up answers like the recursive engine, which then ends too. */
  lemma BoundedMeaning(prog: Program, s: Subject, pc: nat, sp: nat, height: nat)
    requires WellFormed(prog) && pc < |prog| && sp <= |s| && Ends(prog, s, pc, sp, height)
    ensures BoundedSearch(prog, s, pc, sp, height) != -1 ==>
              NoLoop(prog, s, Config(pc, sp)) &&
              BoundedSearch(prog, s, pc, sp, height) == Recursive(prog, s, pc, sp)
  {
    var n: nat :| BoundedIn(prog, s, pc, sp, height, n) == Some(Search(prog, s, pc, sp, height));
    BoundedIsRecursive(prog, s, pc, sp, height, n);
    RecursiveTerminates(prog, s, pc, sp);
  }

  lemma {:induction false} EndsWithin(prog: Program, s: Subject, pc: nat, sp: nat, height: nat, n: nat)
    requires WellFormed(prog) && pc < |prog| && sp <= |s| && RecursiveIn(prog, s, pc, sp, n).Some?
    ensures BoundedIn(prog, s, pc, sp, height, n).Some?
    decreases n
  {
    assert WellFormedAt(prog, pc);
    match prog[pc]
    case Char(c) =>
      if CharAt(s, sp) == c {
        EndsWithin(prog, s, pc + 1, sp + 1, height, n - 1);
      }
    case Match =>
    case Jmp(x) =>
      EndsWithin(prog, s, x, sp, height, n - 1);
    case Split(x, y) =>
      if height < MAX_THREADS {
        EndsWithin(prog, s, x, sp, height + 1, n - 1);
        BoundedIsRecursive(prog, s, x, sp, height + 1, n - 1);
        if BoundedIn(prog, s, x, sp, height + 1, n - 1).value.answer == 0 {
          EndsWithin(prog, s, y, sp, height, n - 1);
        }
      }
  }

  /** Wherever the recursive engine terminates this one does. */
  lemma NoLoopEnds(prog: Program, s: Subject, pc: nat, sp: nat, height: nat)
    requires WellFormed(prog) && pc < |prog| && sp <= |s| && NoLoop(prog, s, Config(pc, sp))
    ensures Ends(prog, s, pc, sp, height)
  {
    RecursiveTerminates(prog, s, pc, sp);
    var n: nat :| RecursiveIn(prog, s, pc, sp, n).Some?;
    EndsWithin(prog, s, pc, sp, height, n);
  }

  /** In programs without epsilon cycles every search ends. */
  lemma AcyclicEnds(prog: Program, s: Subject, pc: nat, sp: nat, height: nat)
    requires WellFormed(prog) && Acyclic(prog) && pc < |prog| && sp <= |s|
    ensures NoLoop(prog, s, Config(pc, sp)) && Ends(prog, s, pc, sp, height)
  {
    AcyclicNoLoop(prog, s, Config(pc, sp));
    NoLoopEnds(prog, s, pc, sp, height);
  }

  /** All engines terminate, wherever they are on the subject. */
  ghost predicate Halting(prog: Program, s: Subject) {
    && WellFormed(prog)
    && (forall pc: nat, sp: nat :: pc < |prog| && sp <= |s| ==> NoLoop(prog, s, Config(pc, sp)))
    && (forall pc: nat, sp: nat, height: nat :: pc < |prog| && sp <= |s| ==> Ends(prog, s, pc, sp, height))
  }

  lemma AcyclicHalting(prog: Program, s: Subject)
    requires WellFormed(prog) && Acyclic(prog)
    ensures Halting(prog, s)
  {
    forall pc: nat, sp: nat, height: nat | pc < |prog| && sp <= |s|
      ensures NoLoop(prog, s, Config(pc, sp)) && Ends(prog, s, pc, sp, height)
    {
      AcyclicEnds(prog, s, pc, sp, height);
    }
    forall pc: nat, sp: nat | pc < |prog| && sp <= |s|
      ensures NoLoop(prog, s, Config(pc, sp))
    {
      AcyclicEnds(prog, s, pc, sp, 0);
    }
  }

  /** The search gives up. */
  ghost predicate RunsOut(prog: Program, s: Subject, pc: nat, sp: nat, height: nat)
    requires WellFormed(prog) && pc < |prog| && sp <= |s|
  {
    exists n: nat :: BoundedIn(prog, s, pc, sp, height, n).Some? &&
                     BoundedIn(prog, s, pc, sp, height, n).value.answer == -1
  }

  lemma EndsOrRunsOut(prog: Program, s: Subject, pc: nat, sp: nat, height: nat)
    requires WellFormed(prog) && pc < |prog| && sp <= |s|
    ensures Ends(prog, s, pc, sp, height) <==>
              NoLoop(prog, s, Config(pc, sp)) || RunsOut(prog, s, pc, sp, height)
  {
    if Ends(prog, s, pc, sp, height) {
      BoundedMeaning(prog, s, pc, sp, height);
    }
    if NoLoop(prog, s, Config(pc, sp)) {
      NoLoopEnds(prog, s, pc, sp, height);
    }
  }

  const SELF_SPLIT: Program := [Split(0, 1), Match]

  lemma {:induction false} SelfSplitRunsOut(height: nat)
    requires height <= MAX_THREADS
    ensures BoundedIn(SELF_SPLIT, [], 0, 0, height, MAX_THREADS + 1 - height) ==
            Some(Trace(-1, MAX_THREADS + 1 - height))
    decreases MAX_THREADS - height
  {
    if height < MAX_THREADS {
      SelfSplitRunsOut(height + 1);
    }
  }

  /** A Split that branches to itself: the recursive engine never returns, this one gives up. */
  lemma GivesUpWhereRecursiveLoops()
    ensures WellFormed(SELF_SPLIT) && Ends(SELF_SPLIT, [], 0, 0, 0)
    ensures BoundedSearch(SELF_SPLIT, [], 0, 0, 0) == -1
    ensures !RecursiveReturns(SELF_SPLIT, [], 0, 0)
  {
    SelfSplitRunsOut(0);
    SearchIs(SELF_SPLIT, [], 0, 0, 0, MAX_THREADS + 1);
    CallLeads(SELF_SPLIT, [], START, START);
    RecursiveTerminates(SELF_SPLIT, [], 0, 0);
  }

  // ---- the stack ----

  datatype Thread = Thread(pc: nat, sp: nat)

  ghost predicate OnStack(prog: Program, s: Subject, t: Thread, height: nat)
    requires WellFormed(prog)
  {
    t.pc < |prog| && t.sp <= |s| && Ends(prog, s, t.pc, t.sp, height)
  }

  /** Every thread that will be run comes to an end; the last one on the stack runs first. */
  ghost predicate ValidStack(prog: Program, s: Subject, stack: seq<Thread>)
    requires WellFormed(prog)
  {
    stack == [] ||
    var top := |stack| - 1;
    && OnStack(prog, s, stack[top], top)
    && (BoundedSearch(prog, s, stack[top].pc, stack[top].sp, top) == 0 ==> ValidStack(prog, s, stack[..top]))
  }

  /** The answer of all threads on the stack, and the points still to be visited. */
  ghost function StackSearch(prog: Program, s: Subject, stack: seq<Thread>): Trace
    requires WellFormed(prog) && ValidStack(prog, s, stack)
  {
    if stack == [] then Trace(0, 0)
    else
      var top := |stack| - 1;
      var first := Search(prog, s, stack[top].pc, stack[top].sp, top);
      if first.answer != 0 then first
      else
        var others := StackSearch(prog, s, stack[..top]);
        Trace(others.answer, first.visits + others.visits)
  }

  lemma PopStack(below: seq<Thread>, t: Thread)
    ensures (below + [t])[..|below|] == below
  {
  }

  /** The thread on top moves to its next instruction. */
  lemma ThreadMoves(prog: Program, s: Subject, below: seq<Thread>, t: Thread, t': Thread)
    requires WellFormed(prog) && ValidStack(prog, s, below + [t])
    requires match prog[t.pc]
             case Char(c) => CharAt(s, t.sp) == c && t' == Thread(t.pc + 1, t.sp + 1)
             case Jmp(x) => t' == Thread(x, t.sp)
             case _ => false
    ensures t'.pc < |prog| && t'.sp <= |s| && ValidStack(prog, s, below + [t'])
    ensures StackSearch(prog, s, below + [t']).answer == StackSearch(prog, s, below + [t]).answer
    ensures StackSearch(prog, s, below + [t']).visits < StackSearch(prog, s, below + [t]).visits
  {
    PopStack(below, t);
    PopStack(below, t');
    assert WellFormedAt(prog, t.pc);
    SearchUnfolds(prog, s, t.pc, t.sp, |below|);
  }

  /** The thread on top dies at a character that does not match. */
  lemma ThreadDies(prog: Program, s: Subject, below: seq<Thread>, t: Thread)
    requires WellFormed(prog) && ValidStack(prog, s, below + [t])
    requires prog[t.pc].Char? && CharAt(s, t.sp) != prog[t.pc].c
    ensures ValidStack(prog, s, below)
    ensures StackSearch(prog, s, below).answer == StackSearch(prog, s, below + [t]).answer
    ensures StackSearch(prog, s, below).visits <= StackSearch(prog, s, below + [t]).visits
  {
    PopStack(below, t);
    SearchUnfolds(prog, s, t.pc, t.sp, |below|);
  }

  /** A Match, and a Split under 25 queued threads, settle the answer. */
  lemma ThreadSettles(prog: Program, s: Subject, below: seq<Thread>, t: Thread)
    requires WellFormed(prog) && ValidStack(prog, s, below + [t])
    ensures prog[t.pc].Match? ==> StackSearch(prog, s, below + [t]).answer == 1
    ensures prog[t.pc].Split? && |below| >= MAX_THREADS ==> StackSearch(prog, s, below + [t]).answer == -1
  {
    PopStack(below, t);
    SearchUnfolds(prog, s, t.pc, t.sp, |below|);
  }

  /** A Split queues its second branch and goes on with its first. */
  lemma SplitQueues(prog: Program, s: Subject, below: seq<Thread>, t: Thread)
    requires WellFormed(prog) && ValidStack(prog, s, below + [t]) && |below| < MAX_THREADS
    requires prog[t.pc].Split?
    ensures WellFormedAt(prog, t.pc)
    ensures var stack := below + [Thread(prog[t.pc].y, t.sp)] + [Thread(prog[t.pc].x, t.sp)];
            && ValidStack(prog, s, stack)
            && StackSearch(prog, s, stack).answer == StackSearch(prog, s, below + [t]).answer
            && StackSearch(prog, s, stack).visits < StackSearch(prog, s, below + [t]).visits
  {
    var second, first := Thread(prog[t.pc].y, t.sp), Thread(prog[t.pc].x, t.sp);
    PopStack(below, t);
    PopStack(below, second);
    PopStack(below + [second], first);
    assert WellFormedAt(prog, t.pc);
    SearchUnfolds(prog, s, t.pc, t.sp, |below|);
  }

  /** It terminates whenever its search ends, and stays within its 25 slots. */
  method BacktrackingVm(prog: Program, input: Subject) returns (r: int)
    requires WellFormed(prog) && Ends(prog, input, 0, 0, 0)
    ensures r == BoundedSearch(prog, input, 0, 0, 0)
    ensures r == -1 || (NoLoop(prog, input, START) && r == Recursive(prog, input, 0, 0))
  {
    BoundedMeaning(prog, input, 0, 0, 0);
    ghost var goal := BoundedSearch(prog, input, 0, 0, 0);
    var ready := new Thread[MAX_THREADS];
    ready[0] := Thread(0, 0);
    var nready := 1;
    assert ready[..1] == [Thread(0, 0)];
    while nready > 0
      invariant 0 <= nready <= MAX_THREADS && ValidStack(prog, input, ready[..nready])
      invariant StackSearch(prog, input, ready[..nready]).answer == goal
      decreases StackSearch(prog, input, ready[..nready]).visits, nready
    {
      ghost var queued := ready[..nready];
      nready := nready - 1;
      var pc: nat, sp: nat := ready[nready].pc, ready[nready].sp;
      assert queued == ready[..nready] + [Thread(pc, sp)];
      while true
        invariant 0 <= nready <= MAX_THREADS && pc < |prog| && sp <= |input|
        invariant ValidStack(prog, input, ready[..nready] + [Thread(pc, sp)])
        invariant StackSearch(prog, input, ready[..nready] + [Thread(pc, sp)]).answer == goal
        invariant StackSearch(prog, input, ready[..nready] + [Thread(pc, sp)]).visits <=
                  StackSearch(prog, input, queued).visits
        decreases StackSearch(prog, input, ready[..nready] + [Thread(pc, sp)]).visits
      {
        ghost var below, t := ready[..nready], Thread(pc, sp);
        assert WellFormedAt(prog, pc);
        match prog[pc] {
          case Char(c) =>
            if CharAt(input, sp) != c {
              ThreadDies(prog, input, below, t);
              break;
            }
            pc, sp := pc + 1, sp + 1;
            ThreadMoves(prog, input, below, t, Thread(pc, sp));
          case Match =>
            ThreadSettles(prog, input, below, t);
            return 1;
          case Jmp(x) =>
            pc := x;
            ThreadMoves(prog, input, below, t, Thread(pc, sp));
          case Split(x, y) =>
            if nready >= MAX_THREADS {
              ThreadSettles(prog, input, below, t);
              return -1;
            }
            SplitQueues(prog, input, below, t);
            ready[nready] := Thread(y, sp);
            nready := nready + 1;
            assert ready[..nready] == below + [Thread(y, sp)];
            pc := x;
        }
      }
    }
    r := 0;
  }
}
