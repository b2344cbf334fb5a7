/** The bytecode shared by the four regular-expression engines, and what it means
    for a program counter to be reachable on a subject string.

    An instruction pointer is an index into the program; a subject is a C string
    without its terminator, so reading at its end yields NUL. */
module RegexProgram {
  import opened Basics

  const NUL: char := '\0'

  type Subject = s: seq<char> | NUL !in s

  datatype Inst = Char(c: char) | Match | Jmp(x: nat) | Split(x: nat, y: nat)

  type Program = seq<Inst>

  /** A point of the search: the next instruction and the number of characters consumed. */
  datatype Config = Config(pc: nat, sp: nat)

  const START := Config(0, 0)

  /** The character that `*sp` reads; the terminator once the subject is used up. */
  function CharAt(s: Subject, sp: nat): (c: char)
    requires sp <= |s|
  {
    if sp < |s| then s[sp] else NUL
  }

  /** Pointers stay inside the program and no instruction matches the terminator. */
  predicate WellFormed(prog: Program) {
    |prog| > 0 && forall pc :: 0 <= pc < |prog| ==> WellFormedAt(prog, pc)
  }

  predicate WellFormedAt(prog: Program, pc: nat)
    requires pc < |prog|
  {
    match prog[pc]
    case Char(c) => c != NUL && pc + 1 < |prog|
    case Match => true
    case Jmp(x) => x < |prog|
    case Split(x, y) => x < |prog| && y < |prog|
  }

  /** Targets of the epsilon edges leaving pc. */
  function Branches(prog: Program, pc: nat): set<nat>
    requires pc < |prog|
  {
    match prog[pc]
    case Jmp(x) => {x}
    case Split(x, y) => {x, y}
    case _ => {}
  }

  ghost predicate Consumes(prog: Program, s: Subject, a: Config) {
    a.pc < |prog| && prog[a.pc].Char? && a.sp < |s| && s[a.sp] == prog[a.pc].c
  }

  ghost predicate Step(prog: Program, s: Subject, a: Config, b: Config) {
    a.pc < |prog| &&
    ((b.sp == a.sp && b.pc in Branches(prog, a.pc)) ||
     (Consumes(prog, s, a) && b == Config(a.pc + 1, a.sp + 1)))
  }

  ghost predicate ReachIn(prog: Program, s: Subject, n: nat, a: Config, b: Config) {
    if n == 0 then a == b
    else exists m :: Step(prog, s, a, m) && ReachIn(prog, s, n - 1, m, b)
  }

  ghost predicate Reaches(prog: Program, s: Subject, a: Config, b: Config) {
    exists n: nat :: ReachIn(prog, s, n, a, b)
  }

  /** Reach(k): the program counters reachable after consuming exactly k characters. */
  ghost function Reach(prog: Program, s: Subject, k: nat): set<nat> {
    set pc | 0 <= pc < |prog| && Reaches(prog, s, START, Config(pc, k))
  }

  ghost predicate MatchAt(prog: Program, s: Subject, k: nat) {
    exists pc :: pc in Reach(prog, s, k) && prog[pc].Match?
  }

  /** Some Match instruction is reachable after fewer than `bound` characters. */
  ghost predicate MatchBefore(prog: Program, s: Subject, bound: nat) {
    exists k: nat :: k < bound && MatchAt(prog, s, k)
  }

  ghost predicate Accepts(prog: Program, s: Subject, a: Config) {
    exists b :: Reaches(prog, s, a, b) && b.pc < |prog| && prog[b.pc].Match?
  }

  // ---- the step relation ----

  lemma {:induction false} ReachInSnoc(prog: Program, s: Subject, n: nat, a: Config, b: Config, c: Config)
    requires ReachIn(prog, s, n, a, b) && Step(prog, s, b, c)
    ensures ReachIn(prog, s, n + 1, a, c)
  {
    if n == 0 {
      assert ReachIn(prog, s, 0, c, c);
    } else {
      var m :| Step(prog, s, a, m) && ReachIn(prog, s, n - 1, m, b);
      ReachInSnoc(prog, s, n - 1, m, b, c);
    }
  }

  lemma {:induction false} ReachInLast(prog: Program, s: Subject, n: nat, a: Config, c: Config) returns (b: Config)
    requires n > 0 && ReachIn(prog, s, n, a, c)
    ensures ReachIn(prog, s, n - 1, a, b) && Step(prog, s, b, c)
  {
    var m :| Step(prog, s, a, m) && ReachIn(prog, s, n - 1, m, c);
    if n == 1 {
      b := a;
    } else {
      b := ReachInLast(prog, s, n - 1, m, c);
    }
  }

  lemma ReachesStep(prog: Program, s: Subject, a: Config, b: Config, c: Config)
    requires Reaches(prog, s, a, b) && Step(prog, s, b, c)
    ensures Reaches(prog, s, a, c)
  {
    var n: nat :| ReachIn(prog, s, n, a, b);
    ReachInSnoc(prog, s, n, a, b, c);
  }

  lemma ReachesSelf(prog: Program, s: Subject, a: Config)
    ensures Reaches(prog, s, a, a)
  {
    assert ReachIn(prog, s, 0, a, a);
  }

  /** A run never leaves the program and never consumes more than the subject holds. */
  lemma {:induction false} ReachInBounds(prog: Program, s: Subject, n: nat, a: Config, b: Config)
    requires WellFormed(prog) && a.pc < |prog| && a.sp <= |s|
    requires ReachIn(prog, s, n, a, b)
    ensures b.pc < |prog| && a.sp <= b.sp <= |s|
  {
    if n > 0 {
      var m :| Step(prog, s, a, m) && ReachIn(prog, s, n - 1, m, b);
      assert WellFormedAt(prog, a.pc);
      ReachInBounds(prog, s, n - 1, m, b);
    }
  }

  /** Acceptance from `a`, one instruction unfolded. */
  lemma AcceptsUnfold(prog: Program, s: Subject, a: Config)
    requires a.pc < |prog|
    ensures Accepts(prog, s, a) <==>
              prog[a.pc].Match? || exists m :: Step(prog, s, a, m) && Accepts(prog, s, m)
  {
    if Accepts(prog, s, a) && !prog[a.pc].Match? {
      var b, n: nat :| ReachIn(prog, s, n, a, b) && b.pc < |prog| && prog[b.pc].Match?;
      var m :| Step(prog, s, a, m) && ReachIn(prog, s, n - 1, m, b);
      assert Reaches(prog, s, m, b);
    }
    if prog[a.pc].Match? {
      ReachesSelf(prog, s, a);
    }
    forall m | Step(prog, s, a, m) && Accepts(prog, s, m)
      ensures Accepts(prog, s, a)
    {
      var b, n: nat :| ReachIn(prog, s, n, m, b) && b.pc < |prog| && prog[b.pc].Match?;
      assert ReachIn(prog, s, n + 1, a, b);
      assert Reaches(prog, s, a, b);
    }
  }

  /** Acceptance from the start is the same as a Match in some Reach(k), k at most |s|. */
  lemma AcceptsIsMatchBefore(prog: Program, s: Subject)
    requires WellFormed(prog)
    ensures Accepts(prog, s, START) <==> MatchBefore(prog, s, |s| + 1)
  {
    if Accepts(prog, s, START) {
      var b, n: nat :| ReachIn(prog, s, n, START, b) && b.pc < |prog| && prog[b.pc].Match?;
      ReachInBounds(prog, s, n, START, b);
      assert Reaches(prog, s, START, Config(b.pc, b.sp));
      assert b.pc in Reach(prog, s, b.sp);
      assert MatchAt(prog, s, b.sp);
    }
    if MatchBefore(prog, s, |s| + 1) {
      var k: nat :| k < |s| + 1 && MatchAt(prog, s, k);
      var pc :| pc in Reach(prog, s, k) && prog[pc].Match?;
      assert Reaches(prog, s, START, Config(pc, k));
    }
  }

  // ---- Reach(k) grows level by level ----

  /** What the first k characters put on the list before epsilon edges are followed. */
  ghost function Seeds(prog: Program, s: Subject, k: nat): set<nat> {
    if k == 0 then {0}
    else set q | 0 < q < |prog| && EnteredAt(prog, s, k, q)
  }

  /** q follows a Char instruction of level k - 1 that accepts the k-th character. */
  ghost predicate EnteredAt(prog: Program, s: Subject, k: nat, q: nat) {
    k > 0 && q > 0 && q - 1 in Reach(prog, s, k - 1) && Consumes(prog, s, Config(q - 1, k - 1))
  }

  lemma SeedsAreReached(prog: Program, s: Subject, k: nat, pc: nat)
    requires WellFormed(prog) && pc in Seeds(prog, s, k)
    ensures pc in Reach(prog, s, k)
  {
    if k == 0 {
      ReachesSelf(prog, s, START);
    } else {
      ReachesStep(prog, s, START, Config(pc - 1, k - 1), Config(pc, k));
    }
  }

  lemma BranchesAreReached(prog: Program, s: Subject, k: nat, pc: nat, x: nat)
    requires WellFormed(prog) && pc in Reach(prog, s, k) && x in Branches(prog, pc)
    ensures x in Reach(prog, s, k)
  {
    assert WellFormedAt(prog, pc);
    ReachesStep(prog, s, START, Config(pc, k), Config(x, k));
  }

  /** Reach(k) is the least set that holds the seeds and is closed under epsilon edges. */
  lemma ReachIsLeast(prog: Program, s: Subject, k: nat, closed: set<nat>)
    requires WellFormed(prog)
    requires Seeds(prog, s, k) <= closed
    requires forall pc, x :: pc in closed && pc < |prog| && x in Branches(prog, pc) ==> x in closed
    ensures Reach(prog, s, k) <= closed
  {
    forall pc | pc in Reach(prog, s, k)
      ensures pc in closed
    {
      var n: nat :| ReachIn(prog, s, n, START, Config(pc, k));
      ReachInClosed(prog, s, n, k, pc, closed);
    }
  }

  lemma {:induction false} ReachInClosed(prog: Program, s: Subject, n: nat, k: nat, pc: nat, closed: set<nat>)
    requires WellFormed(prog)
    requires Seeds(prog, s, k) <= closed
    requires forall p, x :: p in closed && p < |prog| && x in Branches(prog, p) ==> x in closed
    requires ReachIn(prog, s, n, START, Config(pc, k))
    ensures pc in closed
  {
    if n > 0 {
      var b := ReachInLast(prog, s, n, START, Config(pc, k));
      ReachInBounds(prog, s, n - 1, START, b);
      if b.sp == k {
        ReachInClosed(prog, s, n - 1, k, b.pc, closed);
      } else {
        assert Consumes(prog, s, b) && b == Config(pc - 1, k - 1);
        assert Reaches(prog, s, START, b);
        assert b.pc in Reach(prog, s, k - 1);
        assert EnteredAt(prog, s, k, pc);
        assert WellFormedAt(prog, b.pc);
      }
    }
  }

  // ---- what lies beyond position k cannot influence Reach(k) ----

  lemma {:induction false} ReachInExtend(prog: Program, s: Subject, x: char, n: nat, a: Config, b: Config)
    requires WellFormed(prog) && x != NUL && b.sp <= |s|
    ensures ReachIn(prog, s, n, a, b) <==> ReachIn(prog, s + [x], n, a, b)
  {
    var t: Subject := s + [x];
    if n > 0 {
      forall m
        ensures (Step(prog, s, a, m) && ReachIn(prog, s, n - 1, m, b)) <==>
                (Step(prog, t, a, m) && ReachIn(prog, t, n - 1, m, b))
      {
        ReachInExtend(prog, s, x, n - 1, m, b);
        if Step(prog, t, a, m) && ReachIn(prog, t, n - 1, m, b) {
          ReachInGrows(prog, t, n - 1, m, b);
        }
      }
    }
  }

  lemma {:induction false} ReachInGrows(prog: Program, s: Subject, n: nat, a: Config, b: Config)
    requires ReachIn(prog, s, n, a, b)
    ensures a.sp <= b.sp
  {
    if n > 0 {
      var m :| Step(prog, s, a, m) && ReachIn(prog, s, n - 1, m, b);
      ReachInGrows(prog, s, n - 1, m, b);
    }
  }

  lemma ReachExtend(prog: Program, s: Subject, x: char, k: nat)
    requires WellFormed(prog) && x != NUL && k <= |s|
    ensures Reach(prog, s, k) == Reach(prog, s + [x], k)
  {
    var t: Subject := s + [x];
    forall pc | 0 <= pc < |prog|
      ensures pc in Reach(prog, s, k) <==> pc in Reach(prog, t, k)
    {
      forall n: nat
        ensures ReachIn(prog, s, n, START, Config(pc, k)) <==> ReachIn(prog, t, n, START, Config(pc, k))
      {
        ReachInExtend(prog, s, x, n, START, Config(pc, k));
      }
    }
  }

  /** Reach(k) is the same on every prefix of at least k characters. */
  lemma {:induction false} ReachPrefix(prog: Program, s: Subject, n: nat, k: nat)
    requires WellFormed(prog) && k <= n <= |s|
    ensures Reach(prog, s[..n], k) == Reach(prog, s, k)
    decreases |s| - n
  {
    if n < |s| {
      ReachPrefix(prog, s, n + 1, k);
      ReachExtend(prog, s[..n], s[n], k);
      assert s[..n] + [s[n]] == s[..n + 1];
    } else {
      assert s[..n] == s;
    }
  }

  // ---- programs without epsilon cycles ----

  ghost predicate EpsilonIn(prog: Program, n: nat, p: nat, q: nat) {
    p < |prog| &&
    if n == 0 then q in Branches(prog, p)
    else exists m :: m in Branches(prog, p) && EpsilonIn(prog, n - 1, m, q)
  }

  /** q follows from p by one or more epsilon edges. */
  ghost predicate EpsilonPath(prog: Program, p: nat, q: nat) {
    exists n: nat :: EpsilonIn(prog, n, p, q)
  }

  ghost predicate Acyclic(prog: Program) {
    forall pc :: 0 <= pc < |prog| ==> !EpsilonPath(prog, pc, pc)
  }

  ghost function EpsilonReach(prog: Program, pc: nat): set<nat> {
    set q | 0 <= q < |prog| && EpsilonPath(prog, pc, q)
  }

  /** How many program counters lie ahead of pc without consuming a character. */
  ghost function Rank(prog: Program, pc: nat): nat {
    |EpsilonReach(prog, pc)|
  }

  /** In an acyclic program every epsilon edge lowers the rank, so the search tree is finite. */
  lemma RankDecreases(prog: Program, pc: nat, x: nat)
    requires WellFormed(prog) && Acyclic(prog) && pc < |prog| && x in Branches(prog, pc)
    ensures x < |prog| && Rank(prog, x) < Rank(prog, pc)
  {
    assert WellFormedAt(prog, pc);
    assert EpsilonIn(prog, 0, pc, x);
    forall q | q in EpsilonReach(prog, x)
      ensures q in EpsilonReach(prog, pc)
    {
      var n: nat :| EpsilonIn(prog, n, x, q);
      assert EpsilonIn(prog, n + 1, pc, q);
    }
    assert x in EpsilonReach(prog, pc) && x !in EpsilonReach(prog, x);
    ProperSubsetIsSmaller(EpsilonReach(prog, x), EpsilonReach(prog, pc));
  }

  /** A program whose epsilon edges all point forward has no epsilon cycle. */
  lemma ForwardIsAcyclic(prog: Program)
    requires forall pc, x :: 0 <= pc < |prog| && x in Branches(prog, pc) ==> pc < x
    ensures Acyclic(prog)
  {
    forall pc, n: nat | 0 <= pc < |prog| && EpsilonIn(prog, n, pc, pc)
      ensures false
    {
      EpsilonInForward(prog, n, pc, pc);
    }
  }

  lemma {:induction false} EpsilonInForward(prog: Program, n: nat, p: nat, q: nat)
    requires forall pc, x :: 0 <= pc < |prog| && x in Branches(prog, pc) ==> pc < x
    requires EpsilonIn(prog, n, p, q)
    ensures p < q
  {
    if n > 0 {
      var m :| m in Branches(prog, p) && EpsilonIn(prog, n - 1, m, q);
      EpsilonInForward(prog, n - 1, m, q);
    }
  }
}
