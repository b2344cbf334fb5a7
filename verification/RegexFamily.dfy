/** The demo program: it builds the pattern a?^n a^n and runs the engines on it. */
module RegexFamily {
  import opened Basics
  import opened RegexProgram
  import opened DepthFirst
  import opened Backtracking
  import opened StackEngine
  import opened Thompson

  function FamilyInst(n: nat, pc: nat): Inst
    requires pc <= 3 * n
  {
    if pc < 2 * n then (if pc % 2 == 0 then Split(pc + 1, pc + 2) else Char('a'))
    else if pc < 3 * n then Char('a')
    else Match
  }

  /** The bytecode of a?^n a^n: n optional 'a's, then n mandatory ones. */
  function Family(n: nat): Program {
    seq(3 * n + 1, pc requires 0 <= pc <= 3 * n => FamilyInst(n, pc))
  }

  method BuildProgram(n: nat) returns (insts: array<Inst>)
    requires n > 0
    ensures fresh(insts) && insts[..] == Family(n)
  {
    insts := new Inst[3 * n + 1](_ => Match);
    for i := 0 to n
      invariant forall pc :: 0 <= pc < 2 * i ==> insts[pc] == FamilyInst(n, pc)
      invariant forall pc :: 2 * n <= pc < 2 * n + i ==> insts[pc] == FamilyInst(n, pc)
    {
      insts[2 * i] := Split(2 * i + 1, 2 * i + 2);
      insts[2 * i + 1] := Char('a');
      insts[2 * n + i] := Char('a');
    }
    insts[3 * n] := Match;
  }

  lemma OptionalInsts(n: nat, i: nat)
    requires i < n
    ensures Family(n)[2 * i] == Split(2 * i + 1, 2 * i + 2) && Family(n)[2 * i + 1] == Char('a')
  {
    assert Family(n)[2 * i] == FamilyInst(n, 2 * i);
    assert Family(n)[2 * i + 1] == FamilyInst(n, 2 * i + 1);
  }

  lemma FamilyIsAcyclic(n: nat)
    ensures WellFormed(Family(n)) && Acyclic(Family(n))
  {
    var prog := Family(n);
    forall pc | 0 <= pc < |prog|
      ensures WellFormedAt(prog, pc)
    {
      assert prog[pc] == FamilyInst(n, pc);
    }
    forall pc, x | 0 <= pc < |prog| && x in Branches(prog, pc)
      ensures pc < x
    {
      assert prog[pc] == FamilyInst(n, pc);
    }
    ForwardIsAcyclic(prog);
  }

  lemma FamilyHalts(n: nat, s: Subject)
    ensures Halting(Family(n), s)
  {
    FamilyIsAcyclic(n);
    AcyclicHalting(Family(n), s);
  }

  /** The m characters from sp on exist and are all 'a'. */
  predicate AllA(s: Subject, sp: nat, m: nat) {
    sp + m <= |s| && forall i :: sp <= i < sp + m ==> s[i] == 'a'
  }

  lemma {:induction false} MandatoryPart(n: nat, s: Subject, i: nat, sp: nat)
    requires i <= n && sp <= |s|
    ensures Accepts(Family(n), s, Config(2 * n + i, sp)) <==> AllA(s, sp, n - i)
    decreases n - i
  {
    FamilyIsAcyclic(n);
    assert Family(n)[2 * n + i] == FamilyInst(n, 2 * n + i);
    AcceptsByCalls(Family(n), s, Config(2 * n + i, sp));
    if i < n && sp < |s| && s[sp] == 'a' {
      MandatoryPart(n, s, i + 1, sp + 1);
      assert AllA(s, sp, n - i) <==> AllA(s, sp + 1, n - i - 1);
    }
  }

  lemma SplitOverChar(prog: Program, s: Subject, pc: nat, sp: nat)
    requires WellFormed(prog) && pc < |prog| && sp <= |s|
    requires prog[pc].Split? && prog[pc].x < |prog| && prog[prog[pc].x].Char?
    ensures Accepts(prog, s, Config(pc, sp)) <==>
              (CharAt(s, sp) == prog[prog[pc].x].c && Accepts(prog, s, Config(prog[pc].x + 1, sp + 1))) ||
              Accepts(prog, s, Config(prog[pc].y, sp))
  {
    AcceptsByCalls(prog, s, Config(pc, sp));
    AcceptsByCalls(prog, s, Config(prog[pc].x, sp));
  }

  /** An optional 'a' is taken or left out. */
  lemma TakenOrLeftOut(n: nat, s: Subject, i: nat, sp: nat)
    requires i < n && sp <= |s|
    ensures Accepts(Family(n), s, Config(2 * i, sp)) <==>
              (sp < |s| && s[sp] == 'a' && Accepts(Family(n), s, Config(2 * (i + 1), sp + 1))) ||
              Accepts(Family(n), s, Config(2 * (i + 1), sp))
  {
    FamilyIsAcyclic(n);
    OptionalInsts(n, i);
    SplitOverChar(Family(n), s, 2 * i, sp);
  }

  lemma {:induction false} OptionalPart(n: nat, s: Subject, i: nat, sp: nat)
    requires i <= n && sp <= |s|
    ensures Accepts(Family(n), s, Config(2 * i, sp)) <==> AllA(s, sp, n)
    decreases n - i
  {
    if i == n {
      MandatoryPart(n, s, 0, sp);
    } else {
      TakenOrLeftOut(n, s, i, sp);
      OptionalPart(n, s, i + 1, sp);
      if sp < |s| && s[sp] == 'a' {
        OptionalPart(n, s, i + 1, sp + 1);
        assert AllA(s, sp + 1, n) ==> AllA(s, sp, n);
      }
    }
  }

  /** The backtrackers accept exactly the subjects that start with n 'a's. */
  lemma RecursiveOnFamily(n: nat, s: Subject)
    ensures Halting(Family(n), s)
    ensures Recursive(Family(n), s, 0, 0) == 1 <==> AllA(s, 0, n)
  {
    FamilyHalts(n, s);
    OptionalPart(n, s, 0, 0);
  }

  /** Thompson's engine wants at least one character more. */
  lemma ThompsonOnFamily(n: nat, s: Subject)
    ensures WellFormed(Family(n))
    ensures MatchBefore(Family(n), s, |s|) <==> AllA(s, 0, n) && |s| > n
  {
    FamilyHalts(n, s);
    if s != [] {
      var t: Subject, x := s[..|s| - 1], s[|s| - 1];
      assert s == t + [x];
      FamilyHalts(n, t);
      ThompsonLagsByOne(Family(n), t, x);
      RecursiveOnFamily(n, t);
      assert AllA(t, 0, n) <==> AllA(s, 0, n) && |s| > n;
    }
  }

  /** On n 'a's, for one, the engines differ. */
  lemma EnginesDiffer(n: nat)
    ensures Halting(Family(n), As(n))
    ensures !Agree(Family(n), As(n))
    ensures !MatchBefore(Family(n), As(n), n) && Recursive(Family(n), As(n), 0, 0) == 1
  {
    FamilyHalts(n, As(n));
    ThompsonOnFamily(n, As(n));
    RecursiveOnFamily(n, As(n));
  }

  // ---- the stack engine on the family ----

  lemma {:induction false} MandatoryNeverGivesUp(n: nat, s: Subject, i: nat, sp: nat, height: nat)
    requires i <= n && sp <= |s|
    ensures Halting(Family(n), s)
    ensures BoundedSearch(Family(n), s, 2 * n + i, sp, height) != -1
    decreases n - i
  {
    FamilyHalts(n, s);
    assert Family(n)[2 * n + i] == FamilyInst(n, 2 * n + i);
    SearchUnfolds(Family(n), s, 2 * n + i, sp, height);
    if i < n && sp < |s| && s[sp] == 'a' {
      MandatoryNeverGivesUp(n, s, i + 1, sp + 1, height);
    }
  }

  lemma SearchOverChar(prog: Program, s: Subject, pc: nat, sp: nat, height: nat)
    requires Halting(prog, s) && pc < |prog| && sp <= |s|
    requires prog[pc].Split? && prog[pc].x < |prog| && prog[prog[pc].x].Char?
    ensures WellFormedAt(prog, pc) && WellFormedAt(prog, prog[pc].x)
    ensures BoundedSearch(prog, s, pc, sp, height) ==
            if height >= MAX_THREADS then -1
            else
              var first := if CharAt(s, sp) == prog[prog[pc].x].c
                           then BoundedSearch(prog, s, prog[pc].x + 1, sp + 1, height + 1) else 0;
              if first != 0 then first else BoundedSearch(prog, s, prog[pc].y, sp, height)
  {
    assert WellFormedAt(prog, pc) && WellFormedAt(prog, prog[pc].x);
    SearchUnfolds(prog, s, pc, sp, height);
    if height < MAX_THREADS {
      SearchUnfolds(prog, s, prog[pc].x, sp, height + 1);
    }
  }

  /** The search from one optional 'a', in terms of the searches after it. */
  lemma OptionalSearch(n: nat, s: Subject, i: nat, sp: nat, height: nat)
    requires i < n && sp <= |s|
    ensures Halting(Family(n), s)
    ensures BoundedSearch(Family(n), s, 2 * i, sp, height) ==
            if height >= MAX_THREADS then -1
            else
              var first := if sp < |s| && s[sp] == 'a'
                           then BoundedSearch(Family(n), s, 2 * (i + 1), sp + 1, height + 1) else 0;
              if first != 0 then first else BoundedSearch(Family(n), s, 2 * (i + 1), sp, height)
  {
    FamilyHalts(n, s);
    OptionalInsts(n, i);
    SearchOverChar(Family(n), s, 2 * i, sp, height);
  }

  /** After j optional 'a's were taken and all others skipped, j threads are queued. */
  lemma {:induction false} OptionalGivesUp(n: nat, s: Subject, i: nat, j: nat)
    requires j <= i <= n && j <= MAX_THREADS && AllA(s, 0, j)
    ensures Halting(Family(n), s)
    ensures BoundedSearch(Family(n), s, 2 * i, j, j) == -1 <==>
              i - j + MAX_THREADS < n && AllA(s, 0, MAX_THREADS)
    decreases n - i
  {
    FamilyHalts(n, s);
    if i == n {
      MandatoryNeverGivesUp(n, s, 0, j, j);
    } else {
      OptionalSearch(n, s, i, j, j);
      if j < MAX_THREADS {
        OptionalGivesUp(n, s, i + 1, j);
        if j < |s| && s[j] == 'a' {
          OptionalGivesUp(n, s, i + 1, j + 1);
        } else {
          assert !AllA(s, 0, MAX_THREADS);
        }
      }
    }
  }

  /** backtrackingvm gives up exactly for n >= 26 on subjects that start with 25 'a's. */
  lemma BacktrackingOnFamily(n: nat, s: Subject)
    ensures Halting(Family(n), s)
    ensures BoundedSearch(Family(n), s, 0, 0, 0) == -1 <==> n >= 26 && AllA(s, 0, 25)
  {
    OptionalGivesUp(n, s, 0, 0);
  }

  // ---- cost ----

  /** Number of calls that evaluating Recursive makes, itself included. */
  ghost function CallCount(prog: Program, s: Subject, pc: nat, sp: nat): (calls: nat)
    requires WellFormed(prog) && pc < |prog| && sp <= |s| && NoLoop(prog, s, Config(pc, sp))
    ensures calls >= 1
    decreases CallRank(prog, s, Config(pc, sp))
  {
    assert WellFormedAt(prog, pc);
    match prog[pc]
    case Char(c) =>
      if CharAt(s, sp) != c then 1
      else
        Descend(prog, s, pc, sp, pc + 1, sp + 1);
        1 + CallCount(prog, s, pc + 1, sp + 1)
    case Match => 1
    case Jmp(x) =>
      Descend(prog, s, pc, sp, x, sp);
      1 + CallCount(prog, s, x, sp)
    case Split(x, y) =>
      Descend(prog, s, pc, sp, x, sp);
      if Recursive(prog, s, x, sp) == 1 then 1 + CallCount(prog, s, x, sp)
      else
        Descend(prog, s, pc, sp, y, sp);
        1 + CallCount(prog, s, x, sp) + CallCount(prog, s, y, sp)
  }

  function As(n: nat): (s: Subject)
    ensures |s| == n && AllA(s, 0, n)
  {
    seq(n, _ => 'a')
  }

  /** A Split whose first branch starts with a matching character and does not accept. */
  lemma CallsOfSplit(prog: Program, s: Subject, pc: nat, sp: nat, x: nat, y: nat)
    requires Halting(prog, s) && pc < |prog| && sp < |s|
    requires prog[pc] == Split(x, y) && x < |prog| && prog[x] == Char(s[sp])
    requires !Accepts(prog, s, Config(x, sp))
    ensures x + 1 < |prog| && y < |prog|
    ensures CallCount(prog, s, pc, sp) == 2 + CallCount(prog, s, x + 1, sp + 1) + CallCount(prog, s, y, sp)
  {
    assert WellFormedAt(prog, pc) && WellFormedAt(prog, x);
    assert CallCount(prog, s, x, sp) == 1 + CallCount(prog, s, x + 1, sp + 1);
  }

  lemma OneTooMany(n: nat, i: nat, j: nat)
    requires j <= i < n
    ensures !Accepts(Family(n), As(n), Config(2 * i + 1, j))
  {
    FamilyIsAcyclic(n);
    OptionalInsts(n, i);
    AcceptsByCalls(Family(n), As(n), Config(2 * i + 1, j));
    OptionalPart(n, As(n), i + 1, j + 1);
  }

  /** Too few 'a's are left once one was taken, so both branches of an optional 'a' are searched. */
  lemma BothBranchesSearched(n: nat, i: nat, j: nat, pc: nat, next: nat)
    requires j <= i < n && Halting(Family(n), As(n)) && pc == 2 * i && next == 2 * (i + 1)
    ensures next < |Family(n)|
    ensures CallCount(Family(n), As(n), pc, j) ==
            2 + CallCount(Family(n), As(n), next, j + 1) + CallCount(Family(n), As(n), next, j)
  {
    OptionalInsts(n, i);
    OneTooMany(n, i, j);
    CallsOfSplit(Family(n), As(n), pc, j, pc + 1, next);
  }

  /** The mandatory 'a's cost one call each as long as characters are left, and one more. */
  lemma {:induction false} MandatoryCost(n: nat, i: nat, sp: nat)
    requires i <= n && sp <= n
    ensures Halting(Family(n), As(n))
    ensures CallCount(Family(n), As(n), 2 * n + i, sp) == Min(n - i, n - sp) + 1
    decreases n - i
  {
    FamilyHalts(n, As(n));
    assert Family(n)[2 * n + i] == FamilyInst(n, 2 * n + i);
    if i < n && sp < n {
      MandatoryCost(n, i + 1, sp + 1);
    }
  }

  predicate Splits(cost: (nat, nat) -> int, i: nat, j: nat) {
    cost(i, j) == 2 + cost(i + 1, j + 1) + cost(i + 1, j)
  }

  lemma TwoCosts(k: int, half: nat, x: int, y: int)
    requires 2 * x == (k - 1) * half - 4 && 2 * y == (k + 1) * half - 4
    ensures 2 * (2 + x + y) == k * (2 * half) - 4
  {
  }

  /** The closed form of a cost that grows by both branches' costs and 2, from n - j + 1 at the end. */
  lemma {:induction false} CostIs(cost: (nat, nat) -> int, n: nat, i: nat, j: nat, m: nat, k: int)
    requires forall a, b :: 0 <= b <= a < n ==> Splits(cost, a, b)
    requires forall b :: 0 <= b <= n ==> cost(n, b) == n - b + 1
    requires j <= i <= n && m == n - i && k == n + i + 6 - 2 * j
    ensures 2 * cost(i, j) == k * Pow2(m) - 4
    decreases m
  {
    if m > 0 {
      CostIs(cost, n, i + 1, j + 1, m - 1, k - 1);
      CostIs(cost, n, i + 1, j, m - 1, k + 1);
      TwoCosts(k, Pow2(m - 1), cost(i + 1, j + 1), cost(i + 1, j));
      assert Splits(cost, i, j);
    }
  }

  /** The calls from the i-th optional 'a' on, when j 'a's were taken. */
  ghost function OptionalCalls(n: nat): (cost: (nat, nat) -> int)
    requires Halting(Family(n), As(n))
    ensures forall i: nat, j: nat :: j <= i <= n ==> cost(i, j) == CallCount(Family(n), As(n), 2 * i, j)
  {
    (i: nat, j: nat) => if j <= i <= n then CallCount(Family(n), As(n), 2 * i, j) else 0
  }

  lemma OptionalCost(n: nat)
    ensures Halting(Family(n), As(n))
    ensures 2 * OptionalCalls(n)(0, 0) == (n + 6) * Pow2(n) - 4
  {
    FamilyHalts(n, As(n));
    var cost := OptionalCalls(n);
    forall i, j | 0 <= j <= i < n ensures Splits(cost, i, j) {
      BothBranchesSearched(n, i, j, 2 * i, 2 * (i + 1));
    }
    forall j | 0 <= j <= n ensures cost(n, j) == n - j + 1 {
      MandatoryCost(n, 0, j);
    }
    CostIs(cost, n, 0, 0, n, n + 6);
  }

  /** Matching n 'a's takes the recursive engine exactly 2^n * (n + 6) / 2 - 2 calls. */
  lemma RecursiveIsExponential(n: nat)
    ensures Halting(Family(n), As(n))
    ensures 2 * CallCount(Family(n), As(n), 0, 0) == (n + 6) * Pow2(n) - 4
    ensures CallCount(Family(n), As(n), 0, 0) >= Pow2(n)
    ensures Recursive(Family(n), As(n), 0, 0) == 1
  {
    OptionalCost(n);
    AtLeastPower(n, Pow2(n), CallCount(Family(n), As(n), 0, 0));
    RecursiveOnFamily(n, As(n));
  }

  lemma AtLeastPower(n: nat, power: nat, cost: int)
    requires 2 * cost == (n + 6) * power - 4 && power > 0
    ensures cost >= power
  {
    MulMono(6, n + 6, power);
  }

  /** The demo: fails for n <= 0, otherwise reports both engines' verdicts.
      `work` is the number of threads Thompson's engine ran. */
  method RunDemo(n: int, str: Subject) returns (ok: bool, thompson: bool, backtracking: bool, work: nat)
    ensures ok <==> n > 0
    ensures ok ==> (thompson <==> AllA(str, 0, n) && |str| > n)
    ensures ok ==> (backtracking <==> AllA(str, 0, n))
    ensures ok ==> work <= (3 * n + 1) * |str|
  {
    if n <= 0 {
      return false, false, false, 0;
    }
    var insts := BuildProgram(n);
    FamilyHalts(n, str);
    ThompsonOnFamily(n, str);
    RecursiveOnFamily(n, str);
    var t, w := ThompsonVm(insts[..], str);
    var b := RecursiveLoop(insts[..], str, 0, 0);
    return true, t == 1, b == 1, w;
  }
}
