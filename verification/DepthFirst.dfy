/** The calls that a depth-first search makes, and when there is no loop among them. */
module DepthFirst {
  import opened Basics
  import opened RegexProgram

  ghost predicate Within(prog: Program, s: Subject, a: Config) {
    a.pc < |prog| && a.sp <= |s|
  }

  /** The search at a goes on to b. The second branch of a Split is left out if the first one accepts. */
  ghost predicate Calls(prog: Program, s: Subject, a: Config, b: Config)
    requires Within(prog, s, a)
  {
    match prog[a.pc]
    case Char(_) => Consumes(prog, s, a) && b == Config(a.pc + 1, a.sp + 1)
    case Match => false
    case Jmp(x) => b == Config(x, a.sp)
    case Split(x, y) =>
      b == Config(x, a.sp) || (b == Config(y, a.sp) && !Accepts(prog, s, Config(x, a.sp)))
  }

  ghost predicate CallsIn(prog: Program, s: Subject, n: nat, a: Config, b: Config) {
    if n == 0 then a == b
    else Within(prog, s, a) && exists m :: Calls(prog, s, a, m) && CallsIn(prog, s, n - 1, m, b)
  }

  /** b is met later than a. */
  ghost predicate Leads(prog: Program, s: Subject, a: Config, b: Config) {
    exists n: nat :: n > 0 && CallsIn(prog, s, n, a, b)
  }

  /** The search from a never comes to a point that it is still busy with. */
  ghost predicate NoLoop(prog: Program, s: Subject, a: Config) {
    !Leads(prog, s, a, a) && forall b :: Leads(prog, s, a, b) ==> !Leads(prog, s, b, b)
  }

  ghost function Ahead(prog: Program, s: Subject, a: Config): set<Config> {
    set pc: nat, sp: nat | pc < |prog| && sp <= |s| && Leads(prog, s, a, Config(pc, sp)) :: Config(pc, sp)
  }

  /** How many points the search from a can come to. */
  ghost function CallRank(prog: Program, s: Subject, a: Config): nat {
    |Ahead(prog, s, a)|
  }

  lemma CallStaysWithin(prog: Program, s: Subject, a: Config, b: Config)
    requires WellFormed(prog) && Within(prog, s, a) && Calls(prog, s, a, b)
    ensures Within(prog, s, b)
  {
    assert WellFormedAt(prog, a.pc);
  }

  lemma CallLeads(prog: Program, s: Subject, a: Config, b: Config)
    requires Within(prog, s, a) && Calls(prog, s, a, b)
    ensures Leads(prog, s, a, b)
    ensures forall c :: Leads(prog, s, b, c) ==> Leads(prog, s, a, c)
  {
    assert CallsIn(prog, s, 0, b, b);
    assert CallsIn(prog, s, 1, a, b);
    forall c, n: nat | n > 0 && CallsIn(prog, s, n, b, c)
      ensures Leads(prog, s, a, c)
    {
      assert CallsIn(prog, s, n + 1, a, c);
    }
  }

  /** What a leads to, it calls or one of its calls leads to. */
  lemma FirstCall(prog: Program, s: Subject, a: Config, c: Config) returns (b: Config)
    requires Leads(prog, s, a, c)
    ensures Within(prog, s, a) && Calls(prog, s, a, b) && (b == c || Leads(prog, s, b, c))
  {
    var n: nat :| n > 0 && CallsIn(prog, s, n, a, c);
    b :| Calls(prog, s, a, b) && CallsIn(prog, s, n - 1, b, c);
  }

  /** Without a loop every call lowers the rank. */
  lemma CallDescends(prog: Program, s: Subject, a: Config, b: Config)
    requires WellFormed(prog) && Within(prog, s, a) && NoLoop(prog, s, a) && Calls(prog, s, a, b)
    ensures Within(prog, s, b) && NoLoop(prog, s, b) && CallRank(prog, s, b) < CallRank(prog, s, a)
  {
    CallStaysWithin(prog, s, a, b);
    CallLeads(prog, s, a, b);
    assert b in Ahead(prog, s, a) && b !in Ahead(prog, s, b);
    ProperSubsetIsSmaller(Ahead(prog, s, b), Ahead(prog, s, a));
  }

  /** A loop is entered at a only if it is entered at one of a's calls. */
  lemma NoLoopFromCalls(prog: Program, s: Subject, a: Config)
    requires Within(prog, s, a) && forall b :: Calls(prog, s, a, b) ==> NoLoop(prog, s, b)
    ensures NoLoop(prog, s, a)
  {
    if Leads(prog, s, a, a) {
      var b := FirstCall(prog, s, a, a);
      CallLeads(prog, s, a, b);
      if b != a {
        LeadsOn(prog, s, b, a, b);
      }
      assert false;
    }
    forall c | Leads(prog, s, a, c)
      ensures !Leads(prog, s, c, c)
    {
      var b := FirstCall(prog, s, a, c);
    }
  }

  lemma LeadsOn(prog: Program, s: Subject, a: Config, b: Config, c: Config)
    requires Leads(prog, s, a, b) && Leads(prog, s, b, c)
    ensures Leads(prog, s, a, c)
  {
    var n: nat :| n > 0 && CallsIn(prog, s, n, a, b);
    LeadsOnIn(prog, s, n, a, b, c);
  }

  lemma {:induction false} LeadsOnIn(prog: Program, s: Subject, n: nat, a: Config, b: Config, c: Config)
    requires n > 0 && CallsIn(prog, s, n, a, b) && Leads(prog, s, b, c)
    ensures Leads(prog, s, a, c)
  {
    var m :| Calls(prog, s, a, m) && CallsIn(prog, s, n - 1, m, b);
    if n > 1 {
      LeadsOnIn(prog, s, n - 1, m, b, c);
    }
    CallLeads(prog, s, a, m);
  }

  /** Programs without epsilon cycles are searched without a loop, on every subject. */
  lemma {:induction false} AcyclicNoLoop(prog: Program, s: Subject, a: Config)
    requires WellFormed(prog) && Acyclic(prog) && Within(prog, s, a)
    ensures NoLoop(prog, s, a)
    decreases |s| - a.sp, Rank(prog, a.pc)
  {
    forall b | Calls(prog, s, a, b)
      ensures NoLoop(prog, s, b)
    {
      CallStaysWithin(prog, s, a, b);
      if b.sp == a.sp {
        RankDecreases(prog, a.pc, b.pc);
      }
      AcyclicNoLoop(prog, s, b);
    }
    NoLoopFromCalls(prog, s, a);
  }

  // ---- acceptance, by the kind of instruction ----

  lemma AcceptsByCalls(prog: Program, s: Subject, a: Config)
    requires WellFormed(prog) && Within(prog, s, a)
    ensures match prog[a.pc]
            case Char(c) => Accepts(prog, s, a) <==> CharAt(s, a.sp) == c && Accepts(prog, s, Config(a.pc + 1, a.sp + 1))
            case Match => Accepts(prog, s, a)
            case Jmp(x) => Accepts(prog, s, a) <==> Accepts(prog, s, Config(x, a.sp))
            case Split(x, y) =>
              Accepts(prog, s, a) <==> Accepts(prog, s, Config(x, a.sp)) || Accepts(prog, s, Config(y, a.sp))
  {
    assert WellFormedAt(prog, a.pc);
    AcceptsUnfold(prog, s, a);
    match prog[a.pc]
    case Char(c) =>
      assert CharAt(s, a.sp) == c <==> Step(prog, s, a, Config(a.pc + 1, a.sp + 1));
    case Match =>
    case Jmp(x) =>
      assert Step(prog, s, a, Config(x, a.sp));
    case Split(x, y) =>
      assert Step(prog, s, a, Config(x, a.sp)) && Step(prog, s, a, Config(y, a.sp));
  }
}
