/** Recursive dependencies and recursive values: what the check follows, stated of the properties themselves,
    and where its cycles are exactly the symbols that are computed from themselves. */
module DepCycles {
  import opened Exprs
  import opened SymbolRules
  import opened SymbolTheory
  import opened SymbolReads
  import opened DepCheck

  /** The conditions of prompts, defaults and ranges are followed, and the value of a default unless the symbol
      is a choice; what is selected is not. */
  predicate Mentions(c: Config, s: Symbol, p: Property, t: Symbol) {
    || ((p.Prompt? || p.Default? || p.Range?) && t in SymbolsOfOpt(p.visible))
    || (p.Default? && !c.IsChoice(s) && t in SymbolsOf(p.expr))
  }

  lemma {:induction false} FollowedComesFrom(props: seq<Property>, isChoice: bool, e: OptExpr) returns (p: Property)
    requires e in FollowedFrom(props, isChoice)
    ensures p in props && e in Followed(p, isChoice)
  {
    if e in Followed(props[0], isChoice) { p := props[0]; } else { p := FollowedComesFrom(props[1..], isChoice, e); }
  }

  /** A symbol is followed to the symbols of its reverse dependency and to what its properties mention. */
  lemma EdgeIff(c: Config, s: Symbol, t: Symbol)
    ensures Edge(c, s, t) <==>
      t in SymbolsOfOpt(c.Info(s).revDep) || exists p :: p in c.Info(s).props && Mentions(c, s, p, t)
  {
    if Edge(c, s, t) {
      var e :| e in FollowedOf(c, s) && t in SymbolsOfOpt(e);
      if e != c.Info(s).revDep {
        var p := FollowedComesFrom(c.Info(s).props, c.IsChoice(s), e);
        assert Mentions(c, s, p, t);
      }
    }
    if t in SymbolsOfOpt(c.Info(s).revDep) {
      assert c.Info(s).revDep in FollowedOf(c, s);
    }
    if exists p :: p in c.Info(s).props && Mentions(c, s, p, t) {
      var p :| p in c.Info(s).props && Mentions(c, s, p, t);
      FollowedCovers(c.Info(s).props, c.IsChoice(s), p);
      var e := if t in SymbolsOfOpt(p.visible) && !p.Select? then p.visible else Some(p.expr);
      assert e in Followed(p, c.IsChoice(s)) && e in FollowedOf(c, s);
    }
  }

  // ----- where the check and the calculation look at the same symbols -----

  /** A bool or tristate symbol outside choices and without ranges, or a symbol nothing is said about. */
  predicate ExactAt(c: Config, s: Symbol) {
    s in c.info ==>
      && s.IsBoolOrTristate() && c.Info(s).role == Plain
      && forall p :: p in c.Info(s).props ==> !p.Range?
  }

  lemma EdgesAreReads(c: Config, s: Symbol, t: Symbol)
    requires ExactAt(c, s)
    ensures Edge(c, s, t) <==> Reads(c, s, t)
  {
    EdgeIff(c, s, t);
    if Reads(c, s, t) {
      assert PlainAt(c, s);
      PlainReads(c, s, t);
    }
    if exists p :: p in c.Info(s).props && Mentions(c, s, p, t) {
      var p :| p in c.Info(s).props && Mentions(c, s, p, t);
      assert PropertyReads(c, s, p, t);
    }
  }

  /** All symbols of a set are of that kind, and everything they are followed to is in it. */
  ghost predicate ExactSet(c: Config, all: set<Symbol>) {
    Closed(c, all) && forall s :: s in all ==> ExactAt(c, s)
  }

  lemma PathIsReadPath(c: Config, all: set<Symbol>, p: seq<Symbol>)
    requires ExactSet(c, all) && p != [] && p[0] in all && IsPath(c, p)
    ensures IsReadPath(c, p)
  {
    forall i: nat | i < |p| - 1
      ensures Reads(c, p[i], p[1..][i])
    {
      StaysInside(c, all, p, i);
      assert Edge(c, p[i], p[i + 1]);
      EdgesAreReads(c, p[i], p[i + 1]);
    }
  }

  lemma {:induction false} StaysInside(c: Config, all: set<Symbol>, p: seq<Symbol>, i: nat)
    requires Closed(c, all) && IsPath(c, p) && i < |p| && p[0] in all
    ensures p[i] in all
  {
    if i > 0 {
      StaysInside(c, all, p, i - 1);
      assert Edge(c, p[i - 1], p[i - 1 + 1]);
    }
  }

  lemma PathCons(c: Config, s: Symbol, q: seq<Symbol>)
    requires IsPath(c, q) && q != [] && Edge(c, s, q[0])
    ensures IsPath(c, [s] + q)
  {
    var p := [s] + q;
    forall i | 0 <= i < |p| - 1
      ensures Edge(c, p[i], p[i + 1])
    {
      if i > 0 { assert Edge(c, q[i - 1], q[i - 1 + 1]); }
    }
  }

  lemma {:induction false} ReadPathIsPath(c: Config, all: set<Symbol>, p: seq<Symbol>)
    requires ExactSet(c, all) && p != [] && p[0] in all && IsReadPath(c, p)
    ensures IsPath(c, p)
    decreases |p|
  {
    if |p| >= 2 {
      assert Reads(c, p[0], p[1..][0]);
      EdgesAreReads(c, p[0], p[1]);
      ReadPathTail(c, p);
      ReadPathIsPath(c, all, p[1..]);
      PathCons(c, p[0], p[1..]);
      assert [p[0]] + p[1..] == p;
    }
  }

  lemma ReadPathBelow(c: Config, p: seq<Symbol>)
    requires IsReadPath(c, p) && |p| >= 2
    ensures ReachesBelow(c, p[0], p[|p| - 1])
  {
    ReadPathTail(c, p);
    var r, q := p[1], p[1..];
    assert Reads(c, p[0], p[1..][0]);
    assert q[0] == r && q[|q| - 1] == p[|p| - 1];
  }

  lemma CycleReaches(c: Config, all: set<Symbol>, s: Symbol)
    requires ExactSet(c, all) && s in all && OnCycle(c, s)
    ensures ReachesBelow(c, s, s)
  {
    var p :| IsPath(c, p) && |p| >= 2 && p[0] == s && p[|p| - 1] == s;
    PathIsReadPath(c, all, p);
    ReadPathBelow(c, p);
  }

  lemma ReachesCycles(c: Config, all: set<Symbol>, s: Symbol)
    requires ExactSet(c, all) && s in all && ReachesBelow(c, s, s)
    ensures OnCycle(c, s)
  {
    var r :| Reads(c, s, r) && Reaches(c, r, s);
    var q :| IsReadPath(c, q) && q != [] && q[0] == r && q[|q| - 1] == s;
    EdgesAreReads(c, s, r);
    ReadPathIsPath(c, all, q);
    PathCons(c, s, q);
    var p := [s] + q;
    assert p[0] == s && p[|p| - 1] == s;
  }

  /** There a symbol is on a cycle exactly when its value is computed from itself. */
  lemma CycleIff(c: Config, all: set<Symbol>, s: Symbol)
    requires ExactSet(c, all) && s in all
    ensures OnCycle(c, s) <==> ReachesBelow(c, s, s)
  {
    if OnCycle(c, s) { CycleReaches(c, all, s); }
    if ReachesBelow(c, s, s) { ReachesCycles(c, all, s); }
  }

  /** So nothing there is reported if and only if the values can be ranked, each above what it is computed from. */
  lemma AcyclicIffRanked(c: Config, all: set<Symbol>)
    requires ExactSet(c, all)
    ensures Acyclic(c, all) <==> exists rank :: RanksJust(c, rank, all)
  {
    forall s, t | s in all && Reads(c, s, t)
      ensures t in all
    {
      EdgesAreReads(c, s, t);
    }
    RankIffAcyclic(c, all);
    forall s | s in all
      ensures OnCycle(c, s) <==> ReachesBelow(c, s, s)
    {
      CycleIff(c, all, s);
    }
  }

  /** Checking such a configuration: silence means that the values can be ranked, and a report names a symbol
      that is computed from itself. */
  method CheckExact(checker: Checker, syms: seq<Symbol>, ghost all: set<Symbol>) returns (silent: bool)
    requires checker.check == checker.checked == {} && checker.log == [] && checker.stack == checker.order == []
    requires ExactSet(checker.c, all) && SetOf(syms) <= all
    requires forall s, t :: s in all && s !in syms ==> !Edge(checker.c, s, t)
    modifies checker
    ensures silent <==> exists rank :: RanksJust(checker.c, rank, all)
    ensures silent <==> checker.log == []
    ensures forall x :: x in checker.log ==> ReachesBelow(checker.c, x, x)
  {
    checker.CheckAll(syms, all);
    silent := checker.log == [];
    AcyclicIffRanked(checker.c, all);
    forall x | x in checker.log
      ensures ReachesBelow(checker.c, x, x)
    {
      CycleIff(checker.c, all, x);
    }
  }
}
