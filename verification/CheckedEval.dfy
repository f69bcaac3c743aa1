/** The two together: after a silent check, evaluation never comes back to a symbol that is under way. */
module CheckedEval {
  import opened Tristates
  import opened Exprs
  import opened SymbolRules
  import opened SymbolTheory
  import opened SymbolReads
  import opened SymbolCache
  import opened SymbolSet
  import opened DepCheck
  import opened SymbolTable

  /** Nothing of the set has been calculated. */
  ghost predicate Unflagged(c: Config, cells: Cells, plain: iset<Symbol>) {
    forall t :: (t in plain ==> !Get(cells, t).valid) && (c.IsMember(t) ==> Get(cells, t).rev == NO)
  }

  /** What the check is given: all symbols, with everything they follow. */
  ghost predicate CoversAll(c: Config, syms: seq<Symbol>, all: set<Symbol>, plain: iset<Symbol>) {
    && Closed(c, all) && SetOf(syms) <= all
    && (forall t, r :: t in all && t !in syms ==> !Edge(c, t, r))
    && forall t :: t in plain && t in c.info ==> t in syms
  }

  /** Checks all symbols and, if nothing was reported, calculates one that belongs to a closed set of plain
      symbols without MODULES. */
  method CheckThenCalculate(checker: Checker, tab: SymTab, syms: seq<Symbol>, s: Symbol, ghost all: set<Symbol>,
                            ghost plain: iset<Symbol>) returns (silent: bool, ghost o: Outcomes)
    requires checker.check == checker.checked == {} && checker.log == [] && checker.stack == checker.order == []
    requires checker.c == tab.c && CoversAll(tab.c, syms, all, plain)
    requires PlainSet(tab.c, plain) && s in plain && Unflagged(tab.c, tab.cells, plain)
    requires tab.c.modules.Some? ==> tab.c.modules.value !in plain
    modifies checker, tab
    ensures silent <==> Acyclic(tab.c, all)
    ensures silent ==> SolvesOn(tab.c, tab.modulesVal, UsersOf(tab.cells), o, plain)
    ensures silent ==> IsValid(tab.cells, s) && ValueOf(tab.cells, s) == o(s).value
    ensures silent ==> tab.met == {}
    ensures tab.modulesVal == old(tab.modulesVal)
    ensures forall t :: UsersOf(tab.cells)(t) == UsersOf(old(tab.cells))(t)
  {
    checker.CheckAll(syms, all);
    silent := checker.log == [];
    o := Solution(tab.c, tab.modulesVal, UsersOf(tab.cells), SetRank(checker.order, plain));
    if silent {
      ghost var rank, u0 := SetRank(checker.order, plain), UsersOf(tab.cells);
      NoReportRanksSet(tab.c, checker.order, plain);
      SolutionExists(tab.c, tab.modulesVal, u0, rank);
      assert Setting(tab.c, tab.modulesVal, u0, o, rank);
      tab.Calculate(s, o, rank);
      SolvesForSameUsers(tab.c, tab.modulesVal, u0, UsersOf(tab.cells), o, rank);
      assert forall t :: t in plain ==> PlainAt(tab.c, t) && !tab.c.IsChoice(t);
      assert forall t :: t !in tab.met;
    }
  }

  /** The same with MODULES in the set: it is worked out first, as when a configuration has been read. */
  method CheckThenClear(checker: Checker, tab: SymTab, syms: seq<Symbol>, s: Symbol, ghost all: set<Symbol>,
                        ghost plain: iset<Symbol>) returns (silent: bool, ghost o: Outcomes)
    requires checker.check == checker.checked == {} && checker.log == [] && checker.stack == checker.order == []
    requires checker.c == tab.c && CoversAll(tab.c, syms, all, plain)
    requires PlainSet(tab.c, plain) && s in plain && Unflagged(tab.c, tab.cells, plain)
    requires tab.c.modules.Some? && tab.c.modules.value in plain && ModulesPlain(tab.c)
    requires !IsBuiltin(tab.c.modules.value) && tab.c.modules.value.Type() != TUnknown
    modifies checker, tab
    ensures silent <==> Acyclic(tab.c, all)
    ensures silent ==> SolvesOn(tab.c, tab.modulesVal, UsersOf(tab.cells), o, plain)
    ensures silent ==> o(tab.c.modules.value).value.tri == tab.modulesVal
    ensures silent ==> IsValid(tab.cells, s) && ValueOf(tab.cells, s) == o(s).value
    ensures silent ==> tab.met == {}
    ensures forall t :: UsersOf(tab.cells)(t) == UsersOf(old(tab.cells))(t)
  {
    checker.CheckAll(syms, all);
    silent := checker.log == [];
    o := _ => Outcome(Value(NO, ""), None, NO, NO);
    if silent {
      ghost var rank := SetRank(checker.order, plain);
      NoReportRanksSet(tab.c, checker.order, plain);
      assert UsersOk(tab.c, UsersOf(tab.cells), rank);
      tab.ClearAllValid(rank);
      ghost var u1 := UsersOf(tab.cells);
      o := Solution(tab.c, tab.modulesVal, u1, rank);
      tab.Calculate(s, o, rank);
      SolvesForSameUsers(tab.c, tab.modulesVal, u1, UsersOf(tab.cells), o, rank);
      assert forall t :: t in plain ==> PlainAt(tab.c, t) && !tab.c.IsChoice(t);
      assert forall t :: t !in tab.met;
    }
  }
}
