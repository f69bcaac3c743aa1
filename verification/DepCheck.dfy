/** The detector of recursive dependencies: a depth-first search over flags, which reports exactly
    when there is a cycle. */
module DepCheck {
  import opened Tristates
  import opened Exprs
  import opened SymbolRules
  import opened SymbolReads
  import opened SymbolTheory

  // ----- the graph that is searched -----

  /** The expressions sym_check_deps follows from a property, in order; a default's expression is not
      followed for a choice, and select targets never are. */
  function Followed(p: Property, isChoice: bool): seq<OptExpr> {
    match p
    case Prompt(v) => [v]
    case Default(v, e) => if isChoice then [v] else [v, Some(e)]
    case Range(v, _, _) => [v]
    case Select(_, _) => []
  }

  function FollowedFrom(props: seq<Property>, isChoice: bool): seq<OptExpr> {
    if props == [] then [] else Followed(props[0], isChoice) + FollowedFrom(props[1..], isChoice)
  }

  function FollowedOf(c: Config, s: Symbol): seq<OptExpr> {
    [c.Info(s).revDep] + FollowedFrom(c.Info(s).props, c.IsChoice(s))
  }

  predicate Edge(c: Config, s: Symbol, t: Symbol) {
    exists e :: e in FollowedOf(c, s) && t in SymbolsOfOpt(e)
  }

  ghost predicate IsPath(c: Config, p: seq<Symbol>) {
    forall i :: 0 <= i < |p| - 1 ==> Edge(c, p[i], p[i + 1])
  }

  /** s depends on itself through one or more edges. */
  ghost predicate OnCycle(c: Config, s: Symbol) {
    exists p :: IsPath(c, p) && |p| >= 2 && p[0] == s && p[|p| - 1] == s
  }

  ghost predicate Closed(c: Config, all: set<Symbol>) {
    forall s, t :: s in all && Edge(c, s, t) ==> t in all
  }

  /** Everything is listed after what it depends on. */
  ghost predicate Sorted(c: Config, order: seq<Symbol>) {
    forall i, t :: 0 <= i < |order| && Edge(c, order[i], t) ==> t in order[..i]
  }

  ghost predicate Acyclic(c: Config, all: set<Symbol>) {
    forall s :: s in all ==> !OnCycle(c, s)
  }

  function SetOf(xs: seq<Symbol>): set<Symbol> {
    set x | x in xs
  }

  ghost predicate ValidState(c: Config, all: set<Symbol>, check: set<Symbol>, checked: set<Symbol>, log: seq<Symbol>,
                             stack: seq<Symbol>, order: seq<Symbol>) {
    && Closed(c, all) && checked <= all && check <= checked
    && check == SetOf(stack) && IsPath(c, stack)
    && SetOf(order) <= all
    && (log == [] ==> checked == SetOf(order) + check && Sorted(c, order))
    && (forall x :: x in log ==> x in all && OnCycle(c, x))
  }

  lemma PrefixIn(a: seq<Symbol>, b: seq<Symbol>)
    requires a <= b
    ensures SetOf(a) <= SetOf(b) && forall t :: t in a ==> t in b
  {
    assert forall i :: 0 <= i < |a| ==> a[i] == b[i];
  }

  lemma Push(c: Config, all: set<Symbol>, check: set<Symbol>, checked: set<Symbol>, log: seq<Symbol>,
             stack: seq<Symbol>, order: seq<Symbol>, s: Symbol)
    requires ValidState(c, all, check, checked, log, stack, order)
    requires s in all && (stack != [] ==> Edge(c, stack[|stack| - 1], s))
    ensures ValidState(c, all, check + {s}, checked + {s}, log, stack + [s], order)
  {
    var stack' := stack + [s];
    forall i | 0 <= i < |stack'| - 1
      ensures Edge(c, stack'[i], stack'[i + 1])
    {
    }
  }

  lemma Pop(c: Config, all: set<Symbol>, check: set<Symbol>, checked: set<Symbol>, log: seq<Symbol>,
            stack: seq<Symbol>, order: seq<Symbol>, s: Symbol)
    requires ValidState(c, all, check + {s}, checked, log, stack + [s], order)
    requires check == SetOf(stack) && s !in check
    requires log == [] ==> forall e :: e in FollowedOf(c, s) ==> SymbolsOfOpt(e) <= SetOf(order)
    ensures ValidState(c, all, check, checked, log, stack, if log == [] then order + [s] else order)
  {
    forall i | 0 <= i < |stack| - 1
      ensures Edge(c, stack[i], stack[i + 1])
    {
      assert (stack + [s])[i] == stack[i] && (stack + [s])[i + 1] == stack[i + 1];
    }
    if log == [] {
      FinishKeepsSorted(c, order, s);
      assert SetOf(order + [s]) == SetOf(order) + {s};
    }
  }

  class Checker {
    const c: Config
    /** SYMBOL_CHECK and SYMBOL_CHECKED */
    var check: set<Symbol>
    var checked: set<Symbol>
    /** The symbols a warning was printed for. */
    var log: seq<Symbol>
    ghost var stack: seq<Symbol>
    ghost var order: seq<Symbol>

    constructor (config: Config)
      ensures c == config && check == checked == {} && log == [] && stack == order == []
    {
      c, check, checked, log, stack, order := config, {}, {}, [], [], [];
    }

    /** The flagged symbols lie on one path; the order lists what is finished as long as nothing was
        reported; and whatever was reported is on a cycle. */
    ghost predicate Valid(all: set<Symbol>)
      reads this
    {
      ValidState(c, all, check, checked, log, stack, order)
    }

    /** Between two calls the search has only gone forward. */
    twostate predicate Forward()
      reads this
    {
      && stack == old(stack) && check == old(check)
      && old(checked) <= checked
      && old(log) <= log && old(order) <= order
    }

    method CheckExpr(e: Expr, s: Symbol, ghost all: set<Symbol>) returns (r: Option<Symbol>)
      requires Valid(all) && s in all
      requires stack != [] && stack[|stack| - 1] == s
      requires forall t :: t in SymbolsOf(e) ==> Edge(c, s, t)
      modifies this
      ensures Valid(all) && Forward()
      ensures log == [] ==> r == None && SymbolsOf(e) <= SetOf(order)
      decreases all - checked, 1, Size(e)
    {
      match e {
        case Sym(t) => r := CheckSymbol(t, all);
        case Not(x) => r := CheckExpr(x, s, all);
        case Bin(_, x, y) =>
          r := CheckExpr(x, s, all);
          if r.None? {
            ghost var order1 := order;
            r := CheckExpr(y, s, all);
            PrefixIn(order1, order);
          }
        case Equal(x, y) => r := CheckPair(x, y, s, all);
        case Unequal(x, y) => r := CheckPair(x, y, s, all);
      }
    }

    method CheckPair(x: Symbol, y: Symbol, s: Symbol, ghost all: set<Symbol>) returns (r: Option<Symbol>)
      requires Valid(all) && s in all
      requires stack != [] && stack[|stack| - 1] == s
      requires Edge(c, s, x) && Edge(c, s, y)
      modifies this
      ensures Valid(all) && Forward()
      ensures log == [] ==> r == None && x in order && y in order
      decreases all - checked, 1, 0
    {
      r := CheckSymbol(x, all);
      if r.None? {
        ghost var order1 := order;
        r := CheckSymbol(y, all);
        PrefixIn(order1, order);
      }
    }

    /** Follows the expressions of s until one reports. */
    method CheckFollowed(es: seq<OptExpr>, s: Symbol, ghost all: set<Symbol>) returns (r: Option<Symbol>)
      requires Valid(all) && s in all
      requires stack != [] && stack[|stack| - 1] == s
      requires forall e :: e in es ==> e in FollowedOf(c, s)
      modifies this
      ensures Valid(all) && Forward()
      ensures log == [] ==> r == None && forall e :: e in es ==> SymbolsOfOpt(e) <= SetOf(order)
      decreases all - checked, 2
    {
      r := None;
      for i := 0 to |es|
        invariant Valid(all) && Forward() && r == None
        invariant log == [] ==> forall e :: e in es[..i] ==> SymbolsOfOpt(e) <= SetOf(order)
      {
        if es[i].Some? {
          assert es[i] in FollowedOf(c, s);
          ghost var order1 := order;
          r := CheckExpr(es[i].value, s, all);
          PrefixIn(order1, order);
          if r.Some? {
            return;
          }
        }
      }
      assert es[..|es|] == es;
    }

    method CheckSymbol(s: Symbol, ghost all: set<Symbol>) returns (r: Option<Symbol>)
      requires Valid(all) && s in all
      requires stack != [] ==> Edge(c, stack[|stack| - 1], s)
      modifies this
      ensures Valid(all) && Forward()
      ensures log == [] ==> r == None && s in order
      ensures s in checked
      decreases all - checked, 0
    {
      if s in check {
        FlaggedIsOnCycle(c, stack, s);
        log := log + [s];
        return Some(s);
      }
      if s in checked {
        return None;
      }
      ghost var check0, stack0 := check, stack;
      Push(c, all, check, checked, log, stack, order, s);
      check, checked, stack := check + {s}, checked + {s}, stack + [s];
      r := CheckFollowed(FollowedOf(c, s), s, all);
      if r == Some(s) {
        r := None;
      }
      assert check == check0 + {s} && stack == stack0 + [s];
      Pop(c, all, check0, checked, log, stack0, order, s);
      check := check - {s};
      stack := stack0;
      assert check == check0;
      if log == [] {
        order := order + [s];
      }
    }

    /** The loop over all symbols after the menus are finalized; symbols outside the table are built-in
        and depend on nothing. */
    method CheckAll(syms: seq<Symbol>, ghost all: set<Symbol>)
      requires check == checked == {} && log == [] && stack == order == []
      requires Closed(c, all) && SetOf(syms) <= all
      requires forall s, t :: s in all && s !in syms ==> !Edge(c, s, t)
      modifies this
      ensures Valid(all)
      ensures log == [] <==> Acyclic(c, all)
      ensures log == [] ==> Sorted(c, order) && forall s :: s in syms ==> s in order
    {
      assert Valid(all);
      for i := 0 to |syms|
        invariant Valid(all) && stack == []
        invariant log == [] ==> forall s :: s in syms[..i] ==> s in order
      {
        ghost var order1 := order;
        var _ := CheckSymbol(syms[i], all);
        PrefixIn(order1, order);
        assert syms[..i + 1] == syms[..i] + [syms[i]];
      }
      assert syms[..|syms|] == syms;
      if log == [] {
        forall s | s in all
          ensures !OnCycle(c, s)
        {
          if OnCycle(c, s) {
            var p :| IsPath(c, p) && |p| >= 2 && p[0] == s && p[|p| - 1] == s;
            assert Edge(c, p[0], p[1]);
            SortedDescends(c, order, p);
          }
        }
      } else {
        assert log[0] in all && OnCycle(c, log[0]);
      }
    }
  }

  lemma FlaggedIsOnCycle(c: Config, stack: seq<Symbol>, s: Symbol)
    requires IsPath(c, stack) && s in stack && Edge(c, stack[|stack| - 1], s)
    ensures OnCycle(c, s)
  {
    var i :| 0 <= i < |stack| && stack[i] == s;
    var p := stack[i..] + [s];
    forall j | 0 <= j < |p| - 1
      ensures Edge(c, p[j], p[j + 1])
    {
      if j < |p| - 2 { assert Edge(c, stack[i + j], stack[i + j + 1]); }
    }
    assert IsPath(c, p);
  }

  lemma FinishKeepsSorted(c: Config, order: seq<Symbol>, s: Symbol)
    requires Sorted(c, order)
    requires forall e :: e in FollowedOf(c, s) ==> SymbolsOfOpt(e) <= SetOf(order)
    ensures Sorted(c, order + [s])
  {
    var order' := order + [s];
    forall i, t | 0 <= i < |order'| && Edge(c, order'[i], t)
      ensures t in order'[..i]
    {
      assert order'[..i] == order[..i];
    }
  }

  // ----- what a search without report is good for -----

  /** The first position of x. */
  function Position(order: seq<Symbol>, x: Symbol): (i: nat)
    requires x in order
    ensures i < |order| && order[i] == x && x !in order[..i]
  {
    if order[0] == x then 0
    else
      var i := Position(order[1..], x) + 1;
      assert order[..i] == [order[0]] + order[1..][..i - 1];
      i
  }

  /** Along a path, positions fall. */
  lemma {:induction false} SortedDescends(c: Config, order: seq<Symbol>, p: seq<Symbol>)
    requires Sorted(c, order) && IsPath(c, p) && p != [] && p[0] in order
    ensures p[|p| - 1] in order
    ensures |p| >= 2 ==> Position(order, p[|p| - 1]) < Position(order, p[0])
    decreases |p|
  {
    if |p| >= 2 {
      assert Edge(c, p[0], p[1]);
      EdgeDescends(c, order, p[0], p[1]);
      var q := p[1..];
      forall i | 0 <= i < |q| - 1
        ensures Edge(c, q[i], q[i + 1])
      {
        assert Edge(c, p[i + 1], p[i + 1 + 1]);
      }
      SortedDescends(c, order, q);
    }
  }

  lemma EdgeDescends(c: Config, order: seq<Symbol>, s: Symbol, t: Symbol)
    requires Sorted(c, order) && s in order && Edge(c, s, t)
    ensures t in order && Position(order, t) < Position(order, s)
  {
    var i := Position(order, s);
    assert Edge(c, order[i], t);
    assert t in order[..i];
    var j :| 0 <= j < i && order[j] == t;
    PositionIsFirst(order, t, j);
  }

  lemma {:induction false} PositionIsFirst(order: seq<Symbol>, x: Symbol, j: nat)
    requires j < |order| && order[j] == x
    ensures Position(order, x) <= j
  {
    if order[0] != x {
      PositionIsFirst(order[1..], x, j - 1);
    }
  }

  /** Not a choice nor a member of one, and range bounds that are plain numbers: then everything that the value
      is computed from is searched. */
  ghost predicate PlainAt(c: Config, s: Symbol) {
    && c.Info(s).role == Plain
    && (FollowsRange(s) ==>
          forall p :: p in c.Info(s).props && p.Range? ==> p.lo.Type() == TUnknown && p.hi.Type() == TUnknown)
  }

  function RankOf(order: seq<Symbol>, s: Symbol): nat {
    if s.Type() != TUnknown && s in order then Position(order, s) + 1 else 0
  }

  lemma {:induction false} FollowedCovers(props: seq<Property>, isChoice: bool, p: Property)
    requires p in props
    ensures forall e :: e in Followed(p, isChoice) ==> e in FollowedFrom(props, isChoice)
  {
    if props[0] != p {
      FollowedCovers(props[1..], isChoice, p);
    }
  }

  function OrderRank(order: seq<Symbol>): Rank {
    Rank(t => RankOf(order, t), |order| + 1)
  }

  lemma DependencyDescends(c: Config, order: seq<Symbol>, s: Symbol, e: OptExpr)
    requires Sorted(c, order) && s in order && s.Type() != TUnknown && e in FollowedOf(c, s)
    ensures OptBelow(e, OrderRank(order), RankOf(order, s))
  {
    if e.Some? {
      forall t | t in SymbolsOf(e.value)
        ensures RankOf(order, t) < RankOf(order, s)
      {
        assert Edge(c, s, t);
        EdgeDescends(c, order, s, t);
      }
    }
  }

  /** After a search without report, the order in which it finished ranks everything that the value of a plain
      symbol is computed from, whatever else the configuration holds. */
  lemma NoReportRanks(c: Config, order: seq<Symbol>, s: Symbol)
    requires Sorted(c, order) && PlainAt(c, s) && (s in c.info ==> s in order)
    ensures RankedAt(c, OrderRank(order), s) && ChoiceOkAt(c, s) && Inside(OrderRank(order), s)
  {
    var rank := OrderRank(order);
    if s in c.info && s.Type() != TUnknown {
      forall p | p in c.Info(s).props
        ensures PropertyBelow(c, s, p, rank, rank.of(s))
      {
        FollowedCovers(c.Info(s).props, false, p);
        match p
        case Prompt(v) =>
          assert v in Followed(p, false);
          DependencyDescends(c, order, s, v);
        case Default(v, e) =>
          assert v in Followed(p, false) && Some(e) in Followed(p, false);
          DependencyDescends(c, order, s, v);
          DependencyDescends(c, order, s, Some(e));
        case Range(v, _, _) =>
          assert v in Followed(p, false);
          DependencyDescends(c, order, s, v);
        case Select(_, _) =>
      }
      assert c.Info(s).revDep in FollowedOf(c, s);
      DependencyDescends(c, order, s, c.Info(s).revDep);
    }
  }

  // ----- a closed set of plain symbols in any configuration -----

  predicate IsBound(c: Config, s: Symbol, t: Symbol) {
    FollowsRange(s) && exists p :: p in c.Info(s).props && p.Range? && (p.lo == t || p.hi == t)
  }

  /** Plain symbols with everything they follow and their bounds. */
  ghost predicate PlainSet(c: Config, plain: iset<Symbol>) {
    forall s :: s in plain ==> PlainAt(c, s) && forall t :: Edge(c, s, t) || IsBound(c, s, t) ==> t in plain
  }

  /** The search follows everything that a plain symbol reads, apart from its bounds. */
  lemma PlainReads(c: Config, s: Symbol, t: Symbol)
    requires PlainAt(c, s) && Reads(c, s, t)
    ensures Edge(c, s, t) || IsBound(c, s, t)
  {
    if PropsRead(c, s, t) {
      var p :| p in c.Info(s).props && PropertyReads(c, s, p, t);
      FollowedCovers(c.Info(s).props, false, p);
      assert forall e :: e in Followed(p, false) ==> e in FollowedOf(c, s);
      match p
      case Prompt(v) => assert v in Followed(p, false);
      case Default(v, e) => assert v in Followed(p, false) && Some(e) in Followed(p, false);
      case Range(v, _, _) => assert v in Followed(p, false);
    } else {
      assert c.Info(s).revDep in FollowedOf(c, s);
    }
  }

  ghost predicate SolvesOn(c: Config, m: Tristate, u: Users, o: Outcomes, plain: iset<Symbol>) {
    forall s :: s in plain ==> o(s) == Rule(c, m, u, o, s)
  }

  ghost function SetRankOf(order: seq<Symbol>, plain: iset<Symbol>, s: Symbol): nat {
    if s in plain then RankOf(order, s) else |order| + 1
  }

  /** The ranks of the set, and of nothing else. */
  ghost function SetRank(order: seq<Symbol>, plain: iset<Symbol>): Rank {
    Rank(t => SetRankOf(order, plain, t), |order| + 1)
  }

  lemma NoReportRanksSet(c: Config, order: seq<Symbol>, plain: iset<Symbol>)
    requires Sorted(c, order) && PlainSet(c, plain) && forall s :: s in plain && s in c.info ==> s in order
    ensures Ranked(c, SetRank(order, plain)) && ChoicesOk(c, SetRank(order, plain))
    ensures forall s :: Inside(SetRank(order, plain), s) <==> s in plain
    ensures forall u :: UsersOk(c, u, SetRank(order, plain))
  {
    var rank := SetRank(order, plain);
    forall s
      ensures Inside(rank, s) <==> s in plain
      ensures Inside(rank, s) ==> RankedAt(c, rank, s) && ChoiceOkAt(c, s)
    {
      if s in plain {
        NoReportRanks(c, order, s);
        RankedIff(c, OrderRank(order), s);
        forall t | Reads(c, s, t)
          ensures rank.of(t) < rank.of(s)
        {
          PlainReads(c, s, t);
        }
        RankedIff(c, rank, s);
      }
    }
    forall u
      ensures UsersOk(c, u, rank)
    {
      assert forall s :: Inside(rank, s) ==> UserOkAt(c, u(s), s);
    }
  }

  /** Hence every setting of the user values determines the values of the set, by plain recursion. */
  lemma NoReportDetermines(c: Config, order: seq<Symbol>, plain: iset<Symbol>, m: Tristate, u: Users)
    returns (o: Outcomes)
    requires Sorted(c, order) && PlainSet(c, plain) && forall s :: s in plain && s in c.info ==> s in order
    ensures SolvesOn(c, m, u, o, plain)
    ensures forall o' :: SolvesOn(c, m, u, o', plain) ==> forall s :: s in plain ==> o'(s) == o(s)
  {
    NoReportRanksSet(c, order, plain);
    var rank := SetRank(order, plain);
    o := Solution(c, m, u, rank);
    SolutionExists(c, m, u, rank);
    forall o', s | SolvesOn(c, m, u, o', plain) && s in plain
      ensures o'(s) == o(s)
    {
      SolutionUnique(c, m, u, rank, o', s);
    }
  }

  // ----- what the search does not see -----

  /** A choice with the members a and b, where b can be shown only if x is set and x only if a is. */
  function HiddenCycle(cs: Symbol, a: Symbol, b: Symbol, x: Symbol): Config {
    Config(map[cs := SymInfo([Prompt(None)], None, ChoiceOf([a, b])),
               a := SymInfo([Prompt(Some(Sym(cs)))], None, MemberOf(cs)),
               b := SymInfo([Prompt(Some(Bin(And, Sym(cs), Sym(x))))], None, MemberOf(cs)),
               x := SymInfo([Prompt(Some(Sym(a)))], None, Plain)], None)
  }

  /** A choice is not searched for what it reads of its members, so nothing is reported here; but the value of
      x, which is neither a choice nor a member, is computed from itself, and no set with x can be ranked. */
  lemma SilentButCyclic(cs: Symbol, a: Symbol, b: Symbol, x: Symbol)
    requires cs.Type() == a.Type() == b.Type() == x.Type() == TBoolean
    requires cs != a && cs != b && cs != x && a != b && a != x && b != x
    ensures var c := HiddenCycle(cs, a, b, x);
      && Sorted(c, [cs, a, x, b]) && PlainAt(c, x)
      && Reads(c, x, a) && Reads(c, a, cs) && Reads(c, cs, x)
      && ReachesBelow(c, x, x) && forall rank :: Ranked(c, rank) ==> !Inside(rank, x)
  {
    HiddenReads(cs, a, b, x);
    HiddenEdges(cs, a, b, x);
    var c := HiddenCycle(cs, a, b, x);
    ReachesSelf(c, a);
    ReachesStep(c, a, a, cs);
    ReachesStep(c, a, cs, x);
    forall rank | Ranked(c, rank)
      ensures !Inside(rank, x)
    {
      if Inside(rank, x) { RankedNotCyclic(c, rank, x); }
    }
  }

  lemma HiddenReads(cs: Symbol, a: Symbol, b: Symbol, x: Symbol)
    requires cs.Type() == a.Type() == b.Type() == x.Type() == TBoolean
    requires cs != a && cs != b && cs != x && a != b && a != x && b != x
    ensures var c := HiddenCycle(cs, a, b, x); Reads(c, x, a) && Reads(c, a, cs) && Reads(c, cs, x)
  {
    var c := HiddenCycle(cs, a, b, x);
    assert c.Info(a).props[0] == Prompt(Some(Sym(cs))) && c.Info(x).props[0] == Prompt(Some(Sym(a)));
    assert c.Info(b).props[0] == Prompt(Some(Bin(And, Sym(cs), Sym(x))));
    assert PropertyReads(c, x, c.Info(x).props[0], a) && PropertyReads(c, a, c.Info(a).props[0], cs);
    assert PropsRead(c, x, a) && PropsRead(c, a, cs);
    assert x in SymbolsOf(Sym(x)) && x in SymbolsOf(Bin(And, Sym(cs), Sym(x)));
    assert MemberPromptReads(c, b, x) && b in c.Info(cs).role.members;
  }

  lemma FollowedOne(v: OptExpr, isChoice: bool)
    ensures FollowedFrom([Prompt(v)], isChoice) == [v]
  {
    assert [Prompt(v)][1..] == [];
    assert Followed(Prompt(v), isChoice) + [] == [v];
  }

  lemma HiddenEdges(cs: Symbol, a: Symbol, b: Symbol, x: Symbol)
    requires cs != a && cs != b && cs != x && a != b && a != x && b != x
    ensures Sorted(HiddenCycle(cs, a, b, x), [cs, a, x, b])
  {
    var c, order := HiddenCycle(cs, a, b, x), [cs, a, x, b];
    FollowedOne(None, true);
    FollowedOne(Some(Sym(cs)), false);
    FollowedOne(Some(Sym(a)), false);
    FollowedOne(Some(Bin(And, Sym(cs), Sym(x))), false);
    assert SymbolsOf(Bin(And, Sym(cs), Sym(x))) == {cs, x};
    assert FollowedOf(c, cs) == [None, None];
    assert FollowedOf(c, a) == [None, Some(Sym(cs))];
    assert FollowedOf(c, x) == [None, Some(Sym(a))];
    assert FollowedOf(c, b) == [None, Some(Bin(And, Sym(cs), Sym(x)))];
    assert order[..1] == [cs] && order[..2] == [cs, a] && order[..3] == [cs, a, x];
  }
}
