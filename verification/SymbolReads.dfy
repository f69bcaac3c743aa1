/** Which symbols the value of a symbol is computed from, directly and in the end. */
module SymbolReads {
  import opened Tristates
  import opened Exprs
  import opened SymbolRules
  import opened SymbolTheory

  predicate PropertyReads(c: Config, s: Symbol, p: Property, t: Symbol) {
    match p
    case Prompt(v) => t in SymbolsOfOpt(v)
    case Default(v, e) => t in SymbolsOfOpt(v) || (FollowsDefault(c, s, e) && t in SymbolsOf(e))
    case Range(v, lo, hi) => FollowsRange(s) && (t in SymbolsOfOpt(v) || t == lo || t == hi)
    case Select(_, _) => false
  }

  ghost predicate PropsRead(c: Config, s: Symbol, t: Symbol) {
    exists p :: p in c.Info(s).props && PropertyReads(c, s, p, t)
  }

  /** A choice looks at the prompts of its members. */
  ghost predicate MemberPromptReads(c: Config, x: Symbol, t: Symbol) {
    exists p :: p in c.Info(x).props && p.Prompt? && t in SymbolsOfOpt(p.visible)
  }

  ghost predicate ChoiceReads(c: Config, s: Symbol, t: Symbol) {
    c.IsChoice(s) && t != s && exists x :: x in c.Info(s).role.members && MemberPromptReads(c, x, t)
  }

  /** The calculation of s asks for the value of t. */
  ghost predicate Reads(c: Config, s: Symbol, t: Symbol) {
    s.Type() != TUnknown &&
    (|| PropsRead(c, s, t)
     || (!c.IsMember(s) && t in SymbolsOfOpt(c.Info(s).revDep))
     || (c.IsMember(s) && t == c.Info(s).role.choice)
     || ChoiceReads(c, s, t))
  }

  /** Being ranked means that everything read ranks lower. */
  lemma RankedIff(c: Config, rank: Rank, s: Symbol)
    ensures RankedAt(c, rank, s) <==> forall t :: Reads(c, s, t) ==> rank.of(t) < rank.of(s)
  {
    if RankedAt(c, rank, s) {
      forall t | Reads(c, s, t)
        ensures rank.of(t) < rank.of(s)
      {
        ReadRanksLower(c, rank, s, t);
      }
    }
    if forall t :: Reads(c, s, t) ==> rank.of(t) < rank.of(s) {
      LowerReadsRank(c, rank, s);
    }
  }

  lemma ReadRanksLower(c: Config, rank: Rank, s: Symbol, t: Symbol)
    requires RankedAt(c, rank, s) && Reads(c, s, t)
    ensures rank.of(t) < rank.of(s)
  {
    if PropsRead(c, s, t) {
      var p :| p in c.Info(s).props && PropertyReads(c, s, p, t);
      assert PropertyBelow(c, s, p, rank, rank.of(s));
    } else if ChoiceReads(c, s, t) {
      var x :| x in c.Info(s).role.members && MemberPromptReads(c, x, t);
      var p :| p in c.Info(x).props && p.Prompt? && t in SymbolsOfOpt(p.visible);
      assert PromptBelowExcept(p, rank, rank.of(s), s);
    }
  }

  lemma LowerReadsRank(c: Config, rank: Rank, s: Symbol)
    requires forall t :: Reads(c, s, t) ==> rank.of(t) < rank.of(s)
    ensures RankedAt(c, rank, s)
  {
    if s.Type() == TUnknown { return; }
    var k := rank.of(s);
    forall p | p in c.Info(s).props
      ensures PropertyBelow(c, s, p, rank, k)
    {
      forall t | PropertyReads(c, s, p, t)
        ensures rank.of(t) < k
      {
        assert PropsRead(c, s, t) && Reads(c, s, t);
      }
    }
    assert c.IsMember(s) ==> Reads(c, s, c.Info(s).role.choice);
    if !c.IsMember(s) && c.Info(s).revDep.Some? {
      forall t | t in SymbolsOf(c.Info(s).revDep.value)
        ensures rank.of(t) < k
      {
        assert Reads(c, s, t);
      }
    }
    if c.IsChoice(s) {
      forall x, p | x in c.Info(s).role.members && p in c.Info(x).props
        ensures PromptBelowExcept(p, rank, k, s)
      {
        if p.Prompt? && p.visible.Some? {
          forall t | t in SymbolsOf(p.visible.value) && t != s
            ensures rank.of(t) < k
          {
            assert MemberPromptReads(c, x, t) && ChoiceReads(c, s, t) && Reads(c, s, t);
          }
        }
      }
    }
  }

  // ----- what a value is computed from in the end -----

  ghost predicate IsReadPath(c: Config, p: seq<Symbol>) {
    forall i :: 0 <= i < |p| - 1 ==> Reads(c, p[i], p[1..][i])
  }

  /** t is s, or s is computed from t. */
  ghost predicate Reaches(c: Config, s: Symbol, t: Symbol) {
    exists p :: IsReadPath(c, p) && p != [] && p[0] == s && p[|p| - 1] == t
  }

  lemma ReachesSelf(c: Config, s: Symbol)
    ensures Reaches(c, s, s)
  {
    assert IsReadPath(c, [s]) && [s][0] == s;
  }

  lemma ReachesStep(c: Config, s: Symbol, t: Symbol, r: Symbol)
    requires Reaches(c, s, t) && Reads(c, t, r)
    ensures Reaches(c, s, r)
  {
    var p :| IsReadPath(c, p) && p != [] && p[0] == s && p[|p| - 1] == t;
    var q := p + [r];
    forall i | 0 <= i < |q| - 1
      ensures Reads(c, q[i], q[1..][i])
    {
      if i < |p| - 1 { assert Reads(c, p[i], p[1..][i]); }
    }
    assert IsReadPath(c, q) && q[0] == s && q[|q| - 1] == r;
  }

  /** In a ranked set whatever is reached is inside, and no higher. */
  lemma {:induction false} PathDescends(c: Config, rank: Rank, p: seq<Symbol>)
    requires Ranked(c, rank) && IsReadPath(c, p) && p != [] && Inside(rank, p[0])
    ensures rank.of(p[|p| - 1]) <= rank.of(p[0])
    ensures |p| >= 2 ==> rank.of(p[|p| - 1]) < rank.of(p[0])
    decreases |p|
  {
    if |p| >= 2 {
      assert Reads(c, p[0], p[1..][0]);
      RankedIff(c, rank, p[0]);
      var q := p[1..];
      forall i | 0 <= i < |q| - 1
        ensures Reads(c, q[i], q[1..][i])
      {
        assert Reads(c, p[i + 1], p[1..][i + 1]);
      }
      PathDescends(c, rank, q);
    }
  }

  lemma ReachedIsInside(c: Config, rank: Rank, s: Symbol, t: Symbol)
    requires Ranked(c, rank) && Inside(rank, s) && Reaches(c, s, t)
    ensures rank.of(t) <= rank.of(s) && (t != s ==> rank.of(t) < rank.of(s))
  {
    var p :| IsReadPath(c, p) && p != [] && p[0] == s && p[|p| - 1] == t;
    PathDescends(c, rank, p);
  }

  // ----- which sets can be ranked -----

  /** t is what s reads or what that is computed from. */
  ghost predicate ReachesBelow(c: Config, s: Symbol, t: Symbol) {
    exists r :: Reads(c, s, r) && Reaches(c, r, t)
  }

  lemma {:induction false} PathFollows(c: Config, s: Symbol, p: seq<Symbol>)
    requires IsReadPath(c, p) && p != [] && Reaches(c, s, p[0])
    ensures Reaches(c, s, p[|p| - 1])
    decreases |p|
  {
    if |p| >= 2 {
      assert Reads(c, p[0], p[1..][0]);
      ReachesStep(c, s, p[0], p[1]);
      ReadPathTail(c, p);
      PathFollows(c, s, p[1..]);
    }
  }

  lemma ReadPathTail(c: Config, p: seq<Symbol>)
    requires IsReadPath(c, p) && |p| >= 2
    ensures IsReadPath(c, p[1..])
  {
    forall i | 0 <= i < |p[1..]| - 1
      ensures Reads(c, p[1..][i], p[1..][1..][i])
    {
      assert Reads(c, p[i + 1], p[1..][i + 1]);
    }
  }

  lemma BelowTrans(c: Config, s: Symbol, t: Symbol, x: Symbol)
    requires Reads(c, s, t) && ReachesBelow(c, t, x)
    ensures ReachesBelow(c, s, x)
  {
    var r :| Reads(c, t, r) && Reaches(c, r, x);
    ReachesSelf(c, t);
    ReachesStep(c, t, t, r);
    var p :| IsReadPath(c, p) && p != [] && p[0] == r && p[|p| - 1] == x;
    PathFollows(c, t, p);
  }

  ghost predicate ReadClosed(c: Config, all: set<Symbol>) {
    forall s, t :: s in all && Reads(c, s, t) ==> t in all
  }

  ghost function BelowIn(c: Config, all: set<Symbol>, s: Symbol): set<Symbol> {
    set t | t in all && ReachesBelow(c, s, t)
  }

  /** How many symbols a symbol is computed from. */
  ghost function BelowCount(c: Config, all: set<Symbol>, s: Symbol): nat {
    if s in all then |BelowIn(c, all, s)| else |all| + 1
  }

  lemma {:induction false} SubsetSize<T>(a: set<T>, b: set<T>)
    requires a <= b
    ensures |a| <= |b| && (a != b ==> |a| < |b|)
  {
    if a != {} {
      var x :| x in a;
      SubsetSize(a - {x}, b - {x});
    }
  }

  ghost predicate RanksJust(c: Config, rank: Rank, all: set<Symbol>) {
    Ranked(c, rank) && forall s :: Inside(rank, s) <==> s in all
  }

  /** Without cycles that number is a rank. */
  lemma AcyclicRanks(c: Config, all: set<Symbol>) returns (rank: Rank)
    requires ReadClosed(c, all) && forall s :: s in all ==> !ReachesBelow(c, s, s)
    ensures RanksJust(c, rank, all)
  {
    rank := Rank(s => BelowCount(c, all, s), |all| + 1);
    forall s
      ensures Inside(rank, s) <==> s in all
    {
      if s in all { SubsetSize(BelowIn(c, all, s), all); }
    }
    forall s | Inside(rank, s)
      ensures RankedAt(c, rank, s)
    {
      forall t | Reads(c, s, t)
        ensures rank.of(t) < rank.of(s)
      {
        forall x | x in BelowIn(c, all, t)
          ensures x in BelowIn(c, all, s)
        {
          BelowTrans(c, s, t, x);
        }
        ReachesSelf(c, t);
        assert t in BelowIn(c, all, s) && t !in BelowIn(c, all, t);
        SubsetSize(BelowIn(c, all, t), BelowIn(c, all, s));
      }
      RankedIff(c, rank, s);
    }
  }

  lemma RankedNotCyclic(c: Config, rank: Rank, s: Symbol)
    requires Ranked(c, rank) && Inside(rank, s)
    ensures !ReachesBelow(c, s, s)
  {
    if ReachesBelow(c, s, s) {
      var r :| Reads(c, s, r) && Reaches(c, r, s);
      RankedIff(c, rank, s);
      ReachedIsInside(c, rank, r, s);
    }
  }

  /** In any configuration, with choices or without: a finite set that is closed under reading has a rank if
      and only if no value in it is computed from itself. */
  lemma RankIffAcyclic(c: Config, all: set<Symbol>)
    requires ReadClosed(c, all)
    ensures (exists rank :: RanksJust(c, rank, all)) <==> forall s :: s in all ==> !ReachesBelow(c, s, s)
  {
    if exists rank :: RanksJust(c, rank, all) {
      var rank :| RanksJust(c, rank, all);
      forall s | s in all
        ensures !ReachesBelow(c, s, s)
      {
        assert Inside(rank, s);
        RankedNotCyclic(c, rank, s);
      }
    }
    if forall s :: s in all ==> !ReachesBelow(c, s, s) {
      var rank := AcyclicRanks(c, all);
    }
  }

  /** A choice between two bool symbols, of which one is the default. */
  function DefaultChoice(cs: Symbol, a: Symbol, b: Symbol): Config {
    Config(map[cs := SymInfo([Prompt(None), Default(None, Sym(a))], None, ChoiceOf([a, b])),
               a := SymInfo([Prompt(Some(Sym(cs)))], None, MemberOf(cs)),
               b := SymInfo([Prompt(Some(Sym(cs)))], None, MemberOf(cs))], None)
  }

  /** It can be ranked: the default names a member, whose value the choice does not ask for. */
  lemma DefaultChoiceRanks(cs: Symbol, a: Symbol, b: Symbol) returns (rank: Rank)
    requires cs.Type() == a.Type() == b.Type() == TBoolean && cs != a && cs != b && a != b
    ensures var c := DefaultChoice(cs, a, b);
      && RanksJust(c, rank, {cs, a, b}) && ChoicesOk(c, rank) && c.IsChoice(cs)
      && Default(None, Sym(a)) in c.Info(cs).props
  {
    var c := DefaultChoice(cs, a, b);
    rank := Rank(s => if s == cs then 0 else if s == a || s == b then 1 else 2, 2);
    assert c.Info(a).props[0] == Prompt(Some(Sym(cs))) && c.Info(b).props[0] == Prompt(Some(Sym(cs)));
    assert MentionsIn(c.Info(a).props, cs) && MentionsIn(c.Info(b).props, cs);
  }

  /** The ranks of what s is computed from, with s on top. */
  ghost function Cone(c: Config, rank: Rank, s: Symbol): Rank {
    Rank(t => ConeOf(c, rank, s, t), rank.of(s) + 1)
  }

  ghost function ConeOf(c: Config, rank: Rank, s: Symbol, t: Symbol): nat {
    if Reaches(c, s, t) then rank.of(t) else rank.of(s) + 1
  }

  lemma ConeIsRanked(c: Config, rank: Rank, s: Symbol)
    requires Ranked(c, rank) && Inside(rank, s)
    ensures Ranked(c, Cone(c, rank, s)) && Cone(c, rank, s).of(s) == rank.of(s)
    ensures forall t :: Inside(Cone(c, rank, s), t) <==> Reaches(c, s, t)
    ensures forall t :: Reaches(c, s, t) ==> Inside(rank, t) && Cone(c, rank, s).of(t) == rank.of(t)
  {
    var cone := Cone(c, rank, s);
    ReachesSelf(c, s);
    forall t | Reaches(c, s, t)
      ensures Inside(rank, t) && Inside(cone, t)
    {
      ReachedIsInside(c, rank, s, t);
    }
    forall t | Inside(cone, t)
      ensures RankedAt(c, cone, t)
    {
      RankedIff(c, rank, t);
      forall r | Reads(c, t, r)
        ensures cone.of(r) < cone.of(t)
      {
        ReachesStep(c, s, t, r);
      }
      RankedIff(c, cone, t);
    }
  }

  lemma ConeSetting(c: Config, m: Tristate, u: Users, o: Outcomes, rank: Rank, s: Symbol)
    requires Ranked(c, rank) && Inside(rank, s) && ChoicesOk(c, rank) && UsersOk(c, u, rank)
    ensures var cone := Cone(c, rank, s); Ranked(c, cone) && ChoicesOk(c, cone) && UsersOk(c, u, cone)
    ensures SolvesInside(c, m, u, o, rank) ==> SolvesInside(c, m, u, o, Cone(c, rank, s))
  {
    ConeIsRanked(c, rank, s);
  }

  /** A value depends only on the user values of what it is computed from. */
  lemma ReachedUsersDecide(c: Config, m: Tristate, u: Users, u': Users, o: Outcomes, o': Outcomes, rank: Rank, s: Symbol)
    requires Ranked(c, rank) && ChoicesOk(c, rank) && UsersOk(c, u, rank) && UsersOk(c, u', rank) && Inside(rank, s)
    requires SolvesInside(c, m, u, o, rank) && SolvesInside(c, m, u', o', rank)
    requires forall t :: Reaches(c, s, t) ==> u(t) == u'(t)
    ensures o(s) == o'(s)
  {
    var cone := Cone(c, rank, s);
    ConeIsRanked(c, rank, s);
    ConeSetting(c, m, u, o, rank, s);
    ConeSetting(c, m, u', o', rank, s);
    SolutionsAgreeUpTo(c, m, u, u', o, o', cone, s);
  }

  // ----- the value of MODULES -----

  lemma VisibilityIgnoresModules(c: Config, s: Symbol, env: Env, m: Tristate, m': Tristate)
    ensures Visibility(c, s, env, m) == NO <==> Visibility(c, s, env, m') == NO
    ensures s.Type() != TTristate ==> Visibility(c, s, env, m) == Visibility(c, s, env, m')
  {
  }

  lemma {:induction false} PicksIgnoreModules(c: Config, members: seq<Symbol>, i: nat, props: seq<Property>, j: nat,
                                              env: Env, m: Tristate, m': Tristate)
    requires i <= |members| && j <= |props|
    ensures FirstVisible(c, members, i, env, m) == FirstVisible(c, members, i, env, m')
    ensures FirstDefaultPick(c, props, j, env, m) == FirstDefaultPick(c, props, j, env, m')
    decreases |members| - i + |props| - j
  {
    if i < |members| {
      VisibilityIgnoresModules(c, members[i], env, m, m');
      PicksIgnoreModules(c, members, i + 1, props, j, env, m, m');
    }
    if j < |props| {
      if props[j].Default? && props[j].expr.Sym? { VisibilityIgnoresModules(c, props[j].expr.s, env, m, m'); }
      PicksIgnoreModules(c, members, i, props, j + 1, env, m, m');
    }
  }

  /** Only the rule of a tristate symbol asks for the value of MODULES. */
  lemma RuleIgnoresModules(c: Config, m: Tristate, m': Tristate, u: Users, o: Outcomes, s: Symbol)
    requires s.Type() != TTristate
    ensures Rule(c, m, u, o, s) == Rule(c, m', u, o, s)
  {
    if c.IsChoice(s) {
      if u(s).pick.Some? { VisibilityIgnoresModules(c, u(s).pick.value, OpenEnv(o, s), m, m'); }
      PicksIgnoreModules(c, c.Info(s).role.members, 0, c.Info(s).props, 0, OpenEnv(o, s), m, m');
    }
  }

  /** Nothing that MODULES is computed from is tristate. */
  ghost predicate ModulesPlain(c: Config) {
    c.modules.Some? ==> forall t :: Reaches(c, c.modules.value, t) ==> t.Type() != TTristate
  }

  /** A closed set with MODULES on top; if nothing it is computed from is tristate, nothing in the set is. */
  ghost predicate IsModulesCone(c: Config, rank: Rank, cone: Rank)
    requires c.modules.Some?
  {
    && Ranked(c, cone) && ChoicesOk(c, cone)
    && cone.limit == rank.of(c.modules.value) + 1 && cone.of(c.modules.value) == rank.of(c.modules.value)
    && forall t :: Inside(cone, t) ==> Inside(rank, t) && (ModulesPlain(c) ==> t.Type() != TTristate)
  }

  lemma ModulesConeExists(c: Config, rank: Rank) returns (cone: Rank)
    requires Ranked(c, rank) && ChoicesOk(c, rank) && c.modules.Some? && Inside(rank, c.modules.value)
    ensures IsModulesCone(c, rank, cone)
  {
    cone := Cone(c, rank, c.modules.value);
    ConeIsRanked(c, rank, c.modules.value);
  }

  /** Then everything in the set comes out the same whatever MODULES is taken to be. */
  lemma PlainConeAgrees(c: Config, m: Tristate, m': Tristate, u: Users, o: Outcomes, o': Outcomes, rank: Rank,
                        cone: Rank, s: Symbol)
    requires UsersOk(c, u, rank) && c.modules.Some? && IsModulesCone(c, rank, cone) && ModulesPlain(c)
    requires SolvesInside(c, m, u, o, rank) && SolvesInside(c, m', u, o', rank) && Inside(cone, s)
    ensures o(s) == o'(s)
  {
    forall t | Inside(cone, t)
      ensures o'(t) == Rule(c, m, u, o', t)
    {
      RuleIgnoresModules(c, m, m', u, o', t);
    }
    SolutionsAgreeUpTo(c, m, u, u, o, o', cone, s);
  }

  /** So does whatever MODULES is computed from, and MODULES. */
  lemma PlainModulesAgree(c: Config, m: Tristate, m': Tristate, u: Users, o: Outcomes, o': Outcomes, rank: Rank, s: Symbol)
    requires Ranked(c, rank) && ChoicesOk(c, rank) && UsersOk(c, u, rank)
    requires SolvesInside(c, m, u, o, rank) && SolvesInside(c, m', u, o', rank)
    requires c.modules.Some? && Inside(rank, c.modules.value) && ModulesPlain(c)
    requires Reaches(c, c.modules.value, s)
    ensures o(s) == o'(s)
  {
    var cone := Cone(c, rank, c.modules.value);
    ConeIsRanked(c, rank, c.modules.value);
    PlainConeAgrees(c, m, m', u, o, o', rank, cone, s);
  }

  /** With a tristate symbol below MODULES one calculation is not enough: here MODULES comes to y while it was n,
      and to n once it is y. */
  lemma ModulesMayFlip(u: Users, o: Outcomes, o': Outcomes)
    requires u(Var("X", TTristate)) == User(true, MOD, "", None)
    requires var x, md := Var("X", TTristate), Var("MODULES", TBoolean);
      var c := Config(map[x := SymInfo([Prompt(None)], None, Plain),
                          md := SymInfo([Default(None, Equal(x, Yes))], None, Plain)], Some(md));
      && o(Yes) == Rule(c, NO, u, o, Yes) && o(x) == Rule(c, NO, u, o, x) && o(md) == Rule(c, NO, u, o, md)
      && o'(Yes) == Rule(c, YES, u, o', Yes) && o'(x) == Rule(c, YES, u, o', x) && o'(md) == Rule(c, YES, u, o', md)
    ensures o(Var("MODULES", TBoolean)).value.tri == YES && o'(Var("MODULES", TBoolean)).value.tri == NO
  {
    var x, md := Var("X", TTristate), Var("MODULES", TBoolean);
    var c := Config(map[x := SymInfo([Prompt(None)], None, Plain),
                        md := SymInfo([Default(None, Equal(x, Yes))], None, Plain)], Some(md));
    assert PromptsFrom(c.Info(x).props, 0, EnvOf(o)) == PromptsFrom(c.Info(x).props, 0, EnvOf(o')) == YES;
    assert o(x).value == Value(YES, "y") && o'(x).value == Value(MOD, "m");
    assert PromptsFrom(c.Info(md).props, 0, EnvOf(o)) == PromptsFrom(c.Info(md).props, 0, EnvOf(o')) == NO;
  }
}
