/** The equations of SymbolRules have exactly one solution on every set of symbols that is closed under
    reading and ranked, the solution is well typed, and a boolean choice has exactly one yes member. */
module SymbolTheory {
  import opened Tristates
  import opened Exprs
  import opened Ranges
  import opened SymbolRules
  import opened SymbolMeaning

  /** Numbers for the symbols of a closed set, which are those below the limit. */
  datatype Rank = Rank(of: Symbol -> nat, limit: nat)

  predicate Inside(rank: Rank, s: Symbol) {
    rank.of(s) < rank.limit
  }

  // ----- ranked dependencies -----

  ghost predicate ExprBelow(e: Expr, rank: Rank, k: nat) {
    forall t :: t in SymbolsOf(e) ==> rank.of(t) < k
  }

  ghost predicate OptBelow(e: OptExpr, rank: Rank, k: nat) {
    e.Some? ==> ExprBelow(e.value, rank, k)
  }

  /** Whether the value of a default is asked for: of a choice only the visibility of the member that it names
      is, and an int, hex or string symbol takes its value only from a symbol. */
  predicate FollowsDefault(c: Config, s: Symbol, e: Expr) {
    if s.IsBoolOrTristate() then !c.IsChoice(s) else e.Sym?
  }

  /** Only int and hex symbols have their range looked at. */
  predicate FollowsRange(s: Symbol) {
    s.Type() == TInt || s.Type() == THex
  }

  ghost predicate PropertyBelow(c: Config, s: Symbol, p: Property, rank: Rank, k: nat) {
    match p
    case Prompt(v) => OptBelow(v, rank, k)
    case Default(v, e) => OptBelow(v, rank, k) && (FollowsDefault(c, s, e) ==> ExprBelow(e, rank, k))
    case Range(v, lo, hi) => FollowsRange(s) ==> OptBelow(v, rank, k) && rank.of(lo) < k && rank.of(hi) < k
    case Select(_, _) => true
  }

  ghost predicate PropsBelow(c: Config, s: Symbol, rank: Rank, k: nat) {
    forall p :: p in c.Info(s).props ==> PropertyBelow(c, s, p, rank, k)
  }

  /** A prompt of a member may mention its choice; anything else in it is below the choice. */
  ghost predicate PromptBelowExcept(p: Property, rank: Rank, k: nat, choice: Symbol) {
    p.Prompt? && p.visible.Some? ==> forall t :: t in SymbolsOf(p.visible.value) ==> t == choice || rank.of(t) < k
  }

  ghost predicate MemberBelowExcept(c: Config, x: Symbol, rank: Rank, k: nat, choice: Symbol) {
    forall p :: p in c.Info(x).props ==> PromptBelowExcept(p, rank, k, choice)
  }

  /** Every symbol ranks above what its value is computed from; an untyped symbol has just its name. */
  ghost predicate RankedAt(c: Config, rank: Rank, s: Symbol) {
    s.Type() != TUnknown ==>
    && PropsBelow(c, s, rank, rank.of(s))
    && (!c.IsMember(s) ==> OptBelow(c.Info(s).revDep, rank, rank.of(s)))
    && (c.IsMember(s) ==> rank.of(c.Info(s).role.choice) < rank.of(s))
    && (c.IsChoice(s) ==> forall x :: x in c.Info(s).role.members ==> MemberBelowExcept(c, x, rank, rank.of(s), s))
  }

  ghost predicate Ranked(c: Config, rank: Rank) {
    forall s :: Inside(rank, s) ==> RankedAt(c, rank, s)
  }

  /** What menu_finalize sets up for choices: heads and members name each other, defaults of a choice
      name members, and some prompt of a member mentions the choice. */
  ghost predicate ChoicesOk(c: Config, rank: Rank) {
    forall s :: Inside(rank, s) ==> ChoiceOkAt(c, s)
  }

  ghost predicate ChoiceOkAt(c: Config, s: Symbol) {
    && (c.IsChoice(s) ==>
          && s.IsBoolOrTristate()
          && (forall x :: x in c.Info(s).role.members ==> c.Info(x).role == MemberOf(s) && x.IsBoolOrTristate())
          && (forall p :: p in c.Info(s).props && p.Default? ==> p.expr.Sym? && p.expr.s in c.Info(s).role.members))
    && (c.IsMember(s) ==>
          && s.IsBoolOrTristate() && c.IsChoice(c.Info(s).role.choice)
          && s in c.Info(c.Info(s).role.choice).role.members
          && MentionsIn(c.Info(s).props, c.Info(s).role.choice))
  }

  ghost predicate MentionsIn(props: seq<Property>, choice: Symbol) {
    exists p :: p in props && p.Prompt? && choice in SymbolsOfOpt(p.visible)
  }

  ghost predicate UsersOk(c: Config, u: Users, rank: Rank) {
    forall s :: Inside(rank, s) ==> UserOkAt(c, u(s), s)
  }

  ghost predicate UserOkAt(c: Config, user: User, s: Symbol) {
    c.IsChoice(s) && user.pick.Some? ==> user.pick.value in c.Info(s).role.members
  }

  /** The outcomes satisfy the rules of the symbols inside. */
  ghost predicate SolvesInside(c: Config, m: Tristate, u: Users, o: Outcomes, rank: Rank) {
    forall s :: Inside(rank, s) ==> o(s) == Rule(c, m, u, o, s)
  }

  // ----- a rule reads only what ranks below -----

  ghost predicate AgreeBelow(env: Env, env': Env, rank: Rank, k: nat) {
    forall t :: rank.of(t) < k ==> env(t) == env'(t)
  }

  lemma OptAgree(e: OptExpr, env: Env, env': Env, rank: Rank, k: nat)
    requires AgreeBelow(env, env', rank, k) && OptBelow(e, rank, k)
    ensures EvalOpt(e, env) == EvalOpt(e, env')
  {
    if e.Some? { EvalDependsOnSymbols(e.value, env, env'); }
  }

  lemma {:induction false} PropsAgree(c: Config, s: Symbol, i: nat, env: Env, env': Env, rank: Rank, k: nat)
    requires i <= |c.Info(s).props| && AgreeBelow(env, env', rank, k) && PropsBelow(c, s, rank, k)
    ensures var props := c.Info(s).props;
      && PromptsFrom(props, i, env) == PromptsFrom(props, i, env')
      && DefaultFrom(props, i, env) == DefaultFrom(props, i, env')
      && (FollowsRange(s) ==> RangeFrom(props, i, env) == RangeFrom(props, i, env'))
    decreases |c.Info(s).props| - i
  {
    var props := c.Info(s).props;
    if i < |props| {
      assert PropertyBelow(c, s, props[i], rank, k);
      if !props[i].Select? && (props[i].Range? ==> FollowsRange(s)) { OptAgree(props[i].visible, env, env', rank, k); }
      PropsAgree(c, s, i + 1, env, env', rank, k);
    }
  }

  lemma DefaultValuesAgree(c: Config, s: Symbol, env: Env, env': Env, rank: Rank, k: nat)
    requires AgreeBelow(env, env', rank, k) && PropsBelow(c, s, rank, k)
    ensures if s.IsBoolOrTristate() then !c.IsChoice(s) ==> DefaultTri(c, s, env) == DefaultTri(c, s, env')
            else DefaultStr(c, s, env) == DefaultStr(c, s, env')
    ensures forall str :: RangeChecked(c, s, str, env) == RangeChecked(c, s, str, env')
  {
    var props := c.Info(s).props;
    PropsAgree(c, s, 0, env, env', rank, k);
    var d, r := DefaultFrom(props, 0, env), RangeFrom(props, 0, env);
    if d.Some? && FollowsDefault(c, s, d.value.expr) {
      assert PropertyBelow(c, s, d.value, rank, k);
      EvalDependsOnSymbols(d.value.expr, env, env');
      if d.value.expr.Sym? { assert d.value.expr.s in SymbolsOf(d.value.expr); }
    }
    if r.Some? { assert PropertyBelow(c, s, r.value, rank, k); }
  }

  lemma {:induction false} OpenPromptsAgree(props: seq<Property>, i: nat, o: Outcomes, o': Outcomes,
                                            rank: Rank, choice: Symbol)
    requires i <= |props| && AgreeBelow(EnvOf(o), EnvOf(o'), rank, rank.of(choice))
    requires forall p :: p in props ==> PromptBelowExcept(p, rank, rank.of(choice), choice)
    ensures PromptsFrom(props, i, OpenEnv(o, choice)) == PromptsFrom(props, i, OpenEnv(o', choice))
    decreases |props| - i
  {
    if i < |props| {
      assert PromptBelowExcept(props[i], rank, rank.of(choice), choice);
      if props[i].Prompt? && props[i].visible.Some? {
        forall t | t in SymbolsOf(props[i].visible.value)
          ensures OpenEnv(o, choice)(t) == OpenEnv(o', choice)(t)
        {
          assert t != choice ==> EnvOf(o)(t) == EnvOf(o')(t);
        }
        EvalDependsOnSymbols(props[i].visible.value, OpenEnv(o, choice), OpenEnv(o', choice));
      }
      OpenPromptsAgree(props, i + 1, o, o', rank, choice);
    }
  }

  lemma OpenVisibilityAgree(c: Config, x: Symbol, o: Outcomes, o': Outcomes, rank: Rank, choice: Symbol, m: Tristate)
    requires AgreeBelow(EnvOf(o), EnvOf(o'), rank, rank.of(choice))
    requires MemberBelowExcept(c, x, rank, rank.of(choice), choice)
    ensures Visibility(c, x, OpenEnv(o, choice), m) == Visibility(c, x, OpenEnv(o', choice), m)
  {
    OpenPromptsAgree(c.Info(x).props, 0, o, o', rank, choice);
  }

  lemma {:induction false} FirstVisibleAgree(c: Config, members: seq<Symbol>, i: nat, o: Outcomes, o': Outcomes,
                                             rank: Rank, choice: Symbol, m: Tristate)
    requires i <= |members| && AgreeBelow(EnvOf(o), EnvOf(o'), rank, rank.of(choice))
    requires forall x :: x in members ==> MemberBelowExcept(c, x, rank, rank.of(choice), choice)
    ensures FirstVisible(c, members, i, OpenEnv(o, choice), m) == FirstVisible(c, members, i, OpenEnv(o', choice), m)
    decreases |members| - i
  {
    if i < |members| {
      OpenVisibilityAgree(c, members[i], o, o', rank, choice, m);
      FirstVisibleAgree(c, members, i + 1, o, o', rank, choice, m);
    }
  }

  lemma {:induction false} DefaultPickAgree(c: Config, choice: Symbol, i: nat, o: Outcomes, o': Outcomes,
                                            rank: Rank, m: Tristate)
    requires i <= |c.Info(choice).props| && AgreeBelow(EnvOf(o), EnvOf(o'), rank, rank.of(choice))
    requires PropsBelow(c, choice, rank, rank.of(choice))
    requires forall p :: p in c.Info(choice).props && p.Default? ==>
      p.expr.Sym? && MemberBelowExcept(c, p.expr.s, rank, rank.of(choice), choice)
    ensures FirstDefaultPick(c, c.Info(choice).props, i, OpenEnv(o, choice), m)
         == FirstDefaultPick(c, c.Info(choice).props, i, OpenEnv(o', choice), m)
    decreases |c.Info(choice).props| - i
  {
    var props := c.Info(choice).props;
    if i < |props| {
      assert PropertyBelow(c, choice, props[i], rank, rank.of(choice));
      if props[i].Default? {
        OpenEnvAgrees(o, o', rank, choice);
        OptAgree(props[i].visible, OpenEnv(o, choice), OpenEnv(o', choice), rank, rank.of(choice));
        OpenVisibilityAgree(c, props[i].expr.s, o, o', rank, choice, m);
      }
      DefaultPickAgree(c, choice, i + 1, o, o', rank, m);
    }
  }

  lemma OpenEnvAgrees(o: Outcomes, o': Outcomes, rank: Rank, choice: Symbol)
    requires AgreeBelow(EnvOf(o), EnvOf(o'), rank, rank.of(choice))
    ensures AgreeBelow(OpenEnv(o, choice), OpenEnv(o', choice), rank, rank.of(choice))
  {
    forall t | rank.of(t) < rank.of(choice)
      ensures OpenEnv(o, choice)(t) == OpenEnv(o', choice)(t)
    {
      assert EnvOf(o)(t) == EnvOf(o')(t);
    }
  }

  lemma ChoicePickAgree(c: Config, s: Symbol, u: Users, o: Outcomes, o': Outcomes, rank: Rank, m: Tristate)
    requires c.IsChoice(s) && ChoiceOkAt(c, s) && RankedAt(c, rank, s) && UserOkAt(c, u(s), s)
    requires AgreeBelow(EnvOf(o), EnvOf(o'), rank, rank.of(s))
    ensures ChoicePick(c, s, u(s), OpenEnv(o, s), m) == ChoicePick(c, s, u(s), OpenEnv(o', s), m)
  {
    var props, members := c.Info(s).props, c.Info(s).role.members;
    if u(s).pick.Some? {
      OpenVisibilityAgree(c, u(s).pick.value, o, o', rank, s, m);
    }
    forall p | p in props && p.Default?
      ensures p.expr.Sym? && MemberBelowExcept(c, p.expr.s, rank, rank.of(s), s)
    {
      assert p.expr.s in members;
    }
    DefaultPickAgree(c, s, 0, o, o', rank, m);
    FirstVisibleAgree(c, members, 0, o, o', rank, s, m);
  }

  lemma VisibilityAgree(c: Config, m: Tristate, o: Outcomes, o': Outcomes, s: Symbol, rank: Rank)
    requires RankedAt(c, rank, s) && s.Type() != TUnknown && AgreeBelow(EnvOf(o), EnvOf(o'), rank, rank.of(s))
    ensures Visibility(c, s, EnvOf(o), m) == Visibility(c, s, EnvOf(o'), m)
    ensures forall v :: SelectValue(c, s, EnvOf(o), v, m) == SelectValue(c, s, EnvOf(o'), v, m)
  {
    PropsAgree(c, s, 0, EnvOf(o), EnvOf(o'), rank, rank.of(s));
    if !c.IsMember(s) { OptAgree(c.Info(s).revDep, EnvOf(o), EnvOf(o'), rank, rank.of(s)); }
  }

  lemma TriReadsBelow(c: Config, m: Tristate, u: Users, o: Outcomes, o': Outcomes, s: Symbol, rank: Rank)
    requires RankedAt(c, rank, s) && ChoiceOkAt(c, s) && UserOkAt(c, u(s), s) && s.IsBoolOrTristate()
    requires forall t :: rank.of(t) < rank.of(s) ==> o(t) == o'(t)
    ensures TriOutcome(c, m, u(s), o, s) == TriOutcome(c, m, u(s), o', s)
  {
    assert AgreeBelow(EnvOf(o), EnvOf(o'), rank, rank.of(s));
    VisibilityAgree(c, m, o, o', s, rank);
    DefaultValuesAgree(c, s, EnvOf(o), EnvOf(o'), rank, rank.of(s));
    if c.IsChoice(s) { ChoicePickAgree(c, s, u, o, o', rank, m); }
  }

  lemma StrReadsBelow(c: Config, m: Tristate, u: User, o: Outcomes, o': Outcomes, s: Symbol, rank: Rank)
    requires RankedAt(c, rank, s) && s.Type() != TUnknown && !s.IsBoolOrTristate()
    requires forall t :: rank.of(t) < rank.of(s) ==> o(t) == o'(t)
    ensures StrOutcome(c, m, u, o, s) == StrOutcome(c, m, u, o', s)
  {
    assert AgreeBelow(EnvOf(o), EnvOf(o'), rank, rank.of(s));
    VisibilityAgree(c, m, o, o', s, rank);
    DefaultValuesAgree(c, s, EnvOf(o), EnvOf(o'), rank, rank.of(s));
  }

  lemma RuleReadsBelow(c: Config, m: Tristate, u: Users, o: Outcomes, o': Outcomes, s: Symbol, rank: Rank)
    requires RankedAt(c, rank, s) && ChoiceOkAt(c, s) && UserOkAt(c, u(s), s)
    requires forall t :: rank.of(t) < rank.of(s) ==> o(t) == o'(t)
    ensures Rule(c, m, u, o, s) == Rule(c, m, u, o', s)
  {
    if s.IsBoolOrTristate() {
      TriReadsBelow(c, m, u, o, o', s, rank);
    } else if s.Type() != TUnknown {
      StrReadsBelow(c, m, u(s), o, o', s, rank);
    }
  }

  // ----- exactly one solution -----

  /** Two settings that agree on everything up to rank k have the same outcomes there. */
  lemma {:induction false} SolutionsAgreeUpTo(c: Config, m: Tristate, u: Users, u': Users, o: Outcomes, o': Outcomes,
                                              rank: Rank, s: Symbol)
    requires Ranked(c, rank) && ChoicesOk(c, rank) && UsersOk(c, u, rank) && UsersOk(c, u', rank)
    requires SolvesInside(c, m, u, o, rank) && SolvesInside(c, m, u', o', rank) && Inside(rank, s)
    requires forall t :: rank.of(t) <= rank.of(s) ==> u(t) == u'(t)
    ensures o(s) == o'(s)
    decreases rank.of(s)
  {
    forall t | rank.of(t) < rank.of(s)
      ensures o(t) == o'(t)
    {
      SolutionsAgreeUpTo(c, m, u, u', o, o', rank, t);
    }
    assert RankedAt(c, rank, s) && ChoiceOkAt(c, s) && UserOkAt(c, u(s), s);
    RuleReadsBelow(c, m, u, o, o', s, rank);
    RuleReadsUser(c, m, u, u', o', s);
  }

  lemma RuleReadsUser(c: Config, m: Tristate, u: Users, u': Users, o: Outcomes, s: Symbol)
    requires u(s) == u'(s)
    ensures Rule(c, m, u, o, s) == Rule(c, m, u', o, s)
  {
  }

  ghost function Level(c: Config, m: Tristate, u: Users, rank: Rank, n: nat): Outcomes {
    if n == 0 then s => Outcome(Value(NO, ""), None, NO, NO)
    else
      var below := Level(c, m, u, rank, n - 1);
      s => if rank.of(s) == n - 1 then Rule(c, m, u, below, s) else below(s)
  }

  /** The outcomes by plain recursion over the ranks. */
  ghost function Solution(c: Config, m: Tristate, u: Users, rank: Rank): Outcomes {
    s => Level(c, m, u, rank, rank.of(s) + 1)(s)
  }

  lemma {:induction false} LevelStable(c: Config, m: Tristate, u: Users, rank: Rank, n: nat, s: Symbol)
    requires rank.of(s) < n
    ensures Level(c, m, u, rank, n)(s) == Level(c, m, u, rank, rank.of(s) + 1)(s)
  {
    if rank.of(s) < n - 1 {
      LevelStable(c, m, u, rank, n - 1, s);
    }
  }

  lemma SolutionExists(c: Config, m: Tristate, u: Users, rank: Rank)
    requires Ranked(c, rank) && ChoicesOk(c, rank) && UsersOk(c, u, rank)
    ensures SolvesInside(c, m, u, Solution(c, m, u, rank), rank)
  {
    var o := Solution(c, m, u, rank);
    forall s | Inside(rank, s)
      ensures o(s) == Rule(c, m, u, o, s)
    {
      var below := Level(c, m, u, rank, rank.of(s));
      forall t | rank.of(t) < rank.of(s)
        ensures below(t) == o(t)
      {
        LevelStable(c, m, u, rank, rank.of(s), t);
      }
      assert RankedAt(c, rank, s) && ChoiceOkAt(c, s) && UserOkAt(c, u(s), s);
      RuleReadsBelow(c, m, u, below, o, s, rank);
    }
  }

  /** The equations have one solution. */
  lemma SolutionUnique(c: Config, m: Tristate, u: Users, rank: Rank, o: Outcomes, s: Symbol)
    requires Ranked(c, rank) && ChoicesOk(c, rank) && UsersOk(c, u, rank)
    requires SolvesInside(c, m, u, o, rank) && Inside(rank, s)
    ensures o(s) == Solution(c, m, u, rank)(s)
  {
    SolutionExists(c, m, u, rank);
    SolutionsAgreeUpTo(c, m, u, u, o, Solution(c, m, u, rank), rank, s);
  }

  // ----- what every solution satisfies -----

  /** Boolean symbols are never mod, and only bool and tristate symbols are ever non-no: evaluation always
      gives an environment of the kind the rewriters are exact in. */
  lemma SolutionsAreWellTyped(c: Config, m: Tristate, u: Users, o: Outcomes)
    requires Solves(c, m, u, o) && forall s :: ChoiceOkAt(c, s)
    ensures WellTyped(EnvOf(o))
  {
    forall s
      ensures WellTypedAt(s, EnvOf(o)(s))
    {
      assert o(s) == Rule(c, m, u, o, s) && ChoiceOkAt(c, s);
    }
  }

  /** While a choice is yes, its members are seen as they are seen from inside the open choice. */
  lemma OpenEnvIsEnv(c: Config, o: Outcomes, s: Symbol)
    requires o(s).value == Value(YES, TriName(YES))
    ensures forall t :: OpenEnv(o, s)(t) == EnvOf(o)(t)
  {
  }

  lemma {:induction false} PromptsSameEnv(props: seq<Property>, i: nat, env: Env, env': Env)
    requires i <= |props| && forall t :: env(t) == env'(t)
    ensures PromptsFrom(props, i, env) == PromptsFrom(props, i, env')
    decreases |props| - i
  {
    if i < |props| {
      if props[i].Prompt? && props[i].visible.Some? {
        EvalDependsOnSymbols(props[i].visible.value, env, env');
      }
      PromptsSameEnv(props, i + 1, env, env');
    }
  }

  predicate BooleanMember(c: Config, x: Symbol) {
    c.IsMember(x) && x.Type() == TBoolean && forall p :: p in c.Info(x).props ==> !p.Default?
  }

  lemma {:induction false} NoDefaults(props: seq<Property>, i: nat, env: Env)
    requires i <= |props| && forall p :: p in props ==> !p.Default?
    ensures DefaultFrom(props, i, env) == None
    decreases |props| - i
  {
    if i < |props| { NoDefaults(props, i + 1, env); }
  }

  /** A boolean member without defaults of its own is yes exactly if it is visible and the choice stands on it. */
  lemma MemberYesIff(c: Config, m: Tristate, u: Users, o: Outcomes, x: Symbol)
    requires o(x) == Rule(c, m, u, o, x) && BooleanMember(c, x)
    ensures o(x).value.tri == YES <==> o(x).visible == YES && o(c.Info(x).role.choice).pick == Some(x)
    ensures o(x).value.tri != MOD
  {
    NoDefaults(c.Info(x).props, 0, EnvOf(o));
  }

  /** At most one member is yes, in every state. */
  lemma ChoiceAtMostOne(c: Config, m: Tristate, u: Users, o: Outcomes, x: Symbol, y: Symbol)
    requires Solves(c, m, u, o) && BooleanMember(c, x) && BooleanMember(c, y)
    requires c.Info(x).role.choice == c.Info(y).role.choice
    requires o(x).value.tri == YES && o(y).value.tri == YES
    ensures x == y
  {
    assert o(x) == Rule(c, m, u, o, x) && o(y) == Rule(c, m, u, o, y);
    MemberYesIff(c, m, u, o, x);
    MemberYesIff(c, m, u, o, y);
  }

  lemma {:induction false} FirstPicksSameEnv(c: Config, members: seq<Symbol>, props: seq<Property>, i: nat, j: nat,
                                             env: Env, env': Env, m: Tristate)
    requires i <= |members| && j <= |props| && forall t :: env(t) == env'(t)
    ensures FirstVisible(c, members, i, env, m) == FirstVisible(c, members, i, env', m)
    ensures FirstDefaultPick(c, props, j, env, m) == FirstDefaultPick(c, props, j, env', m)
    decreases |members| - i + |props| - j
  {
    if i < |members| {
      PromptsSameEnv(c.Info(members[i]).props, 0, env, env');
      FirstPicksSameEnv(c, members, props, i + 1, j, env, env', m);
    }
    if j < |props| {
      if props[j].Default? && props[j].visible.Some? { EvalDependsOnSymbols(props[j].visible.value, env, env'); }
      if props[j].Default? && props[j].expr.Sym? { PromptsSameEnv(c.Info(props[j].expr.s).props, 0, env, env'); }
      FirstPicksSameEnv(c, members, props, i, j + 1, env, env', m);
    }
  }

  /** When a choice stays yes, exactly one member is yes, and it is the one that is preferred in the final
      environment: the user's pick, else that of the first default, else the first, of those that can be seen. */
  lemma ChoiceExactlyOne(c: Config, m: Tristate, u: Users, o: Outcomes, s: Symbol) returns (x: Symbol)
    requires Solves(c, m, u, o) && ChoiceOkAt(c, s) && UserOkAt(c, u(s), s)
    requires c.IsChoice(s) && o(s).value.tri == YES
    requires forall y :: y in c.Info(s).role.members ==> BooleanMember(c, y)
    ensures x in c.Info(s).role.members && Picks(c, m, u(s), EnvOf(o), s, Some(x))
    ensures o(x).value.tri == YES
    ensures forall y :: y in c.Info(s).role.members && y != x ==> o(y).value.tri == NO
  {
    assert o(s) == Rule(c, m, u, o, s);
    x := o(s).pick.value;
    assert o(s).value == Value(YES, TriName(YES));
    OpenEnvIsEnv(c, o, s);
    if u(s).pick.Some? {
      PromptsSameEnv(c.Info(u(s).pick.value).props, 0, OpenEnv(o, s), EnvOf(o));
    }
    FirstPicksSameEnv(c, c.Info(s).role.members, c.Info(s).props, 0, 0, OpenEnv(o, s), EnvOf(o), m);
    PromptsSameEnv(c.Info(x).props, 0, OpenEnv(o, s), EnvOf(o));
    assert ChoicePick(c, s, u(s), EnvOf(o), m) == Some(x);
    PickIff(c, m, u(s), EnvOf(o), s, Some(x));
    assert x in c.Info(s).role.members;
    assert o(x) == Rule(c, m, u, o, x);
    MemberYesIff(c, m, u, o, x);
    forall y | y in c.Info(s).role.members && y != x
      ensures o(y).value.tri == NO
    {
      assert o(y) == Rule(c, m, u, o, y);
      MemberYesIff(c, m, u, o, y);
    }
  }
}
