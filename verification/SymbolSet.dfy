/** Setting a value: what the user data are afterwards, and what the equations then give. */
module SymbolSet {
  import opened Tristates
  import opened Exprs
  import opened SymbolRules
  import opened SymbolTheory
  import opened SymbolReads
  import opened SymbolCache

  function Next(v: Tristate): Tristate {
    if v == NO then MOD else if v == MOD then YES else NO
  }

  function WithUser(cells: Cells, s: Symbol, user: User): Cells {
    cells[s := Get(cells, s).(user := user)]
  }

  function UserAfterPick(c: Config, cells: Cells, s: Symbol, t: Symbol): User
    requires c.IsMember(s)
  {
    var cs := c.Info(s).role.choice;
    var u := Get(cells, t).user;
    if t == s then u.(hasValue := true)
    else if t == cs then u.(hasValue := true, pick := Some(s))
    else if c.IsChoice(cs) && t in c.Info(cs).role.members && Get(cells, t).visible != NO then u.(hasValue := true)
    else u
  }

  /** The same while the loop over the members has come through seen. */
  function UserWhilePicking(cells: Cells, s: Symbol, cs: Symbol, seen: seq<Symbol>, t: Symbol): User {
    var u := Get(cells, t).user;
    if t == s then u.(hasValue := true)
    else if t == cs then u.(hasValue := true, pick := Some(s))
    else if t in seen && Get(cells, t).visible != NO then u.(hasValue := true)
    else u
  }

  lemma PickStep(cells0: Cells, cells: Cells, cells': Cells, s: Symbol, cs: Symbol, seen: seq<Symbol>, x: Symbol)
    requires forall t :: Get(cells, t) == Get(cells0, t).(user := UserWhilePicking(cells0, s, cs, seen, t))
    requires cells' == if Get(cells, x).visible != NO then cells[x := Get(cells, x).(user := Get(cells, x).user.(hasValue := true))]
                       else cells
    ensures forall t :: Get(cells', t) == Get(cells0, t).(user := UserWhilePicking(cells0, s, cs, seen + [x], t))
  {
    forall t
      ensures Get(cells', t) == Get(cells0, t).(user := UserWhilePicking(cells0, s, cs, seen + [x], t))
    {
      assert t in seen + [x] <==> t in seen || t == x;
    }
  }

  /** The user data of t after s has been set to val. */
  function UserAfterSet(c: Config, cells: Cells, s: Symbol, val: Tristate, t: Symbol): User {
    var u := Get(cells, t).user;
    if t == s then u.(hasValue := true, tri := val)
    else if c.IsMember(s) && val == YES then UserAfterPick(c, cells, s, t)
    else u
  }

  ghost predicate IsAfterSet(c: Config, cells: Cells, cells': Cells, s: Symbol, val: Tristate) {
    forall t :: Get(cells', t) == Get(cells, t).(user := UserAfterSet(c, cells, s, val, t))
  }

  ghost predicate UsersAfterSet(c: Config, cells: Cells, cells': Cells, s: Symbol, val: Tristate) {
    forall t :: UsersOf(cells')(t) == UserAfterSet(c, cells, s, val, t)
  }

  lemma AfterSetUsers(c: Config, cells: Cells, cells': Cells, s: Symbol, val: Tristate)
    requires IsAfterSet(c, cells, cells', s, val)
    ensures UsersAfterSet(c, cells, cells', s, val) && forall t :: UsersOf(cells)(t) == Get(cells, t).user
  {
    forall t
      ensures UsersOf(cells')(t) == UserAfterSet(c, cells, s, val, t)
    {
      assert Get(cells', t).user == UserAfterSet(c, cells, s, val, t);
    }
  }

  lemma AfterSetUsersOk(c: Config, cells: Cells, cells': Cells, s: Symbol, val: Tristate, rank: Rank)
    requires ChoiceOkAt(c, s) && UsersOk(c, UsersOf(cells), rank) && IsAfterSet(c, cells, cells', s, val)
    ensures UsersOk(c, UsersOf(cells'), rank)
  {
    AfterSetUsers(c, cells, cells', s, val);
    forall t | Inside(rank, t)
      ensures UserOkAt(c, UsersOf(cells')(t), t)
    {
      assert UserOkAt(c, UsersOf(cells)(t), t);
    }
  }

  // ----- MODULES -----

  /** MODULES is not computed from s, nor from the choice that s is a member of. */
  ghost predicate ModulesApart(c: Config, s: Symbol) {
    c.modules.Some? ==>
      && !Reaches(c, c.modules.value, s)
      && (c.IsMember(s) ==> !Reaches(c, c.modules.value, c.Info(s).role.choice))
  }

  lemma ApartKeepsUser(c: Config, cells: Cells, s: Symbol, val: Tristate, t: Symbol)
    requires c.modules.Some? && ModulesApart(c, s) && Reaches(c, c.modules.value, t)
    requires c.IsMember(s) ==> ChoiceOkAt(c, c.Info(s).role.choice)
    ensures UserAfterSet(c, cells, s, val, t) == Get(cells, t).user
  {
    if c.IsMember(t) && t.Type() != TUnknown {
      assert Reads(c, t, c.Info(t).role.choice);
      ReachesStep(c, c.modules.value, t, c.Info(t).role.choice);
    }
  }

  /** Then setting s leaves MODULES alone. */
  lemma ApartKeepsModules(c: Config, m: Tristate, cells: Cells, cells': Cells, o: Outcomes, o': Outcomes, rank: Rank,
                          s: Symbol, val: Tristate)
    requires Determined(c, m, UsersOf(cells), o, rank) && Determined(c, m, UsersOf(cells'), o', rank)
    requires IsAfterSet(c, cells, cells', s, val) && Inside(rank, s)
    requires c.modules.Some? && Inside(rank, c.modules.value) && ModulesApart(c, s)
    ensures o(c.modules.value) == o'(c.modules.value)
  {
    var md := c.modules.value;
    AfterSetUsers(c, cells, cells', s, val);
    assert ChoiceOkAt(c, s) && RankedAt(c, rank, s);
    assert c.IsMember(s) ==> ChoiceOkAt(c, c.Info(s).role.choice);
    forall t | Reaches(c, md, t)
      ensures UsersOf(cells)(t) == UsersOf(cells')(t)
    {
      ApartKeepsUser(c, cells, s, val, t);
    }
    ReachedUsersDecide(c, m, UsersOf(cells), UsersOf(cells'), o, o', rank, md);
  }

  // ----- values that do not change -----

  /** Writing down the value a symbol has anyway does not change what is computed. */
  lemma SetSameRule(c: Config, m: Tristate, u: Users, u': Users, o: Outcomes, s: Symbol)
    requires o(s) == Rule(c, m, u, o, s) && s.IsBoolOrTristate() && !IsBuiltin(s)
    requires c.IsChoice(s) ==> s.Type() == TBoolean
    requires u'(s) == u(s).(hasValue := true, tri := o(s).value.tri)
    ensures Rule(c, m, u', o, s) == o(s)
  {
    var env := EnvOf(o);
    var visible := Visibility(c, s, env, m);
    var rev := SelectValue(c, s, env, visible, m);
    if c.IsChoice(s) {
      assert ChoicePick(c, s, u(s), OpenEnv(o, s), m) == ChoicePick(c, s, u'(s), OpenEnv(o, s), m);
    }
  }

  /** A choice between boolean symbols that have no defaults of their own. */
  predicate BooleanChoice(c: Config, cs: Symbol) {
    c.IsChoice(cs) && cs.Type() == TBoolean && forall x :: x in c.Info(cs).role.members ==> BooleanMember(c, x)
  }

  /** A choice that is yes stays yes when one of its visible members is picked, and stands on that member. */
  lemma PickRule(c: Config, m: Tristate, u: Users, u': Users, o: Outcomes, s: Symbol, cs: Symbol)
    requires o(cs) == Rule(c, m, u, o, cs) && o(s) == Rule(c, m, u, o, s)
    requires c.IsChoice(cs) && cs.Type() == TBoolean && BooleanMember(c, s)
    requires u'(cs) == u(cs).(hasValue := true, pick := Some(s))
    requires o(cs).value.tri == YES && o(s).visible != NO
    ensures Rule(c, m, u', o, cs) == Outcome(Value(YES, TriName(YES)), Some(s), o(cs).visible, o(cs).rev)
  {
    assert o(cs).value == Value(YES, TriName(YES));
    OpenEnvIsEnv(c, o, cs);
    PromptsSameEnv(c.Info(s).props, 0, OpenEnv(o, cs), EnvOf(o));
    var env, visible, rev := EnvOf(o), o(cs).visible, o(cs).rev;
    assert TriValue(c, cs, u(cs), env, None, visible, rev, m) == YES;
    assert TriValue(c, cs, u'(cs), env, None, visible, rev, m) == YES;
  }

  /** Picking a visible member of a choice that is yes makes that member yes and the others no. */
  lemma PickYields(c: Config, m: Tristate, u: Users, u': Users, o: Outcomes, o': Outcomes, rank: Rank, s: Symbol)
    requires Determined(c, m, u, o, rank) && Determined(c, m, u', o', rank)
    requires c.IsMember(s) && Inside(rank, s) && s.Type() != TUnknown && BooleanChoice(c, c.Info(s).role.choice)
    requires var cs := c.Info(s).role.choice;
      && u'(cs) == u(cs).(hasValue := true, pick := Some(s))
      && (forall t :: rank.of(t) < rank.of(cs) ==> u'(t) == u(t))
      && o(cs).value.tri == YES && o(s).visible != NO
    ensures var cs := c.Info(s).role.choice;
      && o'(cs).value.tri == YES && o'(s).value.tri == YES
      && forall y :: y in c.Info(cs).role.members && Inside(rank, y) && y != s ==> o'(y).value.tri == NO
  {
    var cs := c.Info(s).role.choice;
    assert ChoiceOkAt(c, s) && RankedAt(c, rank, s) && RankedAt(c, rank, cs) && ChoiceOkAt(c, cs);
    assert UserOkAt(c, u'(cs), cs);
    forall t | rank.of(t) < rank.of(cs)
      ensures o(t) == o'(t)
    {
      SolutionsAgreeUpTo(c, m, u, u', o, o', rank, t);
    }
    PickRule(c, m, u, u', o, s, cs);
    RuleReadsBelow(c, m, u', o, o', cs, rank);
    assert o'(cs).value == Value(YES, TriName(YES)) && o'(cs).pick == Some(s);
    StillVisible(c, m, o, o', rank, s, cs);
    assert o(s) == Rule(c, m, u, o, s) && o'(s) == Rule(c, m, u', o', s);
    MemberYesIff(c, m, u', o', s);
    forall y | y in c.Info(cs).role.members && Inside(rank, y) && y != s
      ensures o'(y).value.tri == NO
    {
      assert o'(y) == Rule(c, m, u', o', y);
      MemberYesIff(c, m, u', o', y);
    }
  }

  lemma StillVisible(c: Config, m: Tristate, o: Outcomes, o': Outcomes, rank: Rank, s: Symbol, cs: Symbol)
    requires RankedAt(c, rank, cs) && c.IsChoice(cs) && cs.Type() != TUnknown && s in c.Info(cs).role.members
    requires o(cs).value == o'(cs).value == Value(YES, TriName(YES))
    requires forall t :: rank.of(t) < rank.of(cs) ==> o(t) == o'(t)
    ensures Visibility(c, s, EnvOf(o), m) == Visibility(c, s, EnvOf(o'), m)
  {
    OpenVisibilityAgree(c, s, o, o', rank, cs, m);
    OpenEnvIsEnv(c, o, cs);
    OpenEnvIsEnv(c, o', cs);
    PromptsSameEnv(c.Info(s).props, 0, OpenEnv(o, cs), EnvOf(o));
    PromptsSameEnv(c.Info(s).props, 0, OpenEnv(o', cs), EnvOf(o'));
  }

  // ----- values that do -----

  /** The test of sym_tristate_within_range, on outcomes, for a symbol that is not a member of a choice. */
  predicate Acceptable(c: Config, m: Tristate, s: Symbol, out: Outcome, val: Tristate) {
    && out.visible != NO
    && !(EffectiveType(c, s, out.visible, m) == TBoolean && val == MOD)
    && out.visible > out.rev && out.rev <= val <= out.visible
  }

  /** A value that is accepted for a plain symbol is the value it gets, and keeps getting however often
      the cache is cleared. */
  lemma SetYields(c: Config, m: Tristate, u: Users, u': Users, o: Outcomes, o': Outcomes, rank: Rank,
                  s: Symbol, val: Tristate)
    requires Determined(c, m, u, o, rank) && Determined(c, m, u', o', rank) && Inside(rank, s)
    requires s.IsBoolOrTristate() && !IsBuiltin(s) && !c.IsMember(s) && !c.IsChoice(s)
    requires u'(s) == u(s).(hasValue := true, tri := val) && forall t :: t != s ==> u'(t) == u(t)
    requires o(s).value.tri == val || Acceptable(c, m, s, o(s), val)
    ensures o'(s).value.tri == val
  {
    assert o(s) == Rule(c, m, u, o, s) && o'(s) == Rule(c, m, u', o', s);
    assert RankedAt(c, rank, s) && ChoiceOkAt(c, s) && UserOkAt(c, u'(s), s);
    forall t | rank.of(t) < rank.of(s)
      ensures o(t) == o'(t)
    {
      SolutionsAgreeUpTo(c, m, u, u', o, o', rank, t);
    }
    RuleReadsBelow(c, m, u', o, o', s, rank);
    if o(s).value.tri == val {
      SetSameRule(c, m, u, u', o, s);
    } else {
      VisibilityAgree(c, m, o, o', s, rank);
    }
  }

  lemma StoredYields(c: Config, m: Tristate, cells: Cells, cells': Cells, o: Outcomes, o': Outcomes, rank: Rank,
                     s: Symbol, val: Tristate)
    requires Determined(c, m, UsersOf(cells), o, rank) && Determined(c, m, UsersOf(cells'), o', rank) && Inside(rank, s)
    requires s.IsBoolOrTristate() && !IsBuiltin(s) && !c.IsMember(s) && !c.IsChoice(s)
    requires IsAfterSet(c, cells, cells', s, val)
    requires o(s).value.tri == val || Acceptable(c, m, s, o(s), val)
    ensures o'(s).value.tri == val
  {
    AfterSetUsers(c, cells, cells', s, val);
    SetYields(c, m, UsersOf(cells), UsersOf(cells'), o, o', rank, s, val);
  }

  lemma PickKeepsBelow(c: Config, cells: Cells, rank: Rank, s: Symbol, cs: Symbol)
    requires Ranked(c, rank) && ChoicesOk(c, rank) && Inside(rank, s)
    requires c.IsMember(s) && s.Type() != TUnknown && cs == c.Info(s).role.choice
    ensures forall t :: rank.of(t) < rank.of(cs) ==> UserAfterSet(c, cells, s, YES, t) == Get(cells, t).user
    ensures cs != s && UserAfterSet(c, cells, s, YES, cs) == Get(cells, cs).user.(hasValue := true, pick := Some(s))
  {
    assert ChoiceOkAt(c, s) && RankedAt(c, rank, s) && ChoiceOkAt(c, cs);
    forall t | rank.of(t) < rank.of(cs)
      ensures t !in c.Info(cs).role.members && t != s
    {
      assert RankedAt(c, rank, t);
    }
  }

  /** A choice between boolean symbols that was yes is yes with just the member s. */
  ghost predicate Picked(c: Config, s: Symbol, o: Outcomes, o': Outcomes, rank: Rank)
    requires c.IsMember(s)
  {
    var cs := c.Info(s).role.choice;
    BooleanChoice(c, cs) && o(cs).value.tri == YES ==>
      && o'(cs).value.tri == YES && o'(s).value.tri == YES
      && forall y :: y in c.Info(cs).role.members && Inside(rank, y) && y != s ==> o'(y).value.tri == NO
  }

  lemma PickedSame(c: Config, s: Symbol, o: Outcomes, o1: Outcomes, o2: Outcomes, rank: Rank)
    requires c.IsMember(s) && s.Type() != TUnknown && Inside(rank, s) && Ranked(c, rank)
    requires Picked(c, s, o, o1, rank) && forall t :: Inside(rank, t) ==> o1(t) == o2(t)
    ensures Picked(c, s, o, o2, rank)
  {
    assert RankedAt(c, rank, s);
  }

  lemma RevsKept(c: Config, rank: Rank, cells: Cells, cells': Cells, o: Outcomes, s: Symbol, val: Tristate)
    requires CacheOk(c, rank, cells, o, {}) && IsAfterSet(c, cells, cells', s, val)
    ensures forall t :: c.IsMember(t) ==> Get(cells', t).rev == NO
  {
    forall t | c.IsMember(t)
      ensures Get(cells', t).rev == NO
    {
      assert CacheOkAt(c, rank, cells, o, {}, t);
    }
  }

  lemma StoredPick(c: Config, m: Tristate, cells: Cells, cells': Cells, o: Outcomes, o': Outcomes, rank: Rank, s: Symbol)
    requires Determined(c, m, UsersOf(cells), o, rank) && Determined(c, m, UsersOf(cells'), o', rank) && Inside(rank, s)
    requires c.IsMember(s) && s.Type() != TUnknown && IsAfterSet(c, cells, cells', s, YES)
    requires o(s).value.tri == YES || o(s).visible != NO
    ensures Picked(c, s, o, o', rank)
  {
    var cs := c.Info(s).role.choice;
    if BooleanChoice(c, cs) && o(cs).value.tri == YES {
      AfterSetUsers(c, cells, cells', s, YES);
      PickKeepsBelow(c, cells, rank, s, cs);
      assert ChoiceOkAt(c, s) && o(s) == Rule(c, m, UsersOf(cells), o, s);
      MemberYesIff(c, m, UsersOf(cells), o, s);
      PickYields(c, m, UsersOf(cells), UsersOf(cells'), o, o', rank, s);
    }
  }

  /** What the new user values give before MODULES is looked at again. */
  lemma AfterStore(c: Config, m: Tristate, cells: Cells, cells': Cells, o: Outcomes, o': Outcomes, rank: Rank,
                   s: Symbol, val: Tristate)
    requires Determined(c, m, UsersOf(cells), o, rank) && Determined(c, m, UsersOf(cells'), o', rank) && Inside(rank, s)
    requires s.IsBoolOrTristate() && !IsBuiltin(s) && IsAfterSet(c, cells, cells', s, val)
    requires o(s).value.tri == val || o(s).visible != NO
    requires c.modules.Some? ==> Inside(rank, c.modules.value)
    ensures c.modules.Some? && ModulesApart(c, s) ==> o'(c.modules.value) == o(c.modules.value)
    ensures !c.IsMember(s) && !c.IsChoice(s) && (o(s).value.tri == val || Acceptable(c, m, s, o(s), val)) ==>
      o'(s).value.tri == val
    ensures c.IsMember(s) && val == YES ==> Picked(c, s, o, o', rank)
  {
    if c.modules.Some? && ModulesApart(c, s) {
      ApartKeepsModules(c, m, cells, cells', o, o', rank, s, val);
    }
    if !c.IsMember(s) && !c.IsChoice(s) && (o(s).value.tri == val || Acceptable(c, m, s, o(s), val)) {
      StoredYields(c, m, cells, cells', o, o', rank, s, val);
    }
    if c.IsMember(s) && val == YES {
      StoredPick(c, m, cells, cells', o, o', rank, s);
    }
  }

  lemma SameUsersSameSolution(c: Config, m: Tristate, u: Users, u': Users, rank: Rank)
    requires Ranked(c, rank) && ChoicesOk(c, rank) && UsersOk(c, u, rank) && forall t :: u(t) == u'(t)
    ensures UsersOk(c, u', rank)
    ensures forall t :: Inside(rank, t) ==> Solution(c, m, u, rank)(t) == Solution(c, m, u', rank)(t)
  {
    var o := Solution(c, m, u, rank);
    SolutionExists(c, m, u, rank);
    SolvesForSameUsers(c, m, u, u', o, rank);
    forall t | Inside(rank, t)
      ensures o(t) == Solution(c, m, u', rank)(t)
    {
      SolutionUnique(c, m, u', rank, o, t);
    }
  }

  // ----- MODULES after a clear -----

  /** A table between two evaluations, with MODULES among the symbols and worked out. */
  ghost predicate CurrentFor(c: Config, m: Tristate, cells: Cells, o: Outcomes, rank: Rank) {
    && Setting(c, m, UsersOf(cells), o, rank) && CacheOk(c, rank, cells, o, {})
    && (c.modules.Some? ==> Inside(rank, c.modules.value) && o(c.modules.value).value.tri == m)
  }

  /** Nothing is flagged, and o is what the user values give under m. */
  ghost predicate Cleared(c: Config, m: Tristate, cells: Cells, o: Outcomes, rank: Rank, cone: Rank) {
    && Ranked(c, rank) && ChoicesOk(c, rank) && UsersOk(c, UsersOf(cells), rank)
    && c.modules.Some? && Inside(rank, c.modules.value) && IsModulesCone(c, rank, cone)
    && o == Solution(c, m, UsersOf(cells), rank)
    && forall s :: !Get(cells, s).valid && (c.IsMember(s) ==> Get(cells, s).rev == NO)
  }

  lemma OnTopSetting(c: Config, m: Tristate, cells: Cells, o: Outcomes, rank: Rank, md: Symbol, cone: Rank)
    requires Cleared(c, m, cells, o, rank, cone) && c.modules == Some(md) && !IsBuiltin(md)
    ensures Setting(c, m, UsersOf(cells), o, cone) && CacheOk(c, cone, cells, o, {}) && Free(cone, md, {})
    ensures md.Type() == TUnknown ==> o(md).value.tri == NO
    ensures !IsValid(cells, md)
  {
    SolutionExists(c, m, UsersOf(cells), rank);
    assert md.Type() == TUnknown ==> o(md) == Rule(c, m, UsersOf(cells), o, md);
  }

  /** After everything was forgotten and MODULES calculated: the cells that are flagged again belong to what it
      is computed from, and hold outcomes under its new value too. */
  lemma ModulesWorkedOut(c: Config, m: Tristate, m': Tristate, cells: Cells, cells': Cells, o: Outcomes, rank: Rank,
                         cone: Rank)
    requires Ranked(c, rank) && ChoicesOk(c, rank) && UsersOk(c, UsersOf(cells), rank)
    requires c.modules.Some? && Inside(rank, c.modules.value)
    requires o == Solution(c, m, UsersOf(cells), rank) && m' == o(c.modules.value).value.tri
    requires m' == m || ModulesPlain(c)
    requires forall s :: !Get(cells, s).valid
    requires IsModulesCone(c, rank, cone)
    requires CacheOk(c, cone, cells', o, {}) && Kept(c, cone, cone.limit, cells, cells', {})
    ensures forall t :: UsersOf(cells')(t) == UsersOf(cells)(t)
    ensures var o' := Solution(c, m', UsersOf(cells'), rank);
      && Determined(c, m', UsersOf(cells'), o', rank) && CacheOk(c, rank, cells', o', {})
      && o'(c.modules.value).value.tri == m'
  {
    var md := c.modules.value;
    var o' := Solution(c, m', UsersOf(cells'), rank);
    KeptUsers(c, cone, cone.limit, cells, cells', {});
    SolutionExists(c, m, UsersOf(cells), rank);
    SolutionExists(c, m', UsersOf(cells'), rank);
    SolvesForSameUsers(c, m, UsersOf(cells), UsersOf(cells'), o, rank);
    forall t | Inside(cone, t)
      ensures o'(t) == o(t)
    {
      if m' == m {
        SolutionUnique(c, m, UsersOf(cells'), rank, o, t);
      } else {
        PlainConeAgrees(c, m, m', UsersOf(cells'), o, o', rank, cone, t);
      }
    }
    assert Inside(cone, md);
    forall t
      ensures CacheOkAt(c, rank, cells', o', {}, t)
    {
      assert CacheOkAt(c, cone, cells', o, {}, t) && KeptAt(c, cone, cone.limit, cells, cells', {}, t);
    }
  }

  lemma SolvesForSameUsers(c: Config, m: Tristate, u: Users, u': Users, o: Outcomes, rank: Rank)
    requires SolvesInside(c, m, u, o, rank) && forall t :: u(t) == u'(t)
    ensures SolvesInside(c, m, u', o, rank)
  {
    forall t | Inside(rank, t)
      ensures o(t) == Rule(c, m, u', o, t)
    {
      RuleReadsUser(c, m, u, u', o, t);
    }
  }

  lemma ModulesAfter(c: Config, m: Tristate, m': Tristate, cells: Cells, cells': Cells, o: Outcomes, rank: Rank, cone: Rank)
    requires Cleared(c, m, cells, o, rank, cone) && m' == o(c.modules.value).value.tri
    requires CacheOk(c, cone, cells', o, {}) && Kept(c, cone, cone.limit, cells, cells', {})
    ensures forall t :: UsersOf(cells')(t) == UsersOf(cells)(t)
    ensures m' == Solution(c, m, UsersOf(cells'), rank)(c.modules.value).value.tri
    ensures m' == m || ModulesPlain(c) ==> CurrentFor(c, m', cells', Solution(c, m', UsersOf(cells'), rank), rank)
  {
    KeptUsers(c, cone, cone.limit, cells, cells', {});
    SameUsersSameSolution(c, m, UsersOf(cells), UsersOf(cells'), rank);
    if m' == m || ModulesPlain(c) {
      ModulesWorkedOut(c, m, m', cells, cells', o, rank, cone);
    }
  }
}
