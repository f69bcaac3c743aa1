/** Setting a symbol to the value it has: the cache is not cleared, and exactly when that is right. */
module SymbolKeep {
  import opened Tristates
  import opened Exprs
  import opened SymbolRules
  import opened SymbolTheory
  import opened SymbolCache
  import opened SymbolSet

  // ----- a choice that is set itself -----

  /** A choice that comes out as no though it is selected as mod becomes mod once it has a value. */
  predicate KeepsChoice(m: Tristate, s: Symbol, out: Outcome) {
    s.Type() == TBoolean || m == NO || out.value.tri != NO || out.rev != MOD
  }

  /** Storing the value that a choice has keeps its outcome in all cases but that one. */
  lemma SetSameChoiceIff(c: Config, m: Tristate, u: Users, u': Users, o: Outcomes, s: Symbol)
    requires o(s) == Rule(c, m, u, o, s) && s.IsBoolOrTristate() && !IsBuiltin(s) && c.IsChoice(s)
    requires u'(s) == u(s).(hasValue := true, tri := o(s).value.tri)
    ensures Rule(c, m, u', o, s) == o(s) <==> KeepsChoice(m, s, o(s))
  {
    assert ChoicePick(c, s, u(s), OpenEnv(o, s), m) == ChoicePick(c, s, u'(s), OpenEnv(o, s), m);
    ResetTri(c, m, u(s), u'(s), o(s).visible, o(s).rev, EnvOf(o), s);
  }

  /** The value before a choice looks at its members, when the value stored is that one or the no it is reset to. */
  lemma ResetTri(c: Config, m: Tristate, before: User, after: User, v: Tristate, r: Tristate, env: Env, s: Symbol)
    requires c.IsChoice(s) && s.IsBoolOrTristate() && (r == MOD ==> EffectiveType(c, s, v, m) != TBoolean)
    requires after.hasValue
    ensures var t0, t1 := TriValue(c, s, before, env, None, v, r, m), TriValue(c, s, after, env, None, v, r, m);
      && (after.tri == t0 ==> t1 == t0)
      && (after.tri == NO ==> t1 == r)
  {
  }

  /** It does occur: a choice without a visible member that the user wants to be yes is no; setting it to no
      makes it mod. */
  lemma TristateChoiceMoves(u: Users, u': Users, o: Outcomes, cs: Symbol)
    requires cs.Type() == TTristate
    requires u(cs) == User(true, YES, "", None) && u'(cs) == u(cs).(tri := NO)
    requires var c := Config(map[cs := SymInfo([Prompt(None)], Some(Sym(Symbol.Mod)), ChoiceOf([]))], None);
      o(Symbol.Mod) == Rule(c, YES, u, o, Symbol.Mod) && o(cs) == Rule(c, YES, u, o, cs)
    ensures var c := Config(map[cs := SymInfo([Prompt(None)], Some(Sym(Symbol.Mod)), ChoiceOf([]))], None);
      o(cs).value.tri == NO && Rule(c, YES, u', o, cs).value.tri == MOD
  {
    var c := Config(map[cs := SymInfo([Prompt(None)], Some(Sym(Symbol.Mod)), ChoiceOf([]))], None);
    assert c.Info(cs).props == [Prompt(None)] && PromptsFrom(c.Info(cs).props, 0, EnvOf(o)) == YES;
    assert Eval(Sym(Symbol.Mod), EnvOf(o)) == MOD;
  }

  // ----- a member that is set to yes -----

  /** The member that a choice would stand on if the user had picked none. */
  function Unpicked(c: Config, cs: Symbol, o: Outcomes, m: Tristate): Option<Symbol>
    requires c.IsChoice(cs)
  {
    var d := FirstDefaultPick(c, c.Info(cs).props, 0, EnvOf(o), m);
    if d.Some? then d else FirstVisible(c, c.Info(cs).role.members, 0, EnvOf(o), m)
  }

  /** No member can be seen from inside the open choice, which is then reset to no. */
  predicate NoneSeen(c: Config, m: Tristate, o: Outcomes, cs: Symbol)
    requires c.IsChoice(cs)
  {
    forall x :: x in c.Info(cs).role.members ==> Visibility(c, x, OpenEnv(o, cs), m) == NO
  }

  /** The choice gets a value and a pick: it stays as it is if the value raises nothing, or only to a yes that is
      reset, and if a pick that cannot be seen takes the place of none that can. */
  predicate ChoiceStays(c: Config, m: Tristate, before: User, o: Outcomes, s: Symbol, cs: Symbol)
    requires c.IsChoice(cs)
  {
    && (before.hasValue || !Raises(before, o, cs) || (RaisesToYes(c, m, before, o, cs) && NoneSeen(c, m, o, cs)))
    && (o(cs).value.tri == YES && o(s).visible == NO ==> o(cs).pick == Unpicked(c, cs, o, m))
  }

  /** A stored value that has not counted so far is higher than what the choice is selected to. */
  predicate Raises(before: User, o: Outcomes, cs: Symbol) {
    Apply(And, before.tri, o(cs).visible) > o(cs).rev
  }

  predicate RaisesToYes(c: Config, m: Tristate, before: User, o: Outcomes, cs: Symbol) {
    && o(cs).rev == NO
    && ((before.tri == YES && o(cs).visible == YES) || EffectiveType(c, cs, o(cs).visible, m) == TBoolean)
  }

  /** Another member whose flag NEW is dropped: only if it can be mod does its default give way to its value. */
  predicate MemberStays(c: Config, before: User, after: User, o: Outcomes, y: Symbol) {
    || after.hasValue == before.hasValue || o(y).visible != MOD
    || Apply(And, before.tri, MOD) == Apply(And, DefaultTri(c, y, EnvOf(o)), MOD)
  }

  lemma MemberStaysIff(c: Config, m: Tristate, u: Users, u': Users, o: Outcomes, y: Symbol)
    requires o(y) == Rule(c, m, u, o, y) && c.IsMember(y) && y.IsBoolOrTristate() && !IsBuiltin(y)
    requires u'(y) == u(y) || u'(y) == u(y).(hasValue := true)
    ensures Rule(c, m, u', o, y) == o(y) <==> MemberStays(c, u(y), u'(y), o, y)
  {
  }

  /** A member that is yes is not visible as mod, so its own value does not matter. */
  lemma PickedStays(c: Config, m: Tristate, u: Users, u': Users, o: Outcomes, s: Symbol)
    requires o(s) == Rule(c, m, u, o, s) && c.IsMember(s) && s.IsBoolOrTristate() && !IsBuiltin(s)
    requires o(s).value.tri == YES
    ensures o(s).visible != MOD && Rule(c, m, u', o, s) == o(s)
    ensures o(s).visible == YES ==> o(c.Info(s).role.choice).pick == Some(s)
  {
  }

  lemma ChoiceStaysIff(c: Config, m: Tristate, u: Users, u': Users, o: Outcomes, s: Symbol, cs: Symbol)
    requires o(s) == Rule(c, m, u, o, s) && o(cs) == Rule(c, m, u, o, cs) && o(s).value.tri == YES
    requires c.IsMember(s) && cs == c.Info(s).role.choice && c.IsChoice(cs) && s in c.Info(cs).role.members
    requires s.IsBoolOrTristate() && !IsBuiltin(s) && ChoiceOkAt(c, cs) && !IsBuiltin(cs) && UserOkAt(c, u(cs), cs)
    requires u'(cs) == u(cs).(hasValue := true, pick := Some(s))
    ensures Rule(c, m, u', o, cs) == o(cs) <==> ChoiceStays(c, m, u(cs), o, s, cs)
  {
    PickedStays(c, m, u, u, o, s);
    var env, v, r := EnvOf(o), o(cs).visible, o(cs).rev;
    var t0, t1 := TriValue(c, cs, u(cs), env, None, v, r, m), TriValue(c, cs, u'(cs), env, None, v, r, m);
    TriStays(c, m, u(cs), u'(cs), v, r, env, cs);
    NoneSeenIff(c, m, u'(cs), o, cs);
    if t0 == YES && t1 == YES {
      PicksInOpen(c, m, u(cs), u'(cs), o, s, cs);
    }
  }

  lemma TriStays(c: Config, m: Tristate, before: User, after: User, v: Tristate, r: Tristate, env: Env, cs: Symbol)
    requires c.IsChoice(cs) && cs.IsBoolOrTristate()
    requires after.hasValue && after.tri == before.tri && (r == MOD ==> EffectiveType(c, cs, v, m) != TBoolean)
    ensures var t0, t1 := TriValue(c, cs, before, env, None, v, r, m), TriValue(c, cs, after, env, None, v, r, m);
      && t0 <= t1 && (t0 == t1 <==> before.hasValue || Apply(And, before.tri, v) <= r)
      && (t0 != t1 ==> t0 == r)
      && (t0 != t1 && r == NO ==>
            (t1 == YES <==> (before.tri == YES && v == YES) || EffectiveType(c, cs, v, m) == TBoolean))
  {
  }

  /** The yes of a choice is reset exactly if no member can be seen. */
  lemma NoneSeenIff(c: Config, m: Tristate, u: User, o: Outcomes, cs: Symbol)
    requires c.IsChoice(cs) && ChoiceOkAt(c, cs) && UserOkAt(c, u, cs)
    ensures ChoicePick(c, cs, u, OpenEnv(o, cs), m) == None <==> NoneSeen(c, m, o, cs)
  {
    var env, props := OpenEnv(o, cs), c.Info(cs).props;
    var d := FirstDefaultPick(c, props, 0, env, m);
    if d.Some? {
      var p :| p in props && p.Default? && p.expr == Sym(d.value);
      assert d.value in c.Info(cs).role.members;
    }
  }

  /** What the choice stands on, with the old pick and with s as the new one. */
  lemma PicksInOpen(c: Config, m: Tristate, before: User, after: User, o: Outcomes, s: Symbol, cs: Symbol)
    requires c.IsChoice(cs) && s in c.Info(cs).role.members && after.pick == Some(s)
    requires ChoiceOkAt(c, cs) && UserOkAt(c, before, cs)
    requires var p := ChoicePick(c, cs, before, OpenEnv(o, cs), m); var t := if p.Some? then YES else NO;
      o(cs).pick == p && o(cs).value == Value(t, TriName(t))
    requires o(s).visible == Visibility(c, s, EnvOf(o), m) && (o(s).visible != NO ==> o(cs).pick == Some(s))
    ensures ChoicePick(c, cs, after, OpenEnv(o, cs), m) == o(cs).pick
       <==> (o(cs).value.tri == YES && o(s).visible == NO ==> o(cs).pick == Unpicked(c, cs, o, m))
  {
    if o(cs).value.tri == YES {
      OpenEnvIsEnv(c, o, cs);
      PromptsSameEnv(c.Info(s).props, 0, OpenEnv(o, cs), EnvOf(o));
      FirstPicksSameEnv(c, c.Info(cs).role.members, c.Info(cs).props, 0, 0, OpenEnv(o, cs), EnvOf(o), m);
    } else {
      NoneSeenIff(c, m, before, o, cs);
      NoneSeenIff(c, m, after, o, cs);
    }
  }

  // ----- the cache -----

  /** When keeping the cache is right, as it stands before the call. */
  ghost predicate MayKeepCache(c: Config, m: Tristate, cells: Cells, o: Outcomes, rank: Rank, s: Symbol, val: Tristate) {
    && (c.IsChoice(s) ==> KeepsChoice(m, s, o(s)))
    && (c.IsMember(s) && val == YES && c.IsChoice(c.Info(s).role.choice) ==>
          var cs := c.Info(s).role.choice;
          && ChoiceStays(c, m, Get(cells, cs).user, o, s, cs)
          && forall y :: y in c.Info(cs).role.members && Inside(rank, y) && y != s ==>
               MemberStays(c, Get(cells, y).user, UserAfterSet(c, cells, s, val, y), o, y))
  }

  /** Only s has other user data. */
  lemma SetSameOneIff(c: Config, m: Tristate, u: Users, u': Users, o: Outcomes, rank: Rank, s: Symbol)
    requires Determined(c, m, u, o, rank) && s.IsBoolOrTristate() && Inside(rank, s)
    requires u'(s) == u(s).(hasValue := true, tri := o(s).value.tri) && forall t :: t != s ==> u'(t) == u(t)
    ensures SolvesInside(c, m, u', o, rank) <==> (c.IsChoice(s) ==> KeepsChoice(m, s, o(s)))
  {
    assert o(s) == Rule(c, m, u, o, s);
    if c.IsChoice(s) {
      SetSameChoiceIff(c, m, u, u', o, s);
    } else {
      SetSameRule(c, m, u, u', o, s);
    }
    forall t | Inside(rank, t) && t != s
      ensures o(t) == Rule(c, m, u', o, t)
    {
      RuleReadsUser(c, m, u, u', o, t);
    }
  }

  /** The choice and its members have other user data. */
  lemma SetSamePickedIff(c: Config, m: Tristate, u: Users, u': Users, o: Outcomes, rank: Rank, s: Symbol, cs: Symbol)
    requires Determined(c, m, u, o, rank) && s.IsBoolOrTristate() && Inside(rank, s) && o(s).value.tri == YES
    requires c.IsMember(s) && cs == c.Info(s).role.choice && c.IsChoice(cs) && s in c.Info(cs).role.members
    requires u'(cs) == u(cs).(hasValue := true, pick := Some(s))
    requires forall y :: y in c.Info(cs).role.members && y != s ==> u'(y) == u(y) || u'(y) == u(y).(hasValue := true)
    requires forall t :: t !in c.Info(cs).role.members && t != cs ==> u'(t) == u(t)
    ensures SolvesInside(c, m, u', o, rank) <==>
      && ChoiceStays(c, m, u(cs), o, s, cs)
      && forall y :: y in c.Info(cs).role.members && Inside(rank, y) && y != s ==> MemberStays(c, u(y), u'(y), o, y)
  {
    assert RankedAt(c, rank, s) && ChoiceOkAt(c, s) && o(s) == Rule(c, m, u, o, s);
    assert ChoiceOkAt(c, cs) && UserOkAt(c, u(cs), cs) && o(cs) == Rule(c, m, u, o, cs);
    PickedStays(c, m, u, u', o, s);
    ChoiceStaysIff(c, m, u, u', o, s, cs);
    forall t | Inside(rank, t) && t != s && t != cs
      ensures o(t) == Rule(c, m, u', o, t)
         <==> (t in c.Info(cs).role.members ==> MemberStays(c, u(t), u'(t), o, t))
    {
      OtherStaysIff(c, m, u, u', o, rank, cs, t);
    }
  }

  lemma OtherStaysIff(c: Config, m: Tristate, u: Users, u': Users, o: Outcomes, rank: Rank, cs: Symbol, t: Symbol)
    requires Determined(c, m, u, o, rank) && Inside(rank, t) && c.IsChoice(cs) && ChoiceOkAt(c, cs)
    requires if t in c.Info(cs).role.members then u'(t) == u(t) || u'(t) == u(t).(hasValue := true) else u'(t) == u(t)
    ensures o(t) == Rule(c, m, u', o, t) <==> (t in c.Info(cs).role.members ==> MemberStays(c, u(t), u'(t), o, t))
  {
    assert o(t) == Rule(c, m, u, o, t);
    if t in c.Info(cs).role.members {
      MemberStaysIff(c, m, u, u', o, t);
    } else {
      RuleReadsUser(c, m, u, u', o, t);
    }
  }

  lemma SetSameSolvesIff(c: Config, m: Tristate, cells: Cells, cells': Cells, s: Symbol, val: Tristate, o: Outcomes, rank: Rank)
    requires Determined(c, m, UsersOf(cells), o, rank) && IsAfterSet(c, cells, cells', s, val)
    requires s.IsBoolOrTristate() && Inside(rank, s) && o(s).value.tri == val
    ensures SolvesInside(c, m, UsersOf(cells'), o, rank) <==> MayKeepCache(c, m, cells, o, rank, s, val)
  {
    assert ChoiceOkAt(c, s);
    if c.IsMember(s) && val == YES {
      var cs := c.Info(s).role.choice;
      assert RankedAt(c, rank, s) && ChoiceOkAt(c, cs);
      PickedUsers(c, cells, cells', s);
      SetSamePickedIff(c, m, UsersOf(cells), UsersOf(cells'), o, rank, s, cs);
    } else {
      AfterSetUsers(c, cells, cells', s, val);
      SetSameOneIff(c, m, UsersOf(cells), UsersOf(cells'), o, rank, s);
    }
  }

  lemma PickedUsers(c: Config, cells: Cells, cells': Cells, s: Symbol)
    requires IsAfterSet(c, cells, cells', s, YES) && c.IsMember(s) && c.IsChoice(c.Info(s).role.choice)
    requires s in c.Info(c.Info(s).role.choice).role.members && c.Info(s).role.choice != s
    requires c.Info(s).role.choice !in c.Info(c.Info(s).role.choice).role.members
    ensures var u, u', cs := UsersOf(cells), UsersOf(cells'), c.Info(s).role.choice;
      && u'(cs) == u(cs).(hasValue := true, pick := Some(s))
      && (forall y :: y in c.Info(cs).role.members && y != s ==> u'(y) == u(y) || u'(y) == u(y).(hasValue := true))
      && (forall t :: t !in c.Info(cs).role.members && t != cs ==> u'(t) == u(t))
    ensures forall t :: UsersOf(cells')(t) == UserAfterSet(c, cells, s, YES, t) && UsersOf(cells)(t) == Get(cells, t).user
  {
    AfterSetUsers(c, cells, cells', s, YES);
  }

  /** Setting the value that a symbol has leaves all outcomes as they are, and so the cache right, if and only if
      that condition holds before. */
  lemma SetSameIff(c: Config, m: Tristate, cells: Cells, cells': Cells, s: Symbol, val: Tristate, o: Outcomes,
                   o': Outcomes, rank: Rank)
    requires Determined(c, m, UsersOf(cells), o, rank) && Determined(c, m, UsersOf(cells'), o', rank)
    requires IsAfterSet(c, cells, cells', s, val)
    requires s.IsBoolOrTristate() && Inside(rank, s) && o(s).value.tri == val
    ensures (forall t :: Inside(rank, t) ==> o'(t) == o(t)) <==> MayKeepCache(c, m, cells, o, rank, s, val)
  {
    SetSameSolvesIff(c, m, cells, cells', s, val, o, rank);
    var u' := UsersOf(cells');
    if SolvesInside(c, m, u', o, rank) {
      forall t | Inside(rank, t)
        ensures o'(t) == o(t)
      {
        SolutionsAgreeUpTo(c, m, u', u', o', o, rank, t);
      }
    }
    if forall t :: Inside(rank, t) ==> o'(t) == o(t) {
      forall t | Inside(rank, t)
        ensures o(t) == Rule(c, m, u', o, t)
      {
        assert RankedAt(c, rank, t) && ChoiceOkAt(c, t) && UserOkAt(c, u'(t), t) && o'(t) == Rule(c, m, u', o', t);
        RuleReadsBelow(c, m, u', o', o, t, rank);
      }
    }
  }

  /** So the cache that was kept is right for the new user values. */
  lemma SetSameReady(c: Config, m: Tristate, cells: Cells, cells': Cells, s: Symbol, val: Tristate, o: Outcomes,
                     o': Outcomes, rank: Rank)
    requires Determined(c, m, UsersOf(cells), o, rank) && CacheOk(c, rank, cells, o, {})
    requires Determined(c, m, UsersOf(cells'), o', rank) && IsAfterSet(c, cells, cells', s, val)
    requires s.IsBoolOrTristate() && Inside(rank, s)
    requires o(s).value.tri == val && MayKeepCache(c, m, cells, o, rank, s, val)
    ensures CacheOk(c, rank, cells', o', {})
    ensures forall t :: Inside(rank, t) ==> o'(t) == o(t)
  {
    SetSameIff(c, m, cells, cells', s, val, o, o', rank);
    forall t
      ensures CacheOkAt(c, rank, cells', o', {}, t)
    {
      assert CacheOkAt(c, rank, cells, o, {}, t);
      assert Get(cells', t) == Get(cells, t).(user := UserAfterSet(c, cells, s, val, t));
      if c.IsMember(t) { assert Get(cells', c.Info(t).role.choice).valid == Get(cells, c.Info(t).role.choice).valid; }
    }
  }

  /** It always holds for the members of a choice between booleans without defaults. */
  lemma BooleanChoiceKeeps(c: Config, m: Tristate, cells: Cells, o: Outcomes, rank: Rank, s: Symbol)
    requires Determined(c, m, UsersOf(cells), o, rank) && Inside(rank, s) && c.IsMember(s)
    requires BooleanChoice(c, c.Info(s).role.choice) && s.Type() == TBoolean && o(s).value.tri == YES
    ensures MayKeepCache(c, m, cells, o, rank, s, YES)
  {
    var u, cs := UsersOf(cells), c.Info(s).role.choice;
    assert RankedAt(c, rank, s) && ChoiceOkAt(c, s) && o(s) == Rule(c, m, u, o, s) && o(cs) == Rule(c, m, u, o, cs);
    MemberYesIff(c, m, u, o, s);
    forall y | y in c.Info(cs).role.members && Inside(rank, y)
      ensures o(y).visible != MOD
    {
      assert o(y) == Rule(c, m, u, o, y);
    }
    YesIsWanted(c, m, u, o, cs);
  }

  lemma YesIsWanted(c: Config, m: Tristate, u: Users, o: Outcomes, cs: Symbol)
    requires o(cs) == Rule(c, m, u, o, cs) && c.IsChoice(cs) && cs.IsBoolOrTristate() && o(cs).value.tri == YES
    ensures u(cs).hasValue || !Raises(u(cs), o, cs)
  {
  }

  /** A choice with the tristate members a and b, where b can only be mod and has a default. */
  function ModMember(cs: Symbol, a: Symbol, b: Symbol): Config {
    Config(map[cs := SymInfo([Prompt(None)], None, ChoiceOf([a, b])),
               a := SymInfo([Prompt(Some(Sym(cs)))], None, MemberOf(cs)),
               b := SymInfo([Prompt(Some(Bin(And, Sym(cs), Sym(Symbol.Mod)))), Default(None, Sym(Yes))], None, MemberOf(cs))],
           None)
  }

  /** In it the condition can fail: a is picked and yes, b is mod by its default.  Setting a to yes again drops
      the NEW flag of b, whose own value no then counts. */
  lemma DefaultGivesWay(cs: Symbol, a: Symbol, b: Symbol, u: Users, u': Users, o: Outcomes)
    requires cs.Type() == a.Type() == b.Type() == TTristate && cs != a && cs != b && a != b
    requires u(cs) == User(true, YES, "", Some(a)) && u(b) == User(false, NO, "", None) && u'(b) == u(b).(hasValue := true)
    requires var c := ModMember(cs, a, b);
      && o(Yes) == Rule(c, YES, u, o, Yes) && o(Symbol.Mod) == Rule(c, YES, u, o, Symbol.Mod)
      && o(cs) == Rule(c, YES, u, o, cs) && o(a) == Rule(c, YES, u, o, a) && o(b) == Rule(c, YES, u, o, b)
    ensures o(a).value.tri == YES && o(b).value.tri == MOD && Rule(ModMember(cs, a, b), YES, u', o, b).value.tri == NO
  {
    var c, e := ModMember(cs, a, b), Bin(And, Sym(cs), Sym(Symbol.Mod));
    assert c.Info(cs).props[0] == Prompt(None) && PromptsFrom(c.Info(cs).props, 0, EnvOf(o)) == YES;
    assert c.Info(a).props[0] == Prompt(Some(Sym(cs))) && PromptsFrom(c.Info(a).props, 0, OpenEnv(o, cs)) == YES;
    assert o(cs).value.tri == YES && o(cs).pick == Some(a);
    assert PromptsFrom(c.Info(a).props, 0, EnvOf(o)) == YES;
    assert Eval(Sym(cs), EnvOf(o)) == YES && Eval(Sym(Symbol.Mod), EnvOf(o)) == MOD && Eval(e, EnvOf(o)) == MOD;
    assert c.Info(b).props[0] == Prompt(Some(e)) && c.Info(b).props[1] == Default(None, Sym(Yes));
    assert PromptsFrom(c.Info(b).props, 1, EnvOf(o)) == PromptsFrom(c.Info(b).props, 2, EnvOf(o)) == NO;
    assert PromptsFrom(c.Info(b).props, 0, EnvOf(o)) == MOD;
    assert DefaultFrom(c.Info(b).props, 0, EnvOf(o)) == Some(Default(None, Sym(Yes)));
    assert Eval(Sym(Yes), EnvOf(o)) == YES;
  }
}
