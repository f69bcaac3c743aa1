/** What the value of a symbol is, said without the functions that compute it: which prompt, which default, which
    range and which member counts.  The equations of SymbolRules say just that. */
module SymbolMeaning {
  import opened Tristates
  import opened Exprs
  import opened Ranges
  import opened SymbolRules

  // ----- visibility and select -----

  /** The strongest of the prompts. */
  ghost predicate StrongestPrompt(props: seq<Property>, env: Env, v: Tristate) {
    && (v != NO ==> exists i :: 0 <= i < |props| && props[i].Prompt? && EvalOpt(props[i].visible, env) == v)
    && forall i :: 0 <= i < |props| && props[i].Prompt? ==> EvalOpt(props[i].visible, env) <= v
  }

  lemma {:induction false} PromptsIff(props: seq<Property>, i: nat, env: Env, v: Tristate)
    requires i <= |props|
    ensures PromptsFrom(props, i, env) == v <==> StrongestPrompt(props[i..], env, v)
    decreases |props| - i
  {
    if i < |props| {
      var rest := PromptsFrom(props, i + 1, env);
      PromptsIff(props, i + 1, env, rest);
      assert props[i..] == [props[i]] + props[i + 1..];
      StrongestOfMore(props[i], props[i + 1..], env, rest, v);
    }
  }

  lemma StrongestOfMore(p: Property, props: seq<Property>, env: Env, rest: Tristate, v: Tristate)
    requires StrongestPrompt(props, env, rest)
    ensures StrongestPrompt([p] + props, env, v)
       <==> v == if p.Prompt? && EvalOpt(p.visible, env) > rest then EvalOpt(p.visible, env) else rest
  {
    var all := [p] + props;
    assert all[0] == p && forall i :: 0 <= i < |props| ==> all[i + 1] == props[i];
    if rest != NO {
      var i :| 0 <= i < |props| && props[i].Prompt? && EvalOpt(props[i].visible, env) == rest;
      assert all[i + 1] == props[i];
    }
    if v != NO && StrongestPrompt(all, env, v) {
      var i :| 0 <= i < |all| && all[i].Prompt? && EvalOpt(all[i].visible, env) == v;
      assert i > 0 ==> all[i] == props[i - 1];
    }
  }

  /** A symbol that is, for now, no more than bool. */
  predicate BoolNow(c: Config, s: Symbol, visible: Tristate, m: Tristate) {
    s.Type() == TBoolean || (s.Type() == TTristate && (m == NO || (c.IsMember(s) && visible == YES)))
  }

  /** Mod counts as yes where mod cannot be. */
  function Definite(boolNow: bool, v: Tristate): Tristate {
    if v == MOD && boolNow then YES else v
  }

  ghost predicate VisibleIs(c: Config, m: Tristate, env: Env, s: Symbol, visible: Tristate) {
    exists v: Tristate :: StrongestPrompt(c.Info(s).props, env, v) && visible == Definite(s.Type() != TTristate || m == NO, v)
  }

  lemma VisibleIff(c: Config, m: Tristate, env: Env, s: Symbol, visible: Tristate)
    ensures Visibility(c, s, env, m) == visible <==> VisibleIs(c, m, env, s, visible)
  {
    var props := c.Info(s).props;
    assert props[0..] == props;
    forall v: Tristate
      ensures PromptsFrom(props, 0, env) == v <==> StrongestPrompt(props, env, v)
    {
      PromptsIff(props, 0, env, v);
    }
    assert StrongestPrompt(props, env, PromptsFrom(props, 0, env));
  }

  predicate SelectIs(c: Config, m: Tristate, env: Env, s: Symbol, visible: Tristate, rev: Tristate) {
    if c.IsMember(s) || c.Info(s).revDep.None? then rev == NO
    else rev == Definite(BoolNow(c, s, visible, m), Eval(c.Info(s).revDep.value, env))
  }

  lemma SelectIff(c: Config, m: Tristate, env: Env, s: Symbol, visible: Tristate, rev: Tristate)
    ensures SelectValue(c, s, env, visible, m) == rev <==> SelectIs(c, m, env, s, visible, rev)
  {
  }

  // ----- which default, which range -----

  /** The first default whose condition is not no. */
  predicate DefaultCounts(props: seq<Property>, env: Env, k: nat) {
    && k < |props| && props[k].Default? && EvalOpt(props[k].visible, env) != NO
    && forall j :: 0 <= j < k && props[j].Default? ==> EvalOpt(props[j].visible, env) == NO
  }

  predicate NoDefaultCounts(props: seq<Property>, env: Env) {
    forall j :: 0 <= j < |props| && props[j].Default? ==> EvalOpt(props[j].visible, env) == NO
  }

  lemma {:induction false} DefaultIs(props: seq<Property>, i: nat, env: Env) returns (k: nat)
    requires i <= |props| && forall j :: 0 <= j < i && props[j].Default? ==> EvalOpt(props[j].visible, env) == NO
    ensures if NoDefaultCounts(props, env) then DefaultFrom(props, i, env) == None
            else DefaultCounts(props, env, k) && DefaultFrom(props, i, env) == Some(props[k])
    decreases |props| - i
  {
    if i == |props| || ActiveDefault(props[i], env) {
      k := i;
    } else {
      k := DefaultIs(props, i + 1, env);
    }
  }

  lemma OneDefaultCounts(props: seq<Property>, env: Env, k: nat, k': nat)
    requires DefaultCounts(props, env, k) && DefaultCounts(props, env, k')
    ensures k == k' && !NoDefaultCounts(props, env)
  {
  }

  predicate RangeCounts(props: seq<Property>, env: Env, k: nat) {
    && k < |props| && props[k].Range? && EvalOpt(props[k].visible, env) != NO
    && forall j :: 0 <= j < k && props[j].Range? ==> EvalOpt(props[j].visible, env) == NO
  }

  predicate NoRangeCounts(props: seq<Property>, env: Env) {
    forall j :: 0 <= j < |props| && props[j].Range? ==> EvalOpt(props[j].visible, env) == NO
  }

  lemma {:induction false} RangeIs(props: seq<Property>, i: nat, env: Env) returns (k: nat)
    requires i <= |props| && forall j :: 0 <= j < i && props[j].Range? ==> EvalOpt(props[j].visible, env) == NO
    ensures if NoRangeCounts(props, env) then RangeFrom(props, i, env) == None
            else RangeCounts(props, env, k) && RangeFrom(props, i, env) == Some(props[k])
    decreases |props| - i
  {
    if i == |props| || ActiveRange(props[i], env) {
      k := i;
    } else {
      k := RangeIs(props, i + 1, env);
    }
  }

  // ----- bool and tristate symbols -----

  /** What the defaults ask for: the value of the first that counts, and no without one. */
  ghost predicate DefaultAsks(c: Config, env: Env, s: Symbol, v: Tristate) {
    var props := c.Info(s).props;
    if NoDefaultCounts(props, env) then v == NO
    else exists k: nat :: DefaultCounts(props, env, k) && v == Eval(props[k].expr, env)
  }

  lemma DefaultAsksIff(c: Config, env: Env, s: Symbol, v: Tristate)
    ensures DefaultTri(c, s, env) == v <==> DefaultAsks(c, env, s, v)
  {
    var props := c.Info(s).props;
    var k := DefaultIs(props, 0, env);
    forall k': nat | DefaultCounts(props, env, k')
      ensures k' == k && !NoDefaultCounts(props, env)
    {
      OneDefaultCounts(props, env, k', k');
      OneDefaultCounts(props, env, k, k');
    }
  }

  /** The value that is wanted: the user's where it counts, none for a choice, else what the defaults ask for. */
  ghost predicate Wanted(c: Config, u: User, env: Env, s: Symbol, visible: Tristate, rev: Tristate, v: Tristate) {
    if (visible != NO || rev != NO) && u.hasValue then v == u.tri
    else if c.IsChoice(s) then v == NO
    else DefaultAsks(c, env, s, v)
  }

  /** The value of a symbol, before a choice looks at its members.  A member that can be yes is yes exactly if its
      choice stands on it.  Otherwise what is wanted is held between select and visibility; where neither says
      anything, only the defaults do. */
  ghost predicate TriIs(c: Config, m: Tristate, u: User, o: Outcomes, s: Symbol, visible: Tristate, rev: Tristate, tri: Tristate) {
    if c.IsMember(s) && visible == YES then tri == if o(c.Info(s).role.choice).pick == Some(s) then YES else NO
    else exists v: Tristate ::
      && Wanted(c, u, EnvOf(o), s, visible, rev, v)
      && tri == Definite(BoolNow(c, s, visible, m), if visible == NO && rev == NO then v else Clamp(v, rev, visible))
  }

  /** No more than visible, but at least rev. */
  function Clamp(v: Tristate, rev: Tristate, visible: Tristate): Tristate {
    if v <= rev || visible <= rev then rev else if v <= visible then v else visible
  }

  lemma ClampIs(v: Tristate, rev: Tristate, visible: Tristate)
    ensures Clamp(v, rev, visible) == Apply(Or, Apply(And, v, visible), rev)
    ensures Apply(Or, visible, rev) == NO <==> visible == NO && rev == NO
  {
  }

  function WantedTri(c: Config, u: User, env: Env, s: Symbol, visible: Tristate, rev: Tristate): Tristate {
    if (visible != NO || rev != NO) && u.hasValue then u.tri else if c.IsChoice(s) then NO else DefaultTri(c, s, env)
  }

  lemma WantedIff(c: Config, u: User, env: Env, s: Symbol, visible: Tristate, rev: Tristate, v: Tristate)
    ensures Wanted(c, u, env, s, visible, rev, v)
       <==> v == WantedTri(c, u, env, s, visible, rev)
  {
    DefaultAsksIff(c, env, s, v);
  }

  lemma TriValueIs(c: Config, m: Tristate, u: User, o: Outcomes, s: Symbol, visible: Tristate, rev: Tristate)
    requires s.IsBoolOrTristate() && !(c.IsMember(s) && visible == YES)
    ensures var w := WantedTri(c, u, EnvOf(o), s, visible, rev);
      TriValue(c, s, u, EnvOf(o), PickOfChoice(c, s, o), visible, rev, m)
      == Definite(BoolNow(c, s, visible, m), if visible == NO && rev == NO then w else Clamp(w, rev, visible))
  {
    ClampIs(WantedTri(c, u, EnvOf(o), s, visible, rev), rev, visible);
  }

  lemma TriIff(c: Config, m: Tristate, u: User, o: Outcomes, s: Symbol, visible: Tristate, rev: Tristate, tri: Tristate)
    requires s.IsBoolOrTristate()
    ensures TriValue(c, s, u, EnvOf(o), PickOfChoice(c, s, o), visible, rev, m) == tri
       <==> TriIs(c, m, u, o, s, visible, rev, tri)
  {
    if !(c.IsMember(s) && visible == YES) {
      var w := WantedTri(c, u, EnvOf(o), s, visible, rev);
      TriValueIs(c, m, u, o, s, visible, rev);
      forall v: Tristate
        ensures Wanted(c, u, EnvOf(o), s, visible, rev, v) <==> v == w
      {
        WantedIff(c, u, EnvOf(o), s, visible, rev, v);
      }
      assert Wanted(c, u, EnvOf(o), s, visible, rev, w);
    }
  }

  // ----- the member a choice stands on -----

  /** The first default that counts and names a member that can be seen. */
  ghost predicate DefaultPicks(c: Config, m: Tristate, env: Env, props: seq<Property>, k: nat) {
    && k < |props| && CanPick(c, m, env, props[k])
    && forall j :: 0 <= j < k ==> !CanPick(c, m, env, props[j])
  }

  predicate CanPick(c: Config, m: Tristate, env: Env, p: Property) {
    p.Default? && EvalOpt(p.visible, env) != NO && p.expr.Sym? && Visibility(c, p.expr.s, env, m) != NO
  }

  ghost predicate FirstSeen(c: Config, m: Tristate, env: Env, members: seq<Symbol>, k: nat) {
    && k < |members| && Visibility(c, members[k], env, m) != NO
    && forall j :: 0 <= j < k ==> Visibility(c, members[j], env, m) == NO
  }

  /** The order of preference: the user's pick if it can be seen, else the first default that can, else the first
      member that can; none if no member can. */
  ghost predicate Picks(c: Config, m: Tristate, u: User, env: Env, s: Symbol, pick: Option<Symbol>)
    requires c.IsChoice(s)
  {
    var props, members := c.Info(s).props, c.Info(s).role.members;
    if u.pick.Some? && Visibility(c, u.pick.value, env, m) != NO then pick == u.pick
    else if exists k: nat :: DefaultPicks(c, m, env, props, k) then
      exists k: nat :: DefaultPicks(c, m, env, props, k) && pick == Some(props[k].expr.s)
    else if exists k: nat :: FirstSeen(c, m, env, members, k) then
      exists k: nat :: FirstSeen(c, m, env, members, k) && pick == Some(members[k])
    else pick == None
  }

  lemma {:induction false} DefaultPickIs(c: Config, m: Tristate, env: Env, props: seq<Property>, i: nat) returns (k: nat)
    requires i <= |props| && forall j :: 0 <= j < i ==> !CanPick(c, m, env, props[j])
    ensures if FirstDefaultPick(c, props, i, env, m) == None then forall j :: 0 <= j < |props| ==> !CanPick(c, m, env, props[j])
            else DefaultPicks(c, m, env, props, k) && FirstDefaultPick(c, props, i, env, m) == Some(props[k].expr.s)
    decreases |props| - i
  {
    if i == |props| || CanPick(c, m, env, props[i]) {
      k := i;
    } else {
      k := DefaultPickIs(c, m, env, props, i + 1);
    }
  }

  lemma {:induction false} FirstSeenIs(c: Config, m: Tristate, env: Env, members: seq<Symbol>, i: nat) returns (k: nat)
    requires i <= |members| && forall j :: 0 <= j < i ==> Visibility(c, members[j], env, m) == NO
    ensures if FirstVisible(c, members, i, env, m) == None
            then forall j :: 0 <= j < |members| ==> Visibility(c, members[j], env, m) == NO
            else FirstSeen(c, m, env, members, k) && FirstVisible(c, members, i, env, m) == Some(members[k])
    decreases |members| - i
  {
    if i == |members| || Visibility(c, members[i], env, m) != NO {
      k := i;
    } else {
      k := FirstSeenIs(c, m, env, members, i + 1);
    }
  }

  lemma PickIff(c: Config, m: Tristate, u: User, env: Env, s: Symbol, pick: Option<Symbol>)
    requires c.IsChoice(s)
    ensures ChoicePick(c, s, u, env, m) == pick <==> Picks(c, m, u, env, s, pick)
  {
    var props, members := c.Info(s).props, c.Info(s).role.members;
    if !(u.pick.Some? && Visibility(c, u.pick.value, env, m) != NO) {
      var k := DefaultPickIs(c, m, env, props, 0);
      var l := FirstSeenIs(c, m, env, members, 0);
      forall k': nat | DefaultPicks(c, m, env, props, k')
        ensures k' == k && FirstDefaultPick(c, props, 0, env, m).Some?
      {
        if k < |props| && CanPick(c, m, env, props[k]) { assert !(k < k') && !(k' < k); }
      }
      forall l': nat | FirstSeen(c, m, env, members, l')
        ensures l' == l && FirstVisible(c, members, 0, env, m).Some?
      {
      }
    }
  }

  // ----- int, hex and string symbols -----

  /** What a default gives such a symbol: the string of the symbol that it names, where bool and tristate symbols
      have an n whatever their value is; nothing if it is another expression. */
  function NamedText(e: Expr, env: Env): string {
    if !e.Sym? then "" else if e.s.IsBoolOrTristate() then "n" else env(e.s).str
  }

  ghost predicate DefaultGives(c: Config, env: Env, s: Symbol, str: string) {
    var props := c.Info(s).props;
    if NoDefaultCounts(props, env) then str == ""
    else exists k: nat :: DefaultCounts(props, env, k) && str == NamedText(props[k].expr, env)
  }

  lemma DefaultGivesIff(c: Config, env: Env, s: Symbol, str: string)
    ensures DefaultStr(c, s, env) == str <==> DefaultGives(c, env, s, str)
  {
    var props := c.Info(s).props;
    var k := DefaultIs(props, 0, env);
    forall k': nat | DefaultCounts(props, env, k')
      ensures k' == k && !NoDefaultCounts(props, env)
    {
      OneDefaultCounts(props, env, k', k');
      OneDefaultCounts(props, env, k, k');
    }
  }

  function TextOf(s: Symbol, env: Env): string {
    if s.IsBoolOrTristate() then "n" else env(s).str
  }

  /** The string after the first range that counts. */
  ghost predicate Ranged(c: Config, env: Env, s: Symbol, str: string, out: string) {
    var props := c.Info(s).props;
    if (s.Type() != TInt && s.Type() != THex) || NoRangeCounts(props, env) then out == str
    else exists k: nat :: RangeCounts(props, env, k) && out == HeldBy(props[k], env, s.Type(), str)
  }

  function HeldBy(p: Property, env: Env, typ: SymType, str: string): string
    requires p.Range?
  {
    ValidateRange(typ, str, Bound(p.lo.Type(), TextOf(p.lo, env)), Bound(p.hi.Type(), TextOf(p.hi, env)))
  }

  lemma OneRangeCounts(props: seq<Property>, env: Env, k: nat, k': nat)
    requires RangeCounts(props, env, k) && RangeCounts(props, env, k')
    ensures k == k' && !NoRangeCounts(props, env)
  {
  }

  lemma RangedIff(c: Config, env: Env, s: Symbol, str: string, out: string)
    ensures RangeChecked(c, s, str, env) == out <==> Ranged(c, env, s, str, out)
  {
    var props := c.Info(s).props;
    var k := RangeIs(props, 0, env);
    forall k': nat | RangeCounts(props, env, k')
      ensures k' == k && !NoRangeCounts(props, env)
    {
      OneRangeCounts(props, env, k', k');
      OneRangeCounts(props, env, k, k');
    }
  }

  // ----- every symbol -----

  ghost predicate TriMeets(c: Config, m: Tristate, u: User, o: Outcomes, s: Symbol, out: Outcome) {
    && VisibleIs(c, m, EnvOf(o), s, out.visible) && SelectIs(c, m, EnvOf(o), s, out.visible, out.rev)
    && exists tri: Tristate :: TriIs(c, m, u, o, s, out.visible, out.rev, tri) &&
         if c.IsChoice(s) && tri == YES then
           && Picks(c, m, u, OpenEnv(o, s), s, out.pick)
           && out.value == if out.pick.Some? then Value(YES, "y") else Value(NO, "n")
         else out.pick == None && out.value == Value(tri, TriName(tri))
  }

  ghost predicate StrMeets(c: Config, m: Tristate, u: User, o: Outcomes, s: Symbol, out: Outcome) {
    && VisibleIs(c, m, EnvOf(o), s, out.visible) && SelectIs(c, m, EnvOf(o), s, out.visible, out.rev)
    && out.pick == None && out.value.tri == NO
    && exists str :: Ranged(c, EnvOf(o), s, str, out.value.str) &&
         if out.visible != NO && u.hasValue then str == u.str else DefaultGives(c, EnvOf(o), s, str)
  }

  /** The outcome of s is what its properties, its user value and the outcomes of other symbols ask for. */
  ghost predicate Meets(c: Config, m: Tristate, u: Users, o: Outcomes, s: Symbol, out: Outcome) {
    match s
    case Yes => out == Outcome(Value(YES, "y"), None, NO, NO)
    case Mod => out == Outcome(Value(MOD, "m"), None, NO, NO)
    case No => out == Outcome(Value(NO, "n"), None, NO, NO)
    case Const(text) => out == Outcome(Value(NO, text), None, NO, NO)
    case _ =>
      if s.Type() == TUnknown then out == Outcome(Value(NO, if s.Var? then s.name else ""), None, NO, NO)
      else if s.Type() == TBoolean || s.Type() == TTristate then TriMeets(c, m, u(s), o, s, out)
      else StrMeets(c, m, u(s), o, s, out)
  }

  lemma TriMeetsIff(c: Config, m: Tristate, u: User, o: Outcomes, s: Symbol, out: Outcome)
    requires s.IsBoolOrTristate()
    ensures TriOutcome(c, m, u, o, s) == out <==> TriMeets(c, m, u, o, s, out)
  {
    var env := EnvOf(o);
    var visible := Visibility(c, s, env, m);
    var rev := SelectValue(c, s, env, visible, m);
    var tri := TriValue(c, s, u, env, PickOfChoice(c, s, o), visible, rev, m);
    VisibleIff(c, m, env, s, out.visible);
    SelectIff(c, m, env, s, visible, out.rev);
    forall t: Tristate
      ensures TriIs(c, m, u, o, s, visible, rev, t) <==> t == tri
    {
      TriIff(c, m, u, o, s, visible, rev, t);
    }
    if c.IsChoice(s) { PickIff(c, m, u, OpenEnv(o, s), s, out.pick); }
  }

  lemma StrMeetsIff(c: Config, m: Tristate, u: User, o: Outcomes, s: Symbol, out: Outcome)
    ensures StrOutcome(c, m, u, o, s) == out <==> StrMeets(c, m, u, o, s, out)
  {
    var env := EnvOf(o);
    var visible := Visibility(c, s, env, m);
    var str := if visible != NO && u.hasValue then u.str else DefaultStr(c, s, env);
    VisibleIff(c, m, env, s, out.visible);
    SelectIff(c, m, env, s, visible, out.rev);
    forall t
      ensures DefaultGives(c, env, s, t) <==> t == DefaultStr(c, s, env)
    {
      DefaultGivesIff(c, env, s, t);
    }
    RangedIff(c, env, s, str, out.value.str);
  }

  /** The equations say what a value means, and nothing else has that meaning. */
  lemma RuleMeetsIff(c: Config, m: Tristate, u: Users, o: Outcomes, s: Symbol, out: Outcome)
    ensures Rule(c, m, u, o, s) == out <==> Meets(c, m, u, o, s, out)
  {
    if s.IsBoolOrTristate() {
      TriMeetsIff(c, m, u(s), o, s, out);
    } else if s.Type() != TUnknown {
      StrMeetsIff(c, m, u(s), o, s, out);
    }
  }

  /** So a symbol that only its defaults speak for has the value of the first whose condition is met. */
  lemma DefaultDecides(c: Config, m: Tristate, u: Users, o: Outcomes, s: Symbol, k: nat)
    requires o(s) == Rule(c, m, u, o, s) && s.IsBoolOrTristate() && c.Info(s).role == Plain
    requires !u(s).hasValue && o(s).visible == NO && o(s).rev == NO
    requires DefaultCounts(c.Info(s).props, EnvOf(o), k)
    ensures var v := Eval(c.Info(s).props[k].expr, EnvOf(o));
      o(s).value.tri == if v == MOD && (s.Type() == TBoolean || m == NO) then YES else v
  {
    OneDefaultCounts(c.Info(s).props, EnvOf(o), k, k);
    var v := Eval(c.Info(s).props[k].expr, EnvOf(o));
    assert DefaultAsks(c, EnvOf(o), s, v);
    DefaultAsksIff(c, EnvOf(o), s, v);
  }

  /** And an int, hex or string symbol the text that it names, held to the first range that is active. */
  lemma DefaultAndRangeDecide(c: Config, m: Tristate, u: Users, o: Outcomes, s: Symbol, k: nat, r: nat)
    requires o(s) == Rule(c, m, u, o, s) && (s.Type() == TInt || s.Type() == THex)
    requires !(u(s).hasValue && o(s).visible != NO)
    requires DefaultCounts(c.Info(s).props, EnvOf(o), k) && RangeCounts(c.Info(s).props, EnvOf(o), r)
    ensures o(s).value.str == HeldBy(c.Info(s).props[r], EnvOf(o), s.Type(), NamedText(c.Info(s).props[k].expr, EnvOf(o)))
  {
    RuleMeetsIff(c, m, u, o, s, o(s));
    forall k': nat | DefaultCounts(c.Info(s).props, EnvOf(o), k')
      ensures k' == k && !NoDefaultCounts(c.Info(s).props, EnvOf(o))
    {
      OneDefaultCounts(c.Info(s).props, EnvOf(o), k, k');
    }
    forall r': nat | RangeCounts(c.Info(s).props, EnvOf(o), r')
      ensures r' == r && !NoRangeCounts(c.Info(s).props, EnvOf(o))
    {
      OneRangeCounts(c.Info(s).props, EnvOf(o), r, r');
    }
    assert DefaultCounts(c.Info(s).props, EnvOf(o), k) && RangeCounts(c.Info(s).props, EnvOf(o), r);
  }
}
