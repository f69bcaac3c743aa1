/** What the value of a symbol is, as plain equations: the rule of one symbol over the values of the
    symbols it depends on. */
module SymbolRules {
  import opened Tristates
  import opened Exprs
  import opened Ranges

  /** The properties of a symbol that its value depends on; every property with a text is a prompt. */
  datatype Property =
    | Prompt(visible: OptExpr)
    | Default(visible: OptExpr, expr: Expr)
    | Range(visible: OptExpr, lo: Symbol, hi: Symbol)
    | Select(visible: OptExpr, target: Symbol)

  /** Whether a symbol heads a choice block, with the members in order, or is a member of one. */
  datatype Role = Plain | ChoiceOf(members: seq<Symbol>) | MemberOf(choice: Symbol)

  datatype SymInfo = SymInfo(props: seq<Property>, revDep: OptExpr, role: Role)

  datatype Config = Config(info: map<Symbol, SymInfo>, modules: Option<Symbol>) {
    function Info(s: Symbol): SymInfo {
      if s in info then info[s] else SymInfo([], None, Plain)
    }

    predicate IsMember(s: Symbol) {
      Info(s).role.MemberOf?
    }

    predicate IsChoice(s: Symbol) {
      Info(s).role.ChoiceOf?
    }
  }

  /** What the user has set: SYMBOL_NEW clear means there is a value. */
  datatype User = User(hasValue: bool, tri: Tristate, str: string, pick: Option<Symbol>)

  type Users = Symbol -> User

  /** What evaluation leaves behind: the value, the member a choice stands on, visibility and select. */
  datatype Outcome = Outcome(value: Value, pick: Option<Symbol>, visible: Tristate, rev: Tristate)

  type Outcomes = Symbol -> Outcome

  function EnvOf(o: Outcomes): Env {
    s => o(s).value
  }

  /** The environment while the members of an open choice are looked at: the choice itself counts as yes. */
  function OpenEnv(o: Outcomes, choice: Symbol): Env {
    s => if s == choice then Value(YES, TriName(YES)) else o(s).value
  }

  predicate IsBuiltin(s: Symbol) {
    s.Yes? || s.Mod? || s.No?
  }

  function BuiltinValue(s: Symbol): Value {
    if s.Yes? then Value(YES, "y") else if s.Mod? then Value(MOD, "m") else Value(NO, "n")
  }

  function NameOf(s: Symbol): string {
    match s
    case Const(text) => text
    case Var(name, _) => name
    case _ => ""
  }

  // ----- the parts of sym_calc_visibility -----

  /** The maximum over the prompts from number i on. */
  function PromptsFrom(props: seq<Property>, i: nat, env: Env): Tristate
    requires i <= |props|
    decreases |props| - i
  {
    if i == |props| then NO
    else if props[i].Prompt? then Apply(Or, EvalOpt(props[i].visible, env), PromptsFrom(props, i + 1, env))
    else PromptsFrom(props, i + 1, env)
  }

  function Visibility(c: Config, s: Symbol, env: Env, modulesVal: Tristate): Tristate {
    var tri := PromptsFrom(c.Info(s).props, 0, env);
    if tri == MOD && (s.Type() != TTristate || modulesVal == NO) then YES else tri
  }

  /** sym_get_type */
  function EffectiveType(c: Config, s: Symbol, visible: Tristate, modulesVal: Tristate): SymType {
    if s.Type() == TTristate && ((c.IsMember(s) && visible == YES) || modulesVal == NO) then TBoolean else s.Type()
  }

  function SelectValue(c: Config, s: Symbol, env: Env, visible: Tristate, modulesVal: Tristate): Tristate {
    if c.IsMember(s) then NO
    else
      var tri := if c.Info(s).revDep.Some? then Eval(c.Info(s).revDep.value, env) else NO;
      if tri == MOD && EffectiveType(c, s, visible, modulesVal) == TBoolean then YES else tri
  }

  // ----- defaults and ranges -----

  predicate ActiveDefault(p: Property, env: Env) {
    p.Default? && EvalOpt(p.visible, env) != NO
  }

  predicate ActiveRange(p: Property, env: Env) {
    p.Range? && EvalOpt(p.visible, env) != NO
  }

  function DefaultFrom(props: seq<Property>, i: nat, env: Env): (r: Option<Property>)
    requires i <= |props|
    ensures r.Some? ==> r.value.Default? && r.value in props
    decreases |props| - i
  {
    if i == |props| then None
    else if ActiveDefault(props[i], env) then Some(props[i])
    else DefaultFrom(props, i + 1, env)
  }

  function RangeFrom(props: seq<Property>, i: nat, env: Env): (r: Option<Property>)
    requires i <= |props|
    ensures r.Some? ==> r.value.Range? && r.value in props
    decreases |props| - i
  {
    if i == |props| then None
    else if ActiveRange(props[i], env) then Some(props[i])
    else RangeFrom(props, i + 1, env)
  }

  function DefaultTri(c: Config, s: Symbol, env: Env): Tristate {
    match DefaultFrom(c.Info(s).props, 0, env)
    case None => NO
    case Some(p) => Eval(p.expr, env)
  }

  /** curr.val of another symbol: the string itself, or the fixed "n" that bool and tristate symbols keep there. */
  function RawString(s: Symbol, v: Value): string {
    if s.IsBoolOrTristate() then "n" else v.str
  }

  function DefaultStr(c: Config, s: Symbol, env: Env): string {
    match DefaultFrom(c.Info(s).props, 0, env)
    case Some(Default(_, Sym(d))) => RawString(d, env(d))
    case _ => ""
  }

  function BoundOf(s: Symbol, env: Env): Bound {
    Bound(s.Type(), RawString(s, env(s)))
  }

  function RangeChecked(c: Config, s: Symbol, str: string, env: Env): string {
    if s.Type() != TInt && s.Type() != THex then str
    else
      match RangeFrom(c.Info(s).props, 0, env)
      case None => str
      case Some(p) => ValidateRange(s.Type(), str, BoundOf(p.lo, env), BoundOf(p.hi, env))
  }

  // ----- the value of a bool or tristate symbol -----

  /** Before a choice looks at its members. */
  function TriValue(c: Config, s: Symbol, u: User, env: Env, pickOfChoice: Option<Symbol>,
                    visible: Tristate, rev: Tristate, modulesVal: Tristate): Tristate {
    var tri :=
      if c.IsMember(s) && visible == YES then (if pickOfChoice == Some(s) then YES else NO)
      else if Apply(Or, visible, rev) != NO then
        var x := if u.hasValue then u.tri else if c.IsChoice(s) then NO else DefaultTri(c, s, env);
        Apply(Or, Apply(And, x, visible), rev)
      else if c.IsChoice(s) then NO
      else DefaultTri(c, s, env);
    if tri == MOD && EffectiveType(c, s, visible, modulesVal) == TBoolean then YES else tri
  }

  // ----- sym_calc_choice -----

  function FirstVisible(c: Config, members: seq<Symbol>, i: nat, env: Env, modulesVal: Tristate): (r: Option<Symbol>)
    requires i <= |members|
    ensures r.Some? ==> r.value in members && Visibility(c, r.value, env, modulesVal) != NO
    ensures r.None? ==> forall j :: i <= j < |members| ==> Visibility(c, members[j], env, modulesVal) == NO
    decreases |members| - i
  {
    if i == |members| then None
    else if Visibility(c, members[i], env, modulesVal) != NO then Some(members[i])
    else FirstVisible(c, members, i + 1, env, modulesVal)
  }

  /** The first default that is active and names a visible symbol. */
  function FirstDefaultPick(c: Config, props: seq<Property>, i: nat, env: Env, modulesVal: Tristate): (r: Option<Symbol>)
    requires i <= |props|
    ensures r.Some? ==> Visibility(c, r.value, env, modulesVal) != NO
    ensures r.Some? ==> exists p :: p in props && p.Default? && p.expr == Sym(r.value)
    decreases |props| - i
  {
    if i == |props| then None
    else if ActiveDefault(props[i], env) && props[i].expr.Sym? &&
            Visibility(c, props[i].expr.s, env, modulesVal) != NO then Some(props[i].expr.s)
    else FirstDefaultPick(c, props, i + 1, env, modulesVal)
  }

  /** The user's pick if visible, else the first visible default, else the first visible member. */
  function ChoicePick(c: Config, s: Symbol, u: User, env: Env, modulesVal: Tristate): Option<Symbol>
    requires c.IsChoice(s)
  {
    if u.pick.Some? && Visibility(c, u.pick.value, env, modulesVal) != NO then u.pick
    else
      var d := FirstDefaultPick(c, c.Info(s).props, 0, env, modulesVal);
      if d.Some? then d else FirstVisible(c, c.Info(s).role.members, 0, env, modulesVal)
  }

  // ----- the rule -----

  function PickOfChoice(c: Config, s: Symbol, o: Outcomes): Option<Symbol> {
    if c.IsMember(s) then o(c.Info(s).role.choice).pick else None
  }

  function TriOutcome(c: Config, m: Tristate, u: User, o: Outcomes, s: Symbol): Outcome {
    var env := EnvOf(o);
    var visible := Visibility(c, s, env, m);
    var rev := SelectValue(c, s, env, visible, m);
    var tri := TriValue(c, s, u, env, PickOfChoice(c, s, o), visible, rev, m);
    if c.IsChoice(s) && tri == YES then
      var pick := ChoicePick(c, s, u, OpenEnv(o, s), m);
      var tri' := if pick.Some? then YES else NO;
      Outcome(Value(tri', TriName(tri')), pick, visible, rev)
    else
      Outcome(Value(tri, TriName(tri)), None, visible, rev)
  }

  function StrOutcome(c: Config, m: Tristate, u: User, o: Outcomes, s: Symbol): Outcome {
    var env := EnvOf(o);
    var visible := Visibility(c, s, env, m);
    var rev := SelectValue(c, s, env, visible, m);
    var str := if visible != NO && u.hasValue then u.str else DefaultStr(c, s, env);
    Outcome(Value(NO, RangeChecked(c, s, str, env)), None, visible, rev)
  }

  /** The outcome of s, given the outcomes of the symbols it depends on. */
  function Rule(c: Config, m: Tristate, u: Users, o: Outcomes, s: Symbol): Outcome {
    if IsBuiltin(s) then Outcome(BuiltinValue(s), None, NO, NO)
    else if s.Type() == TUnknown then Outcome(Value(NO, NameOf(s)), None, NO, NO)
    else if s.IsBoolOrTristate() then TriOutcome(c, m, u(s), o, s)
    else StrOutcome(c, m, u(s), o, s)
  }

  /** The outcomes satisfy the rule of every symbol. */
  ghost predicate Solves(c: Config, m: Tristate, u: Users, o: Outcomes) {
    forall s :: o(s) == Rule(c, m, u, o, s)
  }
}
