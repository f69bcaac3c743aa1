/** What the conditions of the finalized menu come to: each is the conjunction of what the entry asked for itself
    and what everything above it asked for. */
module MenuMeaning {
  import opened Tristates
  import opened Exprs
  import opened Rewrites
  import opened MenuDeps
  import opened Menus

  /** What x asks of the entries below it, from the conditions as they were written: with the value d of its own
      condition a choice asks for its symbol, an entry with a prompt for that as well, and any other for d. */
  function Asked(choices: set<Symbol>, a: MenuMap, x: Id, d: Tristate, env: Env): Tristate {
    var menu := Get(a, x);
    if IsChoice(choices, a, x) then env(menu.sym.value).tri
    else if menu.prompt.Some? && menu.prompt.value < |menu.props| then
      Apply(And, d, EvalOpt(menu.props[menu.prompt.value].visible, env))
    else d
  }

  /** An entry whose conditions keep the difference between mod and yes. */
  predicate Distinguishes(menu: Menu) {
    menu.sym.None? || menu.sym.value.Type() == TTristate
  }

  /** The final prompt condition of a bool, int, hex or string entry only says no or non-no; this excludes mod. */
  predicate Decided(choices: set<Symbol>, b: MenuMap, x: Id, env: Env) {
    var menu := Get(b, x);
    IsChoice(choices, b, x) || Distinguishes(menu) || menu.prompt.None? || EvalOpt(ShownIf(menu), env) != MOD
  }

  /** The final value w stands for d: no stays no, and where nothing above is undecided, a definite d is kept. */
  predicate StandsFor(d: Tristate, w: Tristate, decided: bool) {
    (d == NO ==> w == NO) && (decided ==> Refines(d, w))
  }

  /** The conditions of one entry, where the entries above ask for s. */
  ghost predicate EntryMeans(a: Menu, b: Menu, s: Tristate, decided: bool, env: Env) {
    var d := Apply(And, s, EvalOpt(a.dep, env));
    && StandsFor(d, EvalOpt(b.dep, env), decided)
    && |b.props| == |a.props|
    && forall i :: 0 <= i < |a.props| ==>
         StandsFor(Apply(And, d, EvalOpt(a.props[i].visible, env)), EvalOpt(b.props[i].visible, env), decided && Distinguishes(b))
  }

  /** And of all entries of f, the list of an entry that asks for s. */
  ghost predicate MeansAll(choices: set<Symbol>, a: MenuMap, b: MenuMap, f: Forest, s: Tristate, decided: bool, env: Env)
    decreases f
  {
    f.Node? ==>
      && EntryMeans(Get(a, f.id), Get(b, f.id), s, decided, env)
      && MeansAll(choices, a, b, f.kids, Asked(choices, a, f.id, Apply(And, s, EvalOpt(Get(a, f.id).dep, env)), env),
                  decided && Decided(choices, b, f.id, env), env)
      && MeansAll(choices, a, b, f.rest, s, decided, env)
  }

  lemma StandsForAnd(s: Tristate, pv: Tristate, own: Tristate, w: Tristate, decided: bool)
    requires StandsFor(s, pv, decided) && Refines(Apply(And, pv, own), w)
    ensures StandsFor(Apply(And, s, own), w, decided)
  {
  }

  lemma PropMeans(base: OptExpr, own: OptExpr, keepsMod: bool, d: Tristate, decided: bool, env: Env)
    requires WellTyped(env) && OptNnf(base) && StandsFor(d, EvalOpt(base, env), decided)
    ensures OptNnf(InheritVisible(base, own, keepsMod))
    ensures var w := EvalOpt(InheritVisible(base, own, keepsMod), env);
      && StandsFor(Apply(And, d, EvalOpt(own, env)), w, decided && keepsMod)
      && (w != MOD ==> StandsFor(Apply(And, d, EvalOpt(own, env)), w, decided))
  {
    InheritVisibleMeaning(base, own, keepsMod, env);
    if keepsMod { InheritRefines(base, own, env); }
  }

  lemma EntryStep(a: Menu, b: Menu, pd: OptExpr, s: Tristate, decided: bool, env: Env)
    requires WellTyped(env) && OptNnf(pd) && StandsFor(s, EvalOpt(pd, env), decided)
    requires SameData(b, Propagated(pd, a)) && a.sym == b.sym && a.prompt == b.prompt
    ensures EntryMeans(a, b, s, decided, env) && OptNnf(ShownIf(b))
    ensures var d := Apply(And, s, EvalOpt(a.dep, env));
      var asked := if a.prompt.Some? && a.prompt.value < |a.props|
                   then Apply(And, d, EvalOpt(a.props[a.prompt.value].visible, env)) else d;
      StandsFor(asked, EvalOpt(ShownIf(b), env), decided && (Distinguishes(b) || b.prompt.None? || EvalOpt(ShownIf(b), env) != MOD))
  {
    var d := Apply(And, s, EvalOpt(a.dep, env));
    InheritRefines(pd, a.dep, env);
    InheritKeepsNnf(pd, a.dep);
    StandsForAnd(s, EvalOpt(pd, env), EvalOpt(a.dep, env), EvalOpt(b.dep, env), decided);
    forall i | 0 <= i < |a.props|
      ensures OptNnf(b.props[i].visible)
      ensures var w := EvalOpt(b.props[i].visible, env);
        && StandsFor(Apply(And, d, EvalOpt(a.props[i].visible, env)), w, decided && Distinguishes(b))
        && (w != MOD ==> StandsFor(Apply(And, d, EvalOpt(a.props[i].visible, env)), w, decided))
    {
      PropMeans(b.dep, a.props[i].visible, KeepsMod(a), d, decided, env);
      assert b.props[i] == Propagated(pd, a).props[i];
    }
  }

  /** In every well-typed environment, the final condition of every entry stands for the conjunction of its own and
      those of all entries above it, up to the nearest choice, whose symbol takes their place. */
  lemma {:induction false} FinalConditions(choices: set<Symbol>, a: MenuMap, b: MenuMap, p: Id, f: Forest, s: Tristate,
                                           decided: bool, env: Env)
    requires WellTyped(env) && SameFixed(a, b) && Inherited(choices, a, b, p, f)
    requires OptNnf(ParentDep(b, choices, p)) && StandsFor(s, EvalOpt(ParentDep(b, choices, p), env), decided)
    ensures MeansAll(choices, a, b, f, s, decided, env)
    decreases f
  {
    if f.Node? {
      assert Get(a, f.id).sym == Get(b, f.id).sym && Get(a, f.id).prompt == Get(b, f.id).prompt;
      EntryStep(Get(a, f.id), Get(b, f.id), ParentDep(b, choices, p), s, decided, env);
      var d := Apply(And, s, EvalOpt(Get(a, f.id).dep, env));
      FinalConditions(choices, a, b, f.id, f.kids, Asked(choices, a, f.id, d, env),
                      decided && Decided(choices, b, f.id, env), env);
      FinalConditions(choices, a, b, p, f.rest, s, decided, env);
    }
  }
}
