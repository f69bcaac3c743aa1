/** The expressions that menu_finalize computes: inherited dependencies, and the test for absorbing a sibling. */
module MenuDeps {
  import opened Tristates
  import opened Exprs
  import opened Rewrites
  import opened Equality
  import EqualityTerms
  import opened Duplicates

  function TransformOpt(e: OptExpr): OptExpr {
    if e.None? then None else Some(Transform(e.value))
  }

  function TransBoolOpt(e: OptExpr): OptExpr {
    if e.None? then None else Some(TransBool(e.value))
  }

  /** An entry's or a property's own condition, under the condition of what it belongs to. */
  function Inherit(base: OptExpr, own: OptExpr): OptExpr {
    EliminateDupsOpt(AllocAnd(base, TransformOpt(own)))
  }

  /** The visibility a property gets; only a tristate symbol keeps the difference between mod and yes. */
  function InheritVisible(base: OptExpr, own: OptExpr, keepsMod: bool): OptExpr {
    var dep := Inherit(base, own);
    if keepsMod then dep else TransBoolOpt(dep)
  }

  predicate OptNnf(e: OptExpr) {
    e.Some? ==> IsNnf(e.value)
  }

  /** The inherited condition is the conjunction, except that mod may be decided one way or the other. */
  lemma InheritRefines(base: OptExpr, own: OptExpr, env: Env)
    requires WellTyped(env)
    ensures Refines(Apply(And, EvalOpt(base, env), EvalOpt(own, env)), EvalOpt(Inherit(base, own), env))
  {
    if own.Some? { TransformExact(own.value, env); }
    var e := AllocAnd(base, TransformOpt(own));
    if e.Some? { EliminateDupsRefines(e.value, env); }
  }

  lemma InheritKeepsNnf(base: OptExpr, own: OptExpr)
    requires OptNnf(base)
    ensures OptNnf(Inherit(base, own))
  {
    if own.Some? {
      TransformNormalizes(own.value);
      TransformFixesNormalForms(Transform(own.value));
    }
    var e := AllocAnd(base, TransformOpt(own));
    if e.Some? { EliminateDupsKeepsNnf(e.value); }
  }

  lemma {:induction false} TransBoolKeepsNnf(e: Expr)
    requires IsNnf(e)
    ensures IsNnf(TransBool(e))
  {
    match e
    case Bin(_, l, r) =>
      TransBoolKeepsNnf(l);
      TransBoolKeepsNnf(r);
    case _ =>
  }

  /** What a prompt's visibility comes to: where the conjunction of the inherited and the own condition is
      definite, a prompt of a tristate symbol sees just that, and any other prompt sees whether it is non-no. */
  lemma InheritVisibleMeaning(base: OptExpr, own: OptExpr, keepsMod: bool, env: Env)
    requires WellTyped(env) && OptNnf(base)
    ensures OptNnf(InheritVisible(base, own, keepsMod))
    ensures var v := Apply(And, EvalOpt(base, env), EvalOpt(own, env));
      var w := EvalOpt(InheritVisible(base, own, keepsMod), env);
      v != MOD ==> (if keepsMod then w == v else (w == NO <==> v == NO))
  {
    InheritRefines(base, own, env);
    InheritKeepsNnf(base, own);
    var dep := Inherit(base, own);
    if !keepsMod && dep.Some? {
      TransBoolKeepsNonNo(dep.value, env);
      TransBoolKeepsNnf(dep.value);
    }
  }

  // ----- absorbing siblings -----

  /** "e is not no", as an expression in normal form. */
  function NonNo(e: OptExpr): Expr {
    EliminateDups(Transform(TransCompareOpt(e, CmpUnequal, No)))
  }

  /** The test in the sibling loop: the sibling's condition mentions the symbol, and either depends on it
      or implies the condition of the symbol's own prompt. */
  predicate Absorbs(basedep: Expr, dep: OptExpr, sym: Symbol) {
    && dep.Some? && ContainsSymbol(dep.value, sym)
    && (DependsSymbol(dep.value, sym) || EliminateEq(NonNo(dep), basedep).1 == Sym(Yes))
  }

  ghost predicate OptExact(e: OptExpr, env: Env) {
    e.Some? ==> BareAgree(e.value, env, No) && NoModUnderNot(e.value, env)
  }

  /** Where no negated part is mod, NonNo asks exactly what its name says. */
  lemma NonNoExact(e: OptExpr, env: Env)
    requires WellTyped(env) && OptExact(e, env)
    ensures Eval(NonNo(e), env) == if EvalOpt(e, env) != NO then YES else NO
  {
    assert WellTypedAt(No, env(No));
    var t := TransCompareOpt(e, CmpUnequal, No);
    if e.Some? { TransCompareExact(e.value, CmpUnequal, No, env); }
    TransformExact(t, env);
    EliminateDupsRefines(Transform(t), env);
  }

  /** A sibling that is absorbed under an entry mentions its symbol; and whenever it can be shown, the
      symbol is non-no or the entry's own prompt can be shown too. */
  lemma AbsorbsSound(prompt: OptExpr, dep: OptExpr, sym: Symbol, env: Env)
    requires WellTyped(env) && sym.IsBoolOrTristate()
    requires Absorbs(NonNo(prompt), dep, sym)
    requires !DependsSymbol(dep.value, sym) ==> OptExact(prompt, env) && OptExact(dep, env)
    ensures sym in SymbolsOfOpt(dep)
    ensures EvalOpt(dep, env) != NO ==> env(sym).tri != NO || EvalOpt(prompt, env) != NO
  {
    ContainsSymbolCorrect(dep.value, sym);
    if DependsSymbol(dep.value, sym) {
      if EvalOpt(dep, env) != NO { DependsSymbolSound(dep.value, sym, env); }
    } else {
      NonNoExact(dep, env);
      NonNoExact(prompt, env);
      EliminateEqBounds(NonNo(dep), NonNo(prompt), env);
    }
  }

  /** Exactly which siblings are absorbed where the sibling's condition and that of the prompt are conjunctions
      of symbols: those that mention the symbol, and whose condition either has a term that asks for it or has
      every symbol of the prompt's condition. */
  lemma AbsorbsIff(basedep: Expr, dep: OptExpr, sym: Symbol)
    requires EqualityTerms.NamedGroup(And, NonNo(dep)) && EqualityTerms.NamedGroup(And, basedep)
    requires IsOp(And, NonNo(dep)) || IsOp(And, basedep)
    ensures Absorbs(basedep, dep, sym) <==>
      && sym in SymbolsOfOpt(dep)
      && (|| (exists x :: x in AndTerms(dep.value) && AsksFor(x, sym))
          || (forall z :: EqualityTerms.IsNamed(z) ==>
                EqualityTerms.Occurs(And, z, basedep) <= EqualityTerms.Occurs(And, z, NonNo(dep))))
  {
    if dep.Some? {
      ContainsSymbolCorrect(dep.value, sym);
      DependsSymbolIff(dep.value, sym);
      EqualityTerms.NamedGroupsUsedUpIff(And, NonNo(dep), basedep);
    }
  }

  /** Whatever the prompt's condition, a sibling is absorbed if a term of its condition asks for the symbol. */
  lemma AbsorbsDependent(basedep: Expr, dep: Expr, sym: Symbol)
    requires exists x :: x in AndTerms(dep) && AsksFor(x, sym)
    ensures Absorbs(basedep, Some(dep), sym)
  {
    DependsSymbolIff(dep, sym);
    DependsContains(dep, sym);
  }

  lemma {:induction false} DependsContains(dep: Expr, sym: Symbol)
    requires DependsSymbol(dep, sym)
    ensures ContainsSymbol(dep, sym)
  {
    match dep
    case Bin(And, l, r) => if DependsSymbol(l, sym) { DependsContains(l, sym); } else { DependsContains(r, sym); }
    case _ =>
  }
}
