/** The rewriters of expr.c that work on one tree: constant folding, negation normal form,
    and the passes that turn a tristate question into a yes/no one. */
module Rewrites {
  import opened Tristates
  import opened Exprs

  // ----- expr_eliminate_yn -----

  /** Folding at one node whose children are already folded. */
  function Fold(t: Op, l: Expr, r: Expr): Expr {
    if l == Absorbing(t) then l
    else if l == Neutral(t) then r
    else if r == Absorbing(t) then r
    else if r == Neutral(t) then l
    else Bin(t, l, r)
  }

  function EliminateYn(e: Expr): (r: Expr)
    ensures Size(r) <= Size(e)
  {
    match e
    case Bin(t, l, r) => Fold(t, EliminateYn(l), EliminateYn(r))
    case _ => e
  }

  lemma {:induction false} EliminateYnExact(e: Expr, env: Env)
    requires WellTyped(env)
    ensures Eval(EliminateYn(e), env) == Eval(e, env)
  {
    match e
    case Bin(t, l, r) =>
      EliminateYnExact(l, env);
      EliminateYnExact(r, env);
      assert WellTypedAt(Yes, env(Yes)) && WellTypedAt(No, env(No));
    case _ =>
  }

  /** Some AND/OR node reachable through AND/OR nodes has the symbol y or n as a child. */
  predicate HasConst(e: Expr) {
    e.Bin? && (IsYesOrNo(e.l) || IsYesOrNo(e.r) || HasConst(e.l) || HasConst(e.r))
  }

  /** Folding shrinks an expression exactly when there is something to fold. */
  lemma {:induction false} EliminateYnShrinks(e: Expr)
    ensures HasConst(e) ==> Size(EliminateYn(e)) < Size(e)
    ensures !HasConst(e) ==> EliminateYn(e) == e
  {
    match e
    case Bin(t, l, r) =>
      EliminateYnShrinks(l);
      EliminateYnShrinks(r);
    case _ =>
  }

  lemma {:induction false} EliminateYnLeavesNoConst(e: Expr)
    ensures !HasConst(EliminateYn(e))
    ensures EliminateYn(EliminateYn(e)) == EliminateYn(e)
  {
    match e {
      case Bin(t, l, r) =>
        EliminateYnLeavesNoConst(l);
        EliminateYnLeavesNoConst(r);
      case _ =>
    }
    EliminateYnShrinks(EliminateYn(e));
  }

  // ----- expr_transform -----

  /** The termination weight: a negation doubles it. */
  function Weight(e: Expr): nat
    ensures Weight(e) >= 1
  {
    match e
    case Sym(_) => 1
    case Not(x) => 2 * Weight(x)
    case Bin(_, l, r) => 1 + Weight(l) + Weight(r)
    case _ => 2
  }

  /** A De Morgan step adds a node but loses weight. */
  lemma DeMorganIsLighter(t: Op, l: Expr, r: Expr)
    ensures Weight(Bin(Dual(t), Not(l), Not(r))) < Weight(Not(Bin(t, l, r)))
    ensures Size(Bin(Dual(t), Not(l), Not(r))) == Size(Not(Bin(t, l, r))) + 1
  {
    assert Weight(Not(l)) == 2 * Weight(l) && Weight(Not(r)) == 2 * Weight(r);
  }

  function TransformEqual(e: Expr): (r: Expr)
    requires e.Equal?
  {
    if e.a.Type() != TBoolean then e
    else if e.b == No then Not(Sym(e.a))
    else if e.b == Mod then Sym(No)
    else if e.b == Yes then Sym(e.a)
    else e
  }

  function TransformUnequal(e: Expr): (r: Expr)
    requires e.Unequal?
  {
    if e.a.Type() != TBoolean then e
    else if e.b == No then Sym(e.a)
    else if e.b == Mod then Sym(Yes)
    else if e.b == Yes then Not(Sym(e.a))
    else e
  }

  function Transform(e: Expr): (r: Expr)
    ensures Weight(r) <= Weight(e)
    decreases Weight(e), 1
  {
    match e
    case Sym(_) => e
    case Equal(_, _) => TransformEqual(e)
    case Unequal(_, _) => TransformUnequal(e)
    case Bin(t, l, r) => Bin(t, Transform(l), Transform(r))
    case Not(x) => Negate(Transform(x))
  }

  /** The negation of an expression that is transformed already. */
  function Negate(x: Expr): (r: Expr)
    ensures Weight(r) <= 2 * Weight(x)
    decreases 2 * Weight(x), 0
  {
    match x
    case Not(y) => Transform(y)
    case Equal(a, b) => Unequal(a, b)
    case Unequal(a, b) => Equal(a, b)
    case Bin(t, l, r) =>
      DeMorganIsLighter(t, l, r);
      Transform(Bin(Dual(t), Not(l), Not(r)))
    case Sym(s) =>
      if s == Yes then Sym(No)
      else if s == Mod then Sym(Mod)
      else if s == No then Sym(Yes)
      else Not(Sym(s))
  }

  lemma {:induction false} TransformExact(e: Expr, env: Env)
    requires WellTyped(env)
    ensures Eval(Transform(e), env) == Eval(e, env)
    decreases Weight(e)
  {
    assert WellTypedAt(Yes, env(Yes)) && WellTypedAt(No, env(No)) && WellTypedAt(Mod, env(Mod));
    match e
    case Sym(_) =>
    case Equal(a, b) => assert WellTypedAt(a, env(a));
    case Unequal(a, b) => assert WellTypedAt(a, env(a));
    case Bin(t, l, r) =>
      TransformExact(l, env);
      TransformExact(r, env);
    case Not(x) =>
      TransformExact(x, env);
      match Transform(x)
      case Not(y) => TransformExact(y, env);
      case Bin(t, l, r) =>
        DeMorganIsLighter(t, l, r);
        TransformExact(Bin(Dual(t), Not(l), Not(r)), env);
      case _ =>
  }

  /** Negation stands only on symbols, and the built-in y, m, n are never negated. */
  predicate IsNnf(e: Expr) {
    match e
    case Not(x) => x.Sym? && x.s != Yes && x.s != Mod && x.s != No
    case Bin(_, l, r) => IsNnf(l) && IsNnf(r)
    case _ => true
  }

  /** What expr_transform leaves nothing to do on: negation normal form,
      and no comparison of a boolean symbol with y, m or n. */
  predicate IsTransformed(e: Expr) {
    match e
    case Sym(_) => true
    case Not(x) => x.Sym? && x.s != Yes && x.s != Mod && x.s != No
    case Bin(_, l, r) => IsTransformed(l) && IsTransformed(r)
    case _ => e.a.Type() == TBoolean ==> e.b != Yes && e.b != Mod && e.b != No
  }

  lemma {:induction false} TransformNormalizes(e: Expr)
    ensures IsTransformed(Transform(e))
    decreases Weight(e)
  {
    match e
    case Bin(t, l, r) =>
      TransformNormalizes(l);
      TransformNormalizes(r);
    case Not(x) =>
      TransformNormalizes(x);
      match Transform(x) {
        case Not(y) => TransformNormalizes(y);
        case Bin(t, l, r) =>
          DeMorganIsLighter(t, l, r);
          TransformNormalizes(Bin(Dual(t), Not(l), Not(r)));
        case _ =>
      }
    case _ =>
  }

  /** expr_transform changes an expression exactly when it is not yet in normal form; with
      TransformNormalizes this makes it idempotent. */
  lemma {:induction false} TransformFixesNormalForms(e: Expr)
    ensures IsTransformed(e) <==> Transform(e) == e
    ensures IsTransformed(e) ==> IsNnf(e)
  {
    if IsTransformed(e) {
      TransformKeepsNormalForm(e);
    } else {
      TransformNormalizes(e);
    }
  }

  lemma {:induction false} TransformKeepsNormalForm(e: Expr)
    requires IsTransformed(e)
    ensures Transform(e) == e && IsNnf(e)
  {
    match e
    case Bin(t, l, r) =>
      TransformKeepsNormalForm(l);
      TransformKeepsNormalForm(r);
    case _ =>
  }

  lemma {:induction false} TransformIdempotent(e: Expr)
    ensures Transform(Transform(e)) == Transform(e)
  {
    TransformNormalizes(e);
    TransformKeepsNormalForm(Transform(e));
  }

  // ----- expr_trans_bool -----

  function TransBool(e: Expr): (r: Expr) {
    match e
    case Bin(t, l, r) => Bin(t, TransBool(l), TransBool(r))
    case Not(x) => Not(TransBool(x))
    case Unequal(a, b) => if a.Type() == TTristate && b == No then Sym(a) else e
    case _ => e
  }

  /** On negation normal forms the pass keeps the one thing that a non-tristate prompt looks at:
      whether the expression is non-no.  It never raises a value. */
  lemma {:induction false} TransBoolKeepsNonNo(e: Expr, env: Env)
    requires WellTyped(env) && IsNnf(e)
    ensures Eval(TransBool(e), env) == NO <==> Eval(e, env) == NO
    ensures Eval(TransBool(e), env) <= Eval(e, env)
  {
    match e
    case Bin(_, l, r) =>
      TransBoolKeepsNonNo(l, env);
      TransBoolKeepsNonNo(r, env);
    case Unequal(a, b) =>
      assert WellTypedAt(a, env(a)) && WellTypedAt(No, env(No));
    case _ =>
  }

  /** Without the normal form it fails, and exactly in the value mod: under a negation, a != n and a
      are told apart by a alone. */
  lemma TransBoolUnderNot(a: Symbol, env: Env)
    requires WellTyped(env) && a.Type() == TTristate
    ensures var e := Not(Unequal(a, No));
      (Eval(TransBool(e), env) == NO <==> Eval(e, env) == NO) <==> env(a).tri != MOD
  {
    assert WellTypedAt(a, env(a)) && WellTypedAt(No, env(No));
    assert TransBool(Not(Unequal(a, No))) == Not(Sym(a));
  }

  // ----- expr_trans_compare -----

  datatype Cmp = CmpEqual | CmpUnequal

  function Flip(c: Cmp): Cmp {
    if c == CmpEqual then CmpUnequal else CmpEqual
  }

  function WrapNot(c: Cmp, e: Expr): Expr {
    if c == CmpUnequal then Not(e) else e
  }

  /** The body for a present expression.  A chain compared with m is given back as it is. */
  function TransCompare(e: Expr, c: Cmp, sym: Symbol): (r: Expr)
    requires sym == Yes || sym == Mod || sym == No
  {
    match e
    case Bin(t, l, r) =>
      if sym == Mod then WrapNot(c, e)
      else
        var op := if sym == Yes then t else Dual(t);
        WrapNot(c, Bin(op, TransCompare(l, CmpEqual, sym), TransCompare(r, CmpEqual, sym)))
    case Not(x) => TransCompare(x, Flip(c), sym)
    case Sym(s) => if c == CmpEqual then Equal(s, sym) else Unequal(s, sym)
    case _ =>
      if sym == Mod then Sym(if c == CmpEqual then No else Yes)
      else if (c == CmpEqual) == (sym == Yes) then e else Not(e)
  }

  function TransCompareOpt(e: OptExpr, c: Cmp, sym: Symbol): (r: Expr)
    requires sym == Yes || sym == Mod || sym == No
  {
    match e
    case None => WrapNot(c, Sym(sym))
    case Some(x) => TransCompare(x, c, sym)
  }

  /** The question that expr_trans_compare is meant to turn into an expression. */
  predicate Holds(v: Tristate, c: Cmp, sym: Symbol)
    requires sym == Yes || sym == Mod || sym == No
  {
    (v == (if sym == Yes then YES else if sym == Mod then MOD else NO)) == (c == CmpEqual)
  }

  predicate NoModUnderNot(e: Expr, env: Env) {
    match e
    case Not(x) => Eval(x, env) != MOD && NoModUnderNot(x, env)
    case Bin(_, l, r) => NoModUnderNot(l, env) && NoModUnderNot(r, env)
    case _ => true
  }

  /** The comparison of a symbol's string answers for its value, as it does for bool and tristate symbols. */
  predicate Agrees(s: Symbol, env: Env, sym: Symbol) {
    (env(s).str == env(sym).str) == (env(s).tri == env(sym).tri)
  }

  predicate BareAgree(e: Expr, env: Env, sym: Symbol) {
    match e
    case Sym(s) => Agrees(s, env, sym)
    case Not(x) => BareAgree(x, env, sym)
    case Bin(_, l, r) => BareAgree(l, env, sym) && BareAgree(r, env, sym)
    case _ => true
  }

  /** Every symbol of e that stands alone is a bool, a tristate or a built-in. */
  predicate TristateOnly(e: Expr) {
    match e
    case Sym(s) => s.IsBoolOrTristate() || s == Yes || s == Mod || s == No
    case Not(x) => TristateOnly(x)
    case Bin(_, l, r) => TristateOnly(l) && TristateOnly(r)
    case _ => true
  }

  lemma {:induction false} TristatesAgree(e: Expr, env: Env, sym: Symbol)
    requires sym == Yes || sym == Mod || sym == No
    requires WellTyped(env) && TristateOnly(e)
    ensures BareAgree(e, env, sym)
  {
    match e
    case Sym(s) => assert WellTypedAt(s, env(s)) && WellTypedAt(sym, env(sym));
    case Not(x) => TristatesAgree(x, env, sym);
    case Bin(_, l, r) =>
      TristatesAgree(l, env, sym);
      TristatesAgree(r, env, sym);
    case _ =>
  }

  lemma {:induction false} TransCompareExact(e: Expr, c: Cmp, sym: Symbol, env: Env)
    requires sym == Yes || sym == No
    requires WellTyped(env) && BareAgree(e, env, sym) && NoModUnderNot(e, env)
    ensures Eval(TransCompare(e, c, sym), env) == if Holds(Eval(e, env), c, sym) then YES else NO
  {
    assert WellTypedAt(Yes, env(Yes)) && WellTypedAt(No, env(No));
    match e
    case Bin(t, l, r) =>
      TransCompareExact(l, CmpEqual, sym, env);
      TransCompareExact(r, CmpEqual, sym, env);
    case Not(x) => TransCompareExact(x, Flip(c), sym, env);
    case _ =>
  }

  /** A negation is where exactness is lost, and it is lost exactly when the negated value is mod. */
  lemma {:induction false} TransCompareOfNotExactIff(x: Expr, c: Cmp, sym: Symbol, env: Env)
    requires sym == Yes || sym == No
    requires WellTyped(env) && BareAgree(x, env, sym) && NoModUnderNot(x, env)
    ensures Eval(TransCompare(Not(x), c, sym), env) == (if Holds(Eval(Not(x), env), c, sym) then YES else NO)
      <==> Eval(x, env) != MOD
  {
    TransCompareExact(x, Flip(c), sym, env);
  }

  /** When comparing with m is right: for a chain, if it is no; for a symbol, if its string answers for it; under
      a negation it is wrong wherever it was right, since a negation of mod is mod. */
  predicate RightWithMod(e: Expr, env: Env, negated: bool) {
    match e
    case Not(x) => RightWithMod(x, env, !negated)
    case Bin(_, _, _) => Eval(e, env) == if negated then YES else NO
    case Sym(s) => Agrees(s, env, Mod) != negated
    case _ => !negated
  }

  lemma {:induction false} TransCompareWithModExactIff(e: Expr, c: Cmp, env: Env, negated: bool)
    requires WellTyped(env)
    ensures var v := if negated then Complement(Eval(e, env)) else Eval(e, env);
      Eval(TransCompare(e, if negated then Flip(c) else c, Mod), env) == (if Holds(v, c, Mod) then YES else NO)
      <==> RightWithMod(e, env, negated)
  {
    assert WellTypedAt(Yes, env(Yes)) && WellTypedAt(No, env(No)) && WellTypedAt(Mod, env(Mod));
    match e
    case Not(x) =>
      assert Complement(Complement(Eval(x, env))) == Eval(x, env) && Flip(Flip(c)) == c;
      TransCompareWithModExactIff(x, c, env, !negated);
    case _ =>
  }

  // ----- expr_contains_symbol and expr_depends_symbol -----

  predicate ContainsSymbol(dep: Expr, sym: Symbol) {
    match dep
    case Bin(_, l, r) => ContainsSymbol(l, sym) || ContainsSymbol(r, sym)
    case Sym(s) => s == sym
    case Not(x) => ContainsSymbol(x, sym)
    case _ => dep.a == sym || dep.b == sym
  }

  lemma {:induction false} ContainsSymbolCorrect(dep: Expr, sym: Symbol)
    ensures ContainsSymbol(dep, sym) <==> sym in SymbolsOf(dep)
  {
    match dep
    case Bin(_, l, r) =>
      ContainsSymbolCorrect(l, sym);
      ContainsSymbolCorrect(r, sym);
    case Not(x) => ContainsSymbolCorrect(x, sym);
    case _ =>
  }

  predicate DependsSymbol(dep: Expr, sym: Symbol) {
    match dep
    case Bin(And, l, r) => DependsSymbol(l, sym) || DependsSymbol(r, sym)
    case Sym(s) => s == sym
    case Equal(a, b) => a == sym && (b == Yes || b == Mod)
    case Unequal(a, b) => a == sym && b == No
    case _ => false
  }

  /** A dependency that is met forces the symbol it depends on to be non-no, in all three values. */
  lemma {:induction false} DependsSymbolSound(dep: Expr, sym: Symbol, env: Env)
    requires WellTyped(env) && sym.IsBoolOrTristate()
    requires DependsSymbol(dep, sym) && Eval(dep, env) != NO
    ensures env(sym).tri != NO
  {
    match dep
    case Bin(And, l, r) =>
      if DependsSymbol(l, sym) {
        DependsSymbolSound(l, sym, env);
      } else {
        DependsSymbolSound(r, sym, env);
      }
    case Equal(a, b) =>
      assert WellTypedAt(a, env(a)) && WellTypedAt(Yes, env(Yes)) && WellTypedAt(Mod, env(Mod));
    case Unequal(a, b) =>
      assert WellTypedAt(a, env(a)) && WellTypedAt(No, env(No));
    case _ =>
  }

  function AndTerms(e: Expr): set<Expr> {
    if IsOp(And, e) then AndTerms(e.l) + AndTerms(e.r) else {e}
  }

  /** The symbol itself, its comparison with y or m, or its being other than n. */
  predicate AsksFor(x: Expr, sym: Symbol) {
    x in [Sym(sym), Equal(sym, Yes), Equal(sym, Mod), Unequal(sym, No)]
  }

  /** A condition depends on a symbol exactly if one of the terms it is the conjunction of asks for it. */
  lemma {:induction false} DependsSymbolIff(dep: Expr, sym: Symbol)
    ensures DependsSymbol(dep, sym) <==>
      exists x :: x in AndTerms(dep) && AsksFor(x, sym)
  {
    if IsOp(And, dep) {
      DependsSymbolIff(dep.l, sym);
      DependsSymbolIff(dep.r, sym);
      assert forall x :: x in AndTerms(dep) <==> x in AndTerms(dep.l) || x in AndTerms(dep.r);
    } else {
      assert AndTerms(dep) == {dep};
      assert DependsSymbol(dep, sym) <==> AsksFor(dep, sym);
    }
  }
}
