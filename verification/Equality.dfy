/** Equality of expressions by cancellation: expr_eq, expr_eliminate_eq and expr_extract_eq. */
module Equality {
  import opened Tristates
  import opened Exprs
  import opened Rewrites

  /** Cancels the t-terms common to e1 and e2 (__expr_eliminate_eq).  The two trees are disjoint in
      every call, so overwriting them in place is returning both. */
  function ElimEqIn(t: Op, e1: Expr, e2: Expr): (r: (Expr, Expr))
    ensures Size(r.0) <= Size(e1) && Size(r.1) <= Size(e2)
    decreases Size(e1) + Size(e2), if IsOp(t, e1) || IsOp(t, e2) then 0 else 4
  {
    if IsOp(t, e1) then
      var (l, f2) := ElimEqIn(t, e1.l, e2);
      var (r, g2) := ElimEqIn(t, e1.r, f2);
      (Bin(t, l, r), g2)
    else if IsOp(t, e2) then
      var (f1, l) := ElimEqIn(t, e1, e2.l);
      var (g1, r) := ElimEqIn(t, f1, e2.r);
      (g1, Bin(t, l, r))
    else if e1.Sym? && e2.Sym? && e1.s == e2.s && e1.s.HasYesOrNoFlag() then (e1, e2)
    else if !ExprEq(e1, e2) then (e1, e2)
    else (Neutral(t), Neutral(t))
  }

  /** Cancelling under the connective of e1, if it has one. */
  function CancelFirst(e1: Expr, e2: Expr): (r: (Expr, Expr))
    ensures Size(r.0) <= Size(e1) && Size(r.1) <= Size(e2)
    decreases Size(e1) + Size(e2), 1
  {
    if e1.Bin? then ElimEqIn(e1.op, e1, e2) else (e1, e2)
  }

  /** Cancelling under the connective of e2, if it has another one than e1. */
  function CancelSecond(e1: Expr, e2: Expr): (r: (Expr, Expr))
    ensures Size(r.0) <= Size(e1) && Size(r.1) <= Size(e2)
    decreases Size(e1) + Size(e2), 1
  {
    if e2.Bin? && !IsOp(e2.op, e1) then ElimEqIn(e2.op, e1, e2) else (e1, e2)
  }

  function EliminateEq(e1: Expr, e2: Expr): (r: (Expr, Expr))
    ensures Size(r.0) <= Size(e1) && Size(r.1) <= Size(e2)
    decreases Size(e1) + Size(e2), 2
  {
    var (a, b) := CancelFirst(e1, e2);
    var (c, d) := CancelSecond(a, b);
    (EliminateYn(c), EliminateYn(d))
  }

  predicate ExprEq(e1: Expr, e2: Expr)
    decreases Size(e1) + Size(e2), 3
  {
    match (e1, e2)
    case (Equal(a, b), Equal(a', b')) => a == a' && b == b'
    case (Unequal(a, b), Unequal(a', b')) => a == a' && b == b'
    case (Sym(s), Sym(s')) => s == s'
    case (Not(x), Not(x')) => ExprEq(x, x')
    case (Bin(t, _, _), Bin(t', _, _)) =>
      t == t' &&
      var (c, d) := EliminateEq(e1, e2);
      c.Sym? && d.Sym? && c.s == d.s
    case _ => false
  }

  /** v1 and v2 are w1 and w2 with one and the same factor taken out. */
  ghost predicate SplitsOff(t: Op, c: Tristate, v1: Tristate, v2: Tristate, w1: Tristate, w2: Tristate) {
    v1 == Apply(t, c, w1) && v2 == Apply(t, c, w2)
  }

  /** Factors taken out one after the other multiply up. */
  lemma SplitsCompose(t: Op, c1: Tristate, c2: Tristate, l: Tristate, r: Tristate, l': Tristate, r': Tristate,
                      v: Tristate, w: Tristate, x: Tristate)
    requires SplitsOff(t, c1, l, v, l', w) && SplitsOff(t, c2, r, w, r', x)
    ensures SplitsOff(t, Apply(t, c1, c2), Apply(t, l, r), v, Apply(t, l', r'), x)
  {
  }

  /** Cancelling takes the same factor c out of both expressions. */
  lemma {:induction false} ElimEqInSplits(t: Op, e1: Expr, e2: Expr, env: Env) returns (c: Tristate)
    requires WellTyped(env)
    ensures var (f1, f2) := ElimEqIn(t, e1, e2);
      SplitsOff(t, c, Eval(e1, env), Eval(e2, env), Eval(f1, env), Eval(f2, env))
    decreases Size(e1) + Size(e2), if IsOp(t, e1) || IsOp(t, e2) then 0 else 4
  {
    assert WellTypedAt(Yes, env(Yes)) && WellTypedAt(No, env(No));
    if IsOp(t, e1) {
      var (l, f2) := ElimEqIn(t, e1.l, e2);
      var c1 := ElimEqInSplits(t, e1.l, e2, env);
      var c2 := ElimEqInSplits(t, e1.r, f2, env);
      var (r, g2) := ElimEqIn(t, e1.r, f2);
      SplitsCompose(t, c1, c2, Eval(e1.l, env), Eval(e1.r, env), Eval(l, env), Eval(r, env),
                    Eval(e2, env), Eval(f2, env), Eval(g2, env));
      c := Apply(t, c1, c2);
    } else if IsOp(t, e2) {
      var (f1, l) := ElimEqIn(t, e1, e2.l);
      var c1 := ElimEqInSplits(t, e1, e2.l, env);
      var c2 := ElimEqInSplits(t, f1, e2.r, env);
      var (g1, r) := ElimEqIn(t, f1, e2.r);
      SplitsCompose(t, c1, c2, Eval(e2.l, env), Eval(e2.r, env), Eval(l, env), Eval(r, env),
                    Eval(e1, env), Eval(f1, env), Eval(g1, env));
      c := Apply(t, c1, c2);
    } else if !(e1.Sym? && e2.Sym? && e1.s == e2.s && e1.s.HasYesOrNoFlag()) && ExprEq(e1, e2) {
      ExprEqSound(e1, e2, env);
      c := Eval(e1, env);
    } else {
      c := Unit(t);
    }
  }

  /** If expr_eq answers 1, the two expressions have the same value everywhere. */
  lemma {:induction false} ExprEqSound(e1: Expr, e2: Expr, env: Env)
    requires WellTyped(env) && ExprEq(e1, e2)
    ensures Eval(e1, env) == Eval(e2, env)
    decreases Size(e1) + Size(e2), 3
  {
    match (e1, e2)
    case (Not(x), Not(x')) => ExprEqSound(x, x', env);
    case (Bin(t, _, _), Bin(_, _, _)) =>
      var (a, b) := CancelFirst(e1, e2);
      var c := ElimEqInSplits(t, e1, e2, env);
      ElimEqInKeepsRoots(t, e1, e2);
      assert CancelSecond(a, b) == (a, b);
      EliminateYnExact(a, env);
      EliminateYnExact(b, env);
    case _ =>
  }

  /** A group stays a group of its connective. */
  lemma {:induction false} ElimEqInKeepsRoots(t: Op, e1: Expr, e2: Expr)
    ensures IsOp(t, e1) ==> IsOp(t, ElimEqIn(t, e1, e2).0)
    ensures IsOp(t, e2) ==> IsOp(t, ElimEqIn(t, e1, e2).1)
    decreases Size(e1) + Size(e2)
  {
    if IsOp(t, e1) {
      var (l, f2) := ElimEqIn(t, e1.l, e2);
      ElimEqInKeepsRoots(t, e1.l, e2);
      ElimEqInKeepsRoots(t, e1.r, f2);
    }
  }

  /** What is left of base bounds what is left of dep: if nothing but y remains of base after cancelling,
      every value of dep is at most that of base. */
  lemma EliminateEqBounds(dep: Expr, base: Expr, env: Env)
    requires WellTyped(env)
    requires EliminateEq(dep, base).1 == Sym(Yes)
    ensures Eval(dep, env) <= Eval(base, env)
  {
    assert WellTypedAt(Yes, env(Yes));
    var (a, b) := CancelFirst(dep, base);
    var (c, d) := CancelSecond(a, b);
    if dep.Bin? { var _ := ElimEqInSplits(dep.op, dep, base, env); }
    if b.Bin? && !IsOp(b.op, a) { var _ := ElimEqInSplits(b.op, a, b, env); }
    EliminateYnExact(c, env);
    EliminateYnExact(d, env);
  }

  /** Cancelling never separates equal values: both sides change together. */
  lemma EliminateEqKeepsEquality(e1: Expr, e2: Expr, env: Env)
    requires WellTyped(env)
    ensures var (f1, f2) := EliminateEq(e1, e2);
      Eval(f1, env) == Eval(f2, env) ==> Eval(e1, env) == Eval(e2, env)
  {
    var (a, b) := CancelFirst(e1, e2);
    var (c, d) := CancelSecond(a, b);
    if e1.Bin? { var _ := ElimEqInSplits(e1.op, e1, e2, env); }
    if b.Bin? && !IsOp(b.op, a) { var _ := ElimEqInSplits(b.op, a, b, env); }
    EliminateYnExact(c, env);
    EliminateYnExact(d, env);
  }

  // ----- expr_extract_eq -----

  /** Moves the t-terms common to e1 and e2 into ep, leaving the unit of t behind in both. */
  function ExtractEq(t: Op, ep: OptExpr, e1: Expr, e2: Expr): (r: (OptExpr, Expr, Expr))
    ensures Size(r.1) <= Size(e1) && Size(r.2) <= Size(e2)
    decreases Size(e1) + Size(e2)
  {
    if IsOp(t, e1) then
      var (ep1, l, f2) := ExtractEq(t, ep, e1.l, e2);
      var (ep2, r, g2) := ExtractEq(t, ep1, e1.r, f2);
      (ep2, Bin(t, l, r), g2)
    else if IsOp(t, e2) then
      var (ep1, f1, l) := ExtractEq(t, ep, e1, e2.l);
      var (ep2, g1, r) := ExtractEq(t, ep1, f1, e2.r);
      (ep2, g1, Bin(t, l, r))
    else if ExprEq(e1, e2) then
      (Some(if ep.Some? then Bin(t, ep.value, e1) else e1), Neutral(t), Neutral(t))
    else (ep, e1, e2)
  }

  /** expr_extract_eq_and and expr_extract_eq_or. */
  function ExtractEqFold(t: Op, e1: Expr, e2: Expr): (r: (OptExpr, Expr, Expr)) {
    var (tmp, f1, f2) := ExtractEq(t, None, e1, e2);
    if tmp.Some? then (tmp, EliminateYn(f1), EliminateYn(f2)) else (tmp, f1, f2)
  }

  /** The value collected so far, a missing collection being the unit. */
  function EvalPart(t: Op, e: OptExpr, env: Env): Tristate {
    if e.Some? then Eval(e.value, env) else Unit(t)
  }

  lemma ApplyAssoc(t: Op, p: Tristate, c1: Tristate, c2: Tristate)
    ensures Apply(t, Apply(t, p, c1), c2) == Apply(t, p, Apply(t, c1, c2))
  {
  }

  lemma ExtractLeaf(t: Op, ep: OptExpr, e1: Expr, e2: Expr, env: Env)
    requires WellTyped(env) && !IsOp(t, e1) && !IsOp(t, e2) && ExprEq(e1, e2)
    ensures var (ep', f1, f2) := ExtractEq(t, ep, e1, e2);
      && SplitsOff(t, Eval(e1, env), Eval(e1, env), Eval(e2, env), Eval(f1, env), Eval(f2, env))
      && EvalPart(t, ep', env) == Apply(t, EvalPart(t, ep, env), Eval(e1, env))
  {
    assert WellTypedAt(Yes, env(Yes)) && WellTypedAt(No, env(No));
    ExprEqSound(e1, e2, env);
  }

  /** What is moved out is a common factor, and ep gains exactly that factor. */
  lemma {:induction false} ExtractEqSplits(t: Op, ep: OptExpr, e1: Expr, e2: Expr, env: Env) returns (c: Tristate)
    requires WellTyped(env)
    ensures var (ep', f1, f2) := ExtractEq(t, ep, e1, e2);
      && SplitsOff(t, c, Eval(e1, env), Eval(e2, env), Eval(f1, env), Eval(f2, env))
      && EvalPart(t, ep', env) == Apply(t, EvalPart(t, ep, env), c)
    decreases Size(e1) + Size(e2)
  {
    if IsOp(t, e1) {
      var (ep1, l, f2) := ExtractEq(t, ep, e1.l, e2);
      var c1 := ExtractEqSplits(t, ep, e1.l, e2, env);
      var c2 := ExtractEqSplits(t, ep1, e1.r, f2, env);
      var (ep2, r, g2) := ExtractEq(t, ep1, e1.r, f2);
      SplitsCompose(t, c1, c2, Eval(e1.l, env), Eval(e1.r, env), Eval(l, env), Eval(r, env),
                    Eval(e2, env), Eval(f2, env), Eval(g2, env));
      ApplyAssoc(t, EvalPart(t, ep, env), c1, c2);
      c := Apply(t, c1, c2);
    } else if IsOp(t, e2) {
      var (ep1, f1, l) := ExtractEq(t, ep, e1, e2.l);
      var c1 := ExtractEqSplits(t, ep, e1, e2.l, env);
      var c2 := ExtractEqSplits(t, ep1, f1, e2.r, env);
      var (ep2, g1, r) := ExtractEq(t, ep1, f1, e2.r);
      SplitsCompose(t, c1, c2, Eval(e2.l, env), Eval(e2.r, env), Eval(l, env), Eval(r, env),
                    Eval(e1, env), Eval(f1, env), Eval(g1, env));
      ApplyAssoc(t, EvalPart(t, ep, env), c1, c2);
      c := Apply(t, c1, c2);
    } else if ExprEq(e1, e2) {
      ExtractLeaf(t, ep, e1, e2, env);
      c := Eval(e1, env);
    } else {
      c := Unit(t);
    }
  }

  /** If extraction leaves nothing of e1 but the unit of t, then e1 was all in e2:
      e2 is bounded by e1 in the direction of t. */
  lemma ExtractEqFoldBounds(t: Op, e1: Expr, e2: Expr, env: Env)
    requires WellTyped(env) && ExtractEqFold(t, e1, e2).1 == Neutral(t)
    ensures Apply(t, Eval(e1, env), Eval(e2, env)) == Eval(e2, env)
  {
    assert WellTypedAt(Yes, env(Yes)) && WellTypedAt(No, env(No));
    var (tmp, f1, f2) := ExtractEq(t, None, e1, e2);
    var c := ExtractEqSplits(t, None, e1, e2, env);
    EliminateYnExact(f1, env);
  }
}
