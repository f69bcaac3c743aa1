/** Duplicate elimination: joining two terms of a group, the two passes over a group, and the loop
    of expr_eliminate_dups. */
module Duplicates {
  import opened Tristates
  import opened Exprs
  import opened Rewrites
  import opened Equality

  // ----- expr_join_or and expr_join_and -----

  /** The symbol a literal is about; a first operand may also be a negated comparison. */
  function SubjectOfFirst(e: Expr): Option<Symbol> {
    match e
    case Sym(s) => Some(s)
    case Equal(a, _) => Some(a)
    case Unequal(a, _) => Some(a)
    case Not(Sym(s)) => Some(s)
    case Not(Equal(a, _)) => Some(a)
    case Not(Unequal(a, _)) => Some(a)
    case _ => None
  }

  function SubjectOfSecond(e: Expr): Option<Symbol> {
    match e
    case Not(Equal(_, _)) => None
    case Not(Unequal(_, _)) => None
    case _ => SubjectOfFirst(e)
  }

  predicate Pair(x: Symbol, y: Symbol, a: Symbol, b: Symbol) {
    (x == a && y == b) || (x == b && y == a)
  }

  /** e || e2 as one term, if there is one. */
  function JoinOr(e1: Expr, e2: Expr): (r: OptExpr)
    ensures r.Some? ==> r.value == e1 || Size(r.value) == 1
  {
    if ExprEq(e1, e2) then Some(e1)
    else
      var s1, s2 := SubjectOfFirst(e1), SubjectOfSecond(e2);
      if s1.None? || s2.None? || s1 != s2 || !s1.value.IsBoolOrTristate() then None
      else
        var s := s1.value;
        if s.Type() == TTristate && e1.Equal? && e2.Equal? && Pair(e1.b, e2.b, Yes, Mod) then Some(Unequal(s, No))
        else if s.Type() == TTristate && e1.Equal? && e2.Equal? && Pair(e1.b, e2.b, Yes, No) then Some(Unequal(s, Mod))
        else if s.Type() == TTristate && e1.Equal? && e2.Equal? && Pair(e1.b, e2.b, Mod, No) then Some(Unequal(s, Yes))
        else if s.Type() == TBoolean &&
                ((e1.Not? && e1.e.Sym? && e2.Sym?) || (e2.Not? && e2.e.Sym? && e1.Sym?)) then Some(Sym(Yes))
        else None
  }

  /** One of the two is the symbol itself, the other compares it with c. */
  predicate SymbolWithEqual(e1: Expr, e2: Expr, c: Symbol) {
    (e1.Sym? && e2.Equal? && e2.b == c) || (e2.Sym? && e1.Equal? && e1.b == c)
  }

  predicate SymbolWithUnequal(e1: Expr, e2: Expr, c: Symbol) {
    (e1.Sym? && e2.Unequal? && e2.b == c) || (e2.Sym? && e1.Unequal? && e1.b == c)
  }

  /** e1 && e2 as one term, if there is one. */
  function JoinAnd(e1: Expr, e2: Expr): (r: OptExpr)
    ensures r.Some? ==> r.value == e1 || Size(r.value) == 1
  {
    if ExprEq(e1, e2) then Some(e1)
    else
      var s1, s2 := SubjectOfFirst(e1), SubjectOfSecond(e2);
      if s1.None? || s2.None? || s1 != s2 || !s1.value.IsBoolOrTristate() then None
      else
        var s := s1.value;
        if SymbolWithEqual(e1, e2, Yes) then Some(Equal(s, Yes))
        else if SymbolWithUnequal(e1, e2, No) then Some(Sym(s))
        else if SymbolWithUnequal(e1, e2, Mod) then Some(Equal(s, Yes))
        else if s.Type() != TTristate then None
        else if e1.Equal? && e2.Unequal? && e2.b.IsConst() && e1.b.IsConst() then
          Some(if e1.b != e2.b then Equal(s, e1.b) else Sym(No))
        else if e1.Unequal? && e2.Equal? && e1.b.IsConst() && e2.b.IsConst() then
          Some(if e2.b != e1.b then Equal(s, e2.b) else Sym(No))
        else if e1.Unequal? && e2.Unequal? && Pair(e1.b, e2.b, Yes, No) then Some(Equal(s, Mod))
        else if e1.Unequal? && e2.Unequal? && Pair(e1.b, e2.b, Yes, Mod) then Some(Equal(s, No))
        else if e1.Unequal? && e2.Unequal? && Pair(e1.b, e2.b, Mod, No) then Some(Equal(s, Yes))
        else None
  }

  function Join(t: Op, e1: Expr, e2: Expr): (r: OptExpr)
    ensures r.Some? ==> r.value == e1 || Size(r.value) == 1
  {
    if t == Or then JoinOr(e1, e2) else JoinAnd(e1, e2)
  }

  /** Distinct constants have distinct strings. */
  lemma ConstantsDiffer(a: Symbol, b: Symbol, env: Env)
    requires WellTyped(env) && a.IsConst() && b.IsConst()
    ensures env(a).str == env(b).str <==> a == b
  {
    assert WellTypedAt(a, env(a)) && WellTypedAt(b, env(b));
  }

  lemma JoinOrExact(e1: Expr, e2: Expr, env: Env)
    requires WellTyped(env) && JoinOr(e1, e2).Some?
    ensures Eval(JoinOr(e1, e2).value, env) == Apply(Or, Eval(e1, env), Eval(e2, env))
  {
    assert WellTypedAt(Yes, env(Yes)) && WellTypedAt(No, env(No)) && WellTypedAt(Mod, env(Mod));
    if ExprEq(e1, e2) {
      ExprEqSound(e1, e2, env);
    } else {
      var s := SubjectOfFirst(e1).value;
      assert WellTypedAt(s, env(s));
    }
  }

  lemma JoinAndExact(e1: Expr, e2: Expr, env: Env)
    requires WellTyped(env) && JoinAnd(e1, e2).Some?
    ensures Eval(JoinAnd(e1, e2).value, env) == Apply(And, Eval(e1, env), Eval(e2, env))
  {
    assert WellTypedAt(Yes, env(Yes)) && WellTypedAt(No, env(No)) && WellTypedAt(Mod, env(Mod));
    if ExprEq(e1, e2) {
      ExprEqSound(e1, e2, env);
    } else {
      var s := SubjectOfFirst(e1).value;
      assert WellTypedAt(s, env(s));
      if (e1.Equal? && e2.Unequal?) || (e1.Unequal? && e2.Equal?) {
        if e1.b.IsConst() && e2.b.IsConst() {
          ConstantsDiffer(e1.b, e2.b, env);
        }
      }
    }
  }

  /** A join has the value of the two terms under the connective, in all three values. */
  lemma JoinExact(t: Op, e1: Expr, e2: Expr, env: Env)
    requires WellTyped(env) && Join(t, e1, e2).Some?
    ensures Eval(Join(t, e1, e2).value, env) == Apply(t, Eval(e1, env), Eval(e2, env))
  {
    if t == Or { JoinOrExact(e1, e2, env); } else { JoinAndExact(e1, e2, env); }
  }

  // ----- positions in a group -----

  datatype Dir = L | R
  type Path = seq<Dir>

  function Child(e: Expr, d: Dir): Expr
    requires e.Bin?
  {
    if d == L then e.l else e.r
  }

  /** p leads from the root r of a t-group to one of its nodes or terms: all nodes passed are t-nodes. */
  predicate OnSpine(t: Op, r: Expr, p: Path) {
    p == [] || (IsOp(t, r) && OnSpine(t, Child(r, p[0]), p[1..]))
  }

  function At(t: Op, r: Expr, p: Path): Expr
    requires OnSpine(t, r, p)
  {
    if p == [] then r else At(t, Child(r, p[0]), p[1..])
  }

  /** Overwriting what the pointer at position p points to. */
  function Put(t: Op, r: Expr, p: Path, x: Expr): Expr
    requires OnSpine(t, r, p)
  {
    if p == [] then x
    else if p[0] == L then Bin(t, Put(t, r.l, p[1..], x), r.r)
    else Bin(t, r.l, Put(t, r.r, p[1..], x))
  }

  /** Both groups have their t-nodes at the same positions. */
  predicate SameShape(t: Op, a: Expr, b: Expr) {
    IsOp(t, a) == IsOp(t, b) &&
    (IsOp(t, a) ==> SameShape(t, a.l, b.l) && SameShape(t, a.r, b.r))
  }

  /** The number of t-nodes of a group. */
  function SpineSize(t: Op, e: Expr): nat {
    if IsOp(t, e) then 1 + SpineSize(t, e.l) + SpineSize(t, e.r) else 0
  }

  lemma {:induction false} SameShapeRefl(t: Op, a: Expr)
    ensures SameShape(t, a, a)
  {
    if IsOp(t, a) { SameShapeRefl(t, a.l); SameShapeRefl(t, a.r); }
  }

  lemma {:induction false} SameShapeTrans(t: Op, a: Expr, b: Expr, c: Expr)
    requires SameShape(t, a, b) && SameShape(t, b, c)
    ensures SameShape(t, a, c)
  {
    if IsOp(t, a) { SameShapeTrans(t, a.l, b.l, c.l); SameShapeTrans(t, a.r, b.r, c.r); }
  }

  /** In groups of one shape the same positions exist and have the same t-nodes below. */
  lemma {:induction false} SameShapeAt(t: Op, a: Expr, b: Expr, p: Path)
    requires SameShape(t, a, b) && OnSpine(t, a, p)
    ensures OnSpine(t, b, p)
    ensures SameShape(t, At(t, a, p), At(t, b, p))
    ensures SpineSize(t, At(t, a, p)) == SpineSize(t, At(t, b, p))
  {
    if p == [] {
      SameShapeSpineSize(t, a, b);
    } else {
      SameShapeAt(t, Child(a, p[0]), Child(b, p[0]), p[1..]);
    }
  }

  lemma {:induction false} SameShapeSpineSize(t: Op, a: Expr, b: Expr)
    requires SameShape(t, a, b)
    ensures SpineSize(t, a) == SpineSize(t, b)
  {
    if IsOp(t, a) { SameShapeSpineSize(t, a.l, b.l); SameShapeSpineSize(t, a.r, b.r); }
  }

  lemma {:induction false} AtChild(t: Op, r: Expr, p: Path, d: Dir)
    requires OnSpine(t, r, p) && IsOp(t, At(t, r, p))
    ensures OnSpine(t, r, p + [d]) && At(t, r, p + [d]) == Child(At(t, r, p), d)
  {
    if p == [] {
      assert (p + [d])[1..] == [];
    } else {
      AtChild(t, Child(r, p[0]), p[1..], d);
      assert (p + [d])[1..] == p[1..] + [d];
    }
  }

  lemma {:induction false} AtPut(t: Op, r: Expr, p: Path, x: Expr)
    requires OnSpine(t, r, p)
    ensures OnSpine(t, Put(t, r, p, x), p) && At(t, Put(t, r, p, x), p) == x
    ensures Size(Put(t, r, p, x)) == Size(r) - Size(At(t, r, p)) + Size(x)
    ensures !IsOp(t, At(t, r, p)) && !IsOp(t, x) ==> SameShape(t, r, Put(t, r, p, x))
    ensures Put(t, r, p, At(t, r, p)) == r
  {
    if p != [] {
      AtPut(t, Child(r, p[0]), p[1..], x);
      SameShapeRefl(t, r.l);
      SameShapeRefl(t, r.r);
    }
  }

  /** Overwriting one term leaves every other term alone. */
  lemma {:induction false} AtPutOther(t: Op, r: Expr, p: Path, q: Path, x: Expr)
    requires OnSpine(t, r, p) && OnSpine(t, r, q) && p != q
    requires !IsOp(t, At(t, r, p)) && !IsOp(t, At(t, r, q))
    ensures p != [] && q != []
    ensures OnSpine(t, Put(t, r, p, x), q) && At(t, Put(t, r, p, x), q) == At(t, r, q)
  {
    if p != [] && q != [] && p[0] == q[0] {
      assert p[1..] != q[1..] by {
        assert p == [p[0]] + p[1..] && q == [q[0]] + q[1..];
      }
      AtPutOther(t, Child(r, p[0]), p[1..], q[1..], x);
    }
  }

  lemma {:induction false} PutHasConst(t: Op, r: Expr, p: Path, x: Expr)
    requires OnSpine(t, r, p)
    ensures HasConst(x) ==> HasConst(Put(t, r, p, x))
    ensures IsYesOrNo(x) && p != [] ==> HasConst(Put(t, r, p, x))
  {
    if p != [] {
      PutHasConst(t, Child(r, p[0]), p[1..], x);
    }
  }

  /** The value of all terms of the group except what lies at p. */
  function Rest(t: Op, r: Expr, p: Path, env: Env): Tristate
    requires OnSpine(t, r, p)
  {
    if p == [] then Unit(t)
    else if p[0] == L then Apply(t, Rest(t, r.l, p[1..], env), Eval(r.r, env))
    else Apply(t, Rest(t, r.r, p[1..], env), Eval(r.l, env))
  }

  lemma {:induction false} EvalPut(t: Op, r: Expr, p: Path, x: Expr, env: Env)
    requires OnSpine(t, r, p)
    ensures Eval(Put(t, r, p, x), env) == Apply(t, Rest(t, r, p, env), Eval(x, env))
  {
    if p != [] {
      EvalPut(t, Child(r, p[0]), p[1..], x, env);
    }
  }

  /** A group is bounded by each of its nodes and terms. */
  lemma SpineBound(t: Op, r: Expr, p: Path, env: Env)
    requires OnSpine(t, r, p)
    ensures Eval(r, env) == Apply(t, Rest(t, r, p, env), Eval(At(t, r, p), env))
  {
    EvalPut(t, r, p, At(t, r, p), env);
    AtPut(t, r, p, At(t, r, p));
  }

  lemma {:induction false} AtSmaller(t: Op, r: Expr, p: Path)
    requires OnSpine(t, r, p)
    ensures p != [] ==> Size(At(t, r, p)) < Size(r)
  {
    if p != [] {
      AtSmaller(t, Child(r, p[0]), p[1..]);
    }
  }

  // ----- expr_eliminate_dups1 -----

  /** Two positions of distinct terms, at which no t-node stands. */
  ghost predicate TwoTerms(t: Op, r: Expr, p1: Path, p2: Path) {
    && OnSpine(t, r, p1) && OnSpine(t, r, p2) && p1 != p2
    && !IsOp(t, At(t, r, p1)) && !IsOp(t, At(t, r, p2))
  }

  /** What one pass does to a group: the group keeps its shape and does not grow, nothing changes if
      nothing is counted, and what is counted leaves a constant behind. */
  ghost predicate PassEffect(t: Op, r: Expr, r': Expr, count: nat) {
    && SameShape(t, r, r')
    && Size(r') <= Size(r)
    && (count == 0 ==> r' == r)
    && (count > 0 ==> HasConst(r'))
  }

  /** Joins the term at p1 into the term at p2 and leaves the unit at p1; the second part counts. */
  function JoinStep(t: Op, r: Expr, p1: Path, p2: Path): (res: (Expr, nat))
    requires OnSpine(t, r, p1) && OnSpine(t, r, p2)
    requires TwoTerms(t, r, p1, p2)
    ensures PassEffect(t, r, res.0, res.1)
  {
    AtPutOther(t, r, p1, p2, Neutral(t));
    AtPut(t, r, p1, Neutral(t));
    SameShapeRefl(t, r);
    match Join(t, At(t, r, p1), At(t, r, p2))
    case None => (r, 0)
    case Some(j) =>
      var r1 := Put(t, r, p1, Neutral(t));
      AtPut(t, r1, p2, j);
      SameShapeTrans(t, r, r1, Put(t, r1, p2, j));
      AtPutOther(t, r1, p2, p1, j);
      AtPut(t, Put(t, r1, p2, j), p1, Neutral(t));
      PutHasConst(t, Put(t, r1, p2, j), p1, Neutral(t));
      (Put(t, r1, p2, j), 1)
  }

  /** r is the group both pointers point into; they stand at p1 and p2.  Calls give both the same
      position first, so the pointers run over all pairs of terms of one and the same tree, and a
      change through one is seen through the other. */
  function Dups1(t: Op, r: Expr, p1: Path, p2: Path): (res: (Expr, nat))
    requires OnSpine(t, r, p1) && OnSpine(t, r, p2)
    ensures PassEffect(t, r, res.0, res.1)
    decreases Size(r), SpineSize(t, At(t, r, p1)) + SpineSize(t, At(t, r, p2))
  {
    if IsOp(t, At(t, r, p1)) then
      AtChild(t, r, p1, L);
      AtChild(t, r, p1, R);
      var (r1, n1) := Dups1(t, r, p1 + [L], p2);
      SameShapeAt(t, r, r1, p1 + [R]);
      SameShapeAt(t, r, r1, p2);
      var (r2, n2) := Dups1(t, r1, p1 + [R], p2);
      SameShapeTrans(t, r, r1, r2);
      (r2, n1 + n2)
    else if IsOp(t, At(t, r, p2)) then
      AtChild(t, r, p2, L);
      AtChild(t, r, p2, R);
      var (r1, n1) := Dups1(t, r, p1, p2 + [L]);
      SameShapeAt(t, r, r1, p1);
      SameShapeAt(t, r, r1, p2 + [R]);
      var (r2, n2) := Dups1(t, r1, p1, p2 + [R]);
      SameShapeTrans(t, r, r1, r2);
      (r2, n1 + n2)
    else if p1 == p2 then
      SameShapeRefl(t, r);
      (r, 0)
    else
      var e1 := At(t, r, p1);
      AtPutOther(t, r, p1, p2, e1);
      AtSmaller(t, r, p1);
      var (x, n) := if e1.Bin? then Dups1(e1.op, e1, [], []) else (e1, 0);
      AtPut(t, r, p1, x);
      AtPutOther(t, r, p1, p2, x);
      PutHasConst(t, r, p1, x);
      var r1 := Put(t, r, p1, x);
      var (r2, m) := JoinStep(t, r1, p1, p2);
      SameShapeTrans(t, r, r1, r2);
      (r2, n + m)
  }

  lemma EvalPutPair(t: Op, r: Expr, p1: Path, p2: Path, x: Expr, y: Expr, env: Env)
    requires TwoTerms(t, r, p1, p2) && !IsOp(t, x)
    requires Apply(t, Eval(x, env), Eval(y, env)) == Apply(t, Eval(At(t, r, p1), env), Eval(At(t, r, p2), env))
    ensures OnSpine(t, Put(t, r, p1, x), p2)
    ensures Eval(Put(t, Put(t, r, p1, x), p2, y), env) == Eval(r, env)
    decreases p1
  {
    AtPutOther(t, r, p1, p2, x);
    var d1, d2 := p1[0], p2[0];
    if d1 == d2 {
      assert p1[1..] != p2[1..] by {
        assert p1 == [d1] + p1[1..] && p2 == [d2] + p2[1..];
      }
      EvalPutPair(t, Child(r, d1), p1[1..], p2[1..], x, y, env);
    } else {
      var c1, c2 := Child(r, d1), Child(r, d2);
      SpineBound(t, c1, p1[1..], env);
      SpineBound(t, c2, p2[1..], env);
      EvalPut(t, c1, p1[1..], x, env);
      EvalPut(t, c2, p2[1..], y, env);
      Interchange(t, Rest(t, c1, p1[1..], env), Rest(t, c2, p2[1..], env),
                  Eval(x, env), Eval(y, env), Eval(At(t, r, p1), env), Eval(At(t, r, p2), env));
    }
  }

  lemma Interchange(t: Op, c1: Tristate, c2: Tristate, x: Tristate, y: Tristate, a: Tristate, b: Tristate)
    requires Apply(t, x, y) == Apply(t, a, b)
    ensures Apply(t, Apply(t, c1, x), Apply(t, c2, y)) == Apply(t, Apply(t, c1, a), Apply(t, c2, b))
    ensures Apply(t, Apply(t, c2, y), Apply(t, c1, x)) == Apply(t, Apply(t, c2, b), Apply(t, c1, a))
  {
  }

  lemma JoinStepExact(t: Op, r: Expr, p1: Path, p2: Path, env: Env)
    requires WellTyped(env) && TwoTerms(t, r, p1, p2)
    ensures Eval(JoinStep(t, r, p1, p2).0, env) == Eval(r, env)
  {
    var e1, e2 := At(t, r, p1), At(t, r, p2);
    if Join(t, e1, e2).Some? {
      var j := Join(t, e1, e2).value;
      JoinExact(t, e1, e2, env);
      assert WellTypedAt(Yes, env(Yes)) && WellTypedAt(No, env(No));
      EvalPutPair(t, r, p1, p2, Neutral(t), j, env);
    }
  }

  /** The first pass keeps the value, in all three values. */
  lemma {:induction false} Dups1Exact(t: Op, r: Expr, p1: Path, p2: Path, env: Env)
    requires WellTyped(env) && OnSpine(t, r, p1) && OnSpine(t, r, p2)
    ensures Eval(Dups1(t, r, p1, p2).0, env) == Eval(r, env)
    decreases Size(r), SpineSize(t, At(t, r, p1)) + SpineSize(t, At(t, r, p2))
  {
    if IsOp(t, At(t, r, p1)) {
      AtChild(t, r, p1, L);
      AtChild(t, r, p1, R);
      var (r1, n1) := Dups1(t, r, p1 + [L], p2);
      Dups1Exact(t, r, p1 + [L], p2, env);
      SameShapeAt(t, r, r1, p1 + [R]);
      SameShapeAt(t, r, r1, p2);
      Dups1Exact(t, r1, p1 + [R], p2, env);
    } else if IsOp(t, At(t, r, p2)) {
      AtChild(t, r, p2, L);
      AtChild(t, r, p2, R);
      var (r1, n1) := Dups1(t, r, p1, p2 + [L]);
      Dups1Exact(t, r, p1, p2 + [L], env);
      SameShapeAt(t, r, r1, p1);
      SameShapeAt(t, r, r1, p2 + [R]);
      Dups1Exact(t, r1, p1, p2 + [R], env);
    } else if p1 != p2 {
      var e1 := At(t, r, p1);
      AtPutOther(t, r, p1, p2, e1);
      AtSmaller(t, r, p1);
      var (x, n) := if e1.Bin? then Dups1(e1.op, e1, [], []) else (e1, 0);
      if e1.Bin? {
        Dups1Exact(e1.op, e1, [], [], env);
      }
      AtPut(t, r, p1, x);
      AtPutOther(t, r, p1, p2, x);
      EvalPut(t, r, p1, x, env);
      SpineBound(t, r, p1, env);
      JoinStepExact(t, Put(t, r, p1, x), p1, p2, env);
    }
  }

  // ----- expr_eliminate_dups2 -----

  /** e1 is a group of the other connective.  If all terms of its negation are among the terms of e2,
      e1 contradicts the group around both (or completes it, for OR). */
  predicate Contradicts(t: Op, e1: Expr, e2: Expr) {
    ExtractEqFold(t, Transform(Not(e1)), e2).1 == Neutral(t)
  }

  /** The last step for one pair of pointers; the second part counts. */
  function ContradictionStep(t: Op, r: Expr, p1: Path, p2: Path): (res: (Expr, nat))
    requires OnSpine(t, r, p1) && OnSpine(t, r, p2) && p1 != []
    requires IsOp(Dual(t), At(t, r, p1))
    ensures PassEffect(t, r, res.0, res.1)
  {
    SameShapeRefl(t, r);
    if Contradicts(t, At(t, r, p1), At(t, r, p2)) then
      AtPut(t, r, p1, Absorbing(t));
      PutHasConst(t, r, p1, Absorbing(t));
      (Put(t, r, p1, Absorbing(t)), 1)
    else (r, 0)
  }

  lemma RootIsTermOfItself(t: Op, r: Expr, p1: Path, p2: Path)
    requires OnSpine(t, r, p1) && OnSpine(t, r, p2) && p1 != p2
    requires !IsOp(t, At(t, r, p1))
    ensures p1 != [] && IsOp(t, r)
  {
  }

  /** As Dups1, except that with a group under the second pointer the function goes on after its
      two calls: the whole group, which may hold the term at p1 itself, is compared as well. */
  function Dups2(t: Op, r: Expr, p1: Path, p2: Path): (res: (Expr, nat))
    requires OnSpine(t, r, p1) && OnSpine(t, r, p2)
    ensures PassEffect(t, r, res.0, res.1)
    decreases Size(r), SpineSize(t, At(t, r, p1)) + SpineSize(t, At(t, r, p2)), 1
  {
    if IsOp(t, At(t, r, p1)) then
      AtChild(t, r, p1, L);
      AtChild(t, r, p1, R);
      var (r1, n1) := Dups2(t, r, p1 + [L], p2);
      SameShapeAt(t, r, r1, p1 + [R]);
      SameShapeAt(t, r, r1, p2);
      var (r2, n2) := Dups2(t, r1, p1 + [R], p2);
      SameShapeTrans(t, r, r1, r2);
      (r2, n1 + n2)
    else
      var (r1, n1) := Dups2Second(t, r, p1, p2);
      SameShapeAt(t, r, r1, p1);
      SameShapeAt(t, r, r1, p2);
      if p1 == p2 || !At(t, r1, p1).Bin? then (r1, n1)
      else
        var e1 := At(t, r1, p1);
        RootIsTermOfItself(t, r1, p1, p2);
        AtSmaller(t, r1, p1);
        var (x, n2) := Dups2(e1.op, e1, [], []);
        AtPut(t, r1, p1, x);
        PutHasConst(t, r1, p1, x);
        var r2 := Put(t, r1, p1, x);
        SameShapeAt(t, r1, r2, p2);
        var (r3, n3) := ContradictionStep(t, r2, p1, p2);
        SameShapeTrans(t, r, r1, r2);
        SameShapeTrans(t, r, r2, r3);
        (r3, n1 + n2 + n3)
  }

  /** The two calls for a group under the second pointer. */
  function Dups2Second(t: Op, r: Expr, p1: Path, p2: Path): (res: (Expr, nat))
    requires OnSpine(t, r, p1) && OnSpine(t, r, p2)
    requires !IsOp(t, At(t, r, p1))
    ensures PassEffect(t, r, res.0, res.1)
    decreases Size(r), SpineSize(t, At(t, r, p1)) + SpineSize(t, At(t, r, p2)), 0
  {
    if IsOp(t, At(t, r, p2)) then
      AtChild(t, r, p2, L);
      AtChild(t, r, p2, R);
      var (r1, n1) := Dups2(t, r, p1, p2 + [L]);
      SameShapeAt(t, r, r1, p1);
      SameShapeAt(t, r, r1, p2 + [R]);
      var (r2, n2) := Dups2(t, r1, p1, p2 + [R]);
      SameShapeTrans(t, r, r1, r2);
      (r2, n1 + n2)
    else
      SameShapeRefl(t, r);
      (r, 0)
  }

  /** A contradicted term decides its group, except that it may turn mod into no (or yes): the step keeps
      the value exactly if the value is not mod. */
  lemma ContradictionStepExactIff(t: Op, r: Expr, p1: Path, p2: Path, env: Env)
    requires WellTyped(env)
    requires OnSpine(t, r, p1) && OnSpine(t, r, p2) && p1 != [] && IsOp(Dual(t), At(t, r, p1))
    requires Contradicts(t, At(t, r, p1), At(t, r, p2))
    ensures Eval(ContradictionStep(t, r, p1, p2).0, env) == Eval(r, env) <==> Eval(r, env) != MOD
  {
    var e1, e2 := At(t, r, p1), At(t, r, p2);
    TransformExact(Not(e1), env);
    ExtractEqFoldBounds(t, Transform(Not(e1)), e2, env);
    SpineBound(t, r, p1, env);
    SpineBound(t, r, p2, env);
    EvalPut(t, r, p1, Absorbing(t), env);
    assert WellTypedAt(Yes, env(Yes)) && WellTypedAt(No, env(No));
    ContradictedIsNotUnit(t, Eval(r, env), Eval(e1, env), Eval(e2, env),
                          Rest(t, r, p1, env), Rest(t, r, p2, env));
  }

  lemma ContradictedIsNotUnit(t: Op, v: Tristate, v1: Tristate, v2: Tristate, c1: Tristate, c2: Tristate)
    requires v == Apply(t, c1, v1) && v == Apply(t, c2, v2)
    requires Apply(t, Complement(v1), v2) == v2
    ensures v != Unit(t)
  {
  }

  lemma RefinesUnderApply(t: Op, c: Tristate, a: Tristate, b: Tristate)
    requires Refines(a, b)
    ensures Refines(Apply(t, c, a), Apply(t, c, b))
    ensures Refines(Apply(t, a, c), Apply(t, b, c))
  {
  }

  /** The second pass never changes a definite verdict. */
  lemma {:induction false} Dups2Refines(t: Op, r: Expr, p1: Path, p2: Path, env: Env)
    requires WellTyped(env) && OnSpine(t, r, p1) && OnSpine(t, r, p2)
    ensures Refines(Eval(r, env), Eval(Dups2(t, r, p1, p2).0, env))
    decreases Size(r), SpineSize(t, At(t, r, p1)) + SpineSize(t, At(t, r, p2)), 1
  {
    if IsOp(t, At(t, r, p1)) {
      AtChild(t, r, p1, L);
      AtChild(t, r, p1, R);
      var (r1, n1) := Dups2(t, r, p1 + [L], p2);
      Dups2Refines(t, r, p1 + [L], p2, env);
      SameShapeAt(t, r, r1, p1 + [R]);
      SameShapeAt(t, r, r1, p2);
      Dups2Refines(t, r1, p1 + [R], p2, env);
    } else {
      var (r1, n1) := Dups2Second(t, r, p1, p2);
      Dups2SecondRefines(t, r, p1, p2, env);
      SameShapeAt(t, r, r1, p1);
      SameShapeAt(t, r, r1, p2);
      if p1 != p2 && At(t, r1, p1).Bin? {
        var e1 := At(t, r1, p1);
        RootIsTermOfItself(t, r1, p1, p2);
        AtSmaller(t, r1, p1);
        var (x, n2) := Dups2(e1.op, e1, [], []);
        Dups2Refines(e1.op, e1, [], [], env);
        AtPut(t, r1, p1, x);
        SpineBound(t, r1, p1, env);
        EvalPut(t, r1, p1, x, env);
        RefinesUnderApply(t, Rest(t, r1, p1, env), Eval(e1, env), Eval(x, env));
        var r2 := Put(t, r1, p1, x);
        SameShapeAt(t, r1, r2, p2);
        if Contradicts(t, x, At(t, r2, p2)) {
          ContradictionStepExactIff(t, r2, p1, p2, env);
        }
      }
    }
  }

  lemma {:induction false} Dups2SecondRefines(t: Op, r: Expr, p1: Path, p2: Path, env: Env)
    requires WellTyped(env) && OnSpine(t, r, p1) && OnSpine(t, r, p2)
    requires !IsOp(t, At(t, r, p1))
    ensures Refines(Eval(r, env), Eval(Dups2Second(t, r, p1, p2).0, env))
    decreases Size(r), SpineSize(t, At(t, r, p1)) + SpineSize(t, At(t, r, p2)), 0
  {
    if IsOp(t, At(t, r, p2)) {
      AtChild(t, r, p2, L);
      AtChild(t, r, p2, R);
      var (r1, n1) := Dups2(t, r, p1, p2 + [L]);
      Dups2Refines(t, r, p1, p2 + [L], env);
      SameShapeAt(t, r, r1, p1);
      SameShapeAt(t, r, r1, p2 + [R]);
      Dups2Refines(t, r1, p1, p2 + [R], env);
    }
  }

  // ----- expr_eliminate_dups -----

  /** One round: both passes, with both pointers at the root; the second part is trans_count. */
  function Pass(e: Expr): (res: (Expr, nat))
    ensures Size(res.0) <= Size(e)
    ensures res.1 == 0 ==> res.0 == e
    ensures res.1 > 0 ==> Size(EliminateYn(res.0)) < Size(e)
  {
    if !e.Bin? then (e, 0)
    else
      var (e1, n1) := Dups1(e.op, e, [], []);
      var (e2, n2) := Dups2(e.op, e1, [], []);
      EliminateYnShrinks(e2);
      (e2, n1 + n2)
  }

  function EliminateDups(e: Expr): (r: Expr)
    ensures Size(r) <= Size(e)
    decreases Size(e)
  {
    var (e', n) := Pass(e);
    if n == 0 then e' else EliminateDups(EliminateYn(e'))
  }

  function EliminateDupsOpt(e: OptExpr): OptExpr {
    if e.None? then None else Some(EliminateDups(e.value))
  }

  /** The loop as written: rounds until nothing is counted. */
  method EliminateDupsLoop(org: Expr) returns (e: Expr)
    ensures e == EliminateDups(org)
  {
    e := org;
    while true
      invariant EliminateDups(e) == EliminateDups(org)
      decreases Size(e)
    {
      var transCount: nat := 0;
      if e.Bin? {
        var t := e.op;
        var (e1, n1) := Dups1(t, e, [], []);
        transCount := transCount + n1;
        var (e2, n2) := Dups2(t, e1, [], []);
        transCount := transCount + n2;
        assert Pass(e) == (e2, transCount);
        e := e2;
      }
      if transCount == 0 {
        break;
      }
      e := EliminateYn(e);
    }
  }

  lemma {:induction false} PassRefines(e: Expr, env: Env)
    requires WellTyped(env)
    ensures Refines(Eval(e, env), Eval(Pass(e).0, env))
  {
    if e.Bin? {
      var (e1, n1) := Dups1(e.op, e, [], []);
      Dups1Exact(e.op, e, [], [], env);
      Dups2Refines(e.op, e1, [], [], env);
    }
  }

  /** Duplicate elimination never changes a definite verdict: no stays no and yes stays yes. */
  lemma {:induction false} EliminateDupsRefines(e: Expr, env: Env)
    requires WellTyped(env)
    ensures Refines(Eval(e, env), Eval(EliminateDups(e), env))
    decreases Size(e)
  {
    PassRefines(e, env);
    var (e', n) := Pass(e);
    if n != 0 {
      EliminateYnExact(e', env);
      EliminateDupsRefines(EliminateYn(e'), env);
    }
  }

  /** Where no symbol is mod, duplicate elimination is exact. */
  lemma EliminateDupsExactWithoutMod(e: Expr, env: Env)
    requires WellTyped(env)
    requires forall s :: s in SymbolsOf(e) ==> env(s).tri != MOD
    ensures Eval(EliminateDups(e), env) == Eval(e, env)
  {
    ModFreeIsDefinite(e, env);
    EliminateDupsRefines(e, env);
  }

  /** A second run finds nothing to do. */
  lemma {:induction false} EliminateDupsIdempotent(e: Expr)
    ensures Pass(EliminateDups(e)).1 == 0
    ensures EliminateDups(EliminateDups(e)) == EliminateDups(e)
    decreases Size(e)
  {
    var (e', n) := Pass(e);
    if n != 0 {
      EliminateDupsIdempotent(EliminateYn(e'));
    }
  }

  // ----- negation normal forms stay negation normal forms -----

  lemma {:induction false} PutKeepsNnf(t: Op, r: Expr, p: Path, x: Expr)
    requires OnSpine(t, r, p) && IsNnf(r) && IsNnf(x)
    ensures IsNnf(Put(t, r, p, x)) && IsNnf(At(t, r, p))
  {
    if p != [] {
      PutKeepsNnf(t, Child(r, p[0]), p[1..], x);
    }
  }

  lemma {:induction false} Dups1KeepsNnf(t: Op, r: Expr, p1: Path, p2: Path)
    requires OnSpine(t, r, p1) && OnSpine(t, r, p2) && IsNnf(r)
    ensures IsNnf(Dups1(t, r, p1, p2).0)
    decreases Size(r), SpineSize(t, At(t, r, p1)) + SpineSize(t, At(t, r, p2))
  {
    if IsOp(t, At(t, r, p1)) {
      AtChild(t, r, p1, L);
      AtChild(t, r, p1, R);
      var (r1, n1) := Dups1(t, r, p1 + [L], p2);
      Dups1KeepsNnf(t, r, p1 + [L], p2);
      SameShapeAt(t, r, r1, p1 + [R]);
      SameShapeAt(t, r, r1, p2);
      Dups1KeepsNnf(t, r1, p1 + [R], p2);
    } else if IsOp(t, At(t, r, p2)) {
      AtChild(t, r, p2, L);
      AtChild(t, r, p2, R);
      var (r1, n1) := Dups1(t, r, p1, p2 + [L]);
      Dups1KeepsNnf(t, r, p1, p2 + [L]);
      SameShapeAt(t, r, r1, p1);
      SameShapeAt(t, r, r1, p2 + [R]);
      Dups1KeepsNnf(t, r1, p1, p2 + [R]);
    } else if p1 != p2 {
      var e1 := At(t, r, p1);
      AtPutOther(t, r, p1, p2, e1);
      AtSmaller(t, r, p1);
      PutKeepsNnf(t, r, p1, r);
      var (x, n) := if e1.Bin? then Dups1(e1.op, e1, [], []) else (e1, 0);
      if e1.Bin? {
        Dups1KeepsNnf(e1.op, e1, [], []);
      }
      AtPut(t, r, p1, x);
      AtPutOther(t, r, p1, p2, x);
      PutKeepsNnf(t, r, p1, x);
      JoinStepKeepsNnf(t, Put(t, r, p1, x), p1, p2);
    }
  }

  lemma JoinStepKeepsNnf(t: Op, r: Expr, p1: Path, p2: Path)
    requires TwoTerms(t, r, p1, p2) && IsNnf(r)
    ensures IsNnf(JoinStep(t, r, p1, p2).0)
  {
    PutKeepsNnf(t, r, p1, Neutral(t));
    AtPutOther(t, r, p1, p2, Neutral(t));
    match Join(t, At(t, r, p1), At(t, r, p2))
    case None =>
    case Some(j) => PutKeepsNnf(t, Put(t, r, p1, Neutral(t)), p2, j);
  }

  lemma ContradictionKeepsNnf(t: Op, r: Expr, p1: Path, p2: Path)
    requires OnSpine(t, r, p1) && OnSpine(t, r, p2) && p1 != []
    requires IsOp(Dual(t), At(t, r, p1)) && IsNnf(r)
    ensures IsNnf(ContradictionStep(t, r, p1, p2).0)
  {
    PutKeepsNnf(t, r, p1, Absorbing(t));
  }

  lemma {:induction false} Dups2KeepsNnf(t: Op, r: Expr, p1: Path, p2: Path)
    requires OnSpine(t, r, p1) && OnSpine(t, r, p2) && IsNnf(r)
    ensures IsNnf(Dups2(t, r, p1, p2).0)
    decreases Size(r), SpineSize(t, At(t, r, p1)) + SpineSize(t, At(t, r, p2)), 1
  {
    if IsOp(t, At(t, r, p1)) {
      AtChild(t, r, p1, L);
      AtChild(t, r, p1, R);
      var (r1, n1) := Dups2(t, r, p1 + [L], p2);
      Dups2KeepsNnf(t, r, p1 + [L], p2);
      SameShapeAt(t, r, r1, p1 + [R]);
      SameShapeAt(t, r, r1, p2);
      Dups2KeepsNnf(t, r1, p1 + [R], p2);
    } else {
      var (r1, n1) := Dups2Second(t, r, p1, p2);
      Dups2SecondKeepsNnf(t, r, p1, p2);
      SameShapeAt(t, r, r1, p1);
      SameShapeAt(t, r, r1, p2);
      if p1 != p2 && At(t, r1, p1).Bin? {
        var e1 := At(t, r1, p1);
        RootIsTermOfItself(t, r1, p1, p2);
        AtSmaller(t, r1, p1);
        PutKeepsNnf(t, r1, p1, r1);
        var (x, n2) := Dups2(e1.op, e1, [], []);
        Dups2KeepsNnf(e1.op, e1, [], []);
        AtPut(t, r1, p1, x);
        PutKeepsNnf(t, r1, p1, x);
        var r2 := Put(t, r1, p1, x);
        SameShapeAt(t, r1, r2, p2);
        ContradictionKeepsNnf(t, r2, p1, p2);
      }
    }
  }

  lemma {:induction false} Dups2SecondKeepsNnf(t: Op, r: Expr, p1: Path, p2: Path)
    requires OnSpine(t, r, p1) && OnSpine(t, r, p2) && IsNnf(r)
    requires !IsOp(t, At(t, r, p1))
    ensures IsNnf(Dups2Second(t, r, p1, p2).0)
    decreases Size(r), SpineSize(t, At(t, r, p1)) + SpineSize(t, At(t, r, p2)), 0
  {
    if IsOp(t, At(t, r, p2)) {
      AtChild(t, r, p2, L);
      AtChild(t, r, p2, R);
      var (r1, n1) := Dups2(t, r, p1, p2 + [L]);
      Dups2KeepsNnf(t, r, p1, p2 + [L]);
      SameShapeAt(t, r, r1, p1);
      SameShapeAt(t, r, r1, p2 + [R]);
      Dups2KeepsNnf(t, r1, p1, p2 + [R]);
    }
  }

  lemma {:induction false} EliminateYnKeepsNnf(e: Expr)
    requires IsNnf(e)
    ensures IsNnf(EliminateYn(e))
  {
    match e
    case Bin(t, l, r) =>
      EliminateYnKeepsNnf(l);
      EliminateYnKeepsNnf(r);
    case _ =>
  }

  /** Duplicate elimination keeps negations on symbols. */
  lemma {:induction false} EliminateDupsKeepsNnf(e: Expr)
    requires IsNnf(e)
    ensures IsNnf(EliminateDups(e))
    decreases Size(e)
  {
    if e.Bin? {
      var (e1, n1) := Dups1(e.op, e, [], []);
      Dups1KeepsNnf(e.op, e, [], []);
      Dups2KeepsNnf(e.op, e1, [], []);
    }
    var (e', n) := Pass(e);
    if n != 0 {
      EliminateYnKeepsNnf(e');
      EliminateDupsKeepsNnf(EliminateYn(e'));
    }
  }

  // ----- where mod is kept -----

  /** A t-chain of terms none of which is a chain. */
  predicate FlatGroup(t: Op, e: Expr) {
    if IsOp(t, e) then FlatGroup(t, e.l) && FlatGroup(t, e.r) else !e.Bin?
  }

  /** No chain holds a chain of the other connective. */
  predicate Flat(e: Expr) {
    e.Bin? ==> FlatGroup(e.op, e)
  }

  lemma {:induction false} FlatAt(t: Op, r: Expr, p: Path)
    requires FlatGroup(t, r) && OnSpine(t, r, p)
    ensures FlatGroup(t, At(t, r, p))
  {
    if p != [] { FlatAt(t, Child(r, p[0]), p[1..]); }
  }

  lemma {:induction false} FlatPut(t: Op, r: Expr, p: Path, x: Expr)
    requires FlatGroup(t, r) && OnSpine(t, r, p) && FlatGroup(t, x)
    ensures FlatGroup(t, Put(t, r, p, x))
  {
    if p != [] { FlatPut(t, Child(r, p[0]), p[1..], x); }
  }

  lemma {:induction false} Dups1KeepsFlat(t: Op, r: Expr, p1: Path, p2: Path)
    requires FlatGroup(t, r) && OnSpine(t, r, p1) && OnSpine(t, r, p2)
    ensures FlatGroup(t, Dups1(t, r, p1, p2).0)
    decreases Size(r), SpineSize(t, At(t, r, p1)) + SpineSize(t, At(t, r, p2))
  {
    FlatAt(t, r, p1);
    FlatAt(t, r, p2);
    if IsOp(t, At(t, r, p1)) {
      AtChild(t, r, p1, L);
      AtChild(t, r, p1, R);
      var (r1, n1) := Dups1(t, r, p1 + [L], p2);
      Dups1KeepsFlat(t, r, p1 + [L], p2);
      SameShapeAt(t, r, r1, p1 + [R]);
      SameShapeAt(t, r, r1, p2);
      Dups1KeepsFlat(t, r1, p1 + [R], p2);
    } else if IsOp(t, At(t, r, p2)) {
      AtChild(t, r, p2, L);
      AtChild(t, r, p2, R);
      var (r1, n1) := Dups1(t, r, p1, p2 + [L]);
      Dups1KeepsFlat(t, r, p1, p2 + [L]);
      SameShapeAt(t, r, r1, p1);
      SameShapeAt(t, r, r1, p2 + [R]);
      Dups1KeepsFlat(t, r1, p1, p2 + [R]);
    } else if p1 != p2 {
      var e1 := At(t, r, p1);
      AtPutOther(t, r, p1, p2, e1);
      AtPut(t, r, p1, e1);
      FlatPut(t, r, p1, e1);
      JoinStepKeepsFlat(t, Put(t, r, p1, e1), p1, p2);
    }
  }

  lemma JoinStepKeepsFlat(t: Op, r: Expr, p1: Path, p2: Path)
    requires FlatGroup(t, r) && OnSpine(t, r, p1) && OnSpine(t, r, p2) && TwoTerms(t, r, p1, p2)
    ensures FlatGroup(t, JoinStep(t, r, p1, p2).0)
  {
    FlatAt(t, r, p1);
    var j := Join(t, At(t, r, p1), At(t, r, p2));
    if j.Some? {
      AtPutOther(t, r, p1, p2, Neutral(t));
      FlatPut(t, r, p1, Neutral(t));
      FlatPut(t, Put(t, r, p1, Neutral(t)), p2, j.value);
    }
  }

  /** The second pass finds nothing in a flat chain. */
  lemma {:induction false} Dups2LeavesFlat(t: Op, r: Expr, p1: Path, p2: Path)
    requires FlatGroup(t, r) && OnSpine(t, r, p1) && OnSpine(t, r, p2)
    ensures Dups2(t, r, p1, p2) == (r, 0)
    decreases SpineSize(t, At(t, r, p1)) + SpineSize(t, At(t, r, p2)), 1
  {
    FlatAt(t, r, p1);
    if IsOp(t, At(t, r, p1)) {
      AtChild(t, r, p1, L);
      AtChild(t, r, p1, R);
      Dups2LeavesFlat(t, r, p1 + [L], p2);
      Dups2LeavesFlat(t, r, p1 + [R], p2);
    } else if IsOp(t, At(t, r, p2)) {
      AtChild(t, r, p2, L);
      AtChild(t, r, p2, R);
      Dups2LeavesFlat(t, r, p1, p2 + [L]);
      Dups2LeavesFlat(t, r, p1, p2 + [R]);
    }
  }

  lemma {:induction false} EliminateYnKeepsFlat(t: Op, e: Expr)
    requires FlatGroup(t, e)
    ensures FlatGroup(t, EliminateYn(e))
  {
    if IsOp(t, e) {
      EliminateYnKeepsFlat(t, e.l);
      EliminateYnKeepsFlat(t, e.r);
    }
  }

  /** On flat expressions duplicate elimination is exact in all three values. */
  lemma {:induction false} EliminateDupsExactOnFlat(e: Expr, env: Env)
    requires WellTyped(env) && Flat(e)
    ensures Eval(EliminateDups(e), env) == Eval(e, env)
    decreases Size(e)
  {
    if e.Bin? {
      var (e1, n1) := Dups1(e.op, e, [], []);
      Dups1Exact(e.op, e, [], [], env);
      Dups1KeepsFlat(e.op, e, [], []);
      Dups2LeavesFlat(e.op, e1, [], []);
      assert Pass(e) == (e1, n1);
      if n1 != 0 {
        EliminateYnExact(e1, env);
        EliminateYnKeepsFlat(e.op, e1);
        EliminateDupsExactOnFlat(EliminateYn(e1), env);
      }
    }
  }

  // ----- why mod is not kept elsewhere -----

  lemma PutSame(t: Op, r: Expr, p: Path)
    requires OnSpine(t, r, p)
    ensures Put(t, r, p, At(t, r, p)) == r
    decreases |p|
  {
    if p != [] { PutSame(t, Child(r, p[0]), p[1..]); }
  }

  /** Two terms that do not join are left alone by the first pass. */
  lemma Dups1LeavesPair(t: Op, r: Expr, p1: Path, p2: Path)
    requires TwoTerms(t, r, p1, p2) && Join(t, At(t, r, p1), At(t, r, p2)).None?
    requires At(t, r, p1).Bin? ==> Dups1(At(t, r, p1).op, At(t, r, p1), [], []).1 == 0
    ensures Dups1(t, r, p1, p2) == (r, 0)
  {
    PutSame(t, r, p1);
  }

  lemma Dups1LeavesSelf(t: Op, r: Expr, p: Path)
    requires OnSpine(t, r, p) && !IsOp(t, At(t, r, p))
    ensures Dups1(t, r, p, p) == (r, 0)
  {
  }

  lemma Dups1LeavesSecond(t: Op, r: Expr, p1: Path, p2: Path)
    requires OnSpine(t, r, p1) && OnSpine(t, r, p2) && !IsOp(t, At(t, r, p1)) && IsOp(t, At(t, r, p2))
    requires OnSpine(t, r, p2 + [L]) && OnSpine(t, r, p2 + [R])
    requires Dups1(t, r, p1, p2 + [L]) == (r, 0) && Dups1(t, r, p1, p2 + [R]) == (r, 0)
    ensures Dups1(t, r, p1, p2) == (r, 0)
  {
  }

  lemma Dups1LeavesFirst(t: Op, r: Expr, p1: Path, p2: Path)
    requires OnSpine(t, r, p1) && OnSpine(t, r, p2) && IsOp(t, At(t, r, p1))
    requires OnSpine(t, r, p1 + [L]) && OnSpine(t, r, p1 + [R])
    requires Dups1(t, r, p1 + [L], p2) == (r, 0) && Dups1(t, r, p1 + [R], p2) == (r, 0)
    ensures Dups1(t, r, p1, p2) == (r, 0)
  {
  }

  /** So is a group of two terms that do not join. */
  lemma Dups1LeavesTwo(t: Op, x: Expr, y: Expr)
    requires !x.Bin? && !y.Bin? && Join(t, x, y).None? && Join(t, y, x).None?
    ensures Dups1(t, Bin(t, x, y), [], []) == (Bin(t, x, y), 0)
  {
    var r := Bin(t, x, y);
    assert At(t, r, [L]) == x && At(t, r, [R]) == y;
    Dups1LeavesPair(t, r, [L], [R]);
    Dups1LeavesPair(t, r, [R], [L]);
    assert [] + [L] == [L] && [] + [R] == [R];
    assert Dups1(t, r, [L], []) == (r, 0);
    assert Dups1(t, r, [R], []) == (r, 0);
  }

  /** The three term positions of x t (y t z). */
  lemma ThreeAt(t: Op, x: Expr, y: Expr, z: Expr)
    ensures var r := Bin(t, x, Bin(t, y, z));
      && OnSpine(t, r, [L]) && OnSpine(t, r, [R]) && OnSpine(t, r, [R, L]) && OnSpine(t, r, [R, R])
      && At(t, r, [L]) == x && At(t, r, [R]) == Bin(t, y, z) && At(t, r, [R, L]) == y && At(t, r, [R, R]) == z
    ensures [] + [L] == [L] && [] + [R] == [R] && [R] + [L] == [R, L] && [R] + [R] == [R, R]
  {
    var g := Bin(t, y, z);
    assert [L][1..] == [] && [R][1..] == [] && [R, L][1..] == [L] && [R, R][1..] == [R];
    assert At(t, g, [L]) == y && At(t, g, [R]) == z;
  }

  /** If none of the three terms joins the one at p, the pass with the first pointer at p does nothing. */
  lemma Dups1LeavesRow(t: Op, x: Expr, y: Expr, z: Expr, p: Path)
    requires IsOp(Dual(t), x) && !y.Bin? && !z.Bin? && (p == [L] || p == [R, L] || p == [R, R])
    requires OnSpine(t, Bin(t, x, Bin(t, y, z)), p)
    requires var e := At(t, Bin(t, x, Bin(t, y, z)), p);
      && (e.Bin? ==> Dups1(e.op, e, [], []).1 == 0)
      && (p != [L] ==> Join(t, e, x).None?) && (p != [R, L] ==> Join(t, e, y).None?) && (p != [R, R] ==> Join(t, e, z).None?)
    ensures Dups1(t, Bin(t, x, Bin(t, y, z)), p, []) == (Bin(t, x, Bin(t, y, z)), 0)
  {
    var r := Bin(t, x, Bin(t, y, z));
    ThreeAt(t, x, y, z);
    Dups1LeavesSelf(t, r, p);
    if p != [L] { Dups1LeavesPair(t, r, p, [L]); }
    if p != [R, L] { Dups1LeavesPair(t, r, p, [R, L]); }
    if p != [R, R] { Dups1LeavesPair(t, r, p, [R, R]); }
    Dups1LeavesSecond(t, r, p, [R]);
    Dups1LeavesSecond(t, r, p, []);
  }

  /** A chain of the other connective with terms that do not join, next to a chain of two terms. */
  lemma Dups1LeavesThree(t: Op, x: Expr, y: Expr, z: Expr)
    requires IsOp(Dual(t), x) && !y.Bin? && !z.Bin? && Dups1(x.op, x, [], []).1 == 0
    requires Join(t, x, y).None? && Join(t, y, x).None? && Join(t, x, z).None? && Join(t, z, x).None?
    requires Join(t, y, z).None? && Join(t, z, y).None?
    ensures Dups1(t, Bin(t, x, Bin(t, y, z)), [], []) == (Bin(t, x, Bin(t, y, z)), 0)
  {
    var r := Bin(t, x, Bin(t, y, z));
    ThreeAt(t, x, y, z);
    Dups1LeavesRow(t, x, y, z, [L]);
    Dups1LeavesRow(t, x, y, z, [R, L]);
    Dups1LeavesRow(t, x, y, z, [R, R]);
    Dups1LeavesFirst(t, r, [R], []);
    Dups1LeavesFirst(t, r, [], []);
  }

  /** A flat chain next to a chain of two terms that contradicts it, while neither term alone does: the second
      pass puts the absorbing constant in its place. */
  lemma Dups2FindsPair(t: Op, x: Expr, y: Expr, z: Expr)
    requires IsOp(Dual(t), x) && FlatGroup(Dual(t), x) && !y.Bin? && !z.Bin?
    requires !Contradicts(t, x, y) && !Contradicts(t, x, z) && Contradicts(t, x, Bin(t, y, z))
    ensures var g := Bin(t, y, z);
      OnSpine(t, Bin(t, x, g), [L]) && OnSpine(t, Bin(t, x, g), []) &&
      var (r', n) := Dups2(t, Bin(t, x, g), [L], []);
      r' == Bin(t, Absorbing(t), g) && n > 0
  {
    var g := Bin(t, y, z);
    var r, r' := Bin(t, x, g), Bin(t, Absorbing(t), g);
    ThreeAt(t, x, y, z);
    Dups2AtTerm(t, r, [L], [R, L]);
    Dups2AtTerm(t, r, [L], [R, R]);
    assert Dups2Second(t, r, [L], [R]) == (r, 0);
    assert Put(t, r, [L], Absorbing(t)) == r' by { assert [L][1..] == []; }
    Dups2AtTerm(t, r, [L], [R]);
    assert Dups2(t, r, [L], [L]) == (r, 0);
    assert Dups2Second(t, r, [L], []) == (r', 1);
    ThreeAt(t, Absorbing(t), y, z);
  }

  /** A flat chain at p1 whose two calls for p2 changed nothing: it stays, or becomes the absorbing constant. */
  lemma Dups2AtTerm(t: Op, r: Expr, p1: Path, p2: Path)
    requires OnSpine(t, r, p1) && OnSpine(t, r, p2) && p1 != [] && p1 != p2
    requires IsOp(Dual(t), At(t, r, p1)) && FlatGroup(Dual(t), At(t, r, p1)) && Dups2Second(t, r, p1, p2) == (r, 0)
    ensures Dups2(t, r, p1, p2) ==
      if Contradicts(t, At(t, r, p1), At(t, r, p2)) then (Put(t, r, p1, Absorbing(t)), 1) else (r, 0)
  {
    var e1 := At(t, r, p1);
    Dups2LeavesFlat(e1.op, e1, [], []);
    PutSame(t, r, p1);
  }

  /** What the cancelling comes to for two negated symbols. */
  lemma NegatedPair(a: Symbol, b: Symbol)
    requires a.Type() == TTristate && b.Type() == TTristate && a != b && !IsYesOrNo(Sym(a)) && !IsYesOrNo(Sym(b))
    ensures var na, nb := Not(Sym(a)), Not(Sym(b)); var x := Bin(Or, Sym(a), Sym(b));
      Contradicts(And, x, Bin(And, na, nb)) && !Contradicts(And, x, na) && !Contradicts(And, x, nb)
  {
    var na, nb := Not(Sym(a)), Not(Sym(b));
    var x, g, y := Bin(Or, Sym(a), Sym(b)), Bin(And, Not(Sym(a)), Not(Sym(b))), Sym(Yes);
    assert Transform(na) == na by { assert Transform(Sym(a)) == Sym(a); }
    assert Transform(nb) == nb by { assert Transform(Sym(b)) == Sym(b); }
    assert Transform(x) == x by { assert Transform(Sym(a)) == Sym(a) && Transform(Sym(b)) == Sym(b); }
    assert Transform(Not(x)) == g by { assert Negate(x) == Transform(g); }
    LiteralsDiffer(a, b);
    var h := Bin(And, y, nb);
    assert ExtractEq(And, None, na, na) == (Some(na), y, y);
    assert ExtractEq(And, Some(na), nb, y) == (Some(na), nb, y);
    assert ExtractEq(And, Some(na), y, nb) == (Some(na), y, nb);
    assert ExtractEq(And, None, g, na) == (Some(na), h, y);
    assert ExtractEq(And, None, na, nb) == (None, na, nb);
    assert ExtractEq(And, None, nb, nb) == (Some(nb), y, y);
    assert ExtractEq(And, None, g, nb) == (Some(nb), Bin(And, na, y), y);
    assert ExtractEq(And, None, na, g) == (Some(na), y, h);
    assert ExtractEq(And, Some(na), nb, nb) == (Some(g), y, y);
    assert ExtractEq(And, Some(na), nb, h) == (Some(g), y, Bin(And, y, y));
    assert ExtractEq(And, None, g, g) == (Some(g), Bin(And, y, y), Bin(And, y, y));
    assert EliminateYn(Bin(And, y, y)) == y;
    assert EliminateYn(na) == na && EliminateYn(nb) == nb by { assert EliminateYn(Sym(a)) == Sym(a) && EliminateYn(Sym(b)) == Sym(b); }
    assert EliminateYn(h) == nb && EliminateYn(Bin(And, na, y)) == na;
  }

  lemma LiteralsDiffer(a: Symbol, b: Symbol)
    requires a != b && !IsYesOrNo(Sym(a)) && !IsYesOrNo(Sym(b))
    ensures var na, nb := Not(Sym(a)), Not(Sym(b));
      && !ExprEq(Sym(a), Sym(b)) && !ExprEq(Sym(b), Sym(a)) && ExprEq(na, na) && ExprEq(nb, nb)
      && !ExprEq(na, nb) && !ExprEq(nb, na) && !ExprEq(Sym(Yes), nb) && !ExprEq(nb, Sym(Yes))
      && !ExprEq(na, Sym(Yes)) && !ExprEq(Sym(Yes), na)
  {
    assert ExprEq(Sym(a), Sym(a)) && ExprEq(Sym(b), Sym(b));
  }

  /** (A || B) && (!A && !B) for two tristate symbols is mod when both are mod, but it is rewritten to n. */
  lemma ModMayBecomeNo(a: Symbol, b: Symbol, env: Env)
    requires WellTyped(env) && a.Type() == TTristate && b.Type() == TTristate && a != b
    requires env(a).tri == MOD && env(b).tri == MOD
    ensures var e := Bin(And, Bin(Or, Sym(a), Sym(b)), Bin(And, Not(Sym(a)), Not(Sym(b))));
      Eval(e, env) == MOD && Eval(EliminateDups(e), env) == NO
  {
    var na, nb := Not(Sym(a)), Not(Sym(b));
    var x, g := Bin(Or, Sym(a), Sym(b)), Bin(And, na, nb);
    var e := Bin(And, x, g);
    assert WellTypedAt(Yes, env(Yes)) && WellTypedAt(No, env(No)) && WellTypedAt(a, env(a)) && WellTypedAt(b, env(b));
    assert Eval(x, env) == MOD && Eval(na, env) == MOD && Eval(nb, env) == MOD;
    FirstPassLeaves(a, b);
    NegatedPair(a, b);
    Dups2FindsPair(And, x, na, nb);
    var (r1, n1) := Dups2(And, e, [L], []);
    assert Eval(r1, env) == NO by { assert Eval(Sym(No), env) == NO; }
    assert [] + [L] == [L] && [] + [R] == [R];
    Dups2Refines(And, r1, [R], [], env);
    var (e', n) := Pass(e);
    assert Eval(e', env) == NO && n > 0;
    EliminateYnExact(e', env);
    EliminateDupsRefines(EliminateYn(e'), env);
  }

  lemma FirstPassLeaves(a: Symbol, b: Symbol)
    requires a.Type() == TTristate && b.Type() == TTristate && a != b && !IsYesOrNo(Sym(a)) && !IsYesOrNo(Sym(b))
    ensures var e := Bin(And, Bin(Or, Sym(a), Sym(b)), Bin(And, Not(Sym(a)), Not(Sym(b))));
      Dups1(And, e, [], []) == (e, 0)
  {
    var x, na, nb := Bin(Or, Sym(a), Sym(b)), Not(Sym(a)), Not(Sym(b));
    LiteralsDiffer(a, b);
    Dups1LeavesTwo(Or, Sym(a), Sym(b));
    assert !ExprEq(x, na) && !ExprEq(x, nb) && !ExprEq(na, x) && !ExprEq(nb, x);
    Dups1LeavesThree(And, x, na, nb);
  }
}
