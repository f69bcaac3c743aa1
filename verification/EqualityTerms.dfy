/** Cancelling, seen on the lists of terms of two groups: what is taken off, and that nothing in common is left. */
module EqualityTerms {
  import opened Tristates
  import opened Exprs
  import opened Rewrites
  import opened Equality

  /** The terms of a t-group. */
  function Terms(t: Op, e: Expr): (r: seq<Expr>)
    ensures r != []
  {
    if IsOp(t, e) then Terms(t, e.l) + Terms(t, e.r) else [e]
  }

  /** y, n and quoted constants are left where they are. */
  predicate IsFlagged(e: Expr) {
    e.Sym? && e.s.HasYesOrNoFlag()
  }

  predicate Cancels(x: Expr, y: Expr) {
    ExprEq(x, y) && !(IsFlagged(x) && x == y)
  }

  /** One term against a list: the first equal term goes, and the term with it. */
  function CancelIn(t: Op, x: Expr, ys: seq<Expr>): (Expr, seq<Expr>)
    decreases |ys|
  {
    if ys == [] then (x, [])
    else
      var one := if Cancels(x, ys[0]) then (Neutral(t), Neutral(t)) else (x, ys[0]);
      var (x', ys') := CancelIn(t, one.0, ys[1..]);
      (x', [one.1] + ys')
  }

  function CancelAll(t: Op, xs: seq<Expr>, ys: seq<Expr>): (seq<Expr>, seq<Expr>)
    decreases |xs|
  {
    if xs == [] then ([], ys)
    else
      var (x', ys1) := CancelIn(t, xs[0], ys);
      var (xs', ys2) := CancelAll(t, xs[1..], ys1);
      ([x'] + xs', ys2)
  }

  lemma NeutralStays(t: Op, x: Expr)
    ensures !Cancels(Neutral(t), x) && !Cancels(x, Neutral(t))
  {
  }

  lemma CancelOne(t: Op, x: Expr, y: Expr)
    ensures CancelIn(t, x, [y]) == if Cancels(x, y) then (Neutral(t), [Neutral(t)]) else (x, [y])
  {
    var one := if Cancels(x, y) then (Neutral(t), Neutral(t)) else (x, y);
    assert [y][1..] == [] && [one.1] + [] == [one.1];
    assert CancelIn(t, one.0, []) == (one.0, []);
  }

  lemma {:induction false} CancelInAppend(t: Op, x: Expr, a: seq<Expr>, b: seq<Expr>)
    ensures var (x1, a') := CancelIn(t, x, a); var (x2, b') := CancelIn(t, x1, b);
      CancelIn(t, x, a + b) == (x2, a' + b')
    decreases |a|
  {
    if a == [] {
      assert a + b == b;
      var (x2, b') := CancelIn(t, x, b);
      assert [] + b' == b';
    } else {
      var one := if Cancels(x, a[0]) then (Neutral(t), Neutral(t)) else (x, a[0]);
      assert (a + b)[1..] == a[1..] + b;
      CancelInAppend(t, one.0, a[1..], b);
      var (x1, a') := CancelIn(t, one.0, a[1..]);
      var (x2, b') := CancelIn(t, x1, b);
      assert [one.1] + (a' + b') == ([one.1] + a') + b';
    }
  }

  lemma {:induction false} CancelAllAppend(t: Op, a: seq<Expr>, b: seq<Expr>, ys: seq<Expr>)
    ensures var (a', ys1) := CancelAll(t, a, ys); var (b', ys2) := CancelAll(t, b, ys1);
      CancelAll(t, a + b, ys) == (a' + b', ys2)
    decreases |a|
  {
    if a == [] {
      assert a + b == b;
      var (b', ys2) := CancelAll(t, b, ys);
      assert [] + b' == b';
    } else {
      var (x', ys0) := CancelIn(t, a[0], ys);
      assert (a + b)[1..] == a[1..] + b;
      CancelAllAppend(t, a[1..], b, ys0);
      var (a', ys1) := CancelAll(t, a[1..], ys0);
      var (b', ys2) := CancelAll(t, b, ys1);
      assert [x'] + (a' + b') == ([x'] + a') + b';
    }
  }

  /** A term against a tree is that term against its list. */
  lemma {:induction false} ElimOneTerm(t: Op, x: Expr, e: Expr)
    requires !IsOp(t, x)
    ensures var (f1, f2) := ElimEqIn(t, x, e);
      (f1, Terms(t, f2)) == CancelIn(t, x, Terms(t, e)) && !IsOp(t, f1)
    decreases e
  {
    if IsOp(t, e) {
      ElimOneTerm(t, x, e.l);
      var (f1, l) := ElimEqIn(t, x, e.l);
      ElimOneTerm(t, f1, e.r);
      CancelInAppend(t, x, Terms(t, e.l), Terms(t, e.r));
    } else {
      CancelOne(t, x, e);
    }
  }

  /** Cancelling two trees is cancelling their lists of terms, from left to right. */
  lemma {:induction false} ElimIsCancelAll(t: Op, e1: Expr, e2: Expr)
    ensures var (f1, f2) := ElimEqIn(t, e1, e2);
      (Terms(t, f1), Terms(t, f2)) == CancelAll(t, Terms(t, e1), Terms(t, e2))
    decreases e1
  {
    if IsOp(t, e1) {
      ElimIsCancelAll(t, e1.l, e2);
      var (l, f2) := ElimEqIn(t, e1.l, e2);
      ElimIsCancelAll(t, e1.r, f2);
      CancelAllAppend(t, Terms(t, e1.l), Terms(t, e1.r), Terms(t, e2));
    } else {
      ElimOneTerm(t, e1, e2);
      var (x', ys') := CancelIn(t, e1, Terms(t, e2));
      assert [e1][1..] == [] && [x'] + [] == [x'];
      assert CancelAll(t, [e1], Terms(t, e2)) == ([x'], ys');
    }
  }

  // ----- nothing in common is left -----

  predicate Reduced(t: Op, from: seq<Expr>, to: seq<Expr>) {
    |to| == |from| && forall i :: 0 <= i < |to| ==> to[i] == from[i] || to[i] == Neutral(t)
  }

  lemma {:induction false} CancelInApart(t: Op, x: Expr, ys: seq<Expr>)
    ensures var (x', ys') := CancelIn(t, x, ys);
      && (x' == x || x' == Neutral(t)) && Reduced(t, ys, ys') && forall y :: y in ys' ==> !Cancels(x', y)
    decreases |ys|
  {
    if ys != [] {
      var one := if Cancels(x, ys[0]) then (Neutral(t), Neutral(t)) else (x, ys[0]);
      CancelInApart(t, one.0, ys[1..]);
      var (x', ys') := CancelIn(t, one.0, ys[1..]);
      NeutralStays(t, one.1);
      NeutralStays(t, x');
    }
  }

  lemma {:induction false} CancelAllApart(t: Op, xs: seq<Expr>, ys: seq<Expr>)
    ensures var (xs', ys') := CancelAll(t, xs, ys);
      && Reduced(t, xs, xs') && Reduced(t, ys, ys')
      && forall x, y :: x in xs' && y in ys' ==> !Cancels(x, y)
    decreases |xs|
  {
    if xs != [] {
      CancelInApart(t, xs[0], ys);
      var (x', ys1) := CancelIn(t, xs[0], ys);
      CancelAllApart(t, xs[1..], ys1);
      var (xs', ys2) := CancelAll(t, xs[1..], ys1);
      forall y | y in ys2
        ensures !Cancels(x', y)
      {
        var j :| 0 <= j < |ys2| && ys2[j] == y;
        NeutralStays(t, x');
        assert ys2[j] == ys1[j] || ys2[j] == Neutral(t);
      }
    }
  }

  /** A group in which every term is folded already or is the unit. */
  predicate Settled(t: Op, xs: seq<Expr>) {
    forall x :: x in xs ==> x == Neutral(t) || (EliminateYn(x) == x && !IsYesOrNo(x))
  }

  lemma {:induction false} FoldSettled(t: Op, e: Expr)
    requires Settled(t, Terms(t, e))
    ensures var f := EliminateYn(e);
      if forall x :: x in Terms(t, e) ==> x == Neutral(t) then f == Neutral(t)
      else !IsYesOrNo(f) && forall x :: x in Terms(t, f) <==> x in Terms(t, e) && x != Neutral(t)
  {
    if IsOp(t, e) {
      assert forall x :: x in Terms(t, e) <==> x in Terms(t, e.l) || x in Terms(t, e.r);
      FoldSettled(t, e.l);
      FoldSettled(t, e.r);
    } else {
      assert e in Terms(t, e);
    }
  }

  lemma {:induction false} TermsSettled(t: Op, e: Expr)
    requires !HasConst(e)
    ensures IsOp(t, e) || !IsYesOrNo(e) ==> Settled(t, Terms(t, e)) && forall x :: x in Terms(t, e) ==> !IsYesOrNo(x)
  {
    if IsOp(t, e) {
      assert forall x :: x in Terms(t, e) <==> x in Terms(t, e.l) || x in Terms(t, e.r);
      TermsSettled(t, e.l);
      TermsSettled(t, e.r);
    } else {
      EliminateYnShrinks(e);
    }
  }

  lemma ReducedSettled(t: Op, xs: seq<Expr>, ys: seq<Expr>)
    requires Reduced(t, xs, ys) && Settled(t, xs)
    ensures Settled(t, ys)
  {
    forall y | y in ys
      ensures y == Neutral(t) || (EliminateYn(y) == y && !IsYesOrNo(y))
    {
      var j :| 0 <= j < |ys| && ys[j] == y;
      assert xs[j] in xs;
    }
  }

  ghost predicate Apart(t: Op, e1: Expr, e2: Expr) {
    forall x, y :: x in Terms(t, e1) && y in Terms(t, e2) ==> !Cancels(x, y)
  }

  /** After one cancelling pass under t and the folding, no term of one side equals a term of the other. */
  lemma PassLeavesApart(t: Op, e1: Expr, e2: Expr)
    requires Settled(t, Terms(t, e1)) && Settled(t, Terms(t, e2))
    ensures var (a, b) := ElimEqIn(t, e1, e2); Apart(t, a, b) && Apart(t, EliminateYn(a), EliminateYn(b))
  {
    var (a, b) := ElimEqIn(t, e1, e2);
    ElimIsCancelAll(t, e1, e2);
    CancelAllApart(t, Terms(t, e1), Terms(t, e2));
    ReducedSettled(t, Terms(t, e1), Terms(t, a));
    ReducedSettled(t, Terms(t, e2), Terms(t, b));
    FoldSettled(t, a);
    FoldSettled(t, b);
    forall x, y | x in Terms(t, EliminateYn(a)) && y in Terms(t, EliminateYn(b))
      ensures !Cancels(x, y)
    {
      NeutralStays(t, x);
      NeutralStays(t, y);
    }
  }

  /** y, n and quoted constants equal nothing but themselves. */
  lemma FlaggedApart(t: Op, e1: Expr, e2: Expr)
    requires IsYesOrNo(e1) || IsYesOrNo(e2)
    ensures Apart(t, e1, e2)
  {
  }

  /** A single term against a group: either it goes, or nothing is touched. */
  lemma {:induction false} ElimTermRight(t: Op, e1: Expr, e2: Expr)
    requires !IsOp(t, e2)
    ensures var (a, b) := ElimEqIn(t, e1, e2); b == Neutral(t) || (a, b) == (e1, e2)
    decreases e1
  {
    if IsOp(t, e1) {
      ElimTermRight(t, e1.l, e2);
      ElimTermRight(t, e1.r, ElimEqIn(t, e1.l, e2).1);
    }
  }

  lemma {:induction false} ElimTermLeft(t: Op, e1: Expr, e2: Expr)
    requires !IsOp(t, e1)
    ensures var (a, b) := ElimEqIn(t, e1, e2); a == Neutral(t) || (a, b) == (e1, e2)
    decreases e2
  {
    if IsOp(t, e2) {
      ElimTermLeft(t, e1, e2.l);
      ElimTermLeft(t, ElimEqIn(t, e1, e2.l).0, e2.r);
    }
  }

  /** One pass under the connective of either expression. */
  lemma OnePassApart(t: Op, e1: Expr, e2: Expr)
    requires !HasConst(e1) && !HasConst(e2)
    ensures var (a, b) := ElimEqIn(t, e1, e2); Apart(t, EliminateYn(a), EliminateYn(b))
  {
    if !IsOp(t, e2) && IsYesOrNo(e2) {
      ElimTermRight(t, e1, e2);
      FlaggedApart(t, EliminateYn(ElimEqIn(t, e1, e2).0), EliminateYn(ElimEqIn(t, e1, e2).1));
    } else if !IsOp(t, e1) && IsYesOrNo(e1) {
      ElimTermLeft(t, e1, e2);
      FlaggedApart(t, EliminateYn(ElimEqIn(t, e1, e2).0), EliminateYn(ElimEqIn(t, e1, e2).1));
    } else {
      TermsSettled(t, e1);
      TermsSettled(t, e2);
      PassLeavesApart(t, e1, e2);
    }
  }

  /** Two groups of different connectives: each is one term to the other. */
  lemma CrossedApart(t: Op, e1: Expr, e2: Expr)
    requires !HasConst(e1) && !HasConst(e2) && IsOp(t, e1) && IsOp(Dual(t), e2)
    ensures var (f1, f2) := EliminateEq(e1, e2); Apart(t, f1, f2) && Apart(Dual(t), f1, f2)
  {
    var (f1, f2) := EliminateEq(e1, e2);
    var (a, b) := ElimEqIn(t, e1, e2);
    assert CancelFirst(e1, e2) == (a, b);
    ElimTermRight(t, e1, e2);
    if b == Neutral(t) {
      assert CancelSecond(a, b) == (a, b) && EliminateYn(b) == b && IsYesOrNo(f2);
    } else {
      assert (f1, f2) == SecondPass(t, e1, e2);
      OnePassApart(t, e1, e2);
      OnePassApart(Dual(t), e1, e2);
      ElimTermLeft(Dual(t), e1, e2);
      EliminateYnShrinks(e1);
      EliminateYnShrinks(e2);
    }
  }

  /** Cancelling under the other connective only. */
  function SecondPass(t: Op, e1: Expr, e2: Expr): (Expr, Expr) {
    var (c, d) := ElimEqIn(Dual(t), e1, e2);
    (EliminateYn(c), EliminateYn(d))
  }

  lemma SinglePass(t: Op, e1: Expr, e2: Expr)
    requires (IsOp(t, e1) || IsOp(t, e2)) && !IsOp(Dual(t), e1) && !IsOp(Dual(t), e2)
    ensures var (a, b) := ElimEqIn(t, e1, e2); EliminateEq(e1, e2) == (EliminateYn(a), EliminateYn(b))
  {
    var (a, b) := ElimEqIn(t, e1, e2);
    ElimEqInKeepsRoots(t, e1, e2);
    if IsOp(t, e1) {
      if !IsOp(t, e2) { ElimTermRight(t, e1, e2); }
      assert CancelFirst(e1, e2) == (a, b) && CancelSecond(a, b) == (a, b);
    } else {
      assert CancelFirst(e1, e2) == (e1, e2) && CancelSecond(e1, e2) == (a, b);
    }
  }

  /** After cancelling under the connective t of e1 or e2, nothing in common is left: no t-term of one
      side equals a t-term of the other, apart from y, n and quoted constants, which are left alone. */
  lemma EliminateEqLeavesApart(t: Op, e1: Expr, e2: Expr)
    requires !HasConst(e1) && !HasConst(e2) && (IsOp(t, e1) || IsOp(t, e2))
    ensures var (f1, f2) := EliminateEq(e1, e2); Apart(t, f1, f2)
  {
    if IsOp(t, e1) && IsOp(Dual(t), e2) {
      CrossedApart(t, e1, e2);
    } else if IsOp(Dual(t), e1) && IsOp(t, e2) {
      CrossedApart(Dual(t), e1, e2);
    } else {
      SinglePass(t, e1, e2);
      OnePassApart(t, e1, e2);
    }
  }

  /** Two groups of two terms that have nothing to cancel. */
  lemma NothingTaken(t: Op, e1: Expr, e2: Expr)
    requires IsOp(t, e1) && !IsOp(t, e1.l) && !IsOp(t, e1.r) && IsOp(t, e2) && !IsOp(t, e2.l) && !IsOp(t, e2.r)
    requires !Cancels(e1.l, e2.l) && !Cancels(e1.l, e2.r) && !Cancels(e1.r, e2.l) && !Cancels(e1.r, e2.r)
    ensures EliminateEq(e1, e2) == (EliminateYn(e1), EliminateYn(e2))
  {
    TermKept(t, e1.l, e2);
    TermKept(t, e1.r, e2);
    assert CancelFirst(e1, e2) == (e1, e2) && CancelSecond(e1, e2) == (e1, e2);
  }

  lemma TermKept(t: Op, x: Expr, e: Expr)
    requires !IsOp(t, x) && IsOp(t, e) && !IsOp(t, e.l) && !IsOp(t, e.r) && !Cancels(x, e.l) && !Cancels(x, e.r)
    ensures ElimEqIn(t, x, e) == (x, e)
  {
    assert ElimEqIn(t, x, e.l) == (x, e.l) && ElimEqIn(t, x, e.r) == (x, e.r);
  }

  /** Where a constant is left to fold, the folding may bring equal terms together. */
  lemma FoldingMayMeet(a: Symbol, b: Symbol, c: Symbol)
    requires a.Var? && b.Var? && c.Var? && a != b && a != c && b != c
    ensures var e1 := Bin(And, Sym(a), Bin(Or, Sym(b), Sym(No)));
      var e2 := Bin(And, Sym(c), Sym(b));
      EliminateEq(e1, e2) == (Bin(And, Sym(a), Sym(b)), e2)
  {
    var e1 := Bin(And, Sym(a), Bin(Or, Sym(b), Sym(No)));
    var e2 := Bin(And, Sym(c), Sym(b));
    NothingTaken(And, e1, e2);
    assert EliminateYn(e1.r) == Sym(b);
  }

  // ----- everything equals itself -----

  /** No y, n or quoted constant stands under a connective. */
  predicate Unflagged(e: Expr) {
    match e
    case Not(x) => Unflagged(x)
    case Bin(_, l, r) => !IsFlagged(l) && !IsFlagged(r) && Unflagged(l) && Unflagged(r)
    case _ => true
  }

  predicate AllNeutral(t: Op, xs: seq<Expr>) {
    forall x :: x in xs ==> x == Neutral(t)
  }

  lemma {:induction false} TermsUnflagged(t: Op, e: Expr)
    requires Unflagged(e) && (IsOp(t, e) || !IsFlagged(e))
    ensures forall x :: x in Terms(t, e) ==> Unflagged(x) && !IsFlagged(x) && Size(x) <= Size(e) && !IsOp(t, x)
  {
    if IsOp(t, e) {
      TermsUnflagged(t, e.l);
      TermsUnflagged(t, e.r);
    }
  }

  lemma {:induction false} NeutralPasses(t: Op, ys: seq<Expr>)
    ensures CancelIn(t, Neutral(t), ys) == (Neutral(t), ys)
    decreases |ys|
  {
    if ys != [] {
      NeutralStays(t, ys[0]);
      NeutralPasses(t, ys[1..]);
      assert [ys[0]] + ys[1..] == ys;
    }
  }

  lemma {:induction false} NeutralsAreSkipped(t: Op, x: Expr, ns: seq<Expr>)
    requires AllNeutral(t, ns)
    ensures CancelIn(t, x, ns) == (x, ns)
    decreases |ns|
  {
    if ns != [] {
      NeutralStays(t, x);
      assert ns[0] in ns && forall n :: n in ns[1..] ==> n in ns;
      NeutralsAreSkipped(t, x, ns[1..]);
      assert [ns[0]] + ns[1..] == ns;
    }
  }

  /** A term meets its own copy before any other. */
  lemma CancelOwnCopy(t: Op, x: Expr, ns: seq<Expr>, ys: seq<Expr>)
    requires AllNeutral(t, ns) && Cancels(x, x)
    ensures CancelIn(t, x, ns + ([x] + ys)) == (Neutral(t), ns + ([Neutral(t)] + ys))
  {
    NeutralsAreSkipped(t, x, ns);
    CancelInAppend(t, x, ns, [x] + ys);
    CancelOne(t, x, x);
    CancelInAppend(t, x, [x], ys);
    NeutralPasses(t, ys);
  }

  lemma {:induction false} CancelSelf(t: Op, ns: seq<Expr>, xs: seq<Expr>)
    requires AllNeutral(t, ns) && forall x :: x in xs ==> Cancels(x, x)
    ensures var (a, b) := CancelAll(t, xs, ns + xs); AllNeutral(t, a) && AllNeutral(t, b)
    decreases |xs|
  {
    if xs != [] {
      assert xs[0] in xs && xs == [xs[0]] + xs[1..];
      CancelOwnCopy(t, xs[0], ns, xs[1..]);
      var ns' := ns + [Neutral(t)];
      assert ns + ([Neutral(t)] + xs[1..]) == ns' + xs[1..];
      CancelSelf(t, ns', xs[1..]);
    }
  }

  /** Every expression without a constant under a connective equals itself. */
  lemma {:induction false} ExprEqReflexive(e: Expr)
    requires Unflagged(e)
    ensures ExprEq(e, e)
    decreases Size(e)
  {
    match e
    case Not(x) => ExprEqReflexive(x);
    case Bin(t, l, r) =>
      TermsUnflagged(t, e);
      forall x | x in Terms(t, e)
        ensures Cancels(x, x)
      {
        if Size(x) < Size(e) { ExprEqReflexive(x); } else { TermsAreSmaller(t, e, x); }
      }
      CancelSelf(t, [], Terms(t, e));
      assert [] + Terms(t, e) == Terms(t, e);
      ElimIsCancelAll(t, e, e);
      var (a, b) := ElimEqIn(t, e, e);
      FoldSettled(t, a);
      FoldSettled(t, b);
      ElimEqInKeepsRoots(t, e, e);
    case _ =>
  }

  lemma {:induction false} TermsAreSmaller(t: Op, e: Expr, x: Expr)
    requires IsOp(t, e) && x in Terms(t, e)
    ensures Size(x) < Size(e)
  {
    if x in Terms(t, e.l) {
      if IsOp(t, e.l) { TermsAreSmaller(t, e.l, x); }
    } else {
      if IsOp(t, e.r) { TermsAreSmaller(t, e.r, x); }
    }
  }

  /** Two quoted constants under one connective are enough for an expression not to equal itself. */
  lemma TwoConstantsUnequal(x: ConstName, y: ConstName)
    ensures var e := Bin(And, Sym(Const(x)), Sym(Const(y))); !ExprEq(e, e)
  {
    var e := Bin(And, Sym(Const(x)), Sym(Const(y)));
    NothingTaken(And, e, e);
  }

  // ----- groups of named symbols -----

  /** A symbol other than y, n and the quoted constants. */
  predicate IsNamed(e: Expr) {
    e.Sym? && !e.s.HasYesOrNoFlag()
  }

  /** All terms are named symbols, or units left behind by cancelling. */
  predicate NamedTerms(t: Op, e: Expr) {
    if IsOp(t, e) then NamedTerms(t, e.l) && NamedTerms(t, e.r) else IsNamed(e) || e == Neutral(t)
  }

  /** How often z is a term of e. */
  function Occurs(t: Op, z: Expr, e: Expr): nat {
    if IsOp(t, e) then Occurs(t, z, e.l) + Occurs(t, z, e.r) else if e == z then 1 else 0
  }

  function Less(m: nat, n: nat): nat {
    if m <= n then 0 else m - n
  }

  lemma NamedCancels(t: Op, x: Expr, y: Expr)
    requires NamedTerms(t, x) && NamedTerms(t, y) && !IsOp(t, x) && !IsOp(t, y)
    ensures Cancels(x, y) <==> x == y && IsNamed(x)
  {
  }

  lemma {:induction false} ElimCounts(t: Op, z: Expr, e1: Expr, e2: Expr)
    requires IsNamed(z) && NamedTerms(t, e1) && NamedTerms(t, e2)
    ensures var (f1, f2) := ElimEqIn(t, e1, e2);
      && NamedTerms(t, f1) && NamedTerms(t, f2)
      && Occurs(t, z, f1) == Less(Occurs(t, z, e1), Occurs(t, z, e2))
      && Occurs(t, z, f2) == Less(Occurs(t, z, e2), Occurs(t, z, e1))
    decreases Size(e1) + Size(e2)
  {
    if IsOp(t, e1) {
      ElimCounts(t, z, e1.l, e2);
      ElimCounts(t, z, e1.r, ElimEqIn(t, e1.l, e2).1);
    } else if IsOp(t, e2) {
      ElimCounts(t, z, e1, e2.l);
      ElimCounts(t, z, ElimEqIn(t, e1, e2.l).0, e2.r);
    } else {
      NamedCancels(t, e1, e2);
    }
  }

  lemma {:induction false} FoldCounts(t: Op, z: Expr, e: Expr)
    requires NamedTerms(t, e)
    ensures var f := EliminateYn(e);
      && NamedTerms(t, f) && (f == Neutral(t) || Occurs(t, Neutral(t), f) == 0)
      && (IsNamed(z) ==> Occurs(t, z, f) == Occurs(t, z, e))
  {
    if IsOp(t, e) {
      FoldCounts(t, z, e.l);
      FoldCounts(t, z, e.r);
    }
  }

  lemma {:induction false} NotOtherGroup(t: Op, e: Expr)
    requires NamedTerms(t, e)
    ensures !IsOp(Dual(t), e) && (e.Bin? ==> IsOp(t, e))
  {
  }

  /** A group of named symbols. */
  predicate NamedGroup(t: Op, e: Expr) {
    NamedTerms(t, e) && Occurs(t, Neutral(t), e) == 0
  }

  /** Of two groups of named symbols, cancelling leaves each what it has more often than the other. */
  lemma NamedGroups(t: Op, z: Expr, e1: Expr, e2: Expr)
    requires NamedGroup(t, e1) && NamedGroup(t, e2) && (IsOp(t, e1) || IsOp(t, e2)) && IsNamed(z)
    ensures var (f1, f2) := EliminateEq(e1, e2);
      && (f1 == Neutral(t) || NamedGroup(t, f1)) && (f2 == Neutral(t) || NamedGroup(t, f2))
      && Occurs(t, z, f1) == Less(Occurs(t, z, e1), Occurs(t, z, e2))
      && Occurs(t, z, f2) == Less(Occurs(t, z, e2), Occurs(t, z, e1))
  {
    NotOtherGroup(t, e1);
    NotOtherGroup(t, e2);
    SinglePass(t, e1, e2);
    ElimCounts(t, z, e1, e2);
    var (a, b) := ElimEqIn(t, e1, e2);
    FoldCounts(t, z, a);
    FoldCounts(t, z, b);
  }

  lemma {:induction false} SomeTerm(t: Op, e: Expr) returns (z: Expr)
    requires NamedGroup(t, e)
    ensures IsNamed(z) && Occurs(t, z, e) > 0
  {
    if IsOp(t, e) { z := SomeTerm(t, e.l); } else { z := e; }
  }

  ghost predicate SameTerms(t: Op, e1: Expr, e2: Expr) {
    forall z :: IsNamed(z) ==> Occurs(t, z, e1) == Occurs(t, z, e2)
  }

  lemma EqualNamedGroups(t: Op, e1: Expr, e2: Expr)
    requires NamedGroup(t, e1) && NamedGroup(t, e2) && IsOp(t, e1) && IsOp(t, e2) && ExprEq(e1, e2)
    ensures SameTerms(t, e1, e2)
  {
    var (f1, f2) := EliminateEq(e1, e2);
    forall z | IsNamed(z)
      ensures Occurs(t, z, e1) == Occurs(t, z, e2)
    {
      NamedGroups(t, z, e1, e2);
      assert f1 == f2 && !IsOp(t, f1);
    }
  }

  lemma SameNamedGroups(t: Op, e1: Expr, e2: Expr)
    requires NamedGroup(t, e1) && NamedGroup(t, e2) && IsOp(t, e1) && IsOp(t, e2) && SameTerms(t, e1, e2)
    ensures ExprEq(e1, e2)
  {
    var (f1, f2) := EliminateEq(e1, e2);
    var z := SomeTerm(t, e1);
    NamedGroups(t, z, e1, e2);
    if f1 != Neutral(t) {
      var x := SomeTerm(t, f1);
      NamedGroups(t, x, e1, e2);
      assert false;
    }
    if f2 != Neutral(t) {
      var x := SomeTerm(t, f2);
      NamedGroups(t, x, e1, e2);
      assert false;
    }
  }

  /** Two groups of named symbols are equal exactly when they have the same symbols equally often, in
      whatever order and nesting. */
  lemma NamedGroupsEqualIff(t: Op, e1: Expr, e2: Expr)
    requires NamedGroup(t, e1) && NamedGroup(t, e2) && IsOp(t, e1) && IsOp(t, e2)
    ensures ExprEq(e1, e2) <==> forall z :: IsNamed(z) ==> Occurs(t, z, e1) == Occurs(t, z, e2)
  {
    if ExprEq(e1, e2) { EqualNamedGroups(t, e1, e2); }
    if SameTerms(t, e1, e2) { SameNamedGroups(t, e1, e2); }
  }

  /** Nothing but the unit is left of a group of named symbols exactly if the other has all of them. */
  lemma NamedGroupsUsedUpIff(t: Op, e1: Expr, e2: Expr)
    requires NamedGroup(t, e1) && NamedGroup(t, e2) && (IsOp(t, e1) || IsOp(t, e2))
    ensures EliminateEq(e1, e2).1 == Neutral(t) <==> forall z :: IsNamed(z) ==> Occurs(t, z, e2) <= Occurs(t, z, e1)
  {
    var f2 := EliminateEq(e1, e2).1;
    forall z | IsNamed(z) && f2 == Neutral(t)
      ensures Occurs(t, z, e2) <= Occurs(t, z, e1)
    {
      NamedGroups(t, z, e1, e2);
    }
    var w := SomeTerm(t, e1);
    NamedGroups(t, w, e1, e2);
    if f2 != Neutral(t) {
      var z := SomeTerm(t, f2);
      NamedGroups(t, z, e1, e2);
    }
  }
}
