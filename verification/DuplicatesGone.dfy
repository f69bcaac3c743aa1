/** What duplicate elimination leaves: which two terms join, and that no two of that kind are left in any chain. */
module DuplicatesGone {
  import opened Tristates
  import opened Exprs
  import opened Rewrites
  import opened Equality
  import opened Duplicates

  // ----- which terms join -----

  predicate IsDefinite(s: Symbol) {
    s.Yes? || s.Mod? || s.No?
  }

  /** One is x and the other y. */
  predicate These(e1: Expr, e2: Expr, x: Expr, y: Expr) {
    (e1 == x && e2 == y) || (e1 == y && e2 == x)
  }

  /** a=x || a=y for two of the values y, m and n of a tristate symbol, or a || !a for a bool symbol. */
  predicate JoinsUnderOr(s: Symbol, e1: Expr, e2: Expr) {
    || (s.Type() == TTristate && e1.Equal? && e2.Equal? && e1.a == e2.a == s
        && IsDefinite(e1.b) && IsDefinite(e2.b) && e1.b != e2.b)
    || (s.Type() == TBoolean && These(e1, e2, Sym(s), Not(Sym(s))))
  }

  lemma JoinOrIff(e1: Expr, e2: Expr)
    ensures JoinOr(e1, e2).Some? <==> ExprEq(e1, e2) || exists s :: JoinsUnderOr(s, e1, e2)
  {
    if JoinOr(e1, e2).Some? && !ExprEq(e1, e2) {
      assert JoinsUnderOr(SubjectOfFirst(e1).value, e1, e2);
    }
    if exists s :: JoinsUnderOr(s, e1, e2) {
      var s :| JoinsUnderOr(s, e1, e2);
      assert SubjectOfFirst(e1) == Some(s) && SubjectOfSecond(e2) == Some(s);
    }
  }

  /** a with a=y, a!=n or a!=m; for a tristate symbol also a=x with a!=y for constants x and y, and a!=x with
      a!=y for two of its values. */
  predicate JoinsUnderAnd(s: Symbol, e1: Expr, e2: Expr) {
    || (s.IsBoolOrTristate() &&
        (These(e1, e2, Sym(s), Equal(s, Yes)) || These(e1, e2, Sym(s), Unequal(s, No))
         || These(e1, e2, Sym(s), Unequal(s, Mod))))
    || (s.Type() == TTristate && e1.Equal? && e2.Unequal? && e1.a == e2.a == s && e1.b.IsConst() && e2.b.IsConst())
    || (s.Type() == TTristate && e1.Unequal? && e2.Equal? && e1.a == e2.a == s && e1.b.IsConst() && e2.b.IsConst())
    || (s.Type() == TTristate && e1.Unequal? && e2.Unequal? && e1.a == e2.a == s
        && IsDefinite(e1.b) && IsDefinite(e2.b) && e1.b != e2.b)
  }

  lemma JoinAndIff(e1: Expr, e2: Expr)
    ensures JoinAnd(e1, e2).Some? <==> ExprEq(e1, e2) || exists s :: JoinsUnderAnd(s, e1, e2)
  {
    if JoinAnd(e1, e2).Some? && !ExprEq(e1, e2) {
      assert JoinsUnderAnd(SubjectOfFirst(e1).value, e1, e2);
    }
    if exists s :: JoinsUnderAnd(s, e1, e2) {
      var s :| JoinsUnderAnd(s, e1, e2);
      assert SubjectOfFirst(e1) == Some(s) && SubjectOfSecond(e2) == Some(s);
    }
  }

  // ----- what a round that counts nothing has looked at -----

  lemma {:induction false} EndOfSpine(t: Op, r: Expr, p: Path, a: Path)
    requires OnSpine(t, r, p) && OnSpine(t, r, p + a)
    ensures !IsOp(t, At(t, r, p)) ==> a == []
    ensures IsOp(t, At(t, r, p)) && !IsOp(t, At(t, r, p + a)) ==> a != []
    decreases p
  {
    if p == [] {
      assert p + a == a;
    } else {
      assert (p + a)[1..] == p[1..] + a;
      EndOfSpine(t, Child(r, p[0]), p[1..], a);
    }
  }

  lemma Deeper(p: Path, a: Path)
    requires a != []
    ensures (p + [a[0]]) + a[1..] == p + a
  {
  }

  /** Every pair of terms below the two pointers has been compared, and every group among them searched. */
  lemma {:induction false} Dups1Quiet(t: Op, r: Expr, p1: Path, p2: Path, a: Path, b: Path)
    requires OnSpine(t, r, p1) && OnSpine(t, r, p2) && Dups1(t, r, p1, p2).1 == 0
    requires TwoTerms(t, r, p1 + a, p2 + b)
    ensures Join(t, At(t, r, p1 + a), At(t, r, p2 + b)).None?
    ensures var x := At(t, r, p1 + a); x.Bin? ==> Dups1(x.op, x, [], []).1 == 0
    decreases |a| + |b|
  {
    EndOfSpine(t, r, p1, a);
    EndOfSpine(t, r, p2, b);
    if IsOp(t, At(t, r, p1)) {
      AtChild(t, r, p1, a[0]);
      Deeper(p1, a);
      Dups1Quiet(t, r, p1 + [a[0]], p2, a[1..], b);
    } else if IsOp(t, At(t, r, p2)) {
      AtChild(t, r, p2, b[0]);
      Deeper(p2, b);
      Dups1Quiet(t, r, p1, p2 + [b[0]], a, b[1..]);
    } else {
      assert p1 + a == p1 && p2 + b == p2;
      QuietPair(t, r, p1, p2);
    }
  }

  lemma QuietPair(t: Op, r: Expr, p1: Path, p2: Path)
    requires TwoTerms(t, r, p1, p2) && Dups1(t, r, p1, p2).1 == 0
    ensures Join(t, At(t, r, p1), At(t, r, p2)).None?
    ensures var x := At(t, r, p1); x.Bin? ==> Dups1(x.op, x, [], []).1 == 0
  {
    AtPut(t, r, p1, At(t, r, p1));
  }

  /** In a group a term was compared with every other node of it; a group among the terms contradicts none. */
  lemma {:induction false} Dups2Quiet(t: Op, r: Expr, p1: Path, p2: Path, a: Path, b: Path)
    requires OnSpine(t, r, p1) && OnSpine(t, r, p2) && Dups2(t, r, p1, p2).1 == 0
    requires OnSpine(t, r, p1 + a) && OnSpine(t, r, p2 + b) && p1 + a != p2 + b
    requires IsOp(Dual(t), At(t, r, p1 + a))
    ensures !Contradicts(t, At(t, r, p1 + a), At(t, r, p2 + b))
    decreases |a| + |b|
  {
    EndOfSpine(t, r, p1, a);
    EndOfSpine(t, r, p2, b);
    if IsOp(t, At(t, r, p1)) {
      AtChild(t, r, p1, a[0]);
      Deeper(p1, a);
      Dups2Quiet(t, r, p1 + [a[0]], p2, a[1..], b);
    } else {
      assert p1 + a == p1;
      if b == [] {
        assert p2 + b == p2;
        QuietNode(t, r, p1, p2);
      } else {
        AtChild(t, r, p2, b[0]);
        Deeper(p2, b);
        Dups2Quiet(t, r, p1, p2 + [b[0]], a, b[1..]);
      }
    }
  }

  lemma QuietNode(t: Op, r: Expr, p1: Path, p2: Path)
    requires OnSpine(t, r, p1) && OnSpine(t, r, p2) && Dups2(t, r, p1, p2).1 == 0 && p1 != p2
    requires IsOp(Dual(t), At(t, r, p1))
    ensures !Contradicts(t, At(t, r, p1), At(t, r, p2))
  {
    AtPut(t, r, p1, At(t, r, p1));
  }

  // ----- what is left -----

  /** No two terms of the group are equal. */
  ghost predicate NothingTwice(t: Op, e: Expr) {
    forall p1, p2 :: TwoTerms(t, e, p1, p2) ==> !ExprEq(At(t, e, p1), At(t, e, p2))
  }

  /** Nor in any chain that is reached through AND and OR nodes. */
  ghost predicate NoDups(e: Expr) {
    e.Bin? ==> NothingTwice(e.op, e) && NoDups(e.l) && NoDups(e.r)
  }

  lemma {:induction false} AtBelow(t: Op, r: Expr, p: Path, q: Path)
    requires OnSpine(t, r, p) && OnSpine(t, At(t, r, p), q)
    ensures OnSpine(t, r, p + q) && At(t, r, p + q) == At(t, At(t, r, p), q)
    decreases p
  {
    if p == [] {
      assert p + q == q;
    } else {
      assert (p + q)[1..] == p[1..] + q;
      AtBelow(t, Child(r, p[0]), p[1..], q);
    }
  }

  /** A chain has a term besides the one at p. */
  lemma {:induction false} SomeTermAt(t: Op, e: Expr) returns (q: Path)
    ensures OnSpine(t, e, q) && !IsOp(t, At(t, e, q))
  {
    if IsOp(t, e) {
      var q' := SomeTermAt(t, e.l);
      q := [L] + q';
    } else {
      q := [];
    }
  }

  lemma OtherTerm(t: Op, e: Expr, p: Path) returns (q: Path)
    requires IsOp(t, e) && OnSpine(t, e, p) && !IsOp(t, At(t, e, p))
    ensures TwoTerms(t, e, p, q)
  {
    var d := if p[0] == L then R else L;
    var q' := SomeTermAt(t, Child(e, d));
    q := [d] + q';
    assert q[1..] == q';
  }

  ghost predicate Quiet(e: Expr) {
    e.Bin? ==> Dups1(e.op, e, [], []).1 == 0
  }

  lemma QuietTerm(e: Expr, p: Path)
    requires e.Bin? && Quiet(e) && OnSpine(e.op, e, p) && !IsOp(e.op, At(e.op, e, p))
    ensures Quiet(At(e.op, e, p))
  {
    var q := OtherTerm(e.op, e, p);
    assert [] + p == p && [] + q == q;
    Dups1Quiet(e.op, e, [], [], p, q);
  }

  lemma QuietGroup(e: Expr, p: Path)
    requires e.Bin? && Quiet(e) && OnSpine(e.op, e, p)
    ensures NothingTwice(e.op, At(e.op, e, p))
  {
    var t, x := e.op, At(e.op, e, p);
    forall p1, p2 | TwoTerms(t, x, p1, p2)
      ensures !ExprEq(At(t, x, p1), At(t, x, p2))
    {
      AtBelow(t, e, p, p1);
      AtBelow(t, e, p, p2);
      var q1, q2 := p + p1, p + p2;
      assert p1 == q1[|p|..] && p2 == q2[|p|..];
      assert [] + q1 == q1 && [] + q2 == q2;
      Dups1Quiet(t, e, [], [], q1, q2);
    }
  }

  lemma {:induction false} QuietLeavesNone(e: Expr, p: Path)
    requires e.Bin? && Quiet(e) && OnSpine(e.op, e, p)
    ensures NoDups(At(e.op, e, p))
    decreases Size(e), Size(At(e.op, e, p))
  {
    var t, x := e.op, At(e.op, e, p);
    if IsOp(t, x) {
      QuietGroup(e, p);
      AtChild(t, e, p, L);
      AtChild(t, e, p, R);
      QuietLeavesNone(e, p + [L]);
      QuietLeavesNone(e, p + [R]);
    } else if x.Bin? {
      QuietTerm(e, p);
      AtSmaller(t, e, p);
      QuietLeavesNone(x, []);
    }
  }

  /** The result of duplicate elimination has no two equal terms in any chain. */
  lemma EliminateDupsLeavesNone(e: Expr)
    ensures NoDups(EliminateDups(e))
  {
    var f := EliminateDups(e);
    EliminateDupsIdempotent(e);
    if f.Bin? { QuietLeavesNone(f, []); }
  }

  /** Nor two terms that join, nor a group that contradicts another part of the chain it stands in. */
  lemma EliminateDupsLeavesApart(e: Expr, p1: Path, p2: Path)
    requires var f := EliminateDups(e); f.Bin? && TwoTerms(f.op, f, p1, p2)
    ensures var f := EliminateDups(e); var x, y := At(f.op, f, p1), At(f.op, f, p2);
      && (forall s :: !(if f.op == Or then JoinsUnderOr(s, x, y) else JoinsUnderAnd(s, x, y)))
      && (x.Bin? ==> !Contradicts(f.op, x, y))
  {
    var f := EliminateDups(e);
    var x, y := At(f.op, f, p1), At(f.op, f, p2);
    EliminateDupsIdempotent(e);
    assert [] + p1 == p1 && [] + p2 == p2;
    Dups1Quiet(f.op, f, [], [], p1, p2);
    if x.Bin? { Dups2Quiet(f.op, f, [], [], p1, p2); }
    if f.op == Or { JoinOrIff(x, y); } else { JoinAndIff(x, y); }
  }
}
