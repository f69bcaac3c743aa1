/** The rewriters as the program runs them: on nodes that are overwritten in place.  Each method is
    proved to leave the tree that the function of the same name computes. */
module ExprNodes {
  import opened Tristates
  import opened Exprs
  import Rewrites
  import Equality

  datatype Kind = KOr | KAnd | KNot | KEqual | KUnequal | KSymbol

  function BinKind(t: Op): Kind {
    if t == And then KAnd else KOr
  }

  function KindOf(e: Expr): Kind {
    match e
    case Sym(_) => KSymbol
    case Not(_) => KNot
    case Bin(t, _, _) => BinKind(t)
    case Equal(_, _) => KEqual
    case Unequal(_, _) => KUnequal
  }

  /** struct expr; the two unions are a node and a symbol each, of which kind says which is in use. */
  class Node {
    var kind: Kind
    var left: Node?
    var right: Node?
    var lsym: Symbol
    var rsym: Symbol
    ghost var tree: Expr
    ghost var repr: set<Node>

    /** The nodes below form a tree without sharing, and it is the one that the ghost field names. */
    ghost predicate Valid()
      reads this, repr
      decreases repr
    {
      && this in repr
      && kind == KindOf(tree)
      && match tree {
           case Sym(s) => lsym == s
           case Equal(a, b) => lsym == a && rsym == b
           case Unequal(a, b) => lsym == a && rsym == b
           case Not(x) =>
             && left != null && left in repr && left.repr <= repr && this !in left.repr
             && left.Valid() && left.tree == x
           case Bin(_, l, r) =>
             && left != null && left in repr && left.repr <= repr && this !in left.repr
             && right != null && right in repr && right.repr <= repr && this !in right.repr
             && left.repr !! right.repr
             && left.Valid() && left.tree == l
             && right.Valid() && right.tree == r
         }
    }

    constructor OfSymbol(s: Symbol)
      ensures Valid() && fresh(repr) && tree == Sym(s)
    {
      kind, left, right, lsym, rsym := KSymbol, null, null, s, s;
      tree, repr := Sym(s), {this};
    }

    constructor OfComp(k: Kind, a: Symbol, b: Symbol)
      requires k == KEqual || k == KUnequal
      ensures Valid() && fresh(repr)
      ensures tree == if k == KEqual then Equal(a, b) else Unequal(a, b)
    {
      kind, left, right, lsym, rsym := k, null, null, a, b;
      tree, repr := if k == KEqual then Equal(a, b) else Unequal(a, b), {this};
    }

    constructor OfNot(x: Node)
      requires x.Valid()
      ensures Valid() && fresh(repr - x.repr) && tree == Not(x.tree)
    {
      kind, left, right, lsym, rsym := KNot, x, null, No, No;
      tree, repr := Not(x.tree), {this} + x.repr;
    }

    constructor OfTwo(t: Op, x: Node, y: Node)
      requires x.Valid() && y.Valid() && x.repr !! y.repr
      ensures Valid() && fresh(repr - x.repr - y.repr) && tree == Bin(t, x.tree, y.tree)
    {
      kind, left, right, lsym, rsym := BinKind(t), x, y, No, No;
      tree, repr := Bin(t, x.tree, y.tree), {this} + x.repr + y.repr;
    }

    /** *this = *other, after other has been cut off from everything else. */
    method Become(other: Node)
      requires other.Valid() && this !in other.repr
      modifies this
      ensures Valid() && tree == other.tree && repr == {this} + (other.repr - {other})
    {
      kind, left, right, lsym, rsym := other.kind, other.left, other.right, other.lsym, other.rsym;
      tree, repr := other.tree, {this} + (other.repr - {other});
    }

    method BecomeSymbol(s: Symbol)
      modifies this
      ensures Valid() && tree == Sym(s) && repr == {this}
    {
      kind, lsym, right := KSymbol, s, null;
      tree, repr := Sym(s), {this};
    }
  }

  method Copy(e: Node) returns (c: Node)
    requires e.Valid()
    ensures c.Valid() && fresh(c.repr) && c.tree == e.tree
    decreases e.repr
  {
    if e.kind == KSymbol {
      c := new Node.OfSymbol(e.lsym);
    } else if e.kind == KEqual || e.kind == KUnequal {
      c := new Node.OfComp(e.kind, e.lsym, e.rsym);
    } else if e.kind == KNot {
      var x := Copy(e.left);
      c := new Node.OfNot(x);
    } else {
      var x := Copy(e.left);
      var y := Copy(e.right);
      c := new Node.OfTwo(if e.kind == KAnd then And else Or, x, y);
    }
  }

  /** The node has proper, separate children, but its ghost fields are out of date. */
  ghost predicate ChildrenValid(e: Node, t: Op)
    reads e, if e.left == null then {} else e.left.repr, if e.right == null then {} else e.right.repr
    reads e.left, e.right
  {
    && e.kind == BinKind(t)
    && e.left != null && e.right != null
    && e !in e.left.repr && e !in e.right.repr && e.left.repr !! e.right.repr
    && e.left.Valid() && e.right.Valid()
  }

  /** Brings the ghost fields of a node up to date. */
  ghost method Refresh(e: Node, t: Op)
    requires ChildrenValid(e, t)
    modifies e`tree, e`repr
    ensures e.Valid() && e.repr == {e} + e.left.repr + e.right.repr
    ensures e.tree == Bin(t, e.left.tree, e.right.tree)
  {
    e.tree, e.repr := Bin(t, e.left.tree, e.right.tree), {e} + e.left.repr + e.right.repr;
  }

  method StoreLeft(e: Node, t: Op, x: Node)
    requires e.kind == BinKind(t) && e.right != null && e.right.Valid() && x.Valid()
    requires e !in e.right.repr && e !in x.repr && x.repr !! e.right.repr
    modifies e
    ensures e.Valid() && e.repr == {e} + x.repr + old(e.right).repr
    ensures e.tree == Bin(t, x.tree, old(e.right).tree)
  {
    e.left := x;
    Refresh(e, t);
  }

  method StoreRight(e: Node, t: Op, x: Node)
    requires e.kind == BinKind(t) && e.left != null && e.left.Valid() && x.Valid()
    requires e !in e.left.repr && e !in x.repr && x.repr !! e.left.repr
    modifies e
    ensures e.Valid() && e.repr == {e} + old(e.left).repr + x.repr
    ensures e.tree == Bin(t, old(e.left).tree, x.tree)
  {
    e.right := x;
    Refresh(e, t);
  }

  method FoldNode(e: Node, ghost t: Op)
    requires ChildrenValid(e, t)
    modifies e
    ensures e.Valid() && e.repr <= {e} + old(e.left.repr) + old(e.right.repr)
    ensures e.tree == Rewrites.Fold(t, old(e.left.tree), old(e.right.tree))
  {
    var absorbing, neutral := if e.kind == KAnd then No else Yes, if e.kind == KAnd then Yes else No;
    var l, r := e.left, e.right;
    if l.kind == KSymbol && l.lsym == absorbing {
      e.BecomeSymbol(absorbing);
    } else if l.kind == KSymbol && l.lsym == neutral {
      e.Become(r);
    } else if r.kind == KSymbol && r.lsym == absorbing {
      e.BecomeSymbol(absorbing);
    } else if r.kind == KSymbol && r.lsym == neutral {
      e.Become(l);
    } else {
      Refresh(e, t);
    }
  }

  method EliminateYn(e: Node)
    requires e.Valid()
    modifies e.repr
    ensures e.Valid() && e.repr <= old(e.repr)
    ensures e.tree == Rewrites.EliminateYn(old(e.tree))
    decreases e.repr
  {
    if e.kind == KAnd || e.kind == KOr {
      ghost var t := e.tree.op;
      EliminateYn(e.left);
      EliminateYn(e.right);
      FoldNode(e, t);
    }
  }

  method TransBool(e: Node)
    requires e.Valid()
    modifies e.repr
    ensures e.Valid() && e.repr <= old(e.repr)
    ensures e.tree == Rewrites.TransBool(old(e.tree))
    decreases e.repr
  {
    if e.kind == KAnd || e.kind == KOr {
      TransBool(e.left);
      TransBool(e.right);
      e.tree := Bin(e.tree.op, e.left.tree, e.right.tree);
      e.repr := {e} + e.left.repr + e.right.repr;
    } else if e.kind == KNot {
      TransBool(e.left);
      e.tree := Not(e.left.tree);
      e.repr := {e} + e.left.repr;
    } else if e.kind == KUnequal {
      if e.lsym.Type() == TTristate && e.rsym == No {
        e.kind := KSymbol;
        e.tree := Sym(e.lsym);
      }
    }
  }

  /** Comparing a boolean symbol with y, m or n. */
  method TransformComparison(e: Node)
    requires e.Valid() && (e.kind == KEqual || e.kind == KUnequal)
    modifies e.repr
    ensures e.Valid() && fresh(e.repr - old(e.repr))
    ensures e.tree == Rewrites.Transform(old(e.tree))
  {
    if e.lsym.Type() == TBoolean {
      var positive := if e.kind == KEqual then Yes else No;
      var negative := if e.kind == KEqual then No else Yes;
      if e.rsym == negative {
        var x := new Node.OfSymbol(e.lsym);
        e.kind, e.left := KNot, x;
        e.tree, e.repr := Not(x.tree), {e} + x.repr;
      } else if e.rsym == Mod {
        e.BecomeSymbol(negative);
      } else if e.rsym == positive {
        e.BecomeSymbol(e.lsym);
      }
    }
  }

  method Transform(e: Node) returns (r: Node)
    requires e.Valid()
    modifies e.repr
    ensures r.Valid() && fresh(r.repr - old(e.repr))
    ensures r.tree == Rewrites.Transform(old(e.tree))
    decreases Rewrites.Weight(e.tree), 1
  {
    if e.kind == KSymbol {
      r := e;
    } else if e.kind == KEqual || e.kind == KUnequal {
      TransformComparison(e);
      r := e;
    } else if e.kind == KNot {
      var x := Transform(e.left);
      e.left := x;
      r := Negate(e);
    } else {
      TransformBoth(e);
      r := e;
    }
  }

  method TransformBoth(e: Node)
    requires e.Valid() && e.tree.Bin?
    modifies e.repr
    ensures e.Valid() && fresh(e.repr - old(e.repr))
    ensures e.tree == Rewrites.Transform(old(e.tree))
    decreases Rewrites.Weight(e.tree), 0
  {
    ghost var t := e.tree.op;
    ghost var rrepr := e.right.repr;
    e.left := Transform(e.left);
    assert e.left.repr !! rrepr;
    e.right := Transform(e.right);
    Refresh(e, t);
  }

  /** e is a negation whose operand is transformed already. */
  method Negate(e: Node) returns (r: Node)
    requires e.kind == KNot && e.left != null && e.left.Valid() && e !in e.left.repr
    modifies e, e.left.repr
    ensures r.Valid() && fresh(r.repr - {e} - old(e.left.repr))
    ensures r.tree == Rewrites.Negate(old(e.left.tree))
    decreases 2 * Rewrites.Weight(e.left.tree), 0
  {
    var tmp := e.left;
    if tmp.kind == KNot {
      r := Transform(tmp.left);
    } else if tmp.kind == KEqual {
      tmp.kind, tmp.tree := KUnequal, Unequal(tmp.lsym, tmp.rsym);
      r := tmp;
    } else if tmp.kind == KUnequal {
      tmp.kind, tmp.tree := KEqual, Equal(tmp.lsym, tmp.rsym);
      r := tmp;
    } else if tmp.kind == KSymbol {
      if tmp.lsym == Yes {
        tmp.lsym, tmp.tree := No, Sym(No);
        r := tmp;
      } else if tmp.lsym == Mod {
        r := tmp;
      } else if tmp.lsym == No {
        tmp.lsym, tmp.tree := Yes, Sym(Yes);
        r := tmp;
      } else {
        e.tree, e.repr := Not(tmp.tree), {e} + tmp.repr;
        r := e;
      }
    } else {
      Rewrites.DeMorganIsLighter(tmp.tree.op, tmp.tree.l, tmp.tree.r);
      PushNot(e);
      r := Transform(e);
    }
  }

  /** One De Morgan step, which reuses the operand's node for the negation of its left half. */
  method PushNot(e: Node)
    requires e.kind == KNot && e.left != null && e.left.Valid() && e !in e.left.repr && e.left.tree.Bin?
    modifies e, e.left
    ensures e.Valid() && fresh(e.repr - {e} - old(e.left.repr))
    ensures var Bin(t, l, r) := old(e.left.tree); e.tree == Bin(Dual(t), Not(l), Not(r))
  {
    var tmp := e.left;
    ghost var Bin(t, l, r) := tmp.tree;
    var n := new Node.OfNot(tmp.right);
    e.kind := if tmp.kind == KOr then KAnd else KOr;
    e.right := n;
    tmp.kind, tmp.right := KNot, null;
    tmp.tree, tmp.repr := Not(l), {tmp} + tmp.left.repr;
    e.tree, e.repr := Bin(Dual(t), tmp.tree, n.tree), {e} + tmp.repr + n.repr;
  }

  /** Each pointer-to-pointer parameter is an argument and a result: the caller stores the result where
      the argument came from. */
  method ElimEqIn(t: Op, e1: Node, e2: Node) returns (n1: Node, n2: Node)
    requires e1.Valid() && e2.Valid() && e1.repr !! e2.repr
    modifies e1.repr, e2.repr
    ensures n1.Valid() && n2.Valid() && n1.repr !! n2.repr
    ensures fresh(n1.repr + n2.repr - old(e1.repr + e2.repr))
    ensures (n1.tree, n2.tree) == Equality.ElimEqIn(t, old(e1.tree), old(e2.tree))
    decreases Size(e1.tree) + Size(e2.tree), if IsOp(t, e1.tree) || IsOp(t, e2.tree) then 0 else 4
  {
    if e1.kind == BinKind(t) {
      n2 := ElimEqLeftOf1(t, e1, e2);
      n2 := ElimEqRightOf1(t, e1, n2);
      n1 := e1;
    } else if e2.kind == BinKind(t) {
      n1 := ElimEqLeftOf2(t, e1, e2);
      n1 := ElimEqRightOf2(t, n1, e2);
      n2 := e2;
    } else if e1.kind == KSymbol && e2.kind == KSymbol && e1.lsym == e2.lsym && e1.lsym.HasYesOrNoFlag() {
      n1, n2 := e1, e2;
    } else {
      var eq := ExprEq(e1, e2);
      if eq {
        n1 := new Node.OfSymbol(if t == And then Yes else No);
        n2 := new Node.OfSymbol(if t == And then Yes else No);
      } else {
        n1, n2 := e1, e2;
      }
    }
  }

  /** The two halves of a t-node e as first argument, one after the other. */
  method ElimEqLeftOf1(t: Op, e: Node, o: Node) returns (n: Node)
    requires e.Valid() && o.Valid() && e.repr !! o.repr && IsOp(t, e.tree)
    modifies e.repr, o.repr
    ensures e.Valid() && n.Valid() && e.repr !! n.repr
    ensures fresh(e.repr + n.repr - old(e.repr + o.repr))
    ensures var (x, y) := Equality.ElimEqIn(t, old(e.tree).l, old(o.tree));
      e.tree == Bin(t, x, old(e.tree).r) && n.tree == y
    decreases Size(e.tree) + Size(o.tree), 0, 0
  {
    var x, kept := e.left, e.right;
    x, n := ElimEqIn(t, e.left, o);
    assert (x.repr + n.repr) !! kept.repr && e !in x.repr + n.repr && kept.Valid();
    StoreLeft(e, t, x);
  }

  method ElimEqRightOf1(t: Op, e: Node, o: Node) returns (n: Node)
    requires e.Valid() && o.Valid() && e.repr !! o.repr && IsOp(t, e.tree)
    modifies e.repr, o.repr
    ensures e.Valid() && n.Valid() && e.repr !! n.repr
    ensures fresh(e.repr + n.repr - old(e.repr + o.repr))
    ensures var (x, y) := Equality.ElimEqIn(t, old(e.tree).r, old(o.tree));
      e.tree == Bin(t, old(e.tree).l, x) && n.tree == y
    decreases Size(e.tree) + Size(o.tree), 0, 0
  {
    var x, kept := e.right, e.left;
    x, n := ElimEqIn(t, e.right, o);
    assert (x.repr + n.repr) !! kept.repr && e !in x.repr + n.repr && kept.Valid();
    StoreRight(e, t, x);
  }

  /** The two halves of a t-node e as second argument. */
  method ElimEqLeftOf2(t: Op, o: Node, e: Node) returns (n: Node)
    requires e.Valid() && o.Valid() && e.repr !! o.repr && IsOp(t, e.tree)
    modifies e.repr, o.repr
    ensures e.Valid() && n.Valid() && e.repr !! n.repr
    ensures fresh(e.repr + n.repr - old(e.repr + o.repr))
    ensures var (x, y) := Equality.ElimEqIn(t, old(o.tree), old(e.tree).l);
      n.tree == x && e.tree == Bin(t, y, old(e.tree).r)
    decreases Size(o.tree) + Size(e.tree), 0, 0
  {
    var x, kept := e.left, e.right;
    n, x := ElimEqIn(t, o, e.left);
    assert (x.repr + n.repr) !! kept.repr && e !in x.repr + n.repr && kept.Valid();
    StoreLeft(e, t, x);
  }

  method ElimEqRightOf2(t: Op, o: Node, e: Node) returns (n: Node)
    requires e.Valid() && o.Valid() && e.repr !! o.repr && IsOp(t, e.tree)
    modifies e.repr, o.repr
    ensures e.Valid() && n.Valid() && e.repr !! n.repr
    ensures fresh(e.repr + n.repr - old(e.repr + o.repr))
    ensures var (x, y) := Equality.ElimEqIn(t, old(o.tree), old(e.tree).r);
      n.tree == x && e.tree == Bin(t, old(e.tree).l, y)
    decreases Size(o.tree) + Size(e.tree), 0, 0
  {
    var x, kept := e.right, e.left;
    n, x := ElimEqIn(t, o, e.right);
    assert (x.repr + n.repr) !! kept.repr && e !in x.repr + n.repr && kept.Valid();
    StoreRight(e, t, x);
  }

  method FoldBoth(e1: Node, e2: Node)
    requires e1.Valid() && e2.Valid() && e1.repr !! e2.repr
    modifies e1.repr, e2.repr
    ensures e1.Valid() && e2.Valid() && e1.repr !! e2.repr
    ensures e1.repr <= old(e1.repr) && e2.repr <= old(e2.repr)
    ensures e1.tree == Rewrites.EliminateYn(old(e1.tree)) && e2.tree == Rewrites.EliminateYn(old(e2.tree))
  {
    EliminateYn(e1);
    EliminateYn(e2);
  }

  method CancelFirst(e1: Node, e2: Node) returns (n1: Node, n2: Node)
    requires e1.Valid() && e2.Valid() && e1.repr !! e2.repr
    modifies e1.repr, e2.repr
    ensures n1.Valid() && n2.Valid() && n1.repr !! n2.repr
    ensures fresh(n1.repr + n2.repr - old(e1.repr + e2.repr))
    ensures (n1.tree, n2.tree) == Equality.CancelFirst(old(e1.tree), old(e2.tree))
    decreases Size(e1.tree) + Size(e2.tree), 1
  {
    n1, n2 := e1, e2;
    if e1.kind == KOr || e1.kind == KAnd {
      n1, n2 := ElimEqIn(if e1.kind == KAnd then And else Or, e1, e2);
    }
  }

  method CancelSecond(e1: Node, e2: Node) returns (n1: Node, n2: Node)
    requires e1.Valid() && e2.Valid() && e1.repr !! e2.repr
    modifies e1.repr, e2.repr
    ensures n1.Valid() && n2.Valid() && n1.repr !! n2.repr
    ensures fresh(n1.repr + n2.repr - old(e1.repr + e2.repr))
    ensures (n1.tree, n2.tree) == Equality.CancelSecond(old(e1.tree), old(e2.tree))
    decreases Size(e1.tree) + Size(e2.tree), 1
  {
    n1, n2 := e1, e2;
    if e1.kind != e2.kind && (e2.kind == KOr || e2.kind == KAnd) {
      n1, n2 := ElimEqIn(if e2.kind == KAnd then And else Or, e1, e2);
    }
  }

  method EliminateEq(e1: Node, e2: Node) returns (n1: Node, n2: Node)
    requires e1.Valid() && e2.Valid() && e1.repr !! e2.repr
    modifies e1.repr, e2.repr
    ensures n1.Valid() && n2.Valid() && n1.repr !! n2.repr
    ensures fresh(n1.repr + n2.repr - old(e1.repr + e2.repr))
    ensures (n1.tree, n2.tree) == Equality.EliminateEq(old(e1.tree), old(e2.tree))
    decreases Size(e1.tree) + Size(e2.tree), 2
  {
    n1, n2 := CancelFirst(e1, e2);
    n1, n2 := CancelSecond(n1, n2);
    FoldBoth(n1, n2);
  }

  /** The arguments are only read: the cancelling runs on copies. */
  method ExprEq(e1: Node, e2: Node) returns (res: bool)
    requires e1.Valid() && e2.Valid()
    ensures res == Equality.ExprEq(e1.tree, e2.tree)
    decreases Size(e1.tree) + Size(e2.tree), 3
  {
    if e1.kind != e2.kind {
      return false;
    }
    if e1.kind == KEqual || e1.kind == KUnequal {
      return e1.lsym == e2.lsym && e1.rsym == e2.rsym;
    } else if e1.kind == KSymbol {
      return e1.lsym == e2.lsym;
    } else if e1.kind == KNot {
      res := ExprEq(e1.left, e2.left);
    } else {
      var c1 := Copy(e1);
      var c2 := Copy(e2);
      c1, c2 := EliminateEq(c1, c2);
      res := c1.kind == KSymbol && c2.kind == KSymbol && c1.lsym == c2.lsym;
    }
  }
}
