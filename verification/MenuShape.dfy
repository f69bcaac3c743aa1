/** The shape of the finalized menu: which entries hoisting brings into a list, and what each keeps below it. */
module MenuShape {
  import opened Exprs
  import opened Rewrites
  import opened MenuDeps
  import opened Menus

  // ----- hoisting -----

  /** x is an entry of the list f itself, and kids is its own list. */
  predicate Holds(f: Forest, x: Id, kids: Forest) {
    f.Node? && ((f.id == x && f.kids == kids) || Holds(f.rest, x, kids))
  }

  /** x comes up to the list f: it is an entry of it, or of the list of an entry that comes up and has no prompt;
      and kids is what it keeps, which is its list if it has a prompt, and nothing otherwise. */
  ghost predicate ComesUp(ms: MenuMap, f: Forest, x: Id, kids: Forest) {
    f.Node? &&
    (|| (f.id == x && kids == if Get(ms, x).prompt.Some? then f.kids else Nil)
     || (Get(ms, f.id).prompt.None? && ComesUp(ms, f.kids, x, kids))
     || ComesUp(ms, f.rest, x, kids))
  }

  lemma {:induction false} ComesUpAppend(ms: MenuMap, f: Forest, g: Forest, x: Id, kids: Forest)
    ensures ComesUp(ms, Append(f, g), x, kids) <==> ComesUp(ms, f, x, kids) || ComesUp(ms, g, x, kids)
  {
    if f.Node? { ComesUpAppend(ms, f.rest, g, x, kids); }
  }

  /** After hoisting a list holds just what comes up to it. */
  lemma {:induction false} HoistedIff(ms: MenuMap, f: Forest, x: Id, kids: Forest)
    ensures Holds(Hoisted(ms, f), x, kids) <==> ComesUp(ms, f, x, kids)
    decreases |Preorder(f)|
  {
    match f
    case Nil =>
    case Node(id, own, rest) =>
      if own.Node? && Get(ms, id).prompt.None? {
        PreorderAppend(own, rest);
        HoistedIff(ms, Append(own, rest), x, kids);
        ComesUpAppend(ms, own, rest, x, kids);
      } else {
        HoistedIff(ms, rest, x, kids);
      }
  }

  // ----- conditions of entries that are not tristate -----

  /** No part that AND, OR and NOT lead to says of a tristate symbol that it is not n. */
  predicate NoNotN(e: Expr) {
    match e
    case Not(x) => NoNotN(x)
    case Bin(_, l, r) => NoNotN(l) && NoNotN(r)
    case Unequal(a, b) => a.Type() != TTristate || b != No
    case _ => true
  }

  lemma {:induction false} TransBoolFolds(e: Expr)
    ensures NoNotN(TransBool(e))
  {
    match e
    case Not(x) => TransBoolFolds(x);
    case Bin(_, l, r) =>
      TransBoolFolds(l);
      TransBoolFolds(r);
    case _ =>
  }

  /** Every property of an entry whose symbol is not tristate asks for a tristate symbol itself where it asked
      for its not being n. */
  lemma PropagatedFolds(parentdep: OptExpr, menu: Menu, i: nat)
    requires menu.sym.Some? && menu.sym.value.Type() != TTristate && i < |menu.props|
    ensures var v := Propagated(parentdep, menu).props[i].visible; v.Some? ==> NoNotN(v.value)
  {
    var dep := Inherit(Inherit(parentdep, menu.dep), menu.props[i].visible);
    if dep.Some? { TransBoolFolds(dep.value); }
  }
}
