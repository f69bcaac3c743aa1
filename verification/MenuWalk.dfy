/** The walk of conf_write over the finalized menu: no stack, only the list, next and parent pointers. */
module MenuWalk {
  import opened Exprs
  import opened Menus

  /** What is left to do above the current list: for each enclosing entry, the rest of its own list. */
  datatype Context = Top | Within(rest: Forest, outer: Context)

  function ContextOrder(ctx: Context): seq<Id> {
    match ctx
    case Top => []
    case Within(rest, outer) => Preorder(rest) + ContextOrder(outer)
  }

  /** Climbing from a list that belongs to parent leads through ctx to the root and there ends. */
  ghost predicate Climbs(ms: MenuMap, root: Id, parent: Ptr, ctx: Context)
    decreases ctx
  {
    match ctx
    case Top => parent == Some(root) && Get(ms, root).next == None && Get(ms, root).parent == None
    case Within(rest, outer) =>
      && parent.Some?
      && Linked(ms, Get(ms, parent.value).next, Get(ms, parent.value).parent, rest, None)
      && Climbs(ms, root, Get(ms, parent.value).parent, outer)
  }

  /** From an entry whose list is exhausted to the next entry in order, or to the end. */
  method Climb(ms: MenuMap, root: Id, from: Id, ghost ctx0: Context)
      returns (menu: Ptr, ghost todo: Forest, ghost ctx: Context)
    requires Climbs(ms, root, Get(ms, from).parent, ctx0)
    ensures menu.None? ==> ContextOrder(ctx0) == []
    ensures menu.Some? ==>
      && Linked(ms, menu, Get(ms, menu.value).parent, todo, None)
      && Climbs(ms, root, Get(ms, menu.value).parent, ctx)
      && Preorder(todo) + ContextOrder(ctx) == ContextOrder(ctx0)
  {
    menu, ctx, todo := Some(from), ctx0, Nil;
    ghost var atRoot := false;
    while true
      invariant menu.Some?
      invariant !atRoot ==> Climbs(ms, root, Get(ms, menu.value).parent, ctx) && ContextOrder(ctx) == ContextOrder(ctx0)
      invariant atRoot ==> Get(ms, menu.value).parent == None && ContextOrder(ctx0) == []
      decreases !atRoot, ctx
    {
      menu := Get(ms, menu.value).parent;
      if menu.None? {
        break;
      }
      if Get(ms, menu.value).next.Some? {
        todo, ctx := ctx.rest, ctx.outer;
        menu := Get(ms, menu.value).next;
        break;
      }
      if ctx.Top? {
        atRoot := true;
      } else {
        assert ctx.rest == Nil;
        ctx := ctx.outer;
      }
    }
  }

  /** Visits every entry once, in the order of the tree, and ends. */
  method Walk(ms: MenuMap, root: Id, ghost f: Forest) returns (visited: seq<Id>)
    requires Linked(ms, Get(ms, root).list, Some(root), f, None)
    requires Get(ms, root).next == None && Get(ms, root).parent == None
    ensures visited == Preorder(f)
  {
    visited := [];
    var menu := Get(ms, root).list;
    ghost var todo, ctx := f, Top;
    while menu.Some?
      invariant menu.Some? ==>
        && Linked(ms, menu, Get(ms, menu.value).parent, todo, None)
        && Climbs(ms, root, Get(ms, menu.value).parent, ctx)
        && visited + (Preorder(todo) + ContextOrder(ctx)) == Preorder(f)
      invariant menu.None? ==> visited == Preorder(f)
      decreases |Preorder(f)| - |visited|
    {
      var m := menu.value;
      ghost var kids, rest := todo.kids, todo.rest;
      VisitOrder(m, kids, rest, ContextOrder(ctx), visited);
      visited := visited + [m];
      if Get(ms, m).list.Some? {
        menu := Get(ms, m).list;
        todo, ctx := kids, Within(rest, ctx);
      } else if Get(ms, m).next.Some? {
        menu := Get(ms, m).next;
        todo := rest;
      } else {
        menu, todo, ctx := Climb(ms, root, m, ctx);
      }
    }
  }

  lemma VisitOrder(m: Id, kids: Forest, rest: Forest, above: seq<Id>, visited: seq<Id>)
    ensures visited + (Preorder(Node(m, kids, rest)) + above)
         == (visited + [m]) + (Preorder(kids) + (Preorder(rest) + above))
    ensures kids == Nil ==> visited + (Preorder(Node(m, kids, rest)) + above) == (visited + [m]) + (Preorder(rest) + above)
    ensures kids == Nil && rest == Nil ==> visited + (Preorder(Node(m, kids, rest)) + above) == (visited + [m]) + above
  {
    assert Preorder(Node(m, kids, rest)) == [m] + Preorder(kids) + Preorder(rest);
    if kids == Nil {
      assert Preorder(kids) + (Preorder(rest) + above) == Preorder(rest) + above;
      if rest == Nil { assert Preorder(rest) + above == above; }
    }
  }

  lemma WholeTree(root: Id, f: Forest)
    ensures SetOf(Preorder(f)) + SelBetween(Nil, Nil) == SetOf(Preorder(f))
    ensures {root} + SetOf(Preorder(f)) + FinBetween(Nil, Nil) == SetOf([root] + Preorder(f))
  {
    BetweenOne(f, Nil, Nil);
  }

  /** Finalizing the whole menu keeps the order of the entries, and the walk of conf_write visits each of
      them exactly once in that order. Every reverse dependency is then the maximum over the selects of all
      entries, each under its final condition, and over the choices; and the new members of each choice with
      a prompt are the symbols of its final list, in order. */
  method FinalizeAndWalk(tree: MenuTree, root: Id, ghost f: Forest) returns (visited: seq<Id>, ghost f': Forest)
    requires Linked(tree.ms, Get(tree.ms, root).list, Some(root), f, None)
    requires Get(tree.ms, root).next == None && Get(tree.ms, root).parent == None
    requires Distinct([root] + Preorder(f))
    modifies tree
    ensures visited == Preorder(f) && Distinct(visited)
    ensures Linked(tree.ms, Get(tree.ms, root).list, Some(root), f', None)
    ensures Preorder(f') == Preorder(f) && Prompted(tree.ms, f')
    ensures Raised(tree.optional, old(tree.revDep), tree.revDep, tree.ms, SetOf(Preorder(f)), SetOf([root] + Preorder(f)))
    ensures Joined(tree.choices, tree.ms, old(tree.members), tree.members, Node(root, f', Nil))
    ensures Inherited(tree.choices, old(tree.ms), tree.ms, root, f)
    ensures Sourced(tree.choices, tree.ms, old(tree.members), tree.members, Node(root, f, Nil), Nil)
    ensures SameFixed(old(tree.ms), tree.ms) && SameData(Get(old(tree.ms), root), Get(tree.ms, root))
  {
    NodePreorder(root, f, Nil, f);
    DistinctParts([root], Preorder(f));
    ghost var rest', own;
    f', rest', own := tree.Finalize(root, f, Nil);
    assert rest' == Nil;
    assert Preorder(f') + Preorder(rest') == Preorder(f');
    assert Preorder(f) + Preorder(Nil) == Preorder(f);
    WholeTree(root, f);
    visited := Walk(tree.ms, root, f');
  }
}
