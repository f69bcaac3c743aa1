/** The configuration that the finalized menu stands for, as evaluation sees it. */
module MenuConfig {
  import opened Tristates
  import opened Exprs
  import opened SymbolRules
  import opened SymbolTheory
  import opened MenuDeps
  import opened MenuMeaning
  import opened Menus
  import opened MenuWalk

  function PropOf(p: MenuProp): Property {
    match p.kind
    case KPrompt => Prompt(p.visible)
    case KDefault(e) => Default(p.visible, e)
    case KRange(lo, hi) => Range(p.visible, lo, hi)
    case KSelect(t) => Select(p.visible, t)
  }

  /** The properties of a symbol, from all its entries in order. */
  function SymProps(ms: MenuMap, ids: seq<Id>, s: Symbol): seq<Property> {
    if ids == [] then []
    else
      var props := Get(ms, ids[0]).props;
      (if Get(ms, ids[0]).sym == Some(s) then seq(|props|, i requires 0 <= i < |props| => PropOf(props[i])) else [])
      + SymProps(ms, ids[1..], s)
  }

  ghost predicate IsMemberOf(choices: set<Symbol>, members: Members, s: Symbol, cs: Symbol) {
    cs in choices && s in MembersOf(members, cs)
  }

  ghost function RoleOf(choices: set<Symbol>, members: Members, s: Symbol): Role {
    if s in choices then ChoiceOf(MembersOf(members, s))
    else if exists cs :: IsMemberOf(choices, members, s, cs) then
      var cs :| IsMemberOf(choices, members, s, cs);
      MemberOf(cs)
    else Plain
  }

  ghost function ConfigOf(choices: set<Symbol>, ms: MenuMap, rev: RevDeps, members: Members, ids: seq<Id>,
                          modules: Option<Symbol>): Config {
    Config(map s | s in (set t | t in Syms(ms, ids)) + rev.Keys ::
             SymInfo(SymProps(ms, ids, s), Rev(rev, s), RoleOf(choices, members, s)),
           modules)
  }

  // ----- a prompt below a choice -----

  ghost predicate CanShow(e: OptExpr) {
    exists env :: WellTyped(env) && EvalOpt(e, env) != NO
  }

  function Without(env: Env, s: Symbol): Env {
    t => if t == s then Value(NO, "n") else env(t)
  }

  /** What an entry of a choice has got from the choice: a condition that is no while the choice is.  If it can be
      met at all, it mentions the choice, so that looking at it has the choice worked out. */
  lemma ShownMentionsChoice(cs: Symbol, a: Menu, i: nat)
    requires cs.IsBoolOrTristate() && i < |a.props|
    requires CanShow(Propagated(Some(Sym(cs)), a).props[i].visible)
    ensures cs in SymbolsOfOpt(Propagated(Some(Sym(cs)), a).props[i].visible)
  {
    var b := Propagated(Some(Sym(cs)), a);
    var w := b.props[i].visible;
    var env :| WellTyped(env) && EvalOpt(w, env) != NO;
    var env' := Without(env, cs);
    forall t
      ensures WellTypedAt(t, env'(t))
    {
      assert WellTypedAt(t, env(t));
    }
    EntryStep(a, b, Some(Sym(cs)), NO, false, env');
    assert EvalOpt(w, env') == NO;
    if cs !in SymbolsOfOpt(w) && w.Some? {
      EvalDependsOnSymbols(w.value, env, env');
    }
  }

  // ----- entries of a forest -----

  /** x is an entry of f with the list kids. */
  ghost predicate KidsOf(f: Forest, x: Id, kids: Forest) {
    f.Node? && ((f.id == x && f.kids == kids) || KidsOf(f.kids, x, kids) || KidsOf(f.rest, x, kids))
  }

  lemma {:induction false} NodeOf(choices: set<Symbol>, a: MenuMap, b: MenuMap, m0: Members, m1: Members,
                                  p: Id, f: Forest, x: Id) returns (kids: Forest)
    requires x in Preorder(f) && Inherited(choices, a, b, p, f) && Drawn(choices, b, m0, m1, f)
    ensures KidsOf(f, x, kids) && forall y :: y in Preorder(kids) ==> y in Preorder(f)
    ensures DrawnAt(choices, b, m0, m1, x, kids) && Inherited(choices, a, b, x, kids)
    decreases f
  {
    if f.id == x {
      kids := f.kids;
    } else if x in Preorder(f.kids) {
      kids := NodeOf(choices, a, b, m0, m1, f.id, f.kids, x);
    } else {
      kids := NodeOf(choices, a, b, m0, m1, p, f.rest, x);
    }
  }

  lemma {:induction false} InheritedTop(choices: set<Symbol>, a: MenuMap, b: MenuMap, p: Id, f: Forest, y: Id)
    requires Inherited(choices, a, b, p, f) && y in Tops(f)
    ensures SameData(Get(b, y), Propagated(ParentDep(b, choices, p), Get(a, y)))
  {
    if f.id != y { InheritedTop(choices, a, b, p, f.rest, y); }
  }

  lemma {:induction false} PropIn(ms: MenuMap, ids: seq<Id>, s: Symbol, y: Id, i: nat)
    requires y in ids && Get(ms, y).sym == Some(s) && i < |Get(ms, y).props|
    ensures PropOf(Get(ms, y).props[i]) in SymProps(ms, ids, s)
  {
    if ids[0] == y {
      var props := Get(ms, y).props;
      assert seq(|props|, k requires 0 <= k < |props| => PropOf(props[k]))[i] == PropOf(props[i]);
    } else {
      PropIn(ms, ids[1..], s, y, i);
    }
  }

  // ----- what the parser and the types provide -----

  /** The entry y in the list of a choice: it has a prompt that can be shown, and its symbol is of a type that a
      choice can have, and no choice itself. */
  ghost predicate ValueEntry(choices: set<Symbol>, a: MenuMap, cs: Symbol, y: Id) {
    var menu := Get(a, y);
    && menu.prompt.Some? && menu.prompt.value < |menu.props| && menu.props[menu.prompt.value].kind == KPrompt
    && (menu.sym.Some? ==> menu.sym.value.IsBoolOrTristate() && menu.sym.value !in choices)
    && CanShow(Propagated(Some(Sym(cs)), menu).props[menu.prompt.value].visible)
  }

  ghost predicate ChoiceBlock(choices: set<Symbol>, a: MenuMap, cs: Symbol, kids: Forest) {
    cs.IsBoolOrTristate() && kids.Node? && forall y :: y in Tops(kids) ==> ValueEntry(choices, a, cs, y)
  }

  /** Every choice is one block of such entries; no symbol is a value of two choices, and the defaults of a choice
      name its values. */
  ghost predicate WellParsed(choices: set<Symbol>, a: MenuMap, members: Members, f: Forest) {
    && OneEntryEach(choices, a)
    && (forall cs :: cs in choices ==> exists x :: x in Preorder(f) && Get(a, x).sym == Some(cs))
    && (forall x, kids :: KidsOf(f, x, kids) && IsChoice(choices, a, x) ==> ChoiceBlock(choices, a, Get(a, x).sym.value, kids))
    && (forall s, cs, cs' :: IsMemberOf(choices, members, s, cs) && IsMemberOf(choices, members, s, cs') ==> cs == cs')
    && (forall x :: x in Preorder(f) && IsChoice(choices, a, x) ==> NamesMembers(Get(a, x), members))
  }

  predicate NamesMembers(menu: Menu, members: Members)
    requires menu.sym.Some?
  {
    forall p :: p in menu.props && p.kind.KDefault? ==>
      p.kind.value.Sym? && p.kind.value.s in MembersOf(members, menu.sym.value)
  }

  // ----- the configuration is in order -----

  /** A member of a choice has an entry in its list, and so a prompt that mentions the choice. */
  lemma MemberFits(choices: set<Symbol>, a: MenuMap, b: MenuMap, members: Members, root: Id, f: Forest, s: Symbol, cs: Symbol)
    requires SameFixed(a, b) && WellParsed(choices, a, members, Node(root, f, Nil)) && IsMemberOf(choices, members, s, cs)
    requires Inherited(choices, a, b, root, f) && Drawn(choices, b, map[], members, Node(root, f, Nil))
    ensures s.IsBoolOrTristate() && s !in choices && s in Syms(b, Preorder(Node(root, f, Nil)))
    ensures MentionsIn(SymProps(b, Preorder(Node(root, f, Nil)), s), cs) && cs.IsBoolOrTristate()
  {
    var all := Node(root, f, Nil);
    var ids := Preorder(all);
    var x :| x in ids && Get(a, x).sym == Some(cs);
    assert Get(b, x).sym == Get(a, x).sym;
    var kids := BlockOf(choices, a, b, members, root, f, x);
    var y := ValueOf(choices, a, b, members, x, kids, s);
    TopsInPreorder(kids);
    SymIn(b, ids, y);
    InheritedTop(choices, a, b, x, kids, y);
    assert ValueEntry(choices, a, cs, y) && Get(a, y).sym == Get(b, y).sym;
    var i := Get(a, y).prompt.value;
    ShownMentionsChoice(cs, Get(a, y), i);
    PropIn(b, ids, s, y, i);
    assert PropOf(Get(b, y).props[i]) == Prompt(Propagated(Some(Sym(cs)), Get(a, y)).props[i].visible);
  }

  lemma BlockOf(choices: set<Symbol>, a: MenuMap, b: MenuMap, members: Members, root: Id, f: Forest, x: Id)
    returns (kids: Forest)
    requires SameFixed(a, b) && WellParsed(choices, a, members, Node(root, f, Nil))
    requires x in Preorder(Node(root, f, Nil)) && IsChoice(choices, a, x)
    requires Inherited(choices, a, b, root, f) && Drawn(choices, b, map[], members, Node(root, f, Nil))
    ensures forall y :: y in Preorder(kids) ==> y in Preorder(Node(root, f, Nil))
    ensures ChoiceBlock(choices, a, Get(a, x).sym.value, kids)
    ensures DrawnAt(choices, b, map[], members, x, kids) && Inherited(choices, a, b, x, kids)
  {
    var all := Node(root, f, Nil);
    if x == root {
      kids := f;
    } else {
      kids := NodeOf(choices, a, b, map[], members, root, f, x);
    }
    assert KidsOf(all, x, kids);
  }

  lemma ValueOf(choices: set<Symbol>, a: MenuMap, b: MenuMap, members: Members, x: Id, kids: Forest, s: Symbol)
    returns (y: Id)
    requires SameFixed(a, b) && IsChoice(choices, a, x) && ChoiceBlock(choices, a, Get(a, x).sym.value, kids)
    requires DrawnAt(choices, b, map[], members, x, kids) && s in MembersOf(members, Get(a, x).sym.value)
    ensures y in Tops(kids) && Get(b, y).sym == Some(s)
  {
    assert Get(b, x).sym == Get(a, x).sym;
    forall z | z in Tops(kids)
      ensures Get(b, z).prompt.Some?
    {
      assert ValueEntry(choices, a, Get(a, x).sym.value, z) && Get(b, z).prompt == Get(a, z).prompt;
    }
    assert MembersOf(map[], Get(b, x).sym.value) == [];
    y := SymFrom(b, Tops(kids), s);
  }

  lemma {:induction false} PropFrom(ms: MenuMap, ids: seq<Id>, s: Symbol, p: Property) returns (y: Id, i: nat)
    requires p in SymProps(ms, ids, s)
    ensures y in ids && Get(ms, y).sym == Some(s) && i < |Get(ms, y).props| && PropOf(Get(ms, y).props[i]) == p
  {
    var props := Get(ms, ids[0]).props;
    var own := seq(|props|, k requires 0 <= k < |props| => PropOf(props[k]));
    if Get(ms, ids[0]).sym == Some(s) && p in own {
      y := ids[0];
      i :| 0 <= i < |own| && own[i] == p;
    } else {
      y, i := PropFrom(ms, ids[1..], s, p);
    }
  }

  predicate SameKinds(a: Menu, b: Menu) {
    |a.props| == |b.props| && forall i :: 0 <= i < |a.props| ==> a.props[i].kind == b.props[i].kind
  }

  lemma {:induction false} KindsKept(choices: set<Symbol>, a: MenuMap, b: MenuMap, p: Id, f: Forest, y: Id)
    requires Inherited(choices, a, b, p, f) && y in Preorder(f)
    ensures SameKinds(Get(a, y), Get(b, y))
    decreases f
  {
    if f.id != y {
      if y in Preorder(f.kids) {
        KindsKept(choices, a, b, f.id, f.kids, y);
      } else {
        KindsKept(choices, a, b, p, f.rest, y);
      }
    }
  }

  /** The defaults of a choice name its members. */
  lemma DefaultsFit(choices: set<Symbol>, a: MenuMap, b: MenuMap, members: Members, root: Id, f: Forest, cs: Symbol, p: Property)
    requires SameFixed(a, b) && SameData(Get(a, root), Get(b, root)) && WellParsed(choices, a, members, Node(root, f, Nil))
    requires Inherited(choices, a, b, root, f) && cs in choices
    requires p in SymProps(b, Preorder(Node(root, f, Nil)), cs) && p.Default?
    ensures p.expr.Sym? && p.expr.s in MembersOf(members, cs)
  {
    var y, i := PropFrom(b, Preorder(Node(root, f, Nil)), cs, p);
    if y != root { KindsKept(choices, a, b, root, f, y); }
    assert Get(a, y).sym == Get(b, y).sym && IsChoice(choices, a, y) && NamesMembers(Get(a, y), members);
    assert Get(a, y).props[i] in Get(a, y).props && Get(a, y).props[i].kind == Get(b, y).props[i].kind;
  }

  lemma InfoOf(choices: set<Symbol>, b: MenuMap, members: Members, rev: RevDeps, modules: Option<Symbol>, ids: seq<Id>, s: Symbol)
    requires s in Syms(b, ids)
    ensures ConfigOf(choices, b, rev, members, ids, modules).Info(s)
         == SymInfo(SymProps(b, ids, s), Rev(rev, s), RoleOf(choices, members, s))
  {
    assert s in (set t | t in Syms(b, ids));
  }

  lemma RoleOfMember(choices: set<Symbol>, a: MenuMap, members: Members, f: Forest, s: Symbol, cs: Symbol)
    requires WellParsed(choices, a, members, f) && IsMemberOf(choices, members, s, cs) && s !in choices
    ensures RoleOf(choices, members, s) == MemberOf(cs)
  {
  }

  lemma ChoiceFits(choices: set<Symbol>, a: MenuMap, b: MenuMap, members: Members, rev: RevDeps, modules: Option<Symbol>,
                   root: Id, f: Forest, cs: Symbol)
    requires SameFixed(a, b) && SameData(Get(a, root), Get(b, root)) && WellParsed(choices, a, members, Node(root, f, Nil))
    requires Inherited(choices, a, b, root, f) && Drawn(choices, b, map[], members, Node(root, f, Nil)) && cs in choices
    ensures var c := ConfigOf(choices, b, rev, members, Preorder(Node(root, f, Nil)), modules);
      c.Info(cs).role == ChoiceOf(MembersOf(members, cs)) && ChoiceOkAt(c, cs)
  {
    var ids := Preorder(Node(root, f, Nil));
    var c := ConfigOf(choices, b, rev, members, ids, modules);
    ChoiceListed(choices, a, b, members, root, f, cs);
    InfoOf(choices, b, members, rev, modules, ids, cs);
    forall t | t in MembersOf(members, cs)
      ensures c.Info(t).role == MemberOf(cs) && t.IsBoolOrTristate()
    {
      MemberInfo(choices, a, b, members, rev, modules, root, f, t, cs);
    }
    forall p | p in SymProps(b, ids, cs) && p.Default?
      ensures p.expr.Sym? && p.expr.s in MembersOf(members, cs)
    {
      DefaultsFit(choices, a, b, members, root, f, cs, p);
    }
    ChoiceOkFrom(c, cs, SymProps(b, ids, cs), Rev(rev, cs), MembersOf(members, cs));
  }

  lemma ChoiceOkFrom(c: Config, cs: Symbol, props: seq<Property>, rev: OptExpr, members: seq<Symbol>)
    requires c.Info(cs) == SymInfo(props, rev, ChoiceOf(members)) && cs.IsBoolOrTristate()
    requires forall t :: t in members ==> c.Info(t).role == MemberOf(cs) && t.IsBoolOrTristate()
    requires forall p :: p in props && p.Default? ==> p.expr.Sym? && p.expr.s in members
    ensures ChoiceOkAt(c, cs)
  {
  }

  lemma MemberInfo(choices: set<Symbol>, a: MenuMap, b: MenuMap, members: Members, rev: RevDeps, modules: Option<Symbol>,
                   root: Id, f: Forest, t: Symbol, cs: Symbol)
    requires SameFixed(a, b) && WellParsed(choices, a, members, Node(root, f, Nil)) && IsMemberOf(choices, members, t, cs)
    requires Inherited(choices, a, b, root, f) && Drawn(choices, b, map[], members, Node(root, f, Nil))
    ensures ConfigOf(choices, b, rev, members, Preorder(Node(root, f, Nil)), modules).Info(t).role == MemberOf(cs)
    ensures t.IsBoolOrTristate()
  {
    MemberFits(choices, a, b, members, root, f, t, cs);
    InfoOf(choices, b, members, rev, modules, Preorder(Node(root, f, Nil)), t);
    RoleOfMember(choices, a, members, Node(root, f, Nil), t, cs);
  }

  lemma ChoiceListed(choices: set<Symbol>, a: MenuMap, b: MenuMap, members: Members, root: Id, f: Forest, cs: Symbol)
    requires SameFixed(a, b) && WellParsed(choices, a, members, Node(root, f, Nil)) && cs in choices
    requires Inherited(choices, a, b, root, f) && Drawn(choices, b, map[], members, Node(root, f, Nil))
    ensures cs in Syms(b, Preorder(Node(root, f, Nil))) && cs.IsBoolOrTristate()
  {
    var ids := Preorder(Node(root, f, Nil));
    var x :| x in ids && Get(a, x).sym == Some(cs);
    assert Get(b, x).sym == Get(a, x).sym;
    SymIn(b, ids, x);
    var _ := BlockOf(choices, a, b, members, root, f, x);
  }

  /** The configuration is one that evaluation is proved for. */
  lemma ConfigFits(choices: set<Symbol>, a: MenuMap, b: MenuMap, members: Members, rev: RevDeps, modules: Option<Symbol>,
                   root: Id, f: Forest, s: Symbol)
    requires SameFixed(a, b) && SameData(Get(a, root), Get(b, root)) && WellParsed(choices, a, members, Node(root, f, Nil))
    requires Inherited(choices, a, b, root, f) && Drawn(choices, b, map[], members, Node(root, f, Nil))
    ensures ChoiceOkAt(ConfigOf(choices, b, rev, members, Preorder(Node(root, f, Nil)), modules), s)
  {
    var c := ConfigOf(choices, b, rev, members, Preorder(Node(root, f, Nil)), modules);
    if c.IsChoice(s) {
      ChoiceFits(choices, a, b, members, rev, modules, root, f, s);
    } else if c.IsMember(s) {
      var cs := c.Info(s).role.choice;
      assert IsMemberOf(choices, members, s, cs);
      MemberFits(choices, a, b, members, root, f, s, cs);
      InfoOf(choices, b, members, rev, modules, Preorder(Node(root, f, Nil)), s);
      ChoiceFits(choices, a, b, members, rev, modules, root, f, cs);
    }
  }

  /** Finalizing a parsed menu leaves such a configuration. */
  method FinalizeToConfig(tree: MenuTree, root: Id, ghost f: Forest, ghost modules: Option<Symbol>)
      returns (visited: seq<Id>, ghost c: Config)
    requires Linked(tree.ms, Get(tree.ms, root).list, Some(root), f, None)
    requires Get(tree.ms, root).next == None && Get(tree.ms, root).parent == None
    requires Distinct([root] + Preorder(f)) && tree.members == map[] && OneEntryEach(tree.choices, tree.ms)
    modifies tree
    ensures visited == Preorder(f)
    ensures c == ConfigOf(tree.choices, tree.ms, tree.revDep, tree.members, [root] + visited, modules)
    ensures WellParsed(tree.choices, old(tree.ms), tree.members, Node(root, f, Nil)) ==> forall s :: ChoiceOkAt(c, s)
  {
    ghost var ms0 := tree.ms;
    ghost var f';
    visited, f' := FinalizeAndWalk(tree, root, f);
    c := ConfigOf(tree.choices, tree.ms, tree.revDep, tree.members, [root] + visited, modules);
    assert Preorder(Node(root, f, Nil)) == [root] + visited;
    SameChoices(tree.choices, ms0, tree.ms);
    if WellParsed(tree.choices, ms0, tree.members, Node(root, f, Nil)) {
      DrawnUpToIsDrawn(tree.choices, tree.ms, map[], tree.members, Node(root, f, Nil));
      forall s
        ensures ChoiceOkAt(c, s)
      {
        ConfigFits(tree.choices, ms0, tree.ms, tree.members, tree.revDep, modules, root, f, s);
      }
    }
  }
}
