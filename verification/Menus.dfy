/** The menu tree as linked entries: menu_finalize re-links it while it walks it, and conf_write walks the
    result by following pointers. */
module Menus {
  import opened Tristates
  import opened Exprs
  import opened MenuDeps

  type Id = nat
  type Ptr = Option<Id>

  datatype PropKind = KPrompt | KDefault(value: Expr) | KRange(lo: Symbol, hi: Symbol) | KSelect(target: Symbol)

  datatype MenuProp = MenuProp(kind: PropKind, visible: OptExpr)

  /** struct menu with the properties that belong to it; prompt says which of them carries the text. */
  datatype Menu = Menu(next: Ptr, list: Ptr, parent: Ptr, sym: Option<Symbol>, dep: OptExpr,
                       props: seq<MenuProp>, prompt: Option<nat>)

  type MenuMap = map<Id, Menu>

  function Get(ms: MenuMap, id: Id): Menu {
    if id in ms then ms[id] else Menu(None, None, None, None, None, [], None)
  }

  /** menu->prompt ? menu->prompt->visible.expr : menu->dep */
  function ShownIf(menu: Menu): OptExpr {
    if menu.prompt.Some? && menu.prompt.value < |menu.props| then menu.props[menu.prompt.value].visible else menu.dep
  }

  // ----- the forests that the pointers stand for -----

  /** The first entry of a list with what is below it, and the rest of the list. */
  datatype Forest = Nil | Node(id: Id, kids: Forest, rest: Forest)

  function Preorder(f: Forest): seq<Id> {
    match f
    case Nil => []
    case Node(id, kids, rest) => [id] + Preorder(kids) + Preorder(rest)
  }

  function Append(f: Forest, g: Forest): Forest {
    match f
    case Nil => g
    case Node(id, kids, rest) => Node(id, kids, Append(rest, g))
  }

  /** The entries of the list itself. */
  function Tops(f: Forest): seq<Id> {
    match f
    case Nil => []
    case Node(id, _, rest) => [id] + Tops(rest)
  }

  /** From first on, the pointers spell out f, every parent pointer names the entry whose list it is in,
      and the list goes on at end. */
  ghost predicate Linked(ms: MenuMap, first: Ptr, parent: Ptr, f: Forest, end: Ptr)
    decreases f
  {
    match f
    case Nil => first == end
    case Node(id, kids, rest) =>
      && first == Some(id) && Get(ms, id).parent == parent
      && Linked(ms, Get(ms, id).list, Some(id), kids, None)
      && Linked(ms, Get(ms, id).next, parent, rest, end)
  }

  ghost predicate Distinct(s: seq<Id>) {
    forall i, j :: 0 <= i < j < |s| ==> s[i] != s[j]
  }

  predicate SamePtr(a: Menu, b: Menu) {
    a.next == b.next && a.list == b.list && a.parent == b.parent
  }

  /** Symbol and prompt of an entry are never changed here. */
  ghost predicate SameFixed(a: MenuMap, b: MenuMap) {
    forall id :: Get(a, id).sym == Get(b, id).sym && Get(a, id).prompt == Get(b, id).prompt
  }

  ghost predicate SameOutside(a: MenuMap, b: MenuMap, ids: seq<Id>) {
    forall id :: id !in ids ==> SamePtr(Get(a, id), Get(b, id))
  }

  lemma {:induction false} LinkedFrame(a: MenuMap, b: MenuMap, first: Ptr, parent: Ptr, f: Forest, end: Ptr)
    requires Linked(a, first, parent, f, end)
    requires forall id :: id in Preorder(f) ==> SamePtr(Get(a, id), Get(b, id))
    ensures Linked(b, first, parent, f, end)
    decreases f
  {
    match f
    case Nil =>
    case Node(id, kids, rest) =>
      LinkedFrame(a, b, Get(a, id).list, Some(id), kids, None);
      LinkedFrame(a, b, Get(a, id).next, parent, rest, end);
  }

  lemma {:induction false} LinkedAppend(ms: MenuMap, first: Ptr, parent: Ptr, f: Forest, mid: Ptr, g: Forest, end: Ptr)
    requires Linked(ms, first, parent, f, mid) && Linked(ms, mid, parent, g, end)
    ensures Linked(ms, first, parent, Append(f, g), end)
    decreases f
  {
    match f
    case Nil =>
    case Node(id, _, rest) => LinkedAppend(ms, Get(ms, id).next, parent, rest, mid, g, end);
  }

  lemma {:induction false} PreorderAppend(f: Forest, g: Forest)
    ensures Preorder(Append(f, g)) == Preorder(f) + Preorder(g)
  {
    match f
    case Nil =>
    case Node(id, kids, rest) => PreorderAppend(rest, g);
  }

  function Last(f: Forest): Id
    requires f.Node?
  {
    if f.rest.Nil? then f.id else Last(f.rest)
  }

  lemma {:induction false} LastInPreorder(f: Forest)
    requires f.Node?
    ensures Last(f) in Preorder(f)
  {
    if f.rest.Node? { LastInPreorder(f.rest); }
  }

  lemma {:induction false} LastAppendOne(f: Forest, id: Id, kids: Forest)
    ensures Last(Append(f, Node(id, kids, Nil))) == id
  {
    if f.Node? { LastAppendOne(f.rest, id, kids); }
  }

  function WithNext(ms: MenuMap, id: Id, next: Ptr): MenuMap {
    ms[id := Get(ms, id).(next := next)]
  }

  lemma DistinctParts(a: seq<Id>, b: seq<Id>)
    requires Distinct(a + b)
    ensures Distinct(a) && Distinct(b)
    ensures forall x :: x in a ==> x !in b
  {
    assert forall i :: 0 <= i < |a| ==> a[i] == (a + b)[i];
    assert forall i :: 0 <= i < |b| ==> b[i] == (a + b)[|a| + i];
  }

  /** Overwriting the next pointer of the last entry moves the end of the list. */
  lemma {:induction false} LinkedNewEnd(ms: MenuMap, first: Ptr, parent: Ptr, f: Forest, end: Ptr, end': Ptr)
    requires Linked(ms, first, parent, f, end) && f.Node? && Distinct(Preorder(f))
    ensures Get(ms, Last(f)).next == end
    ensures Linked(WithNext(ms, Last(f), end'), first, parent, f, end')
    decreases f
  {
    var ms' := WithNext(ms, Last(f), end');
    var kids, rest := f.kids, f.rest;
    assert Preorder(f) == [f.id] + (Preorder(kids) + Preorder(rest));
    DistinctParts([f.id], Preorder(kids) + Preorder(rest));
    DistinctParts(Preorder(kids), Preorder(rest));
    assert f.id in [f.id];
    if rest.Node? {
      LastInPreorder(rest);
      LinkedFrame(ms, ms', Get(ms, f.id).list, Some(f.id), kids, None);
      LinkedNewEnd(ms, Get(ms, f.id).next, parent, rest, end, end');
    } else {
      LinkedFrame(ms, ms', Get(ms, f.id).list, Some(f.id), kids, None);
    }
  }

  // ----- entries without a prompt end up without a list -----

  ghost predicate Prompted(ms: MenuMap, f: Forest) {
    f.Node? ==>
      && (f.kids.Node? ==> Get(ms, f.id).prompt.Some?)
      && Prompted(ms, f.kids) && Prompted(ms, f.rest)
  }

  /** So it is everywhere except possibly for the entries of the list itself. */
  ghost predicate PromptedBelow(ms: MenuMap, f: Forest) {
    f.Node? ==> Prompted(ms, f.kids) && PromptedBelow(ms, f.rest)
  }

  lemma {:induction false} PromptedFrame(a: MenuMap, b: MenuMap, f: Forest)
    requires SameFixed(a, b)
    ensures Prompted(a, f) ==> Prompted(b, f)
    ensures PromptedBelow(a, f) ==> PromptedBelow(b, f)
  {
    if f.Node? {
      PromptedFrame(a, b, f.kids);
      PromptedFrame(a, b, f.rest);
    }
  }

  lemma {:induction false} PromptedAppend(ms: MenuMap, f: Forest, g: Forest)
    ensures Prompted(ms, f) && Prompted(ms, g) ==> Prompted(ms, Append(f, g))
    ensures PromptedBelow(ms, f) && PromptedBelow(ms, g) ==> PromptedBelow(ms, Append(f, g))
    ensures Prompted(ms, f) ==> PromptedBelow(ms, f)
  {
    if f.Node? { PromptedAppend(ms, f.rest, g); }
  }

  /** One step along a list: the entry m, rearranged below, joins the part that is done. */
  lemma StepLinked(a: MenuMap, b: MenuMap, first: Ptr, parent: Ptr, done: Forest, m: Id, kids: Forest)
    requires Linked(a, first, parent, done, Some(m))
    requires forall x :: x in Preorder(done) ==> SamePtr(Get(a, x), Get(b, x))
    requires Get(b, m).parent == parent && Linked(b, Get(b, m).list, Some(m), kids, None)
    ensures Linked(b, first, parent, Append(done, Node(m, kids, Nil)), Get(b, m).next)
  {
    LinkedFrame(a, b, first, parent, done, Some(m));
    var one := Node(m, kids, Nil);
    assert Linked(b, Get(b, m).next, parent, Nil, Get(b, m).next);
    assert Linked(b, Some(m), parent, one, Get(b, m).next);
    LinkedAppend(b, first, parent, done, Some(m), one, Get(b, m).next);
  }

  lemma Regroup(d: seq<Id>, m: seq<Id>, k: seq<Id>, r: seq<Id>, k': seq<Id>, r': seq<Id>)
    requires k' + r' == k + r
    ensures (d + ((m + k') + [])) + r' == d + ((m + k) + r)
  {
    assert (m + k') + [] == m + k';
    assert (d + (m + k')) + r' == d + (m + (k' + r'));
    assert (m + k) + r == m + (k + r);
  }

  lemma StepPreorder(done: Forest, m: Id, kids: Forest, rest: Forest, kids': Forest, rest': Forest)
    requires Preorder(kids') + Preorder(rest') == Preorder(kids) + Preorder(rest)
    ensures Preorder(Append(done, Node(m, kids', Nil))) + Preorder(rest')
         == Preorder(done) + Preorder(Node(m, kids, rest))
  {
    PreorderAppend(done, Node(m, kids', Nil));
    Regroup(Preorder(done), [m], Preorder(kids), Preorder(rest), Preorder(kids'), Preorder(rest'));
  }

  lemma DistinctNode(m: Id, kids: Forest, rest: Forest)
    requires Distinct(Preorder(Node(m, kids, rest)))
    ensures m !in Preorder(kids) && m !in Preorder(rest)
    ensures Distinct(Preorder(kids)) && Distinct(Preorder(rest))
    ensures forall x :: x in Preorder(kids) ==> x !in Preorder(rest)
  {
    assert Preorder(Node(m, kids, rest)) == [m] + (Preorder(kids) + Preorder(rest));
    DistinctParts([m], Preorder(kids) + Preorder(rest));
    DistinctParts(Preorder(kids), Preorder(rest));
    assert m in [m];
    assert forall x :: x in Preorder(kids) || x in Preorder(rest) ==> x in Preorder(kids) + Preorder(rest);
  }

  /** parentdep of menu_finalize */
  function ParentDep(ms: MenuMap, choices: set<Symbol>, p: Id): OptExpr {
    var menu := Get(ms, p);
    if menu.sym.Some? && menu.sym.value in choices then Some(Sym(menu.sym.value)) else ShownIf(menu)
  }

  function KeepsMod(menu: Menu): bool {
    menu.sym.None? || menu.sym.value.Type() == TTristate
  }

  /** An entry after its parent has passed its condition on to it. */
  function Propagated(parentdep: OptExpr, menu: Menu): Menu {
    var base := Inherit(parentdep, menu.dep);
    menu.(dep := base,
          props := seq(|menu.props|, i requires 0 <= i < |menu.props| =>
            menu.props[i].(visible := InheritVisible(base, menu.props[i].visible, KeepsMod(menu)))))
  }

  type RevDeps = map<Symbol, OptExpr>

  function Rev(rev: RevDeps, s: Symbol): OptExpr {
    if s in rev then rev[s] else None
  }

  function AddSelect(rev: RevDeps, sym: Option<Symbol>, prop: MenuProp): RevDeps {
    if prop.kind.KSelect? && sym.Some? then
      var t := prop.kind.target;
      rev[t := AllocOr(Rev(rev, t), AllocAnd(Some(Sym(sym.value)), prop.visible))]
    else rev
  }

  /** The selects among the first n properties. */
  function AddSelects(rev: RevDeps, sym: Option<Symbol>, props: seq<MenuProp>, n: nat): RevDeps
    requires n <= |props|
  {
    if n == 0 then rev else AddSelect(AddSelects(rev, sym, props, n - 1), sym, props[n - 1])
  }

  /** A reverse dependency that was never set means no. */
  function RevValue(rev: RevDeps, s: Symbol, env: Env): Tristate {
    if Rev(rev, s).Some? then Eval(Rev(rev, s).value, env) else NO
  }

  function SelectMax(sym: Option<Symbol>, props: seq<MenuProp>, n: nat, t: Symbol, env: Env): Tristate
    requires n <= |props|
  {
    if n == 0 then NO
    else
      var m := SelectMax(sym, props, n - 1, t, env);
      var p := props[n - 1];
      if p.kind == KSelect(t) && sym.Some? then Apply(Or, m, Apply(And, env(sym.value).tri, EvalOpt(p.visible, env))) else m
  }

  /** A symbol's reverse dependency is the strongest of what it was and of its selectors, each under the
      condition of its select. */
  lemma {:induction false} SelectsRaise(rev: RevDeps, sym: Option<Symbol>, props: seq<MenuProp>, n: nat, t: Symbol, env: Env)
    requires n <= |props|
    ensures RevValue(AddSelects(rev, sym, props, n), t, env)
         == Apply(Or, RevValue(rev, t, env), SelectMax(sym, props, n, t, env))
  {
    if n > 0 {
      SelectsRaise(rev, sym, props, n - 1, t, env);
      var r := AddSelects(rev, sym, props, n - 1);
      var p := props[n - 1];
      if p.kind == KSelect(t) && sym.Some? {
        var add := AllocAnd(Some(Sym(sym.value)), p.visible);
        assert Eval(Sym(sym.value), env) == env(sym.value).tri;
        assert Eval(add.value, env) == Apply(And, env(sym.value).tri, EvalOpt(p.visible, env));
        assert Rev(AddSelect(r, sym, p), t) == AllocOr(Rev(r, t), add);
        assert RevValue(AddSelect(r, sym, p), t, env) == Apply(Or, RevValue(r, t, env), Eval(add.value, env));
      } else {
        assert Rev(AddSelect(r, sym, p), t) == Rev(r, t);
      }
    }
  }

  // ----- reverse dependencies of many entries -----

  function SetOf(ids: seq<Id>): set<Id> {
    set x | x in ids
  }

  /** What the selects of an entry ask of t. */
  function SelectAt(ms: MenuMap, x: Id, t: Symbol, env: Env): Tristate {
    SelectMax(Get(ms, x).sym, Get(ms, x).props, |Get(ms, x).props|, t, env)
  }

  /** A choice that is not optional asks itself to be at least mod while its prompt can be shown. */
  function HeadAt(ms: MenuMap, optional: set<Symbol>, x: Id, t: Symbol, env: Env): Tristate {
    var menu := Get(ms, x);
    if menu.sym == Some(t) && t !in optional && menu.prompt.Some?
    then Apply(And, EvalOpt(PromptOf(menu), env), env(Symbol.Mod).tri) else NO
  }

  ghost predicate AnySelect(ms: MenuMap, sel: set<Id>, t: Symbol, env: Env, v: Tristate) {
    exists x :: x in sel && SelectAt(ms, x, t, env) >= v
  }

  ghost predicate AnyHead(ms: MenuMap, optional: set<Symbol>, fin: set<Id>, t: Symbol, env: Env, v: Tristate) {
    exists x :: x in fin && HeadAt(ms, optional, x, t, env) >= v
  }

  ghost predicate RaisedAt(optional: set<Symbol>, r0: RevDeps, r1: RevDeps, ms: MenuMap, sel: set<Id>, fin: set<Id>,
                           t: Symbol, env: Env, v: Tristate) {
    RevValue(r1, t, env) >= v <==>
      RevValue(r0, t, env) >= v || AnySelect(ms, sel, t, env, v) || AnyHead(ms, optional, fin, t, env, v)
  }

  /** Every reverse dependency is the maximum of what it was, of what the entries of sel select, and of what the
      choices of fin ask: it reaches v exactly if one of these does. */
  ghost predicate Raised(optional: set<Symbol>, r0: RevDeps, r1: RevDeps, ms: MenuMap, sel: set<Id>, fin: set<Id>) {
    forall t, env, v :: v != NO ==> RaisedAt(optional, r0, r1, ms, sel, fin, t, env, v)
  }

  lemma RaisedNone(optional: set<Symbol>, r: RevDeps, ms: MenuMap)
    ensures Raised(optional, r, r, ms, {}, {})
  {
    forall t, env, v
      ensures RaisedAt(optional, r, r, ms, {}, {}, t, env, v)
    {
    }
  }

  lemma RaisedTrans(optional: set<Symbol>, r0: RevDeps, r1: RevDeps, r2: RevDeps, ms: MenuMap, ms': MenuMap,
                    sel: set<Id>, fin: set<Id>, sel': set<Id>, fin': set<Id>)
    requires Raised(optional, r0, r1, ms, sel, fin) && Raised(optional, r1, r2, ms', sel', fin')
    requires SameFixed(ms, ms') && forall x :: x in sel + fin ==> SameData(Get(ms, x), Get(ms', x))
    ensures Raised(optional, r0, r2, ms', sel + sel', fin + fin')
  {
    forall t, env, v | v != NO
      ensures RaisedAt(optional, r0, r2, ms', sel + sel', fin + fin', t, env, v)
    {
      assert RaisedAt(optional, r0, r1, ms, sel, fin, t, env, v) && RaisedAt(optional, r1, r2, ms', sel', fin', t, env, v);
      AnySame(optional, ms, ms', sel, fin, t, env, v);
      assert AnySelect(ms', sel + sel', t, env, v) <==> AnySelect(ms', sel, t, env, v) || AnySelect(ms', sel', t, env, v);
      assert AnyHead(ms', optional, fin + fin', t, env, v) <==>
        AnyHead(ms', optional, fin, t, env, v) || AnyHead(ms', optional, fin', t, env, v);
    }
  }

  lemma AnySame(optional: set<Symbol>, ms: MenuMap, ms': MenuMap, sel: set<Id>, fin: set<Id>, t: Symbol, env: Env, v: Tristate)
    requires SameFixed(ms, ms') && forall x :: x in sel + fin ==> SameData(Get(ms, x), Get(ms', x))
    ensures AnySelect(ms, sel, t, env, v) <==> AnySelect(ms', sel, t, env, v)
    ensures AnyHead(ms, optional, fin, t, env, v) <==> AnyHead(ms', optional, fin, t, env, v)
  {
    forall x | x in sel + fin
      ensures SelectAt(ms, x, t, env) == SelectAt(ms', x, t, env)
      ensures HeadAt(ms, optional, x, t, env) == HeadAt(ms', optional, x, t, env)
    {
      assert SameData(Get(ms, x), Get(ms', x));
    }
  }

  lemma RaisedFrame(optional: set<Symbol>, r0: RevDeps, r1: RevDeps, ms: MenuMap, ms': MenuMap, sel: set<Id>, fin: set<Id>)
    requires Raised(optional, r0, r1, ms, sel, fin)
    requires SameFixed(ms, ms') && forall x :: x in sel + fin ==> SameData(Get(ms, x), Get(ms', x))
    ensures Raised(optional, r0, r1, ms', sel, fin)
  {
    RaisedNone(optional, r1, ms');
    RaisedTrans(optional, r0, r1, r1, ms, ms', sel, fin, {}, {});
    assert sel + {} == sel && fin + {} == fin;
  }

  /** One entry's selects. */
  lemma RaisedEntry(optional: set<Symbol>, r: RevDeps, ms: MenuMap, m: Id)
    ensures Raised(optional, r, AddSelects(r, Get(ms, m).sym, Get(ms, m).props, |Get(ms, m).props|), ms, {m}, {})
  {
    var menu := Get(ms, m);
    var r' := AddSelects(r, menu.sym, menu.props, |menu.props|);
    forall t, env, v | v != NO
      ensures RaisedAt(optional, r, r', ms, {m}, {}, t, env, v)
    {
      SelectsRaise(r, menu.sym, menu.props, |menu.props|, t, env);
      assert AnySelect(ms, {m}, t, env, v) <==> SelectAt(ms, m, t, env) >= v;
    }
  }

  lemma RaisedByEntry(optional: set<Symbol>, r0: RevDeps, r1: RevDeps, ms: MenuMap, done: seq<Id>, m: Id,
                      parentdep: OptExpr)
    requires Raised(optional, r0, r1, ms, SetOf(done), {}) && m !in done
    ensures var ms' := ms[m := Propagated(parentdep, Get(ms, m))]; var menu := Get(ms', m);
      Raised(optional, r0, AddSelects(r1, menu.sym, menu.props, |menu.props|), ms', SetOf(done + [m]), {})
  {
    var ms' := ms[m := Propagated(parentdep, Get(ms, m))];
    var menu := Get(ms', m);
    RaisedEntry(optional, r1, ms', m);
    var none: set<Id> := {};
    RaisedTrans(optional, r0, r1, AddSelects(r1, menu.sym, menu.props, |menu.props|), ms, ms', SetOf(done), none, {m}, none);
    assert SetOf(done + [m]) == SetOf(done) + {m} && none + none == none;
  }

  /** A choice's own. */
  function WithHead(ms: MenuMap, optional: set<Symbol>, r: RevDeps, p: Id): RevDeps {
    var menu := Get(ms, p);
    if menu.sym.Some? && menu.sym.value !in optional && menu.prompt.Some?
    then r[menu.sym.value := AllocOr(Rev(r, menu.sym.value), AllocAnd(PromptOf(menu), Some(Sym(Symbol.Mod))))]
    else r
  }

  lemma RaisedHead(optional: set<Symbol>, r: RevDeps, ms: MenuMap, p: Id)
    ensures Raised(optional, r, WithHead(ms, optional, r, p), ms, {}, {p})
  {
    var menu, r' := Get(ms, p), WithHead(ms, optional, r, p);
    forall t, env, v | v != NO
      ensures RaisedAt(optional, r, r', ms, {}, {p}, t, env, v)
    {
      var add := AllocAnd(PromptOf(menu), Some(Sym(Symbol.Mod)));
      assert Eval(add.value, env) == Apply(And, EvalOpt(PromptOf(menu), env), env(Symbol.Mod).tri);
      assert RevValue(r', t, env) == Apply(Or, RevValue(r, t, env), HeadAt(ms, optional, p, t, env));
      assert AnyHead(ms, optional, {p}, t, env, v) <==> HeadAt(ms, optional, p, t, env) >= v;
    }
  }

  /** The entries below those of the list itself. */
  function Below(f: Forest): seq<Id> {
    match f
    case Nil => []
    case Node(_, kids, rest) => Preorder(kids) + Below(rest)
  }

  /** g is what is left of the list f after some of its first entries. */
  predicate IsSuffix(g: Forest, f: Forest) {
    g == f || (f.Node? && IsSuffix(g, f.rest))
  }

  lemma {:induction false} SuffixTrans(h: Forest, g: Forest, f: Forest)
    requires IsSuffix(h, g) && IsSuffix(g, f)
    ensures IsSuffix(h, f)
  {
    if g != f { SuffixTrans(h, g, f.rest); }
  }

  lemma {:induction false} SuffixParts(g: Forest, f: Forest)
    requires IsSuffix(g, f)
    ensures forall x :: x in Tops(g) ==> x in Tops(f)
    ensures forall x :: x in Below(g) ==> x in Below(f)
    ensures forall x :: x in Preorder(g) ==> x in Preorder(f)
    ensures |Preorder(g)| <= |Preorder(f)|
  {
    if g != f { SuffixParts(g, f.rest); }
  }

  lemma {:induction false} BelowInPreorder(f: Forest)
    ensures forall x :: x in Below(f) ==> x in Preorder(f)
    ensures Distinct(Preorder(f)) ==> forall x :: x in Tops(f) ==> x !in Below(f)
  {
    if f.Node? {
      BelowInPreorder(f.rest);
      TopsInPreorder(f.rest);
      if Distinct(Preorder(f)) { DistinctNode(f.id, f.kids, f.rest); }
    }
  }

  lemma {:induction false} TopsAppendOne(f: Forest, m: Id, kids: Forest)
    ensures Tops(Append(f, Node(m, kids, Nil))) == Tops(f) + [m]
  {
    if f.Node? { TopsAppendOne(f.rest, m, kids); }
  }

  predicate SameData(a: Menu, b: Menu) {
    a.dep == b.dep && a.props == b.props
  }

  ghost predicate SameDataOutside(a: MenuMap, b: MenuMap, ids: seq<Id>) {
    forall id :: id !in ids ==> SameData(Get(a, id), Get(b, id))
  }

  /** A list after hoisting. */
  function Hoisted(ms: MenuMap, f: Forest): Forest
    decreases |Preorder(f)|
  {
    match f
    case Nil => Nil
    case Node(id, kids, rest) =>
      if kids.Node? && Get(ms, id).prompt.None? then
        PreorderAppend(kids, rest);
        Node(id, Nil, Hoisted(ms, Append(kids, rest)))
      else Node(id, kids, Hoisted(ms, rest))
  }

  lemma {:induction false} HoistedFrame(a: MenuMap, b: MenuMap, f: Forest)
    requires SameFixed(a, b)
    ensures Hoisted(a, f) == Hoisted(b, f)
    decreases |Preorder(f)|
  {
    match f
    case Nil =>
    case Node(id, kids, rest) =>
      assert Get(a, id).prompt == Get(b, id).prompt;
      if kids.Node? && Get(a, id).prompt.None? {
        PreorderAppend(kids, rest);
        HoistedFrame(a, b, Append(kids, rest));
      } else {
        HoistedFrame(a, b, rest);
      }
  }

  lemma {:induction false} TopsInPreorder(f: Forest)
    ensures forall x :: x in Tops(f) ==> x in Preorder(f)
    ensures Distinct(Preorder(f)) ==> Distinct(Tops(f))
  {
    if f.Node? {
      TopsInPreorder(f.rest);
      if Distinct(Preorder(f)) {
        DistinctNode(f.id, f.kids, f.rest);
        assert Tops(f) == [f.id] + Tops(f.rest);
      }
    }
  }

  lemma PromptedStep(a: MenuMap, b: MenuMap, done: Forest, m: Id, kids: Forest)
    requires SameFixed(a, b) && PromptedBelow(a, done) && Prompted(b, kids)
    ensures PromptedBelow(b, Append(done, Node(m, kids, Nil)))
  {
    PromptedFrame(a, b, done);
    PromptedAppend(b, done, Node(m, kids, Nil));
    assert PromptedBelow(b, Nil);
  }

  lemma PromptedSplice(a: MenuMap, b: MenuMap, done: Forest, m: Id, kids: Forest, rest: Forest)
    requires SameFixed(a, b) && Prompted(a, done) && PromptedBelow(a, Node(m, kids, rest))
    ensures Prompted(b, Append(done, Node(m, Nil, Nil))) && PromptedBelow(b, Append(kids, rest))
  {
    PromptedFrame(a, b, done);
    PromptedFrame(a, b, kids);
    PromptedFrame(a, b, rest);
    PromptedAppend(b, done, Node(m, Nil, Nil));
    PromptedAppend(b, kids, rest);
    PromptedAppend(b, kids, Nil);
  }

  lemma NodePreorder(p: Id, kids: Forest, rest: Forest, all: Forest)
    requires Preorder(kids) + Preorder(rest) == Preorder(all)
    ensures Preorder(Node(p, kids, rest)) == [p] + Preorder(all)
    ensures Preorder(Node(p, kids, rest)) == [p] + (Preorder(kids) + Preorder(rest))
  {
  }

  /** The entries absorbed under p are the longest run of following entries that pass the test. */
  ghost predicate AbsorbedRun(ms: MenuMap, p: Id, sym: Symbol, done: Forest, todo: Forest) {
    var basedep := NonNo(PromptOf(Get(ms, p)));
    && (forall x :: x in Tops(done) ==> Absorbs(basedep, ShownIf(Get(ms, x)), sym))
    && (todo.Node? ==> !Absorbs(basedep, ShownIf(Get(ms, todo.id)), sym))
  }

  lemma {:induction false} AppendNil(f: Forest)
    ensures Append(f, Nil) == f
  {
    if f.Node? { AppendNil(f.rest); }
  }

  /** The two assignments that move the entries up to last from behind p to below it. */
  function Relinked(ms: MenuMap, p: Id, last: Id): MenuMap {
    WithNext(ms[p := Get(ms, p).(list := Get(ms, p).next, next := Get(ms, last).next)], last, None)
  }

  lemma RelinkedPlaces(ms: MenuMap, p: Id, last: Id, done: Forest, todo: Forest)
    requires done.Node? && last == Last(done)
    requires Linked(ms, Get(ms, p).next, Some(p), done, Get(ms, last).next)
    requires Linked(ms, Get(ms, last).next, Get(ms, p).parent, todo, None)
    requires Distinct([p] + (Preorder(done) + Preorder(todo)))
    ensures p != last && Distinct(Preorder(Node(p, done, todo)))
    ensures var ms' := Relinked(ms, p, last);
      && Linked(ms', Get(ms, p).next, Some(p), done, None)
      && Linked(ms', Get(ms, last).next, Get(ms, p).parent, todo, None)
  {
    var cur := Get(ms, last).next;
    DistinctParts([p], Preorder(done) + Preorder(todo));
    DistinctParts(Preorder(done), Preorder(todo));
    assert p in [p];
    LastInPreorder(done);
    var ms2 := ms[p := Get(ms, p).(list := Get(ms, p).next, next := cur)];
    LinkedFrame(ms, ms2, Get(ms, p).next, Some(p), done, cur);
    LinkedNewEnd(ms2, Get(ms, p).next, Some(p), done, cur, None);
    LinkedFrame(ms, Relinked(ms, p, last), cur, Get(ms, p).parent, todo, None);
    assert Preorder(Node(p, done, todo)) == [p] + (Preorder(done) + Preorder(todo));
  }

  /** What has been dealt with when the entries from todo on are left of a list. */
  function SelBetween(all: Forest, todo: Forest): set<Id> {
    SetOf(Below(all)) - SetOf(Below(todo))
  }

  function FinBetween(all: Forest, todo: Forest): set<Id> {
    SetOf(Preorder(all)) - SetOf(Preorder(todo))
  }

  lemma BetweenAll(kids: Forest)
    ensures SelBetween(kids, Nil) == SetOf(Below(kids)) && FinBetween(kids, Nil) == SetOf(Preorder(kids))
  {
    assert SetOf(Below(Nil)) == {} && SetOf(Preorder(Nil)) == {};
  }

  /** An entry takes nothing from the list behind it, or it has no list of its own. */
  lemma BetweenOne(kids: Forest, rest: Forest, rest': Forest)
    ensures SetOf(Preorder(kids)) + SelBetween(rest, rest) == SetOf(Preorder(kids))
    ensures SetOf(Preorder(kids)) + FinBetween(rest, rest) == SetOf(Preorder(kids))
    ensures SetOf(Preorder(Nil)) + SelBetween(rest, rest') == SelBetween(rest, rest')
    ensures SetOf(Preorder(Nil)) + FinBetween(rest, rest') == FinBetween(rest, rest')
  {
    assert SetOf(Preorder(Nil)) == {};
  }

  /** Two stretches of a loop over a list. */
  lemma RaisedFurther(optional: set<Symbol>, r0: RevDeps, r1: RevDeps, r2: RevDeps, ms: MenuMap, ms': MenuMap,
                      all: Forest, mid: Forest, todo: Forest)
    requires Raised(optional, r0, r1, ms, SelBetween(all, mid), FinBetween(all, mid))
    requires Raised(optional, r1, r2, ms', SelBetween(mid, todo), FinBetween(mid, todo))
    requires IsSuffix(mid, all) && IsSuffix(todo, mid)
    requires SameFixed(ms, ms') && SameDataOutside(ms, ms', Below(mid))
    ensures Raised(optional, r0, r2, ms', SelBetween(all, todo), FinBetween(all, todo))
  {
    BetweenSplits(all, mid, todo);
    RaisedTrans(optional, r0, r1, r2, ms, ms', SelBetween(all, mid), FinBetween(all, mid), SelBetween(mid, todo), FinBetween(mid, todo));
  }

  lemma RaisedStart(optional: set<Symbol>, r: RevDeps, ms: MenuMap, all: Forest)
    ensures Raised(optional, r, r, ms, SelBetween(all, all), FinBetween(all, all))
  {
    RaisedNone(optional, r, ms);
    assert SelBetween(all, all) == {} && FinBetween(all, all) == {};
  }

  /** The two loops over the list of an entry. */
  lemma RaisedOwn(optional: set<Symbol>, r0: RevDeps, r1: RevDeps, r2: RevDeps, ms: MenuMap, ms': MenuMap, kids: Forest)
    requires Raised(optional, r0, r1, ms, SetOf(Tops(kids)), {})
    requires Raised(optional, r1, r2, ms', SetOf(Below(kids)), SetOf(Preorder(kids)))
    requires Distinct(Preorder(kids)) && SameFixed(ms, ms') && SameDataOutside(ms, ms', Below(kids))
    ensures Raised(optional, r0, r2, ms', SetOf(Preorder(kids)), SetOf(Preorder(kids)))
  {
    BelowInPreorder(kids);
    var none: set<Id> := {};
    RaisedTrans(optional, r0, r1, r2, ms, ms', SetOf(Tops(kids)), none, SetOf(Below(kids)), SetOf(Preorder(kids)));
    TopsOrBelow(kids);
    assert SetOf(Tops(kids)) + SetOf(Below(kids)) == SetOf(Preorder(kids));
    assert none + SetOf(Preorder(kids)) == SetOf(Preorder(kids));
  }

  lemma {:induction false} TopsOrBelow(f: Forest)
    ensures forall x :: x in Preorder(f) <==> x in Tops(f) || x in Below(f)
  {
    if f.Node? { TopsOrBelow(f.rest); }
  }

  /** After the entries: the list is re-linked, and the choice itself is added. */
  lemma RaisedLast(optional: set<Symbol>, r0: RevDeps, r1: RevDeps, ms: MenuMap, ms': MenuMap, p: Id,
                   kids: Forest, rest: Forest, rest': Forest)
    requires Raised(optional, r0, r1, ms, SetOf(Preorder(kids)) + SelBetween(rest, rest'),
                    SetOf(Preorder(kids)) + FinBetween(rest, rest'))
    requires SameFixed(ms, ms') && SameDataOutside(ms, ms', [])
    ensures Raised(optional, r0, WithHead(ms', optional, r1, p), ms', SetOf(Preorder(kids)) + SelBetween(rest, rest'),
                   {p} + SetOf(Preorder(kids)) + FinBetween(rest, rest'))
  {
    var sel, fin := SetOf(Preorder(kids)) + SelBetween(rest, rest'), SetOf(Preorder(kids)) + FinBetween(rest, rest');
    var none: set<Id> := {};
    RaisedHead(optional, r1, ms', p);
    RaisedTrans(optional, r0, r1, WithHead(ms', optional, r1, p), ms, ms', sel, fin, none, {p});
    assert sel + none == sel && fin + {p} == {p} + SetOf(Preorder(kids)) + FinBetween(rest, rest');
  }

  /** What finalizing the first entry of a list has dealt with, as a part of that list. */
  lemma ParentSplits(m: Id, kids: Forest, rest: Forest, rest': Forest)
    requires Distinct(Preorder(Node(m, kids, rest))) && IsSuffix(rest', rest)
    ensures SetOf(Preorder(kids)) + SelBetween(rest, rest') == SelBetween(Node(m, kids, rest), rest')
    ensures {m} + SetOf(Preorder(kids)) + FinBetween(rest, rest') == FinBetween(Node(m, kids, rest), rest')
  {
    DistinctNode(m, kids, rest);
    SuffixParts(rest', rest);
    var all := Node(m, kids, rest);
    forall x
      ensures x in SetOf(Preorder(kids)) + SelBetween(rest, rest') <==> x in SelBetween(all, rest')
    {
      BelowInPreorder(rest');
      assert x in Below(all) <==> x in Preorder(kids) || x in Below(rest);
    }
    forall x
      ensures x in {m} + SetOf(Preorder(kids)) + FinBetween(rest, rest') <==> x in FinBetween(all, rest')
    {
      assert x in Preorder(all) <==> x == m || x in Preorder(kids) || x in Preorder(rest);
    }
  }

  lemma BetweenSplits(all: Forest, mid: Forest, todo: Forest)
    requires IsSuffix(mid, all) && IsSuffix(todo, mid)
    ensures SelBetween(all, mid) + SelBetween(mid, todo) == SelBetween(all, todo)
    ensures FinBetween(all, mid) + FinBetween(mid, todo) == FinBetween(all, todo)
    ensures forall x :: x in SelBetween(all, mid) + FinBetween(all, mid) ==> x !in Below(mid)
  {
    SuffixParts(mid, all);
    SuffixParts(todo, mid);
    BelowInPreorder(mid);
  }

  // ----- conditions that are passed down -----

  /** Every entry of f, the list of p, has the final condition of the entry above it added to its own. */
  ghost predicate Inherited(choices: set<Symbol>, a: MenuMap, b: MenuMap, p: Id, f: Forest)
    decreases f
  {
    f.Node? ==>
      && SameData(Get(b, f.id), Propagated(ParentDep(b, choices, p), Get(a, f.id)))
      && Inherited(choices, a, b, f.id, f.kids) && Inherited(choices, a, b, p, f.rest)
  }

  /** So it is below the entries of f that come before todo. */
  ghost predicate InheritedBelow(choices: set<Symbol>, a: MenuMap, b: MenuMap, f: Forest, todo: Forest) {
    f == todo || (f.Node? && Inherited(choices, a, b, f.id, f.kids) && InheritedBelow(choices, a, b, f.rest, todo))
  }

  /** Between two states, that is all that has changed of the conditions. */
  ghost predicate Conditioned(choices: set<Symbol>, a: MenuMap, b: MenuMap, all: Forest, todo: Forest) {
    && InheritedBelow(choices, a, b, all, todo)
    && forall x :: x !in SelBetween(all, todo) ==> SameData(Get(a, x), Get(b, x))
  }

  lemma {:induction false} InheritedFrame(choices: set<Symbol>, a: MenuMap, a': MenuMap, b: MenuMap, b': MenuMap,
                                          p: Id, f: Forest)
    requires Inherited(choices, a, b, p, f) && SameFixed(a, a') && SameFixed(b, b')
    requires SameData(Get(b, p), Get(b', p))
    requires forall x :: x in Preorder(f) ==> SameData(Get(a, x), Get(a', x)) && SameData(Get(b, x), Get(b', x))
    ensures Inherited(choices, a', b', p, f)
    decreases f
  {
    if f.Node? {
      assert f.id in Preorder(f);
      assert Get(a, f.id).sym == Get(a', f.id).sym;
      assert ParentDep(b, choices, p) == ParentDep(b', choices, p) by {
        assert Get(b, p).sym == Get(b', p).sym && Get(b, p).prompt == Get(b', p).prompt;
      }
      InheritedFrame(choices, a, a', b, b', f.id, f.kids);
      InheritedFrame(choices, a, a', b, b', p, f.rest);
    }
  }

  lemma {:induction false} InheritedBelowFrame(choices: set<Symbol>, a: MenuMap, a': MenuMap, b: MenuMap, f: Forest, todo: Forest)
    requires InheritedBelow(choices, a, b, f, todo) && SameFixed(a, a')
    requires forall x :: x in Below(f) ==> SameData(Get(a, x), Get(a', x))
    ensures InheritedBelow(choices, a', b, f, todo)
  {
    if f != todo {
      InheritedFrame(choices, a, a', b, b, f.id, f.kids);
      InheritedBelowFrame(choices, a, a', b, f.rest, todo);
    }
  }

  /** A first stretch up to mid, and a second one that leaves it alone. */
  lemma {:induction false} InheritedFurther(choices: set<Symbol>, a: MenuMap, b: MenuMap, d: MenuMap,
                                            all: Forest, mid: Forest, todo: Forest)
    requires InheritedBelow(choices, a, b, all, mid) && InheritedBelow(choices, a, d, mid, todo)
    requires IsSuffix(mid, all) && Distinct(Preorder(all)) && SameFixed(b, d)
    requires forall x :: x !in Preorder(mid) ==> SameData(Get(b, x), Get(d, x))
    ensures InheritedBelow(choices, a, d, all, todo)
  {
    if all != mid {
      DistinctNode(all.id, all.kids, all.rest);
      SuffixParts(mid, all.rest);
      InheritedFrame(choices, a, a, b, d, all.id, all.kids);
      InheritedFurther(choices, a, b, d, all.rest, mid, todo);
    }
  }

  lemma ConditionedFurther(choices: set<Symbol>, a: MenuMap, b: MenuMap, d: MenuMap, all: Forest, mid: Forest, todo: Forest)
    requires Conditioned(choices, a, b, all, mid) && Conditioned(choices, b, d, mid, todo)
    requires IsSuffix(mid, all) && IsSuffix(todo, mid) && Distinct(Preorder(all))
    requires SameFixed(a, b) && SameFixed(b, d)
    ensures Conditioned(choices, a, d, all, todo)
  {
    BetweenSplits(all, mid, todo);
    BelowInPreorder(mid);
    InheritedBelowFrame(choices, b, a, d, mid, todo);
    InheritedFurther(choices, a, b, d, all, mid, todo);
  }

  lemma ConditionedStart(choices: set<Symbol>, ms: MenuMap, all: Forest)
    ensures Conditioned(choices, ms, ms, all, all)
  {
  }

  /** Re-linking changes no condition. */
  lemma ConditionedFrame(choices: set<Symbol>, a: MenuMap, b: MenuMap, b': MenuMap, all: Forest, todo: Forest)
    requires Conditioned(choices, a, b, all, todo) && SameFixed(b, b') && SameDataOutside(b, b', [])
    ensures Conditioned(choices, a, b', all, todo)
  {
    InheritedBelowSame(choices, a, b, b', all, todo);
  }

  lemma {:induction false} InheritedBelowSame(choices: set<Symbol>, a: MenuMap, b: MenuMap, b': MenuMap, all: Forest, todo: Forest)
    requires InheritedBelow(choices, a, b, all, todo) && SameFixed(b, b') && SameDataOutside(b, b', [])
    ensures InheritedBelow(choices, a, b', all, todo)
  {
    if all != todo {
      InheritedFrame(choices, a, a, b, b', all.id, all.kids);
      InheritedBelowSame(choices, a, b, b', all.rest, todo);
    }
  }

  /** The two loops over the list of p: first its entries, then what is below them. */
  lemma {:induction false} InheritedOwn(choices: set<Symbol>, a: MenuMap, b: MenuMap, d: MenuMap, p: Id, f: Forest)
    requires InheritedBelow(choices, b, d, f, Nil) && SameFixed(a, b)
    requires forall x :: x in Tops(f) ==> SameData(Get(d, x), Propagated(ParentDep(d, choices, p), Get(a, x)))
    requires forall x :: x in Below(f) ==> SameData(Get(a, x), Get(b, x))
    ensures Inherited(choices, a, d, p, f)
  {
    if f.Node? {
      assert f.id in Tops(f);
      InheritedFrame(choices, b, a, d, d, f.id, f.kids);
      InheritedOwn(choices, a, b, d, p, f.rest);
    }
  }

  lemma PropagatedOwn(choices: set<Symbol>, a: MenuMap, b: MenuMap, d: MenuMap, p: Id, kids: Forest)
    requires Distinct([p] + Preorder(kids)) && Conditioned(choices, b, d, kids, Nil) && SameFixed(a, b) && SameFixed(b, d)
    requires forall id ::
      Get(b, id) == if id in Tops(kids) then Propagated(ParentDep(a, choices, p), Get(a, id)) else Get(a, id)
    ensures Inherited(choices, a, d, p, kids)
    ensures forall x :: x !in Preorder(kids) ==> SameData(Get(a, x), Get(d, x))
  {
    DistinctParts([p], Preorder(kids));
    assert p in [p];
    BelowInPreorder(kids);
    TopsInPreorder(kids);
    BetweenAll(kids);
    assert ParentDep(d, choices, p) == ParentDep(a, choices, p) by {
      assert SameData(Get(b, p), Get(d, p)) && Get(b, p) == Get(a, p);
      assert Get(b, p).sym == Get(d, p).sym && Get(b, p).prompt == Get(d, p).prompt;
    }
    InheritedOwn(choices, a, b, d, p, kids);
  }

  /** An entry with its list, or with what it takes of the entries behind it. */
  lemma ConditionedEntry(choices: set<Symbol>, a: MenuMap, b: MenuMap, p: Id, kids: Forest, rest: Forest, rest': Forest)
    requires Inherited(choices, a, b, p, kids) && InheritedBelow(choices, a, b, rest, rest')
    requires Distinct(Preorder(Node(p, kids, rest))) && IsSuffix(rest', rest)
    requires forall x :: x !in Preorder(kids) && x !in SelBetween(rest, rest') ==> SameData(Get(a, x), Get(b, x))
    ensures Conditioned(choices, a, b, Node(p, kids, rest), rest')
  {
    ParentSplits(p, kids, rest, rest');
  }

  // ----- the members of choices -----

  type Members = map<Symbol, seq<Symbol>>

  function MembersOf(members: Members, s: Symbol): seq<Symbol> {
    if s in members then members[s] else []
  }

  predicate IsChoice(choices: set<Symbol>, ms: MenuMap, x: Id) {
    Get(ms, x).sym.Some? && Get(ms, x).sym.value in choices
  }

  /** The symbols of some entries, in order. */
  function Syms(ms: MenuMap, ids: seq<Id>): seq<Symbol> {
    if ids == [] then []
    else
      var sym := Get(ms, ids[|ids| - 1]).sym;
      Syms(ms, ids[..|ids| - 1]) + if sym.Some? then [sym.value] else []
  }

  lemma {:induction false} SymsFrame(a: MenuMap, b: MenuMap, ids: seq<Id>)
    requires SameFixed(a, b)
    ensures Syms(a, ids) == Syms(b, ids)
  {
    if ids != [] {
      assert Get(a, ids[|ids| - 1]).sym == Get(b, ids[|ids| - 1]).sym;
      SymsFrame(a, b, ids[..|ids| - 1]);
    }
  }

  lemma SymsSnoc(ms: MenuMap, ids: seq<Id>, m: Id)
    ensures Syms(ms, ids + [m]) == Syms(ms, ids) + if Get(ms, m).sym.Some? then [Get(ms, m).sym.value] else []
  {
    assert (ids + [m])[..|ids + [m]| - 1] == ids;
  }

  function WithMember(choices: set<Symbol>, ms: MenuMap, members: Members, p: Id, m: Id): Members {
    if IsChoice(choices, ms, p) && Get(ms, m).sym.Some?
    then members[Get(ms, p).sym.value := MembersOf(members, Get(ms, p).sym.value) + [Get(ms, m).sym.value]]
    else members
  }

  /** The choice p gets the symbols of ids as its members, in order; nothing else changes. */
  ghost predicate Adds(choices: set<Symbol>, ms: MenuMap, m0: Members, m1: Members, p: Id, ids: seq<Id>) {
    forall s :: MembersOf(m1, s)
             == if s in choices && Get(ms, p).sym == Some(s) then MembersOf(m0, s) + Syms(ms, ids) else MembersOf(m0, s)
  }

  lemma AddsOne(choices: set<Symbol>, ms: MenuMap, m0: Members, m1: Members, p: Id, ids: seq<Id>, m: Id)
    requires Adds(choices, ms, m0, m1, p, ids)
    ensures Adds(choices, ms, m0, WithMember(choices, ms, m1, p, m), p, ids + [m])
  {
    SymsSnoc(ms, ids, m);
    if IsChoice(choices, ms, p) {
      var s := Get(ms, p).sym.value;
      assert MembersOf(m1, s) == MembersOf(m0, s) + Syms(ms, ids);
    }
  }

  lemma AddsFrame(choices: set<Symbol>, ms: MenuMap, ms': MenuMap, m0: Members, m1: Members, p: Id, ids: seq<Id>)
    requires Adds(choices, ms, m0, m1, p, ids) && SameFixed(ms, ms')
    ensures Adds(choices, ms', m0, m1, p, ids)
  {
    SymsFrame(ms, ms', ids);
    assert Get(ms, p).sym == Get(ms', p).sym;
  }

  /** Each choice block has its own symbol. */
  ghost predicate OneEntryEach(choices: set<Symbol>, ms: MenuMap) {
    forall x, y :: IsChoice(choices, ms, x) && IsChoice(choices, ms, y) && x != y ==> Get(ms, x).sym != Get(ms, y).sym
  }

  ghost predicate ListedAt(choices: set<Symbol>, ms: MenuMap, m0: Members, m1: Members, x: Id, kids: Forest) {
    IsChoice(choices, ms, x) && Get(ms, x).prompt.Some? ==>
      var s := Get(ms, x).sym.value;
      MembersOf(m1, s) == MembersOf(m0, s) + Syms(ms, Tops(kids))
  }

  /** The choices of f that have a prompt have the symbols of their own list as their new members. */
  ghost predicate Listed(choices: set<Symbol>, ms: MenuMap, m0: Members, m1: Members, f: Forest) {
    f.Node? ==>
      && ListedAt(choices, ms, m0, m1, f.id, f.kids)
      && Listed(choices, ms, m0, m1, f.kids) && Listed(choices, ms, m0, m1, f.rest)
  }

  ghost predicate KeptOutside(choices: set<Symbol>, ms: MenuMap, m0: Members, m1: Members, ids: seq<Id>) {
    forall x :: x !in ids && IsChoice(choices, ms, x) ==>
      MembersOf(m0, Get(ms, x).sym.value) == MembersOf(m1, Get(ms, x).sym.value)
  }

  /** Between the two states, the choices of f have got their members and no other choice has. */
  ghost predicate Joined(choices: set<Symbol>, ms: MenuMap, m0: Members, m1: Members, f: Forest) {
    OneEntryEach(choices, ms) ==>
      Listed(choices, ms, m0, m1, f) && KeptOutside(choices, ms, m0, m1, Preorder(f))
  }

  /** The choices of f do not see the difference. */
  lemma {:induction false} ListedFrame(choices: set<Symbol>, ms: MenuMap, ms': MenuMap, m0: Members, m1: Members,
                                       m0': Members, m1': Members, f: Forest)
    requires Listed(choices, ms, m0, m1, f) && SameFixed(ms, ms')
    requires forall x :: x in Preorder(f) && IsChoice(choices, ms, x) ==>
      var s := Get(ms, x).sym.value; MembersOf(m0', s) == MembersOf(m0, s) && MembersOf(m1', s) == MembersOf(m1, s)
    ensures Listed(choices, ms', m0', m1', f)
  {
    if f.Node? {
      assert f.id in Preorder(f);
      assert Get(ms, f.id).sym == Get(ms', f.id).sym;
      SymsFrame(ms, ms', Tops(f.kids));
      ListedFrame(choices, ms, ms', m0, m1, m0', m1', f.kids);
      ListedFrame(choices, ms, ms', m0, m1, m0', m1', f.rest);
    }
  }

  lemma {:induction false} ListedAppend(choices: set<Symbol>, ms: MenuMap, m0: Members, m1: Members, f: Forest, g: Forest)
    ensures Listed(choices, ms, m0, m1, Append(f, g))
       <==> Listed(choices, ms, m0, m1, f) && Listed(choices, ms, m0, m1, g)
  {
    if f.Node? { ListedAppend(choices, ms, m0, m1, f.rest, g); }
  }

  lemma SameChoices(choices: set<Symbol>, ms: MenuMap, ms': MenuMap)
    requires SameFixed(ms, ms')
    ensures forall x :: IsChoice(choices, ms, x) <==> IsChoice(choices, ms', x)
    ensures OneEntryEach(choices, ms) <==> OneEntryEach(choices, ms')
  {
    forall x
      ensures Get(ms, x).sym == Get(ms', x).sym
    {
    }
  }

  lemma JoinedFrame(choices: set<Symbol>, ms: MenuMap, ms': MenuMap, m0: Members, m1: Members, f: Forest)
    requires Joined(choices, ms, m0, m1, f) && SameFixed(ms, ms')
    ensures Joined(choices, ms', m0, m1, f)
  {
    SameChoices(choices, ms, ms');
    if OneEntryEach(choices, ms) { ListedFrame(choices, ms, ms', m0, m1, m0, m1, f); }
  }

  lemma JoinedNone(choices: set<Symbol>, ms: MenuMap, members: Members)
    ensures Joined(choices, ms, members, members, Nil)
  {
  }

  /** First the choices of f and then those of g. */
  lemma JoinedAppend(choices: set<Symbol>, ms: MenuMap, ms': MenuMap, m0: Members, m1: Members, m2: Members,
                     f: Forest, g: Forest)
    requires Joined(choices, ms, m0, m1, f) && Joined(choices, ms', m1, m2, g) && SameFixed(ms, ms')
    requires Distinct(Preorder(f) + Preorder(g))
    ensures Joined(choices, ms', m0, m2, Append(f, g))
  {
    SameChoices(choices, ms, ms');
    if OneEntryEach(choices, ms) {
      DistinctParts(Preorder(f), Preorder(g));
      PreorderAppend(f, g);
      ListedFrame(choices, ms, ms', m0, m1, m0, m2, f);
      ListedFrame(choices, ms', ms', m1, m2, m0, m2, g);
      ListedAppend(choices, ms', m0, m2, f, g);
    }
  }

  lemma {:induction false} ListedHoisted(choices: set<Symbol>, ms: MenuMap, m0: Members, m1: Members, f: Forest)
    requires Listed(choices, ms, m0, m1, f)
    ensures Listed(choices, ms, m0, m1, Hoisted(ms, f))
    decreases |Preorder(f)|
  {
    if f.Node? {
      if f.kids.Node? && Get(ms, f.id).prompt.None? {
        PreorderAppend(f.kids, f.rest);
        ListedAppend(choices, ms, m0, m1, f.kids, f.rest);
        ListedHoisted(choices, ms, m0, m1, Append(f.kids, f.rest));
      } else {
        ListedHoisted(choices, ms, m0, m1, f.rest);
      }
    }
  }

  lemma DistinctNext(done: Forest, m: Id, kids': Forest, rest': Forest, todo: Forest)
    requires Distinct(Preorder(done) + Preorder(todo)) && todo.Node? && todo.id == m
    requires Preorder(kids') + Preorder(rest') == Preorder(todo.kids) + Preorder(todo.rest)
    ensures Distinct(Preorder(done) + Preorder(Node(m, kids', Nil)))
  {
    StepPreorder(done, m, todo.kids, todo.rest, kids', rest');
    DistinctParts(Preorder(Append(done, Node(m, kids', Nil))), Preorder(rest'));
    PreorderAppend(done, Node(m, kids', Nil));
  }

  /** The same for one more entry of a list. */
  lemma JoinedNext(choices: set<Symbol>, ms: MenuMap, ms': MenuMap, m0: Members, m1: Members, m2: Members,
                   done: Forest, m: Id, kids': Forest, rest': Forest, todo: Forest)
    requires Joined(choices, ms, m0, m1, done) && Joined(choices, ms', m1, m2, Node(m, kids', Nil)) && SameFixed(ms, ms')
    requires Distinct(Preorder(done) + Preorder(todo)) && todo.Node? && todo.id == m
    requires Preorder(kids') + Preorder(rest') == Preorder(todo.kids) + Preorder(todo.rest)
    ensures Joined(choices, ms', m0, m2, Append(done, Node(m, kids', Nil)))
  {
    DistinctNext(done, m, kids', rest', todo);
    JoinedAppend(choices, ms, ms', m0, m1, m2, done, Node(m, kids', Nil));
  }

  /** The choices below p, and then p itself. */
  lemma JoinedLast(choices: set<Symbol>, ms: MenuMap, ms': MenuMap, m0: Members, m1: Members, m2: Members,
                   p: Id, own: Forest)
    requires Joined(choices, ms, m0, m1, own) && SameFixed(ms, ms') && p !in Preorder(own)
    requires Adds(choices, ms', m1, m2, p, Tops(Hoisted(ms', own))) && Preorder(Hoisted(ms', own)) == Preorder(own)
    ensures Joined(choices, ms', m0, m2, Node(p, Hoisted(ms', own), Nil))
  {
    SameChoices(choices, ms, ms');
    if OneEntryEach(choices, ms') {
      forall x | IsChoice(choices, ms', x) && x != p
        ensures MembersOf(m2, Get(ms', x).sym.value) == MembersOf(m1, Get(ms', x).sym.value)
      {
      }
      ListedFrame(choices, ms, ms', m0, m1, m0, m2, own);
      ListedHoisted(choices, ms', m0, m2, own);
      assert Listed(choices, ms', m0, m2, Nil);
      assert Preorder(Node(p, Hoisted(ms', own), Nil)) == [p] + Preorder(own) + [];
    }
  }

  // ----- where members come from -----

  ghost predicate AllPrompted(ms: MenuMap, ids: seq<Id>) {
    forall x :: x in ids ==> Get(ms, x).prompt.Some?
  }

  ghost predicate DrawnAt(choices: set<Symbol>, ms: MenuMap, m0: Members, m1: Members, x: Id, kids: Forest) {
    IsChoice(choices, ms, x) && kids.Node? && AllPrompted(ms, Tops(kids)) ==>
      var s := Get(ms, x).sym.value;
      forall t :: t in MembersOf(m1, s) ==> t in MembersOf(m0, s) || t in Syms(ms, Tops(kids))
  }

  /** The choices of f, as it was parsed, that have a list of entries with prompts, have got members only from it. */
  ghost predicate Drawn(choices: set<Symbol>, ms: MenuMap, m0: Members, m1: Members, f: Forest) {
    f.Node? ==>
      && DrawnAt(choices, ms, m0, m1, f.id, f.kids)
      && Drawn(choices, ms, m0, m1, f.kids) && Drawn(choices, ms, m0, m1, f.rest)
  }

  ghost predicate DrawnUpTo(choices: set<Symbol>, ms: MenuMap, m0: Members, m1: Members, all: Forest, todo: Forest) {
    all == todo ||
    (all.Node? && DrawnAt(choices, ms, m0, m1, all.id, all.kids) && Drawn(choices, ms, m0, m1, all.kids)
     && DrawnUpTo(choices, ms, m0, m1, all.rest, todo))
  }

  ghost predicate Sourced(choices: set<Symbol>, ms: MenuMap, m0: Members, m1: Members, all: Forest, todo: Forest) {
    OneEntryEach(choices, ms) ==> DrawnUpTo(choices, ms, m0, m1, all, todo)
  }

  /** The choices among these entries do not see the difference. */
  ghost predicate SameFor(choices: set<Symbol>, ms: MenuMap, m: Members, m': Members, ids: seq<Id>) {
    forall x :: x in ids && IsChoice(choices, ms, x) ==>
      MembersOf(m, Get(ms, x).sym.value) == MembersOf(m', Get(ms, x).sym.value)
  }

  lemma DrawnAtFrame(choices: set<Symbol>, ms: MenuMap, ms': MenuMap, m0: Members, m1: Members,
                     m0': Members, m1': Members, x: Id, kids: Forest)
    requires DrawnAt(choices, ms, m0, m1, x, kids) && SameFixed(ms, ms')
    requires SameFor(choices, ms, m0, m0', [x]) && SameFor(choices, ms, m1, m1', [x])
    ensures DrawnAt(choices, ms', m0', m1', x, kids)
  {
    assert x in [x] && Get(ms, x).sym == Get(ms', x).sym;
    SymsFrame(ms, ms', Tops(kids));
    if AllPrompted(ms', Tops(kids)) {
      forall y | y in Tops(kids)
        ensures Get(ms, y).prompt.Some?
      {
        assert Get(ms', y).prompt == Get(ms, y).prompt;
      }
    }
  }

  lemma {:induction false} DrawnFrame(choices: set<Symbol>, ms: MenuMap, ms': MenuMap, m0: Members, m1: Members,
                                      m0': Members, m1': Members, f: Forest)
    requires Drawn(choices, ms, m0, m1, f) && SameFixed(ms, ms')
    requires SameFor(choices, ms, m0, m0', Preorder(f)) && SameFor(choices, ms, m1, m1', Preorder(f))
    ensures Drawn(choices, ms', m0', m1', f)
  {
    if f.Node? {
      DrawnAtFrame(choices, ms, ms', m0, m1, m0', m1', f.id, f.kids);
      DrawnFrame(choices, ms, ms', m0, m1, m0', m1', f.kids);
      DrawnFrame(choices, ms, ms', m0, m1, m0', m1', f.rest);
    }
  }

  lemma {:induction false} DrawnUpToFrame(choices: set<Symbol>, ms: MenuMap, ms': MenuMap, m0: Members, m1: Members,
                                          m0': Members, m1': Members, all: Forest, todo: Forest, ids: seq<Id>)
    requires DrawnUpTo(choices, ms, m0, m1, all, todo) && SameFixed(ms, ms') && IsSuffix(todo, all) && Distinct(Preorder(all))
    requires SameFor(choices, ms, m0, m0', ids) && SameFor(choices, ms, m1, m1', ids)
    requires forall x :: x in FinBetween(all, todo) ==> x in ids
    ensures DrawnUpTo(choices, ms', m0', m1', all, todo)
  {
    if all != todo {
      DistinctNode(all.id, all.kids, all.rest);
      SuffixParts(todo, all.rest);
      DrawnAtFrame(choices, ms, ms', m0, m1, m0', m1', all.id, all.kids);
      DrawnFrame(choices, ms, ms', m0, m1, m0', m1', all.kids);
      DrawnUpToFrame(choices, ms, ms', m0, m1, m0', m1', all.rest, todo, ids);
    }
  }

  lemma {:induction false} DrawnUpToAppend(choices: set<Symbol>, ms: MenuMap, m0: Members, m1: Members,
                                           all: Forest, mid: Forest, todo: Forest)
    requires DrawnUpTo(choices, ms, m0, m1, all, mid) && DrawnUpTo(choices, ms, m0, m1, mid, todo) && IsSuffix(mid, all)
    ensures DrawnUpTo(choices, ms, m0, m1, all, todo)
  {
    if all != mid { DrawnUpToAppend(choices, ms, m0, m1, all.rest, mid, todo); }
  }

  lemma SameForBoth(choices: set<Symbol>, ms: MenuMap, m0: Members, m1: Members, m2: Members,
                    all: Forest, mid: Forest, done: Forest, one: Forest)
    requires KeptOutside(choices, ms, m0, m1, Preorder(done)) && KeptOutside(choices, ms, m1, m2, Preorder(one))
    requires Distinct(Preorder(all)) && Preorder(done) + Preorder(mid) == Preorder(all)
    requires forall x :: x in Preorder(one) ==> x in Preorder(mid)
    ensures SameFor(choices, ms, m0, m1, Preorder(mid)) && SameFor(choices, ms, m1, m2, Preorder(done))
    ensures forall x :: x in FinBetween(all, mid) ==> x in Preorder(done)
  {
    DistinctParts(Preorder(done), Preorder(mid));
    assert forall x :: x in Preorder(all) ==> x in Preorder(done) || x in Preorder(mid);
  }

  lemma SameForSame(choices: set<Symbol>, ms: MenuMap, ms': MenuMap, m: Members, m': Members, ids: seq<Id>)
    requires SameFor(choices, ms, m, m', ids) && SameFixed(ms, ms')
    ensures SameFor(choices, ms', m, m', ids)
  {
    forall x | x in ids && IsChoice(choices, ms', x)
      ensures Get(ms, x).sym == Get(ms', x).sym
    {
    }
  }

  lemma {:induction false} SuffixDistinct(f: Forest, g: Forest)
    requires IsSuffix(g, f) && Distinct(Preorder(f))
    ensures Distinct(Preorder(g))
  {
    if g != f {
      DistinctNode(f.id, f.kids, f.rest);
      SuffixDistinct(f.rest, g);
    }
  }

  lemma KeptSame(choices: set<Symbol>, ms: MenuMap, ms': MenuMap, m: Members, m': Members, ids: seq<Id>)
    requires KeptOutside(choices, ms', m, m', ids) && SameFixed(ms, ms')
    ensures KeptOutside(choices, ms, m, m', ids)
  {
    forall x
      ensures Get(ms, x).sym == Get(ms', x).sym
    {
    }
  }

  lemma DrawnFurther(choices: set<Symbol>, ms: MenuMap, ms': MenuMap, m0: Members, m1: Members, m2: Members,
                     all: Forest, mid: Forest, todo: Forest, done: Forest)
    requires DrawnUpTo(choices, ms, m0, m1, all, mid) && DrawnUpTo(choices, ms', m1, m2, mid, todo) && SameFixed(ms, ms')
    requires SameFor(choices, ms, m0, m1, Preorder(mid)) && SameFor(choices, ms, m1, m2, Preorder(done))
    requires forall x :: x in FinBetween(all, mid) ==> x in Preorder(done)
    requires IsSuffix(mid, all) && IsSuffix(todo, mid) && Distinct(Preorder(all))
    ensures DrawnUpTo(choices, ms', m0, m2, all, todo)
  {
    SameForSame(choices, ms, ms', m0, m1, Preorder(mid));
    SuffixDistinct(all, mid);
    DrawnUpToFrame(choices, ms, ms', m0, m1, m0, m2, all, mid, Preorder(done));
    DrawnUpToFrame(choices, ms', ms', m1, m2, m0, m2, mid, todo, Preorder(mid));
    DrawnUpToAppend(choices, ms', m0, m2, all, mid, todo);
  }

  /** One more entry of a list, which is finalized as one while done holds those before it. */
  lemma SourcedFurther(choices: set<Symbol>, ms: MenuMap, ms': MenuMap, m0: Members, m1: Members, m2: Members,
                       all: Forest, mid: Forest, todo: Forest, done: Forest, one: Forest)
    requires Sourced(choices, ms, m0, m1, all, mid) && Sourced(choices, ms', m1, m2, mid, todo) && SameFixed(ms, ms')
    requires Joined(choices, ms, m0, m1, done) && Joined(choices, ms', m1, m2, one)
    requires IsSuffix(mid, all) && IsSuffix(todo, mid) && Distinct(Preorder(all))
    requires Preorder(done) + Preorder(mid) == Preorder(all)
    requires forall x :: x in Preorder(one) ==> x in Preorder(mid)
    ensures Sourced(choices, ms', m0, m2, all, todo)
  {
    SameChoices(choices, ms, ms');
    if OneEntryEach(choices, ms') {
      KeptSame(choices, ms, ms', m1, m2, Preorder(one));
      SameForBoth(choices, ms, m0, m1, m2, all, mid, done, one);
      DrawnFurther(choices, ms, ms', m0, m1, m2, all, mid, todo, done);
    }
  }

  lemma SourcedStart(choices: set<Symbol>, ms: MenuMap, members: Members, all: Forest)
    ensures Sourced(choices, ms, members, members, all, all)
  {
  }

  lemma SourcedRest(choices: set<Symbol>, ms: MenuMap, m0: Members, m1: Members, all: Forest)
    ensures Sourced(choices, ms, m0, m1, all, all)
  {
  }

  lemma SourcedFrame(choices: set<Symbol>, ms: MenuMap, ms': MenuMap, m0: Members, m1: Members, all: Forest, todo: Forest)
    requires Sourced(choices, ms, m0, m1, all, todo) && SameFixed(ms, ms') && IsSuffix(todo, all) && Distinct(Preorder(all))
    ensures Sourced(choices, ms', m0, m1, all, todo)
  {
    SameChoices(choices, ms, ms');
    if OneEntryEach(choices, ms') { DrawnUpToFrame(choices, ms, ms', m0, m1, m0, m1, all, todo, Preorder(all)); }
  }

  lemma InNext(todo: Forest, kids': Forest, rest': Forest)
    requires todo.Node? && Preorder(kids') + Preorder(rest') == Preorder(todo.kids) + Preorder(todo.rest)
    ensures forall x :: x in Preorder(Node(todo.id, kids', Nil)) ==> x in Preorder(todo)
  {
    forall x | x in Preorder(Node(todo.id, kids', Nil))
      ensures x in Preorder(todo)
    {
      assert x == todo.id || x in Preorder(kids') + Preorder(rest');
      assert Preorder(todo) == [todo.id] + (Preorder(todo.kids) + Preorder(todo.rest));
    }
  }

  lemma SourcedNext(choices: set<Symbol>, ms: MenuMap, ms': MenuMap, m0: Members, m1: Members, m2: Members,
                    done: Forest, m: Id, kids': Forest, rest': Forest, todo: Forest, all: Forest)
    requires Sourced(choices, ms, m0, m1, all, todo) && Sourced(choices, ms', m1, m2, todo, rest') && SameFixed(ms, ms')
    requires Joined(choices, ms, m0, m1, done) && Joined(choices, ms', m1, m2, Node(m, kids', Nil))
    requires todo.Node? && todo.id == m && Preorder(kids') + Preorder(rest') == Preorder(todo.kids) + Preorder(todo.rest)
    requires IsSuffix(todo, all) && IsSuffix(rest', todo.rest) && Distinct(Preorder(all))
    requires Preorder(done) + Preorder(todo) == Preorder(all)
    ensures Sourced(choices, ms', m0, m2, all, rest')
  {
    InNext(todo, kids', rest');
    assert IsSuffix(rest', todo);
    SourcedFurther(choices, ms, ms', m0, m1, m2, all, todo, rest', done, Node(m, kids', Nil));
  }

  /** A list in which every entry has a prompt takes nothing in. */
  lemma {:induction false} HoistedTops(ms: MenuMap, f: Forest)
    requires AllPrompted(ms, Tops(f))
    ensures Hoisted(ms, f) == f
    decreases |Preorder(f)|
  {
    if f.Node? {
      assert f.id in Tops(f);
      HoistedTops(ms, f.rest);
    }
  }

  lemma {:induction false} SymsOfTops(ms: MenuMap, a: seq<Id>, b: seq<Id>)
    requires forall x :: x in a ==> x in b
    ensures forall t :: t in Syms(ms, a) ==> t in Syms(ms, b)
  {
    if a != [] {
      SymsOfTops(ms, a[..|a| - 1], b);
      if Get(ms, a[|a| - 1]).sym.Some? { SymIn(ms, b, a[|a| - 1]); }
    }
  }

  lemma {:induction false} SymIn(ms: MenuMap, ids: seq<Id>, x: Id)
    requires x in ids && Get(ms, x).sym.Some?
    ensures Get(ms, x).sym.value in Syms(ms, ids)
  {
    if ids[|ids| - 1] != x { SymIn(ms, ids[..|ids| - 1], x); }
  }

  lemma {:induction false} SymFrom(ms: MenuMap, ids: seq<Id>, t: Symbol) returns (x: Id)
    requires t in Syms(ms, ids)
    ensures x in ids && Get(ms, x).sym == Some(t)
  {
    var last := ids[|ids| - 1];
    if Get(ms, last).sym == Some(t) { x := last; } else { x := SymFrom(ms, ids[..|ids| - 1], t); }
  }

  /** The entries below p have their members, and then p gets its own: those of its list, or of what it absorbed. */
  lemma SourcedEntry(choices: set<Symbol>, ms: MenuMap, ms': MenuMap, m0: Members, m1: Members, m2: Members, p: Id,
                     kids: Forest, own: Forest, rest: Forest, rest': Forest)
    requires Sourced(choices, ms, m0, m1, kids, Nil) && Sourced(choices, ms, m0, m1, rest, rest') && SameFixed(ms, ms')
    requires Adds(choices, ms', m1, m2, p, Tops(Hoisted(ms', own))) && Joined(choices, ms, m0, m1, own)
    requires kids.Node? ==> forall x :: x in Tops(own) ==> x in Tops(kids)
    requires Distinct(Preorder(Node(p, kids, rest))) && IsSuffix(rest', rest) && p !in Preorder(own)
    ensures Sourced(choices, ms', m0, m2, Node(p, kids, rest), rest')
  {
    SameChoices(choices, ms, ms');
    if OneEntryEach(choices, ms') {
      DistinctNode(p, kids, rest);
      forall x | x != p && IsChoice(choices, ms, x)
        ensures MembersOf(m2, Get(ms, x).sym.value) == MembersOf(m1, Get(ms, x).sym.value)
      {
        assert Get(ms, x).sym == Get(ms', x).sym && Get(ms, p).sym == Get(ms', p).sym;
      }
      DrawnUpToIsDrawn(choices, ms, m0, m1, kids);
      DrawnFrame(choices, ms, ms', m0, m1, m0, m2, kids);
      DrawnUpToFrame(choices, ms, ms', m0, m1, m0, m2, rest, rest', Preorder(rest));
      SourcedHead(choices, ms', m0, m1, m2, p, kids, own);
    }
  }

  lemma {:induction false} DrawnUpToIsDrawn(choices: set<Symbol>, ms: MenuMap, m0: Members, m1: Members, f: Forest)
    requires DrawnUpTo(choices, ms, m0, m1, f, Nil)
    ensures Drawn(choices, ms, m0, m1, f)
  {
    if f.Node? { DrawnUpToIsDrawn(choices, ms, m0, m1, f.rest); }
  }

  lemma SourcedHead(choices: set<Symbol>, ms: MenuMap, m0: Members, m1: Members, m2: Members, p: Id, kids: Forest, own: Forest)
    requires Adds(choices, ms, m1, m2, p, Tops(Hoisted(ms, own)))
    requires IsChoice(choices, ms, p) ==> MembersOf(m1, Get(ms, p).sym.value) == MembersOf(m0, Get(ms, p).sym.value)
    requires kids.Node? ==> forall x :: x in Tops(own) ==> x in Tops(kids)
    ensures DrawnAt(choices, ms, m0, m2, p, kids)
  {
    if IsChoice(choices, ms, p) && kids.Node? && AllPrompted(ms, Tops(kids)) {
      HoistedTops(ms, own);
      SymsOfTops(ms, Tops(own), Tops(kids));
    }
  }

  /** The next entry of a list is as it was. */
  lemma StillShown(a: MenuMap, b: MenuMap, all: Forest, todo: Forest)
    requires IsSuffix(todo, all) && todo.Node? && Distinct(Preorder(all))
    requires SameFixed(a, b) && SameDataOutside(a, b, Below(all))
    ensures ShownIf(Get(b, todo.id)) == ShownIf(Get(a, todo.id))
  {
    BelowInPreorder(all);
    SuffixParts(todo, all);
    assert todo.id in Tops(todo);
    assert SameData(Get(a, todo.id), Get(b, todo.id));
  }

  class MenuTree {
    /** Symbols with SYMBOL_CHOICE, and those with SYMBOL_OPTIONAL. */
    const choices: set<Symbol>
    const optional: set<Symbol>
    var ms: MenuMap
    var revDep: RevDeps
    /** The E_CHOICE list of each choice. */
    var members: Members

    constructor (choices: set<Symbol>, optional: set<Symbol>)
      ensures ms == map[] && revDep == map[] && members == map[]
      ensures this.choices == choices && this.optional == optional
    {
      this.choices, this.optional, ms, revDep, members := choices, optional, map[], map[], map[];
    }

    // ----- passing the parent's condition on -----

    method PropagateEntry(m: Id, parentdep: OptExpr)
      modifies this`ms, this`revDep
      ensures ms == old(ms)[m := Propagated(parentdep, Get(old(ms), m))]
      ensures revDep == var menu := Get(ms, m); AddSelects(old(revDep), menu.sym, menu.props, |menu.props|)
    {
      var menu := Get(ms, m);
      ghost var menu0 := menu;
      var base := Inherit(parentdep, menu.dep);
      menu := menu.(dep := base);
      var i := 0;
      while i < |menu.props|
        invariant 0 <= i <= |menu.props| == |menu0.props|
        invariant menu == menu0.(dep := base, props := menu.props)
        invariant menu.props[..i] == Propagated(parentdep, menu0).props[..i]
        invariant menu.props[i..] == menu0.props[i..]
        invariant revDep == AddSelects(old(revDep), menu0.sym, menu.props, i)
        invariant ms == old(ms)
      {
        var dep := InheritVisible(base, menu.props[i].visible, KeepsMod(menu));
        ghost var props0 := menu.props;
        menu := menu.(props := menu.props[i := menu.props[i].(visible := dep)]);
        AddSelectsPrefix(old(revDep), menu0.sym, props0, menu.props, i);
        revDep := AddSelect(revDep, menu.sym, menu.props[i]);
        i := i + 1;
      }
      assert menu.props == menu.props[..i] && Propagated(parentdep, menu0).props == Propagated(parentdep, menu0).props[..i];
      ms := ms[m := menu];
    }

    /** The first loop over the list of p. */
    method Propagate(p: Id, ghost kids: Forest)
      requires Linked(ms, Get(ms, p).list, Some(p), kids, None) && Distinct([p] + Preorder(kids))
      modifies this`ms, this`revDep
      ensures forall id ::
        Get(ms, id) == if id in Tops(kids) then Propagated(ParentDep(old(ms), choices, p), Get(old(ms), id))
                       else Get(old(ms), id)
      ensures Raised(optional, old(revDep), revDep, ms, SetOf(Tops(kids)), {})
    {
      var parentdep := ParentDep(ms, choices, p);
      var cur := Get(ms, p).list;
      ghost var todo, done: seq<Id> := kids, [];
      DistinctParts([p], Preorder(kids));
      TopsInPreorder(kids);
      RaisedNone(optional, revDep, ms);
      assert SetOf(done) == {};
      while cur.Some?
        invariant Linked(ms, cur, Some(p), todo, None)
        invariant Tops(kids) == done + Tops(todo)
        invariant forall id ::
          Get(ms, id) == if id in done then Propagated(parentdep, Get(old(ms), id)) else Get(old(ms), id)
        invariant Raised(optional, old(revDep), revDep, ms, SetOf(done), {})
        decreases todo
      {
        var m := cur.value;
        ghost var ms1, rev1 := ms, revDep;
        DistinctParts(done, Tops(todo));
        PropagateEntry(m, parentdep);
        RaisedByEntry(optional, old(revDep), rev1, ms1, done, m, parentdep);
        LinkedFrame(ms1, ms, cur, Some(p), todo, None);
        cur := Get(ms, m).next;
        done, todo := done + [m], todo.rest;
      }
      assert Tops(kids) == done;
    }

    // ----- re-linking -----

    /** The entry p, what is below it, and what follows it in its list. */
    ghost predicate Placed(p: Id, kids: Forest, rest: Forest)
      reads this
    {
      && Linked(ms, Get(ms, p).list, Some(p), kids, None)
      && Linked(ms, Get(ms, p).next, Get(ms, p).parent, rest, None)
      && Distinct(Preorder(Node(p, kids, rest)))
    }

    /** The list of p when each of its entries has been finalized. */
    method FinalizeList(p: Id, ghost kids: Forest) returns (ghost done: Forest)
      requires Linked(ms, Get(ms, p).list, Some(p), kids, None) && Distinct([p] + Preorder(kids))
      modifies this
      ensures Linked(ms, Get(ms, p).list, Some(p), done, None)
      ensures Preorder(done) == Preorder(kids) && PromptedBelow(ms, done)
      ensures SameOutside(old(ms), ms, Preorder(kids)) && SameFixed(old(ms), ms)
      ensures SameDataOutside(old(ms), ms, Below(kids))
      ensures Raised(optional, old(revDep), revDep, ms, SetOf(Below(kids)), SetOf(Preorder(kids)))
      ensures Conditioned(choices, old(ms), ms, kids, Nil)
      ensures Joined(choices, ms, old(members), members, done)
      ensures Sourced(choices, ms, old(members), members, kids, Nil) && forall x :: x in Tops(done) ==> x in Tops(kids)
      decreases |Preorder(kids)|, 1
    {
      var cur := Get(ms, p).list;
      ghost var first := cur;
      ghost var todo := kids;
      done := Nil;
      DistinctParts([p], Preorder(kids));
      assert p in [p];
      RaisedStart(optional, revDep, ms, kids);
      ConditionedStart(choices, ms, kids);
      JoinedNone(choices, ms, members);
      SourcedStart(choices, ms, members, kids);
      while cur.Some?
        invariant Linked(ms, first, Some(p), done, cur) && Linked(ms, cur, Some(p), todo, None)
        invariant Preorder(done) + Preorder(todo) == Preorder(kids)
        invariant SameOutside(old(ms), ms, Preorder(kids)) && SameFixed(old(ms), ms)
        invariant PromptedBelow(ms, done) && forall x :: x in Tops(done) ==> x in Tops(kids)
        invariant Sourced(choices, ms, old(members), members, kids, todo)
        invariant IsSuffix(todo, kids) && SameDataOutside(old(ms), ms, Below(kids))
        invariant Raised(optional, old(revDep), revDep, ms, SelBetween(kids, todo), FinBetween(kids, todo))
        invariant Conditioned(choices, old(ms), ms, kids, todo)
        invariant Joined(choices, ms, old(members), members, done)
        decreases |Preorder(todo)|
      {
        ghost var todo1, rev1, ms1 := todo, revDep, ms;
        SuffixParts(todo, kids);
        done, todo := FinalizeNext(old(members), p, first, cur.value, done, todo, kids);
        SuffixTrans(todo, todo1, kids);
        RaisedFurther(optional, old(revDep), rev1, revDep, ms1, ms, kids, todo1, todo);
        ConditionedFurther(choices, old(ms), ms1, ms, kids, todo1, todo);
        cur := Get(ms, cur.value).next;
      }
      BetweenAll(kids);
    }

    /** One round of that loop. */
    method FinalizeNext(ghost m0: Members, p: Id, ghost first: Ptr, m: Id, ghost done: Forest, ghost todo: Forest,
                        ghost all: Forest)
        returns (ghost done': Forest, ghost todo': Forest)
      requires Linked(ms, first, Some(p), done, Some(m)) && Linked(ms, Some(m), Some(p), todo, None)
      requires Distinct(Preorder(done) + Preorder(todo)) && PromptedBelow(ms, done)
      requires Joined(choices, ms, m0, members, done)
      requires Sourced(choices, ms, m0, members, all, todo) && IsSuffix(todo, all) && Distinct(Preorder(all))
      requires Preorder(done) + Preorder(todo) == Preorder(all)
      modifies this
      ensures Joined(choices, ms, m0, members, done') && Tops(done') == Tops(done) + [m]
      ensures Sourced(choices, ms, m0, members, all, todo')
      ensures Linked(ms, first, Some(p), done', Get(ms, m).next)
      ensures Linked(ms, Get(ms, m).next, Some(p), todo', None)
      ensures Preorder(done') + Preorder(todo') == Preorder(done) + Preorder(todo)
      ensures |Preorder(todo')| < |Preorder(todo)|
      ensures SameOutside(old(ms), ms, Preorder(todo)) && SameFixed(old(ms), ms)
      ensures PromptedBelow(ms, done')
      ensures IsSuffix(todo', todo) && SameDataOutside(old(ms), ms, Below(todo))
      ensures Raised(optional, old(revDep), revDep, ms, SelBetween(todo, todo'), FinBetween(todo, todo'))
      ensures Conditioned(choices, old(ms), ms, todo, todo')
      decreases |Preorder(todo)|, 0
    {
      ghost var ms1, m1 := ms, members;
      ghost var kids, rest := todo.kids, todo.rest;
      DistinctParts(Preorder(done), Preorder(todo));
      ghost var kids', rest', _ := Finalize(m, kids, rest);
      JoinedNext(choices, ms1, ms, m0, m1, members, done, m, kids', rest', todo);
      SourcedNext(choices, ms1, ms, m0, m1, members, done, m, kids', rest', todo, all);
      TopsAppendOne(done, m, kids');
      ParentSplits(m, kids, rest, rest');
      StepLinked(ms1, ms, first, Some(p), done, m, kids');
      StepPreorder(done, m, kids, rest, kids', rest');
      done', todo' := Append(done, Node(m, kids', Nil)), rest';
      PromptedStep(ms1, ms, done, m, kids');
      assert |Preorder(kids') + Preorder(rest')| == |Preorder(kids) + Preorder(rest)|;
    }

    /** The sibling loop: entries after p that depend on it move into its list. */
    method Absorb(p: Id, sym: Symbol, ghost rest: Forest) returns (ghost done: Forest, ghost todo: Forest)
      requires Get(ms, p).list == None && Get(ms, p).sym == Some(sym)
      requires Linked(ms, Get(ms, p).next, Get(ms, p).parent, rest, None) && Distinct([p] + Preorder(rest))
      modifies this
      ensures Placed(p, done, todo) && Get(ms, p).parent == Get(old(ms), p).parent
      ensures Preorder(done) + Preorder(todo) == Preorder(rest) && PromptedBelow(ms, done)
      ensures SameOutside(old(ms), ms, [p] + Preorder(rest)) && SameFixed(old(ms), ms)
      ensures IsSuffix(todo, rest) && SameDataOutside(old(ms), ms, Below(rest))
      ensures AbsorbedRun(old(ms), p, sym, done, todo)
      ensures Raised(optional, old(revDep), revDep, ms, SelBetween(rest, todo), FinBetween(rest, todo))
      ensures Conditioned(choices, old(ms), ms, rest, todo)
      ensures Joined(choices, ms, old(members), members, done)
      ensures Sourced(choices, ms, old(members), members, rest, todo)
      decreases |Preorder(rest)|, 3
    {
      var last;
      DistinctParts([p], Preorder(rest));
      assert p in [p];
      done, todo, last := AbsorbLoop(p, sym, rest);
      NodePreorder(p, done, todo, rest);
      if last.Some? {
        ghost var ms2 := ms;
        Relink(p, last.value, done, todo);
        PromptedFrame(ms2, ms, done);
        RaisedFrame(optional, old(revDep), revDep, ms2, ms, SelBetween(rest, todo), FinBetween(rest, todo));
        JoinedFrame(choices, ms2, ms, old(members), members, done);
        ConditionedFrame(choices, old(ms), ms2, ms, rest, todo);
        SourcedFrame(choices, ms2, ms, old(members), members, rest, todo);
      }
    }

    method AbsorbLoop(p: Id, sym: Symbol, ghost rest: Forest)
        returns (ghost done: Forest, ghost todo: Forest, last: Ptr)
      requires Linked(ms, Get(ms, p).next, Get(ms, p).parent, rest, None) && Distinct([p] + Preorder(rest))
      modifies this
      ensures last == if done.Node? then Some(Last(done)) else None
      ensures Linked(ms, Get(ms, p).next, Some(p), done, if done.Node? then Get(ms, Last(done)).next else Get(ms, p).next)
      ensures Linked(ms, if done.Node? then Get(ms, Last(done)).next else Get(ms, p).next, Get(ms, p).parent, todo, None)
      ensures Preorder(done) + Preorder(todo) == Preorder(rest) && PromptedBelow(ms, done)
      ensures SameOutside(old(ms), ms, Preorder(rest)) && SameFixed(old(ms), ms)
      ensures IsSuffix(todo, rest) && SameDataOutside(old(ms), ms, Below(rest))
      ensures AbsorbedRun(old(ms), p, sym, done, todo)
      ensures Raised(optional, old(revDep), revDep, ms, SelBetween(rest, todo), FinBetween(rest, todo))
      ensures Conditioned(choices, old(ms), ms, rest, todo)
      ensures Joined(choices, ms, old(members), members, done)
      ensures Sourced(choices, ms, old(members), members, rest, todo)
      decreases |Preorder(rest)|, 2
    {
      var basedep := NonNo(PromptOf(Get(ms, p)));
      var cur := Get(ms, p).next;
      last := None;
      ghost var first, parent := cur, Get(ms, p).parent;
      done, todo := Nil, rest;
      DistinctParts([p], Preorder(rest));
      assert p in [p];
      RaisedStart(optional, revDep, ms, rest);
      ConditionedStart(choices, ms, rest);
      JoinedNone(choices, ms, members);
      SourcedStart(choices, ms, members, rest);
      while cur.Some?
        invariant Linked(ms, first, Some(p), done, cur) && Linked(ms, cur, parent, todo, None)
        invariant Preorder(done) + Preorder(todo) == Preorder(rest)
        invariant SameOutside(old(ms), ms, Preorder(rest)) && SameFixed(old(ms), ms)
        invariant PromptedBelow(ms, done)
        invariant last == if done.Node? then Some(Last(done)) else None
        invariant cur == if done.Node? then Get(ms, Last(done)).next else first
        invariant IsSuffix(todo, rest) && SameDataOutside(old(ms), ms, Below(rest))
        invariant forall x :: x in Tops(done) ==> Absorbs(basedep, ShownIf(Get(old(ms), x)), sym)
        invariant Raised(optional, old(revDep), revDep, ms, SelBetween(rest, todo), FinBetween(rest, todo))
        invariant Conditioned(choices, old(ms), ms, rest, todo)
        invariant Joined(choices, ms, old(members), members, done)
        invariant Sourced(choices, ms, old(members), members, rest, todo)
        decreases |Preorder(todo)|
      {
        StillShown(old(ms), ms, rest, todo);
        if !Absorbs(basedep, ShownIf(Get(ms, cur.value)), sym) {
          break;
        }
        last := cur;
        done, todo := AbsorbRound(old(ms), old(members), old(revDep), p, first, cur.value, parent, done, todo, rest);
        cur := Get(ms, cur.value).next;
      }
    }

    /** One round of the sibling loop over all, of which todo is left. */
    method AbsorbRound(ghost ms0: MenuMap, ghost m0: Members, ghost r0: RevDeps, p: Id, ghost first: Ptr, m: Id,
                       ghost parent: Ptr, ghost done: Forest, ghost todo: Forest, ghost all: Forest)
        returns (ghost done': Forest, ghost todo': Forest)
      requires Linked(ms, first, Some(p), done, Some(m)) && Linked(ms, Some(m), parent, todo, None)
      requires Distinct(Preorder(done) + Preorder(todo)) && PromptedBelow(ms, done)
      requires Joined(choices, ms, m0, members, done)
      requires IsSuffix(todo, all) && Raised(optional, r0, revDep, ms, SelBetween(all, todo), FinBetween(all, todo))
      requires Conditioned(choices, ms0, ms, all, todo) && SameFixed(ms0, ms) && Distinct(Preorder(all))
      requires Sourced(choices, ms, m0, members, all, todo) && Preorder(done) + Preorder(todo) == Preorder(all)
      modifies this
      ensures Joined(choices, ms, m0, members, done')
      ensures Linked(ms, first, Some(p), done', Get(ms, m).next)
      ensures Linked(ms, Get(ms, m).next, parent, todo', None)
      ensures Preorder(done') + Preorder(todo') == Preorder(done) + Preorder(todo)
      ensures |Preorder(todo')| < |Preorder(todo)|
      ensures SameOutside(old(ms), ms, Preorder(all)) && SameFixed(old(ms), ms)
      ensures PromptedBelow(ms, done') && done'.Node? && Last(done') == m && Tops(done') == Tops(done) + [m]
      ensures IsSuffix(todo', all) && SameDataOutside(old(ms), ms, Below(all))
      ensures Raised(optional, r0, revDep, ms, SelBetween(all, todo'), FinBetween(all, todo'))
      ensures Conditioned(choices, ms0, ms, all, todo')
      ensures Sourced(choices, ms, m0, members, all, todo')
      decreases |Preorder(todo)|, 1
    {
      ghost var ms1, rev1 := ms, revDep;
      SuffixParts(todo, all);
      done', todo' := AbsorbNext(m0, p, first, m, parent, done, todo, all);
      SuffixTrans(todo', todo, all);
      RaisedFurther(optional, r0, rev1, revDep, ms1, ms, all, todo, todo');
      ConditionedFurther(choices, ms0, ms1, ms, all, todo, todo');
    }

    method AbsorbNext(ghost m0: Members, p: Id, ghost first: Ptr, m: Id, ghost parent: Ptr,
                      ghost done: Forest, ghost todo: Forest, ghost all: Forest)
        returns (ghost done': Forest, ghost todo': Forest)
      requires Linked(ms, first, Some(p), done, Some(m)) && Linked(ms, Some(m), parent, todo, None)
      requires Distinct(Preorder(done) + Preorder(todo)) && PromptedBelow(ms, done)
      requires Joined(choices, ms, m0, members, done)
      requires Sourced(choices, ms, m0, members, all, todo) && IsSuffix(todo, all) && Distinct(Preorder(all))
      requires Preorder(done) + Preorder(todo) == Preorder(all)
      modifies this
      ensures Joined(choices, ms, m0, members, done')
      ensures Sourced(choices, ms, m0, members, all, todo')
      ensures Linked(ms, first, Some(p), done', Get(ms, m).next)
      ensures Linked(ms, Get(ms, m).next, parent, todo', None)
      ensures Preorder(done') + Preorder(todo') == Preorder(done) + Preorder(todo)
      ensures |Preorder(todo')| < |Preorder(todo)|
      ensures SameOutside(old(ms), ms, Preorder(todo)) && SameFixed(old(ms), ms)
      ensures PromptedBelow(ms, done') && done'.Node? && Last(done') == m && Tops(done') == Tops(done) + [m]
      ensures IsSuffix(todo', todo) && SameDataOutside(old(ms), ms, Below(todo))
      ensures Raised(optional, old(revDep), revDep, ms, SelBetween(todo, todo'), FinBetween(todo, todo'))
      ensures Conditioned(choices, old(ms), ms, todo, todo')
      decreases |Preorder(todo)|, 0
    {
      ghost var ms1, m1 := ms, members;
      ghost var kids, rest := todo.kids, todo.rest;
      DistinctParts(Preorder(done), Preorder(todo));
      ghost var kids', rest' := FinalizeAdopted(p, m, kids, rest);
      JoinedNext(choices, ms1, ms, m0, m1, members, done, m, kids', rest', todo);
      SourcedNext(choices, ms1, ms, m0, m1, members, done, m, kids', rest', todo, all);
      StepLinked(ms1, ms, first, Some(p), done, m, kids');
      StepPreorder(done, m, kids, rest, kids', rest');
      done', todo' := Append(done, Node(m, kids', Nil)), rest';
      PromptedStep(ms1, ms, done, m, kids');
      LastAppendOne(done, m, kids');
      TopsAppendOne(done, m, kids');
      assert |Preorder(kids') + Preorder(rest')| == |Preorder(kids) + Preorder(rest)|;
    }

    /** The entry m, finalized, with p as its parent. */
    method FinalizeAdopted(p: Id, m: Id, ghost kids: Forest, ghost rest: Forest)
        returns (ghost kids': Forest, ghost rest': Forest)
      requires Placed(m, kids, rest)
      modifies this
      ensures Get(ms, m).parent == Some(p) && Linked(ms, Get(ms, m).list, Some(m), kids', None)
      ensures Linked(ms, Get(ms, m).next, Get(old(ms), m).parent, rest', None)
      ensures Preorder(kids') + Preorder(rest') == Preorder(kids) + Preorder(rest)
      ensures SameOutside(old(ms), ms, Preorder(Node(m, kids, rest))) && SameFixed(old(ms), ms)
      ensures IsSuffix(rest', rest) && SameDataOutside(old(ms), ms, Below(Node(m, kids, rest)))
      ensures Prompted(ms, kids') && Joined(choices, ms, old(members), members, Node(m, kids', Nil))
      ensures var all := Node(m, kids, rest);
        && Raised(optional, old(revDep), revDep, ms, SelBetween(all, rest'), FinBetween(all, rest'))
        && Conditioned(choices, old(ms), ms, all, rest')
        && Sourced(choices, ms, old(members), members, all, rest')
      decreases |Preorder(kids)| + |Preorder(rest)|, 6
    {
      ghost var own;
      kids', rest', own := Finalize(m, kids, rest);
      ghost var ms2, all := ms, Node(m, kids, rest);
      Adopt(p, m, kids', rest');
      ParentSplits(m, kids, rest, rest');
      RaisedFrame(optional, old(revDep), revDep, ms2, ms, SelBetween(all, rest'), FinBetween(all, rest'));
      JoinedFrame(choices, ms2, ms, old(members), members, Node(m, kids', Nil));
      ConditionedFrame(choices, old(ms), ms2, ms, all, rest');
      SourcedFrame(choices, ms2, ms, old(members), members, all, rest');
      PromptedFrame(ms2, ms, kids');
      assert m in Preorder(all);
    }

    /** menu->parent = parent */
    method Adopt(p: Id, m: Id, ghost kids: Forest, ghost rest: Forest)
      requires Placed(m, kids, rest)
      modifies this`ms
      ensures Get(ms, m).parent == Some(p) && Linked(ms, Get(ms, m).list, Some(m), kids, None)
      ensures Linked(ms, Get(ms, m).next, Get(old(ms), m).parent, rest, None)
      ensures SameOutside(old(ms), ms, [m]) && SameFixed(old(ms), ms) && SameDataOutside(old(ms), ms, [])
    {
      ghost var ms1 := ms;
      DistinctNode(m, kids, rest);
      ms := ms[m := Get(ms, m).(parent := Some(p))];
      LinkedFrame(ms1, ms, Get(ms1, m).list, Some(m), kids, None);
      LinkedFrame(ms1, ms, Get(ms1, m).next, Get(ms1, m).parent, rest, None);
    }

    /** Cuts the absorbed entries out of the list of p and makes them its own list. */
    method Relink(p: Id, last: Id, ghost done: Forest, ghost todo: Forest)
      requires done.Node? && last == Last(done)
      requires Linked(ms, Get(ms, p).next, Some(p), done, Get(ms, last).next)
      requires Linked(ms, Get(ms, last).next, Get(ms, p).parent, todo, None)
      requires Distinct([p] + (Preorder(done) + Preorder(todo)))
      modifies this`ms
      ensures Placed(p, done, todo) && Get(ms, p).parent == Get(old(ms), p).parent
      ensures SameOutside(old(ms), ms, [p] + Preorder(done)) && SameFixed(old(ms), ms)
      ensures SameDataOutside(old(ms), ms, [])
    {
      RelinkedPlaces(ms, p, last, done, todo);
      LastInPreorder(done);
      ms := ms[p := Get(ms, p).(list := Get(ms, p).next, next := Get(ms, last).next)];
      ms := ms[last := Get(ms, last).(next := None)];
    }

    // ----- hoisting -----

    /** The last loop over the list of p: an entry with a list but no prompt gives its list to p. */
    method Hoist(p: Id, ghost kids: Forest) returns (ghost done: Forest)
      requires Linked(ms, Get(ms, p).list, Some(p), kids, None) && Distinct([p] + Preorder(kids))
      requires PromptedBelow(ms, kids)
      modifies this`ms, this`members
      ensures Linked(ms, Get(ms, p).list, Some(p), done, None)
      ensures Preorder(done) == Preorder(kids) && Prompted(ms, done) && done == Hoisted(ms, kids)
      ensures SameOutside(old(ms), ms, Preorder(kids)) && SameFixed(old(ms), ms)
      ensures SameDataOutside(old(ms), ms, [])
      ensures Adds(choices, ms, old(members), members, p, Tops(done))
    {
      ghost var ms1 := ms;
      var cur := Get(ms, p).list;
      ghost var first := cur;
      ghost var todo := kids;
      done := Nil;
      DistinctParts([p], Preorder(kids));
      assert p in [p];
      while cur.Some?
        invariant Linked(ms, first, Some(p), done, cur) && Linked(ms, cur, Some(p), todo, None)
        invariant Preorder(done) + Preorder(todo) == Preorder(kids)
        invariant SameOutside(old(ms), ms, Preorder(kids)) && SameFixed(old(ms), ms)
        invariant Prompted(ms, done) && PromptedBelow(ms, todo)
        invariant Append(done, Hoisted(ms1, todo)) == Hoisted(ms1, kids)
        invariant SameDataOutside(old(ms), ms, [])
        invariant Adds(choices, ms1, old(members), members, p, Tops(done))
        decreases |Preorder(todo)|
      {
        MemberNext(ms1, old(members), p, cur.value, Tops(done));
        HoistedFrame(ms1, ms, todo);
        done, todo := HoistNext(p, first, cur.value, done, todo);
        HoistedFrame(ms1, ms, todo);
        cur := Get(ms, cur.value).next;
      }
      AppendNil(done);
      HoistedFrame(ms1, ms, kids);
      AddsFrame(choices, ms1, ms, old(members), members, p, Tops(done));
    }

    method MemberNext(ghost ms1: MenuMap, ghost m0: Members, p: Id, m: Id, ghost ids: seq<Id>)
      requires Adds(choices, ms1, m0, members, p, ids) && SameFixed(ms1, ms)
      modifies this`members
      ensures Adds(choices, ms1, m0, members, p, ids + [m])
    {
      ghost var m1 := members;
      AddMember(p, m);
      assert Get(ms, p).sym == Get(ms1, p).sym && Get(ms, m).sym == Get(ms1, m).sym;
      AddsOne(choices, ms1, m0, m1, p, ids, m);
    }

    /** A member of a choice joins the choice's list. */
    method AddMember(p: Id, m: Id)
      modifies this`members
      ensures members == WithMember(choices, ms, old(members), p, m)
    {
      var choice, sym := Get(ms, p).sym, Get(ms, m).sym;
      if choice.Some? && choice.value in choices && sym.Some? {
        members := members[choice.value := MembersOf(members, choice.value) + [sym.value]];
      }
    }

    method HoistNext(p: Id, ghost first: Ptr, m: Id, ghost done: Forest, ghost todo: Forest)
        returns (ghost done': Forest, ghost todo': Forest)
      requires Linked(ms, first, Some(p), done, Some(m)) && Linked(ms, Some(m), Some(p), todo, None)
      requires Distinct(Preorder(done) + Preorder(todo))
      requires Prompted(ms, done) && PromptedBelow(ms, todo)
      modifies this`ms
      ensures Linked(ms, first, Some(p), done', Get(ms, m).next)
      ensures Linked(ms, Get(ms, m).next, Some(p), todo', None)
      ensures Preorder(done') + Preorder(todo') == Preorder(done) + Preorder(todo)
      ensures |Preorder(todo')| < |Preorder(todo)|
      ensures SameOutside(old(ms), ms, Preorder(todo)) && SameFixed(old(ms), ms)
      ensures Append(done', Hoisted(ms, todo')) == Append(done, Hoisted(old(ms), todo))
      ensures SameDataOutside(old(ms), ms, []) && Tops(done') == Tops(done) + [m]
      ensures Prompted(ms, done') && PromptedBelow(ms, todo')
    {
      ghost var ms1 := ms;
      ghost var kids, rest := todo.kids, todo.rest;
      DistinctParts(Preorder(done), Preorder(todo));
      DistinctNode(m, kids, rest);
      if Get(ms, m).list.Some? && Get(ms, m).prompt.None? {
        done', todo' := SpliceNext(p, first, m, done, todo);
      } else {
        StepLinked(ms1, ms, first, Some(p), done, m, kids);
        StepPreorder(done, m, kids, rest, kids, rest);
        AppendAssoc(done, Node(m, kids, Nil), Hoisted(ms, rest));
        done', todo' := Append(done, Node(m, kids, Nil)), rest;
        assert kids.Node? ==> Get(ms, m).list.Some?;
        assert Hoisted(ms, todo) == Node(m, kids, Hoisted(ms, rest));
        assert Prompted(ms, Node(m, kids, Nil));
        PromptedAppend(ms, done, Node(m, kids, Nil));
        TopsAppendOne(done, m, kids);
      }
    }

    method SpliceNext(p: Id, ghost first: Ptr, m: Id, ghost done: Forest, ghost todo: Forest)
        returns (ghost done': Forest, ghost todo': Forest)
      requires Linked(ms, first, Some(p), done, Some(m)) && Linked(ms, Some(m), Some(p), todo, None)
      requires Distinct(Preorder(done) + Preorder(todo)) && Get(ms, m).list.Some? && Get(ms, m).prompt.None?
      requires Prompted(ms, done) && PromptedBelow(ms, todo)
      modifies this`ms
      ensures Linked(ms, first, Some(p), done', Get(ms, m).next)
      ensures Linked(ms, Get(ms, m).next, Some(p), todo', None)
      ensures Preorder(done') + Preorder(todo') == Preorder(done) + Preorder(todo)
      ensures |Preorder(todo')| < |Preorder(todo)|
      ensures SameOutside(old(ms), ms, Preorder(todo)) && SameFixed(old(ms), ms)
      ensures Append(done', Hoisted(ms, todo')) == Append(done, Hoisted(old(ms), todo))
      ensures SameDataOutside(old(ms), ms, []) && Tops(done') == Tops(done) + [m]
      ensures Prompted(ms, done') && PromptedBelow(ms, todo')
    {
      ghost var ms1 := ms;
      ghost var kids, rest := todo.kids, todo.rest;
      DistinctParts(Preorder(done), Preorder(todo));
      SpliceList(p, m, kids, rest);
      StepLinked(ms1, ms, first, Some(p), done, m, Nil);
      PreorderAppend(kids, rest);
      StepPreorder(done, m, kids, rest, Nil, Append(kids, rest));
      done', todo' := Append(done, Node(m, Nil, Nil)), Append(kids, rest);
      PromptedSplice(ms1, ms, done, m, kids, rest);
      HoistedFrame(ms1, ms, Append(kids, rest));
      AppendAssoc(done, Node(m, Nil, Nil), Hoisted(ms, Append(kids, rest)));
      assert Hoisted(ms1, todo) == Node(m, Nil, Hoisted(ms1, Append(kids, rest)));
      TopsAppendOne(done, m, Nil);
    }

    /** The list of m, each entry with p as its new parent, is put behind m. */
    method SpliceList(p: Id, m: Id, ghost kids: Forest, ghost rest: Forest)
      requires Linked(ms, Get(ms, m).list, Some(m), kids, None) && kids.Node?
      requires Linked(ms, Get(ms, m).next, Some(p), rest, None)
      requires Distinct(Preorder(Node(m, kids, rest)))
      modifies this`ms
      ensures Linked(ms, Get(ms, m).next, Some(p), Append(kids, rest), None)
      ensures Get(ms, m).list == None && Get(ms, m).parent == Get(old(ms), m).parent
      ensures SameOutside(old(ms), ms, [m] + Preorder(kids)) && SameFixed(old(ms), ms)
      ensures SameDataOutside(old(ms), ms, [])
    {
      DistinctNode(m, kids, rest);
      var last := Get(ms, m).list.value;
      ghost var ms1 := ms;
      ghost var first := Get(ms, m).list;
      ghost var done, todo := Nil, kids;
      while true
        invariant todo.Node? && todo.id == last
        invariant Linked(ms, first, Some(p), done, Some(last)) && Linked(ms, Some(last), Some(m), todo, None)
        invariant Append(done, todo) == kids
        invariant SameOutside(ms1, ms, Preorder(kids)) && SameFixed(ms1, ms) && SameDataOutside(ms1, ms, [])
        decreases todo
      {
        PreorderAppend(done, todo);
        assert last in Preorder(kids);
        done, todo := SetParent(p, m, first, last, done, todo);
        if Get(ms, last).next.None? {
          break;
        }
        last := Get(ms, last).next.value;
      }
      LinkedFrame(ms1, ms, Get(ms1, m).next, Some(p), rest, None);
      MoveList(p, m, last, kids, rest);
    }

    /** Once its entries have their new parent, the list of m moves. */
    method MoveList(p: Id, m: Id, last: Id, ghost kids: Forest, ghost rest: Forest)
      requires Linked(ms, Get(ms, m).list, Some(p), kids, None) && kids.Node? && last == Last(kids)
      requires Linked(ms, Get(ms, m).next, Some(p), rest, None)
      requires Distinct(Preorder(Node(m, kids, rest)))
      modifies this`ms
      ensures Linked(ms, Get(ms, m).next, Some(p), Append(kids, rest), None)
      ensures Get(ms, m).list == None && Get(ms, m).parent == Get(old(ms), m).parent
      ensures SameOutside(old(ms), ms, [m] + Preorder(kids)) && SameFixed(old(ms), ms)
      ensures SameDataOutside(old(ms), ms, [])
    {
      ghost var ms2 := ms;
      ghost var first, next := Get(ms, m).list, Get(ms, m).next;
      DistinctNode(m, kids, rest);
      LastInPreorder(kids);
      LinkedNewEnd(ms2, first, Some(p), kids, None, next);
      ms := ms[last := Get(ms, last).(next := Get(ms, m).next)];
      ghost var ms3 := ms;
      assert ms3 == WithNext(ms2, Last(kids), next);
      ms := ms[m := Get(ms, m).(next := Get(ms, m).list, list := None)];
      LinkedFrame(ms3, ms, first, Some(p), kids, next);
      LinkedFrame(ms2, ms, next, Some(p), rest, None);
      LinkedAppend(ms, first, Some(p), kids, next, rest, None);
    }

    method SetParent(p: Id, ghost m: Id, ghost first: Ptr, last: Id, ghost done: Forest, ghost todo: Forest)
        returns (ghost done': Forest, ghost todo': Forest)
      requires todo.Node? && todo.id == last
      requires Linked(ms, first, Some(p), done, Some(last)) && Linked(ms, Some(last), Some(m), todo, None)
      requires Distinct(Preorder(Append(done, todo)))
      modifies this`ms
      ensures done' == Append(done, Node(last, todo.kids, Nil)) && todo' == todo.rest
      ensures Append(done', todo') == Append(done, todo) && Last(done') == last
      ensures Linked(ms, first, Some(p), done', Get(ms, last).next)
      ensures Linked(ms, Get(ms, last).next, Some(m), todo', None)
      ensures SameOutside(old(ms), ms, [last]) && SameFixed(old(ms), ms) && SameDataOutside(old(ms), ms, [])
    {
      ghost var ms1 := ms;
      PreorderAppend(done, todo);
      DistinctParts(Preorder(done), Preorder(todo));
      DistinctNode(last, todo.kids, todo.rest);
      ms := ms[last := Get(ms, last).(parent := Some(p))];
      LinkedFrame(ms1, ms, Get(ms1, last).list, Some(last), todo.kids, None);
      LinkedFrame(ms1, ms, Get(ms1, last).next, Some(m), todo.rest, None);
      StepLinked(ms1, ms, first, Some(p), done, last, todo.kids);
      done', todo' := Append(done, Node(last, todo.kids, Nil)), todo.rest;
      AppendAssoc(done, Node(last, todo.kids, Nil), todo.rest);
      LastAppendOne(done, last, todo.kids);
    }

    /** The branch for an entry with a list of its own. */
    method FinalizeOwn(p: Id, ghost kids: Forest, ghost rest: Forest) returns (ghost kids': Forest)
      requires Placed(p, kids, rest)
      modifies this
      ensures Placed(p, kids', rest) && Get(ms, p).parent == Get(old(ms), p).parent
      ensures Preorder(kids') == Preorder(kids) && PromptedBelow(ms, kids')
      ensures SameOutside(old(ms), ms, Preorder(kids)) && SameFixed(old(ms), ms)
      ensures SameDataOutside(old(ms), ms, Preorder(kids))
      ensures Inherited(choices, old(ms), ms, p, kids)
      ensures Raised(optional, old(revDep), revDep, ms, SetOf(Preorder(kids)), SetOf(Preorder(kids)))
      ensures Joined(choices, ms, old(members), members, kids')
      ensures Sourced(choices, ms, old(members), members, kids, Nil) && forall x :: x in Tops(kids') ==> x in Tops(kids)
      decreases |Preorder(kids)|, 2
    {
      TopsInPreorder(kids);
      BelowInPreorder(kids);
      ghost var ms1 := ms;
      DistinctNode(p, kids, rest);
      assert Preorder(Node(p, kids, rest)) == ([p] + Preorder(kids)) + Preorder(rest);
      DistinctParts([p] + Preorder(kids), Preorder(rest));
      Propagate(p, kids);
      ghost var ms2, rev2 := ms, revDep;
      LinkedFrame(ms1, ms2, Get(ms1, p).list, Some(p), kids, None);
      LinkedFrame(ms1, ms2, Get(ms1, p).next, Get(ms1, p).parent, rest, None);
      kids' := FinalizeList(p, kids);
      RaisedOwn(optional, old(revDep), rev2, revDep, ms2, ms, kids);
      PropagatedOwn(choices, ms1, ms2, ms, p, kids);
      LinkedFrame(ms2, ms, Get(ms1, p).next, Get(ms1, p).parent, rest, None);
    }

    method HoistOwn(p: Id, ghost kids: Forest, ghost rest: Forest) returns (ghost kids': Forest)
      requires Placed(p, kids, rest) && PromptedBelow(ms, kids)
      modifies this`ms, this`members
      ensures Placed(p, kids', rest) && Get(ms, p).parent == Get(old(ms), p).parent
      ensures Preorder(kids') == Preorder(kids) && Prompted(ms, kids')
      ensures kids' == Hoisted(ms, kids) && SameDataOutside(old(ms), ms, [])
      ensures Adds(choices, ms, old(members), members, p, Tops(kids'))
      ensures SameOutside(old(ms), ms, Preorder(kids)) && SameFixed(old(ms), ms)
    {
      ghost var ms1 := ms;
      DistinctNode(p, kids, rest);
      assert Preorder(Node(p, kids, rest)) == ([p] + Preorder(kids)) + Preorder(rest);
      DistinctParts([p] + Preorder(kids), Preorder(rest));
      kids' := Hoist(p, kids);
      LinkedFrame(ms1, ms, Get(ms1, p).next, Get(ms1, p).parent, rest, None);
    }

    /** A choice that is not optional is at least mod while its prompt can be shown. */
    method AddChoiceRevDep(p: Id)
      modifies this`revDep
      ensures revDep == WithHead(ms, optional, old(revDep), p)
    {
      var menu := Get(ms, p);
      if menu.sym.Some? && menu.sym.value !in optional && menu.prompt.Some? {
        var s := menu.sym.value;
        revDep := revDep[s := AllocOr(Rev(revDep, s), AllocAnd(PromptOf(menu), Some(Sym(Symbol.Mod))))];
      }
    }

    // ----- menu_finalize -----

    /** own is the list of p before hoisting: its finalized list, or what it has absorbed. */
    method Finalize(p: Id, ghost kids: Forest, ghost rest: Forest)
        returns (ghost kids': Forest, ghost rest': Forest, ghost own: Forest)
      requires Placed(p, kids, rest)
      modifies this
      ensures Placed(p, kids', rest') && Get(ms, p).parent == Get(old(ms), p).parent
      ensures Preorder(kids') + Preorder(rest') == Preorder(kids) + Preorder(rest)
      ensures SameOutside(old(ms), ms, Preorder(Node(p, kids, rest))) && SameFixed(old(ms), ms)
      ensures IsSuffix(rest', rest) && SameDataOutside(old(ms), ms, Below(Node(p, kids, rest)))
      ensures Prompted(ms, kids') && kids' == Hoisted(ms, own)
      ensures Conditioned(choices, old(ms), ms, Node(p, kids, rest), rest')
      ensures kids.Node? ==> rest' == rest
      ensures kids == Nil && Get(old(ms), p).sym.Some? ==> AbsorbedRun(old(ms), p, Get(old(ms), p).sym.value, own, rest')
      ensures kids == Nil && Get(old(ms), p).sym.None? ==> own == Nil && rest' == rest
      ensures Raised(optional, old(revDep), revDep, ms, SetOf(Preorder(kids)) + SelBetween(rest, rest'),
                     {p} + SetOf(Preorder(kids)) + FinBetween(rest, rest'))
      ensures Joined(choices, ms, old(members), members, Node(p, kids', Nil))
      ensures Sourced(choices, ms, old(members), members, Node(p, kids, rest), rest')
      decreases |Preorder(kids)| + |Preorder(rest)|, 5
    {
      own, rest' := FinalizeEntries(p, kids, rest);
      ghost var ms3, rev3, m3 := ms, revDep, members;
      kids' := HoistOwn(p, own, rest');
      AddChoiceRevDep(p);
      RaisedLast(optional, old(revDep), rev3, ms3, ms, p, kids, rest, rest');
      JoinedLast(choices, ms3, ms, old(members), m3, members, p, own);
      ConditionedFrame(choices, old(ms), ms3, ms, Node(p, kids, rest), rest');
      SourcedEntry(choices, ms3, ms, old(members), m3, members, p, kids, own, rest, rest');
    }

    /** The entries that belong below p: those of its list, or those of the entries behind it that it absorbs. */
    method FinalizeEntries(p: Id, ghost kids: Forest, ghost rest: Forest) returns (ghost own: Forest, ghost rest': Forest)
      requires Placed(p, kids, rest)
      modifies this
      ensures Placed(p, own, rest') && Get(ms, p).parent == Get(old(ms), p).parent
      ensures Preorder(own) + Preorder(rest') == Preorder(kids) + Preorder(rest) && p !in Preorder(own)
      ensures forall x :: x in Preorder(own) ==> x in Preorder(Node(p, kids, rest))
      ensures SameOutside(old(ms), ms, Preorder(Node(p, kids, rest))) && SameFixed(old(ms), ms)
      ensures IsSuffix(rest', rest) && SameDataOutside(old(ms), ms, Below(Node(p, kids, rest)))
      ensures PromptedBelow(ms, own)
      ensures Conditioned(choices, old(ms), ms, Node(p, kids, rest), rest')
      ensures kids.Node? ==> rest' == rest
      ensures kids == Nil && Get(old(ms), p).sym.Some? ==> AbsorbedRun(old(ms), p, Get(old(ms), p).sym.value, own, rest')
      ensures kids == Nil && Get(old(ms), p).sym.None? ==> own == Nil && rest' == rest
      ensures Raised(optional, old(revDep), revDep, ms, SetOf(Preorder(kids)) + SelBetween(rest, rest'),
                     SetOf(Preorder(kids)) + FinBetween(rest, rest'))
      ensures Joined(choices, ms, old(members), members, own)
      ensures Sourced(choices, ms, old(members), members, kids, Nil)
      ensures Sourced(choices, ms, old(members), members, rest, rest')
      ensures kids.Node? ==> forall x :: x in Tops(own) ==> x in Tops(kids)
      decreases |Preorder(kids)| + |Preorder(rest)|, 4
    {
      assert Preorder(Node(p, kids, rest)) == [p] + (Preorder(kids) + Preorder(rest));
      var sym := Get(ms, p).sym;
      if Get(ms, p).list.Some? {
        own := FinalizeOwn(p, kids, rest);
        rest' := rest;
        SourcedRest(choices, ms, old(members), members, rest);
      } else if sym.Some? {
        assert Preorder(Node(p, kids, rest)) == [p] + Preorder(rest);
        own, rest' := Absorb(p, sym.value, rest);
      } else {
        own, rest' := kids, rest;
        RaisedStart(optional, revDep, ms, rest);
        JoinedNone(choices, ms, members);
        SourcedStart(choices, ms, members, rest);
      }
      DistinctNode(p, own, rest');
      assert forall x :: x in Preorder(own) ==> x in Preorder(own) + Preorder(rest');
      BetweenOne(kids, rest, rest');
      ConditionedEntry(choices, old(ms), ms, p, kids, rest, rest');
    }
  }

  lemma {:induction false} AppendAssoc(f: Forest, g: Forest, h: Forest)
    ensures Append(Append(f, g), h) == Append(f, Append(g, h))
  {
    if f.Node? { AppendAssoc(f.rest, g, h); }
  }

  /** The visible condition of the prompt, and yes without one. */
  function PromptOf(menu: Menu): OptExpr {
    if menu.prompt.Some? && menu.prompt.value < |menu.props| then menu.props[menu.prompt.value].visible else None
  }

  lemma {:induction false} AddSelectsPrefix(rev: RevDeps, sym: Option<Symbol>, a: seq<MenuProp>, b: seq<MenuProp>, n: nat)
    requires n <= |a| && n <= |b| && a[..n] == b[..n]
    ensures AddSelects(rev, sym, a, n) == AddSelects(rev, sym, b, n)
  {
    if n > 0 {
      assert a[..n - 1] == a[..n][..n - 1] && b[..n - 1] == b[..n][..n - 1];
      assert a[n - 1] == a[..n][n - 1] && b[n - 1] == b[..n][n - 1];
      AddSelectsPrefix(rev, sym, a, b, n - 1);
    }
  }
}
