/** The grammar that the reader accepts, as parse trees: an input is accepted exactly if it is the tokens of a
    tree that respects the precedences, and the result is the expression of that tree. */
module ExprGrammar {
  import opened Tristates
  import opened Exprs
  import opened ExprText

  /** One constructor for each rule of the grammar. */
  datatype Tree =
    | TWord(name: string)
    | TCompare(left: string, eq: bool, right: string)
    | TParen(t: Tree)
    | TNot(t: Tree)
    | TBin(op: Op, l: Tree, r: Tree)

  /** NOT binds tighter than AND, AND tighter than OR, and equal operators associate to the left. */
  predicate WellFormed(t: Tree) {
    match t
    case TParen(x) => WellFormed(x)
    case TNot(x) => WellFormed(x) && !x.TBin?
    case TBin(op, l, r) =>
      && WellFormed(l) && (l.TBin? ==> Prec(l.op) >= Prec(op))
      && WellFormed(r) && (r.TBin? ==> Prec(r.op) > Prec(op))
    case _ => true
  }

  function Sign(eq: bool): Token {
    if eq then Eq else NotEq
  }

  /** The tokens of a tree, from left to right. */
  function Yield(t: Tree): seq<Token> {
    match t
    case TWord(name) => [Word(name)]
    case TCompare(left, eq, right) => [Word(left), Sign(eq), Word(right)]
    case TParen(x) => [Open] + Yield(x) + [Close]
    case TNot(x) => [Bang] + Yield(x)
    case TBin(op, l, r) => Yield(l) + [Oper(op)] + Yield(r)
  }

  function ExprOf(types: Types, t: Tree): Expr {
    match t
    case TWord(name) => Sym(Lookup(types, name))
    case TCompare(left, true, right) => Equal(Lookup(types, left), Lookup(types, right))
    case TCompare(left, false, right) => Unequal(Lookup(types, left), Lookup(types, right))
    case TParen(x) => ExprOf(types, x)
    case TNot(x) => Not(ExprOf(types, x))
    case TBin(op, l, r) => Bin(op, ExprOf(types, l), ExprOf(types, r))
  }

  /** The input is the tokens of the tree, the end, and anything. */
  predicate Derives(types: Types, t: Tree, rest: seq<Token>, toks: seq<Token>, e: Expr) {
    WellFormed(t) && ExprOf(types, t) == e && toks == Yield(t) + ([End] + rest)
  }

  // ----- the tokens of a well-formed tree are read as its expression -----

  lemma Regroup(a: seq<Token>, t: Token, b: seq<Token>, rest: seq<Token>)
    ensures a + [t] + b + rest == a + ([t] + (b + rest))
  {
  }

  /** On a stack that expects an operand a tree arrives as one expression. */
  lemma {:induction false} RunTree(types: Types, t: Tree, st: seq<Item>, rest: seq<Token>)
    requires WellFormed(t) && Ready(st) && rest != [] && Follow(rest[0])
    requires t.TBin? ==> Clean(st, t.op) && !BindsTighter(rest[0], t.op)
    ensures Run(types, st, Yield(t) + rest) == Run(types, st + [Ex(ExprOf(types, t))], rest)
    decreases t
  {
    match t
    case TWord(name) => RunSymbol(types, st, name, rest);
    case TCompare(left, eq, right) => RunComparison(types, st, left, right, eq, rest);
    case TParen(x) =>
      RunOpen(types, st, Yield(x), rest);
      RunTree(types, x, st + [Tok(Open)], [Close] + rest);
      RunClose(types, st, ExprOf(types, x), rest);
    case TNot(x) =>
      assert Yield(t) + rest == [Bang] + (Yield(x) + rest);
      ShiftStep(types, st, Bang, Yield(x) + rest);
      RunTree(types, x, st + [Tok(Bang)], rest);
      RunReduceNot(types, ExprOf(types, x), st, rest);
    case TBin(op, l, r) =>
      RunBin(types, op, l, r, st, rest);
  }

  lemma {:induction false} RunBin(types: Types, op: Op, l: Tree, r: Tree, st: seq<Item>, rest: seq<Token>)
    requires WellFormed(TBin(op, l, r)) && Ready(st) && rest != [] && Follow(rest[0])
    requires Clean(st, op) && !BindsTighter(rest[0], op)
    ensures Run(types, st, Yield(TBin(op, l, r)) + rest) == Run(types, st + [Ex(ExprOf(types, TBin(op, l, r)))], rest)
    decreases TBin(op, l, r), 0
  {
    var r1 := Yield(r) + rest;
    var acc := ExprOf(types, l);
    Regroup(Yield(l), Oper(op), Yield(r), rest);
    RunTree(types, l, st, [Oper(op)] + r1);
    RunOperator(types, op, acc, st, r1);
    var st' := st + [Ex(acc), Tok(Oper(op))];
    assert st'[|st'| - 1] == Tok(Oper(op));
    RunTree(types, r, st', rest);
    RunReduceOp(types, op, acc, ExprOf(types, r), st, rest);
  }

  lemma RunAccepts(types: Types, t: Tree, rest: seq<Token>)
    requires WellFormed(t)
    ensures Run(types, [], Yield(t) + ([End] + rest)) == Accepted(ExprOf(types, t))
  {
    RunTree(types, t, [], [End] + rest);
    var st := [Ex(ExprOf(types, t))];
    assert [] + st == st;
    assert Reduce(types, st, End).None?;
  }

  // ----- whatever is accepted is the tokens of a well-formed tree -----

  datatype Node = NTok(tok: Token) | NWord(name: string) | NTree(tree: Tree)

  /** What the items of a stack were built from, the top first. */
  datatype Forest = Bottom | On(top: Node, below: Forest)

  function Peek(f: Forest, k: nat): Option<Node> {
    if f.Bottom? then None else if k == 0 then Some(f.top) else Peek(f.below, k - 1)
  }

  predicate BuiltFrom(types: Types, i: Item, n: Node) {
    match n
    case NTok(t) => i == Tok(t)
    case NWord(name) => i == Symb(Lookup(types, name))
    case NTree(t) => i == Ex(ExprOf(types, t))
  }

  predicate StackIs(types: Types, st: seq<Item>, f: Forest) {
    match f
    case Bottom => st == []
    case On(n, g) => st != [] && BuiltFrom(types, st[|st| - 1], n) && StackIs(types, st[..|st| - 1], g)
  }

  function NodeYield(n: Node): seq<Token> {
    match n
    case NTok(t) => [t]
    case NWord(name) => [Word(name)]
    case NTree(t) => Yield(t)
  }

  /** The tokens that have been read. */
  function Taken(f: Forest): seq<Token> {
    match f
    case Bottom => []
    case On(n, g) => Taken(g) + NodeYield(n)
  }

  predicate IsTree(n: Option<Node>) {
    n.Some? && n.value.NTree?
  }

  predicate IsOperation(n: Option<Node>) {
    IsTree(n) && n.value.tree.TBin?
  }

  predicate IsOperator(n: Option<Node>) {
    n.Some? && n.value.NTok? && n.value.tok.Oper?
  }

  /** What may lie on what: a tree on a NOT lies at the top and is no operation; an operator on an operation does
      not bind tighter; and what lies on the right of an operator binds tighter. */
  predicate FitsOn(n: Node, f: Forest) {
    && (IsTree(Peek(f, 0)) ==> Peek(f, 1) != Some(NTok(Bang)))
    && (n.NTree? ==> WellFormed(n.tree) && (n.tree.TBin? ==> Peek(f, 0) != Some(NTok(Bang))))
    && (IsOperator(Some(n)) && IsOperation(Peek(f, 0)) ==> Prec(Peek(f, 0).value.tree.op) >= Prec(n.tok.op))
    && (IsOperator(Some(n)) && IsTree(Peek(f, 0)) && IsOperator(Peek(f, 1)) && IsTree(Peek(f, 2)) ==>
          Prec(n.tok.op) > Prec(Peek(f, 1).value.tok.op))
    && (IsOperation(Some(n)) && IsOperator(Peek(f, 0)) && IsTree(Peek(f, 1)) ==>
          Prec(n.tree.op) > Prec(Peek(f, 0).value.tok.op))
  }

  predicate Ordered(f: Forest) {
    f.On? ==> FitsOn(f.top, f.below) && Ordered(f.below)
  }

  /** An operation at the top has not been built too early. */
  predicate Due(f: Forest, la: Token) {
    IsOperation(Peek(f, 0)) ==> !BindsTighter(la, Peek(f, 0).value.tree.op)
  }

  predicate Tracks(types: Types, st: seq<Item>, f: Forest, la: Token) {
    StackIs(types, st, f) && Ordered(f) && Due(f, la)
  }

  predicate TopIs(types: Types, st: seq<Item>, f: Forest, k: nat) {
    && (Top(st, k).None? <==> Peek(f, k).None?)
    && (Top(st, k).Some? ==> BuiltFrom(types, Top(st, k).value, Peek(f, k).value))
  }

  lemma {:induction false} StackTop(types: Types, st: seq<Item>, f: Forest, k: nat)
    requires StackIs(types, st, f)
    ensures TopIs(types, st, f, k)
    decreases k
  {
    if k > 0 && f.On? {
      StackTop(types, st[..|st| - 1], f.below, k - 1);
      assert Top(st, k) == Top(st[..|st| - 1], k - 1);
    }
  }

  lemma StackTops(types: Types, st: seq<Item>, f: Forest)
    requires StackIs(types, st, f)
    ensures TopIs(types, st, f, 0) && TopIs(types, st, f, 1) && TopIs(types, st, f, 2)
    ensures |st| >= 1 ==> StackIs(types, Drop(st, 1), f.below)
    ensures |st| >= 2 ==> StackIs(types, Drop(st, 2), f.below.below)
    ensures |st| >= 3 ==> StackIs(types, Drop(st, 3), f.below.below.below)
  {
    StackTop(types, st, f, 0);
    StackTop(types, st, f, 1);
    StackTop(types, st, f, 2);
    if |st| >= 2 { assert Drop(st, 1)[..|st| - 2] == Drop(st, 2); }
    if |st| >= 3 { assert Drop(st, 2)[..|st| - 3] == Drop(st, 3); }
  }

  lemma StackPush(types: Types, st: seq<Item>, f: Forest, i: Item, n: Node)
    requires StackIs(types, st, f) && BuiltFrom(types, i, n)
    ensures StackIs(types, st + [i], On(n, f))
  {
    assert (st + [i])[..|st|] == st;
  }

  /** What the forest becomes in a reduction. */
  function Grown(f: Forest): Forest
  {
    match f
    case On(NTok(Word(name)), g) => On(NWord(name), g)
    case On(NWord(right), On(NTok(Eq), On(NWord(left), g))) => On(NTree(TCompare(left, true, right)), g)
    case On(NWord(right), On(NTok(NotEq), On(NWord(left), g))) => On(NTree(TCompare(left, false, right)), g)
    case On(NWord(name), g) => On(NTree(TWord(name)), g)
    case On(NTok(Close), On(NTree(x), On(NTok(Open), g))) => On(NTree(TParen(x)), g)
    case On(NTree(x), On(NTok(Bang), g)) => On(NTree(TNot(x)), g)
    case On(NTree(r), On(NTok(Oper(op)), On(NTree(l), g))) => On(NTree(TBin(op, l, r)), g)
    case _ => f
  }

  lemma Assoc(a: seq<Token>, b: seq<Token>, d: seq<Token>)
    ensures (a + b) + d == a + (b + d)
  {
  }

  lemma TakenTwo(a: Node, b: Node, g: Forest)
    ensures Taken(On(b, On(a, g))) == Taken(g) + (NodeYield(a) + NodeYield(b))
  {
    var below := Taken(On(a, g));
    assert below == Taken(g) + NodeYield(a);
    Assoc(Taken(g), NodeYield(a), NodeYield(b));
  }

  lemma TakenThree(a: Node, b: Node, d: Node, g: Forest)
    ensures Taken(On(d, On(b, On(a, g)))) == Taken(g) + (NodeYield(a) + NodeYield(b) + NodeYield(d))
  {
    TakenTwo(a, b, g);
    var f := On(b, On(a, g));
    assert Taken(On(d, f)) == Taken(f) + NodeYield(d);
    Assoc(Taken(g), NodeYield(a) + NodeYield(b), NodeYield(d));
  }

  lemma GrownTakes(f: Forest)
    ensures Taken(Grown(f)) == Taken(f)
  {
    match f
    case On(NWord(right), On(NTok(Eq), On(NWord(left), g))) => TakenThree(NWord(left), NTok(Eq), NWord(right), g);
    case On(NWord(right), On(NTok(NotEq), On(NWord(left), g))) => TakenThree(NWord(left), NTok(NotEq), NWord(right), g);
    case On(NTok(Close), On(NTree(x), On(NTok(Open), g))) => TakenThree(NTok(Open), NTree(x), NTok(Close), g);
    case On(NTree(x), On(NTok(Bang), g)) => TakenTwo(NTok(Bang), NTree(x), g);
    case On(NTree(r), On(NTok(Oper(op)), On(NTree(l), g))) => TakenThree(NTree(l), NTok(Oper(op)), NTree(r), g);
    case _ =>
  }

  /** Replacing one, two or three of the top nodes by one that fits. */
  lemma OrderedParts(f: Forest)
    requires Ordered(f)
    ensures f.On? ==> FitsOn(f.top, f.below) && Ordered(f.below)
    ensures f.On? && f.below.On? ==> FitsOn(f.below.top, f.below.below) && Ordered(f.below.below)
    ensures f.On? && f.below.On? && f.below.below.On? ==>
      FitsOn(f.below.below.top, f.below.below.below) && Ordered(f.below.below.below)
  {
  }

  lemma GrownOperation(op: Op, l: Tree, r: Tree, g: Forest)
    requires Ordered(On(NTree(r), On(NTok(Oper(op)), On(NTree(l), g))))
    ensures Ordered(On(NTree(TBin(op, l, r)), g))
  {
    var b := On(NTree(l), g);
    var a := On(NTok(Oper(op)), b);
    OrderedParts(On(NTree(r), a));
    assert Peek(b, 0) == Some(NTree(l)) && Peek(b, 1) == Peek(g, 0) && Peek(b, 2) == Peek(g, 1);
    assert Peek(a, 0) == Some(NTok(Oper(op))) && Peek(a, 1) == Some(NTree(l));
  }

  lemma GrownNot(x: Tree, g: Forest)
    requires Ordered(On(NTree(x), On(NTok(Bang), g)))
    ensures Ordered(On(NTree(TNot(x)), g))
  {
    var a := On(NTok(Bang), g);
    OrderedParts(On(NTree(x), a));
    assert Peek(a, 0) == Some(NTok(Bang));
  }

  lemma GrownOrdered(f: Forest)
    requires Ordered(f)
    ensures Ordered(Grown(f))
  {
    OrderedParts(f);
    match f
    case On(NTree(x), On(NTok(Bang), g)) => GrownNot(x, g);
    case On(NTree(r), On(NTok(Oper(op)), On(NTree(l), g))) => GrownOperation(op, l, r, g);
    case _ =>
  }

  /** The forest that belongs to the stack after a reduction. */
  lemma GrownStack(types: Types, st: seq<Item>, f: Forest, la: Token)
    requires StackIs(types, st, f) && Reduce(types, st, la).Some?
    ensures StackIs(types, Reduce(types, st, la).value, Grown(f)) && Grown(f).On?
    ensures IsOperation(Peek(Grown(f), 0)) ==> !BindsTighter(la, Grown(f).top.tree.op)
  {
    StackTops(types, st, f);
    var n := Grown(f).top;
    match f {
      case On(NTok(Word(name)), g) => StackPush(types, Drop(st, 1), g, Symb(Lookup(types, name)), n);
      case On(NWord(right), _) => GrownWord(types, st, f, la);
      case On(NTok(Close), On(NTree(x), On(NTok(Open), g))) =>
        StackPush(types, Drop(st, 3), g, Ex(ExprOf(types, x)), n);
      case On(NTree(x), On(NTok(Bang), g)) => StackPush(types, Drop(st, 2), g, Ex(Not(ExprOf(types, x))), n);
      case On(NTree(r), On(NTok(Oper(op)), On(NTree(l), g))) =>
        StackPush(types, Drop(st, 3), g, Ex(Bin(op, ExprOf(types, l), ExprOf(types, r))), n);
      case _ =>
    }
  }

  function Compare(eq: bool, a: Symbol, b: Symbol): Expr {
    if eq then Equal(a, b) else Unequal(a, b)
  }

  lemma ReduceCompare(types: Types, st: seq<Item>, la: Token, left: string, eq: bool, right: string, g: Forest)
    requires StackIs(types, st, On(NWord(right), On(NTok(Sign(eq)), On(NWord(left), g))))
    ensures var x := Compare(eq, Lookup(types, left), Lookup(types, right));
      |st| >= 3 && Reduce(types, st, la) == Option.Some(Drop(st, 3) + [Ex(x)]) && StackIs(types, Drop(st, 3), g)
  {
    StackTops(types, st, On(NWord(right), On(NTok(Sign(eq)), On(NWord(left), g))));
  }

  lemma GrownCompare(types: Types, st: seq<Item>, la: Token, left: string, eq: bool, right: string, g: Forest)
    requires StackIs(types, st, On(NWord(right), On(NTok(Sign(eq)), On(NWord(left), g))))
    ensures Reduce(types, st, la).Some?
    ensures StackIs(types, Reduce(types, st, la).value, On(NTree(TCompare(left, eq, right)), g))
  {
    ReduceCompare(types, st, la, left, eq, right, g);
    StackPush(types, Drop(st, 3), g, Ex(Compare(eq, Lookup(types, left), Lookup(types, right))),
              NTree(TCompare(left, eq, right)));
  }

  /** No comparison is at the top. */
  predicate NoCompare(f: Forest) {
    && f.On? && f.top.NWord?
    && !(f.below.On? && f.below.top in [NTok(Eq), NTok(NotEq)] && f.below.below.On? && f.below.below.top.NWord?)
  }

  lemma ReduceSymbol(types: Types, st: seq<Item>, f: Forest, la: Token)
    requires StackIs(types, st, f) && Reduce(types, st, la).Some? && NoCompare(f)
    ensures Reduce(types, st, la).value == Drop(st, 1) + [Ex(Sym(Lookup(types, f.top.name)))]
    ensures StackIs(types, Drop(st, 1), f.below)
  {
    StackTops(types, st, f);
  }

  lemma GrownFromWord(f: Forest)
    requires f.On? && f.top.NWord?
    ensures NoCompare(f) ==> Grown(f) == On(NTree(TWord(f.top.name)), f.below)
    ensures !NoCompare(f) ==>
      var eq := f.below.top == NTok(Eq);
      f.below.top == NTok(Sign(eq)) && f.below.below.top.NWord?
      && Grown(f) == On(NTree(TCompare(f.below.below.top.name, eq, f.top.name)), f.below.below.below)
  {
  }

  lemma GrownWord(types: Types, st: seq<Item>, f: Forest, la: Token)
    requires StackIs(types, st, f) && Reduce(types, st, la).Some? && f.On? && f.top.NWord?
    ensures StackIs(types, Reduce(types, st, la).value, Grown(f)) && Grown(f).On? && !IsOperation(Peek(Grown(f), 0))
  {
    GrownFromWord(f);
    if NoCompare(f) {
      ReduceSymbol(types, st, f, la);
      StackPush(types, Drop(st, 1), f.below, Ex(Sym(Lookup(types, f.top.name))), NTree(TWord(f.top.name)));
    } else {
      GrownCompare(types, st, la, f.below.below.top.name, f.below.top == NTok(Eq), f.top.name, f.below.below.below);
    }
  }

  lemma ReduceTracks(types: Types, st: seq<Item>, f: Forest, la: Token)
    requires Tracks(types, st, f, la) && Reduce(types, st, la).Some?
    ensures Tracks(types, Reduce(types, st, la).value, Grown(f), la)
  {
    GrownStack(types, st, f, la);
    GrownOrdered(f);
  }

  lemma ShiftTracks(types: Types, st: seq<Item>, f: Forest, t: Token, la: Token)
    requires Tracks(types, st, f, t) && Reduce(types, st, t).None?
    ensures Tracks(types, st + [Tok(t)], On(NTok(t), f), la)
  {
    StackTops(types, st, f);
    StackPush(types, st, f, Tok(t), NTok(t));
  }

  lemma OnlyTree(types: Types, st: seq<Item>, f: Forest)
    requires StackIs(types, st, f) && |st| == 1 && st[0].Ex?
    ensures f.On? && f.top.NTree? && f.below == Bottom && Taken(f) == Yield(f.top.tree)
  {
    assert StackIs(types, st[..0], f.below);
  }

  lemma TakenShift(f: Forest, toks: seq<Token>)
    requires toks != []
    ensures Taken(On(NTok(toks[0]), f)) + toks[1..] == Taken(f) + toks
  {
    assert Taken(On(NTok(toks[0]), f)) == Taken(f) + [toks[0]] && [toks[0]] + toks[1..] == toks;
  }

  lemma {:induction false} AcceptedDerives(types: Types, st: seq<Item>, f: Forest, toks: seq<Token>)
    returns (t: Tree, rest: seq<Token>)
    requires Run(types, st, toks).Accepted? && Tracks(types, st, f, toks[0])
    ensures Derives(types, t, rest, Taken(f) + toks, Run(types, st, toks).e)
    decreases Weight(st) + 4 * |toks|
  {
    var la := toks[0];
    var reduced := Reduce(types, st, la);
    if reduced.Some? {
      ReduceIsLighter(types, st, la);
      ReduceTracks(types, st, f, la);
      GrownTakes(f);
      t, rest := AcceptedDerives(types, reduced.value, Grown(f), toks);
    } else if la == End {
      t, rest := f.top.tree, toks[1..];
      OnlyTree(types, st, f);
      assert toks == [End] + rest;
    } else {
      ShiftTracks(types, st, f, la, toks[1]);
      WeightSnoc(st, Tok(la));
      t, rest := AcceptedDerives(types, st + [Tok(la)], On(NTok(la), f), toks[1..]);
      TakenShift(f, toks);
    }
  }

  /** The reader accepts exactly what the grammar derives up to the first end, with the expression derived. */
  lemma ParseIff(types: Types, toks: seq<Token>, e: Expr)
    ensures Run(types, [], toks) == Accepted(e) <==> exists t, rest :: Derives(types, t, rest, toks, e)
  {
    if Run(types, [], toks) == Accepted(e) {
      var t, rest := AcceptedDerives(types, [], Bottom, toks);
      assert Taken(Bottom) + toks == toks;
    }
    if exists t, rest :: Derives(types, t, rest, toks, e) {
      var t, rest :| Derives(types, t, rest, toks, e);
      RunAccepts(types, t, rest);
    }
  }

  /** The grammar is unambiguous up to parentheses. */
  lemma Unambiguous(types: Types, t1: Tree, t2: Tree)
    requires WellFormed(t1) && WellFormed(t2) && Yield(t1) == Yield(t2)
    ensures ExprOf(types, t1) == ExprOf(types, t2)
  {
    RunAccepts(types, t1, []);
    RunAccepts(types, t2, []);
  }

  // ----- the round trip -----

  /** The tree of what expr_print prints: parentheses where it puts them, and a chain of one connective, which
      it does not parenthesize, nested to the left. */
  function TreeOf(e: Expr, prev: Prev): Tree
    decreases e, 2
  {
    if NeedsParens(prev, e) then TParen(BareTree(e)) else BareTree(e)
  }

  function BareTree(e: Expr): Tree
    decreases e, 0
  {
    match e
    case Sym(s) => TWord(NameOf(s))
    case Equal(a, b) => TCompare(NameOf(a), true, NameOf(b))
    case Unequal(a, b) => TCompare(NameOf(a), false, NameOf(b))
    case Not(x) => TNot(TreeOf(x, PrevNot))
    case Bin(op, l, r) => AttachTree(op, TreeOf(l, PrevOp(op)), r)
  }

  function AttachTree(op: Op, acc: Tree, r: Expr): Tree
    decreases r, 3
  {
    if IsOp(op, r) then AttachTree(op, AttachTree(op, acc, r.l), r.r) else TBin(op, acc, TreeOf(r, PrevOp(op)))
  }

  lemma {:induction false} TreeOfPrints(types: Types, e: Expr, prev: Prev)
    requires Printable(types, e)
    ensures var t := TreeOf(e, prev);
      && WellFormed(t) && Yield(t) == Tokens(e, prev) && ExprOf(types, t) == LeftNest(e)
      && (t.TBin? ==> e.Bin? && !NeedsParens(prev, e) && t.op == e.op)
    decreases e, 2
  {
    BareTreePrints(types, e);
  }

  lemma {:induction false} BareTreePrints(types: Types, e: Expr)
    requires Printable(types, e)
    ensures var t := BareTree(e);
      && WellFormed(t) && Yield(t) == Bare(e) && ExprOf(types, t) == LeftNest(e)
      && (t.TBin? ==> e.Bin? && t.op == e.op)
    decreases e, 0
  {
    match e
    case Not(x) => TreeOfPrints(types, x, PrevNot);
    case Bin(op, l, r) =>
      TreeOfPrints(types, l, PrevOp(op));
      AttachTreePrints(types, op, TreeOf(l, PrevOp(op)), r);
    case _ =>
  }

  lemma Chained(acc: seq<Token>, t: Token, a: seq<Token>, b: seq<Token>)
    ensures (acc + [t] + a) + [t] + b == acc + [t] + (a + [t] + b)
  {
    Regroup(acc + [t] + a, t, b, []);
  }

  lemma {:induction false} AttachTreePrints(types: Types, op: Op, acc: Tree, r: Expr)
    requires Printable(types, r) && WellFormed(acc) && (acc.TBin? ==> Prec(acc.op) >= Prec(op))
    ensures var t := AttachTree(op, acc, r);
      && WellFormed(t) && t.TBin? && t.op == op
      && Yield(t) == Yield(acc) + [Oper(op)] + Tokens(r, PrevOp(op))
      && ExprOf(types, t) == Attach(op, ExprOf(types, acc), r)
    decreases r, 3
  {
    if IsOp(op, r) {
      AttachTreePrints(types, op, acc, r.l);
      AttachTreePrints(types, op, AttachTree(op, acc, r.l), r.r);
      var a, b := Tokens(r.l, PrevOp(op)), Tokens(r.r, PrevOp(op));
      assert Tokens(r, PrevOp(op)) == a + [Oper(op)] + b;
      Chained(Yield(acc), Oper(op), a, b);
    } else {
      TreeOfPrints(types, r, PrevOp(op));
    }
  }

  /** Reading what was printed always succeeds, gives the same value everywhere, and gives the same tree
      exactly if chains of one connective were nested to the left. */
  lemma PrintParse(types: Types, e: Expr)
    requires Printable(types, e)
    ensures Run(types, [], Tokens(e, PrevNone) + [End]) == Accepted(LeftNest(e))
    ensures forall env :: Eval(LeftNest(e), env) == Eval(e, env)
    ensures LeftNest(e) == e <==> IsLeftNested(e)
  {
    TreeOfPrints(types, e, PrevNone);
    RunAccepts(types, TreeOf(e, PrevNone), []);
    assert [End] + [] == [End];
    forall env
      ensures Eval(LeftNest(e), env) == Eval(e, env)
    {
      LeftNestExact(e, env);
    }
    LeftNestIsLeftNested(e);
    if IsLeftNested(e) { LeftNestedIsFixed(e); }
  }

  /** A missing expression is printed as y and reads back as the symbol y. */
  lemma PrintParseMissing(types: Types)
    ensures Run(types, [], TokensOpt(None) + [End]) == Accepted(Sym(Yes))
  {
    RunAccepts(types, TWord("y"), []);
    assert [End] + [] == [End];
  }
}
