/** Printing an expression and reading it back: the tokens that expr_print emits, with its choice of
    parentheses, and the shift/reduce reader with the precedences of the grammar. */
module ExprText {
  import opened Tristates
  import opened Exprs

  datatype Token = Word(name: string) | Open | Close | Bang | Oper(op: Op) | Eq | NotEq | End

  /** The known types of named symbols: sym_lookup finds one symbol for each name. */
  type Types = map<string, SymType>

  function Lookup(types: Types, name: string): Symbol {
    if name == "y" then Yes
    else if name == "m" then Mod
    else if name == "n" then No
    else Var(name, if name in types then types[name] else TUnknown)
  }

  function NameOf(s: Symbol): string {
    match s
    case Yes => "y"
    case Mod => "m"
    case No => "n"
    case Const(text) => text
    case Var(name, _) => name
    case Choice(_, _) => "<choice>"
  }

  /** The symbols that can be written down by name without quotes. */
  predicate Printable(types: Types, e: Expr) {
    forall s :: s in SymbolsOf(e) ==> Lookup(types, NameOf(s)) == s
  }

  /** Those are y, m, n and the named symbols with the type they are known by. */
  lemma PrintableIff(types: Types, s: Symbol)
    ensures Lookup(types, NameOf(s)) == s <==>
      || s in {Symbol.Yes, Symbol.Mod, Symbol.No}
      || (s.Var? && s.name !in {"y", "m", "n"} && s.vtyp == if s.name in types then types[s.name] else TUnknown)
  {
  }

  // ----- expr_print -----

  /** The type of the enclosing expression, or none. */
  datatype Prev = PrevNone | PrevNot | PrevOp(op: Op)

  /** expr_compare_type(prev, type of e) > 0, for the types that occur. */
  predicate NeedsParens(prev: Prev, e: Expr) {
    e.Bin? && (prev == PrevNot || (prev == PrevOp(And) && e.op == Or))
  }

  function Tokens(e: Expr, prev: Prev): seq<Token> {
    if NeedsParens(prev, e) then [Open] + Bare(e) + [Close] else Bare(e)
  }

  function Bare(e: Expr): seq<Token>
    decreases e, 0
  {
    match e
    case Sym(s) => [Word(NameOf(s))]
    case Not(x) =>
      [Bang] + (if NeedsParens(PrevNot, x) then [Open] + Bare(x) + [Close] else Bare(x))
    case Bin(op, l, r) =>
      (if NeedsParens(PrevOp(op), l) then [Open] + Bare(l) + [Close] else Bare(l))
      + [Oper(op)]
      + (if NeedsParens(PrevOp(op), r) then [Open] + Bare(r) + [Close] else Bare(r))
    case Equal(a, b) => [Word(NameOf(a)), Eq, Word(NameOf(b))]
    case Unequal(a, b) => [Word(NameOf(a)), NotEq, Word(NameOf(b))]
  }

  function TokensOpt(e: OptExpr): seq<Token> {
    if e.None? then [Word("y")] else Tokens(e.value, PrevNone)
  }

  // ----- the reader -----

  datatype Item = Tok(t: Token) | Symb(s: Symbol) | Ex(e: Expr)

  datatype Outcome = Accepted(e: Expr) | Rejected

  function Prec(op: Op): nat {
    if op == And then 2 else 1
  }

  /** The lookahead is an operator that binds tighter than op; equal operators associate to the left. */
  predicate BindsTighter(la: Token, op: Op) {
    la.Oper? && Prec(la.op) > Prec(op)
  }

  function Top(st: seq<Item>, k: nat): Option<Item> {
    if k < |st| then Some(st[|st| - 1 - k]) else None
  }

  function Drop(st: seq<Item>, k: nat): seq<Item> {
    if k <= |st| then st[..|st| - k] else []
  }

  /** The grammar rule to reduce by, if the top of the stack is the right-hand side of one and the
      lookahead does not ask for a shift: the stack after the reduction. */
  function Reduce(types: Types, st: seq<Item>, la: Token): Option<seq<Item>> {
    match Top(st, 0)
    case Some(Tok(Word(name))) => Option.Some(Drop(st, 1) + [Symb(Lookup(types, name))])
    case Some(Symb(b)) =>
      if Top(st, 1) == Option.Some(Tok(Eq)) && Top(st, 2).Some? && Top(st, 2).value.Symb? then
        Option.Some(Drop(st, 3) + [Ex(Equal(Top(st, 2).value.s, b))])
      else if Top(st, 1) == Option.Some(Tok(NotEq)) && Top(st, 2).Some? && Top(st, 2).value.Symb? then
        Option.Some(Drop(st, 3) + [Ex(Unequal(Top(st, 2).value.s, b))])
      else if la == Eq || la == NotEq then Option.None
      else Option.Some(Drop(st, 1) + [Ex(Sym(b))])
    case Some(Tok(Close)) =>
      if Top(st, 1).Some? && Top(st, 1).value.Ex? && Top(st, 2) == Option.Some(Tok(Open)) then
        Option.Some(Drop(st, 3) + [Top(st, 1).value])
      else Option.None
    case Some(Ex(x)) =>
      (match Top(st, 1)
       case Some(Tok(Bang)) => Option.Some(Drop(st, 2) + [Ex(Not(x))])
       case Some(Tok(Oper(op))) =>
         if !BindsTighter(la, op) && Top(st, 2).Some? && Top(st, 2).value.Ex? then
           Option.Some(Drop(st, 3) + [Ex(Bin(op, Top(st, 2).value.e, x))])
         else Option.None
       case _ => Option.None)
    case _ => Option.None
  }

  function ItemWeight(i: Item): nat {
    match i
    case Tok(_) => 3
    case Symb(_) => 2
    case Ex(_) => 1
  }

  function Weight(st: seq<Item>): nat {
    if st == [] then 0 else Weight(st[..|st| - 1]) + ItemWeight(st[|st| - 1])
  }

  /** The whole run: reduce if possible, shift otherwise, accept one expression before the end. */
  function Run(types: Types, st: seq<Item>, toks: seq<Token>): Outcome
    decreases Weight(st) + 4 * |toks|
  {
    if toks == [] then Rejected
    else
      match Reduce(types, st, toks[0])
      case Some(st') =>
        ReduceIsLighter(types, st, toks[0]);
        Run(types, st', toks)
      case None =>
        if toks[0] == End then (if |st| == 1 && st[0].Ex? then Accepted(st[0].e) else Rejected)
        else
          assert (st + [Tok(toks[0])])[..|st|] == st;
          Run(types, st + [Tok(toks[0])], toks[1..])
  }

  lemma WeightSnoc(st: seq<Item>, i: Item)
    ensures Weight(st + [i]) == Weight(st) + ItemWeight(i)
  {
    assert (st + [i])[..|st|] == st;
  }

  lemma WeightTop(st: seq<Item>)
    ensures |st| >= 1 ==> Weight(st) == Weight(Drop(st, 1)) + ItemWeight(Top(st, 0).value)
    ensures |st| >= 2 ==> Weight(st) == Weight(Drop(st, 2)) + ItemWeight(Top(st, 1).value) + ItemWeight(Top(st, 0).value)
    ensures |st| >= 3 ==> Weight(st) == Weight(Drop(st, 3)) + ItemWeight(Top(st, 2).value)
                                        + ItemWeight(Top(st, 1).value) + ItemWeight(Top(st, 0).value)
  {
    if |st| >= 2 { assert Drop(st, 1)[..|st| - 2] == Drop(st, 2); }
    if |st| >= 3 { assert Drop(st, 2)[..|st| - 3] == Drop(st, 3); }
  }

  lemma ReduceIsLighter(types: Types, st: seq<Item>, la: Token)
    ensures Reduce(types, st, la).Some? ==> Weight(Reduce(types, st, la).value) < Weight(st)
  {
    WeightTop(st);
    if Reduce(types, st, la).Some? {
      var st' := Reduce(types, st, la).value;
      var n := |st'| - 1;
      assert st' == st'[..n] + [st'[n]];
      WeightSnoc(st'[..n], st'[n]);
      assert st'[..n] == Drop(st, |st| - n);
    }
  }

  /** The loop of the reader, with its explicit stack. */
  method Parse(types: Types, input: seq<Token>) returns (r: Outcome)
    ensures r == Run(types, [], input)
  {
    var stack: seq<Item>, toks := [], input;
    while toks != []
      invariant Run(types, stack, toks) == Run(types, [], input)
      decreases Weight(stack) + 4 * |toks|
    {
      var reduced := Reduce(types, stack, toks[0]);
      ReduceIsLighter(types, stack, toks[0]);
      if reduced.Some? {
        stack := reduced.value;
      } else if toks[0] == End {
        return if |stack| == 1 && stack[0].Ex? then Accepted(stack[0].e) else Rejected;
      } else {
        WeightSnoc(stack, Tok(toks[0]));
        stack, toks := stack + [Tok(toks[0])], toks[1..];
      }
    }
    r := Rejected;
  }

  // ----- what reading back gives: chains associate to the left -----

  /** acc op r with the chain of op in r hung on to the left. */
  function Attach(op: Op, acc: Expr, r: Expr): Expr
    decreases r, 1
  {
    if IsOp(op, r) then Attach(op, Attach(op, acc, r.l), r.r) else Bin(op, acc, LeftNest(r))
  }

  function LeftNest(e: Expr): Expr
    decreases e, 0
  {
    match e
    case Not(x) => Not(LeftNest(x))
    case Bin(op, l, r) => Attach(op, LeftNest(l), r)
    case _ => e
  }

  predicate IsLeftNested(e: Expr) {
    match e
    case Not(x) => IsLeftNested(x)
    case Bin(op, l, r) => IsLeftNested(l) && IsLeftNested(r) && !IsOp(op, r)
    case _ => true
  }

  lemma {:induction false} AttachExact(op: Op, acc: Expr, r: Expr, env: Env)
    ensures Eval(Attach(op, acc, r), env) == Apply(op, Eval(acc, env), Eval(r, env))
    decreases r, 1
  {
    if IsOp(op, r) {
      AttachExact(op, acc, r.l, env);
      AttachExact(op, Attach(op, acc, r.l), r.r, env);
    } else {
      LeftNestExact(r, env);
    }
  }

  lemma {:induction false} LeftNestExact(e: Expr, env: Env)
    ensures Eval(LeftNest(e), env) == Eval(e, env)
    decreases e, 0
  {
    match e
    case Not(x) => LeftNestExact(x, env);
    case Bin(op, l, r) =>
      LeftNestExact(l, env);
      AttachExact(op, LeftNest(l), r, env);
    case _ =>
  }

  lemma {:induction false} AttachIsLeftNested(op: Op, acc: Expr, r: Expr)
    requires IsLeftNested(acc)
    ensures IsLeftNested(Attach(op, acc, r)) && IsOp(op, Attach(op, acc, r))
    decreases r, 1
  {
    if IsOp(op, r) {
      AttachIsLeftNested(op, acc, r.l);
      AttachIsLeftNested(op, Attach(op, acc, r.l), r.r);
    } else {
      LeftNestIsLeftNested(r);
    }
  }

  lemma {:induction false} LeftNestIsLeftNested(e: Expr)
    ensures IsLeftNested(LeftNest(e))
    ensures forall op :: IsOp(op, LeftNest(e)) <==> IsOp(op, e)
    decreases e, 0
  {
    match e
    case Not(x) => LeftNestIsLeftNested(x);
    case Bin(op, l, r) =>
      LeftNestIsLeftNested(l);
      AttachIsLeftNested(op, LeftNest(l), r);
    case _ =>
  }

  lemma {:induction false} LeftNestedIsFixed(e: Expr)
    requires IsLeftNested(e)
    ensures LeftNest(e) == e
  {
    match e
    case Not(x) => LeftNestedIsFixed(x);
    case Bin(op, l, r) =>
      LeftNestedIsFixed(l);
      LeftNestedIsFixed(r);
    case _ =>
  }

  // ----- single steps of a run -----

  /** An operand is expected. */
  predicate Ready(st: seq<Item>) {
    st == [] || st[|st| - 1] == Tok(Open) || st[|st| - 1] == Tok(Bang) || (exists op :: st[|st| - 1] == Tok(Oper(op)))
  }

  /** A chain of op may start: nothing that binds at least as tightly is waiting. */
  predicate Clean(st: seq<Item>, op: Op) {
    st == [] || st[|st| - 1] == Tok(Open) || (op == And && st[|st| - 1] == Tok(Oper(Or)))
  }

  predicate Follow(la: Token) {
    la == Close || la == End || la.Oper?
  }

  lemma ShiftStep(types: Types, st: seq<Item>, t: Token, rest: seq<Token>)
    requires t != End && Reduce(types, st, t).None?
    ensures Run(types, st, [t] + rest) == Run(types, st + [Tok(t)], rest)
  {
    assert ([t] + rest)[1..] == rest;
  }

  lemma ReduceStep(types: Types, st: seq<Item>, toks: seq<Token>)
    requires toks != [] && Reduce(types, st, toks[0]).Some?
    ensures Run(types, st, toks) == Run(types, Reduce(types, st, toks[0]).value, toks)
  {
  }

  lemma TopsOf(st: seq<Item>, a: Item, b: Item, d: Item)
    ensures Top(st + [a], 0) == Option.Some(a) && Drop(st + [a], 1) == st
    ensures Top(st + [a, b], 0) == Option.Some(b) && Top(st + [a, b], 1) == Option.Some(a) && Drop(st + [a, b], 2) == st
    ensures Top(st + [a, b, d], 0) == Option.Some(d) && Top(st + [a, b, d], 1) == Option.Some(b)
    ensures Top(st + [a, b, d], 2) == Option.Some(a) && Drop(st + [a, b, d], 3) == st
    ensures st + [a] + [b] == st + [a, b] && st + [a, b] + [d] == st + [a, b, d]
  {
  }

  lemma ReadyTop(st: seq<Item>, i: Item)
    requires Ready(st)
    ensures Top(st + [i], 0) == Option.Some(i) && Drop(st + [i], 1) == st
    ensures Top(st + [i], 1) != Option.Some(Tok(Eq)) && Top(st + [i], 1) != Option.Some(Tok(NotEq))
  {
    assert Top(st + [i], 1) == if st == [] then None else Option.Some(st[|st| - 1]);
  }

  /** A word is shifted and looked up. */
  lemma RunWord(types: Types, st: seq<Item>, name: string, rest: seq<Token>)
    requires rest != [] && Reduce(types, st, Word(name)).None?
    ensures Run(types, st, [Word(name)] + rest) == Run(types, st + [Symb(Lookup(types, name))], rest)
  {
    ShiftStep(types, st, Word(name), rest);
    var st' := st + [Tok(Word(name))];
    assert Drop(st', 1) == st;
    ReduceStep(types, st', rest);
  }


  lemma RunComparison(types: Types, st: seq<Item>, left: string, right: string, eq: bool, rest: seq<Token>)
    requires Ready(st) && rest != []
    ensures var sign := if eq then Eq else NotEq;
      var a, b := Lookup(types, left), Lookup(types, right);
      Run(types, st, [Word(left), sign, Word(right)] + rest)
      == Run(types, st + [Ex(if eq then Equal(a, b) else Unequal(a, b))], rest)
  {
    var sign := if eq then Eq else NotEq;
    var a, b := Lookup(types, left), Lookup(types, right);
    var r2 := [Word(right)] + rest;
    var r1 := [sign] + r2;
    assert [Word(left), sign, Word(right)] + rest == [Word(left)] + r1;
    RunWord(types, st, left, r1);
    RunSign(types, st, a, sign, r2);
    RunWord(types, st + [Symb(a), Tok(sign)], right, rest);
    RunReduceComparison(types, st, a, b, eq, rest);
  }

  lemma RunReduceComparison(types: Types, st: seq<Item>, a: Symbol, b: Symbol, eq: bool, rest: seq<Token>)
    requires rest != []
    ensures var sign := if eq then Eq else NotEq;
      Run(types, st + [Symb(a), Tok(sign)] + [Symb(b)], rest)
      == Run(types, st + [Ex(if eq then Equal(a, b) else Unequal(a, b))], rest)
  {
    var sign := if eq then Eq else NotEq;
    TopsOf(st, Symb(a), Tok(sign), Symb(b));
    ReduceStep(types, st + [Symb(a), Tok(sign), Symb(b)], rest);
  }

  lemma RunSign(types: Types, st: seq<Item>, a: Symbol, sign: Token, rest: seq<Token>)
    requires Ready(st) && (sign == Eq || sign == NotEq)
    ensures Run(types, st + [Symb(a)], [sign] + rest) == Run(types, st + [Symb(a), Tok(sign)], rest)
  {
    var st1 := st + [Symb(a)];
    ReadyTop(st, Symb(a));
    ShiftStep(types, st1, sign, rest);
    assert st1 + [Tok(sign)] == st + [Symb(a), Tok(sign)];
  }


  lemma RunSymbol(types: Types, st: seq<Item>, name: string, rest: seq<Token>)
    requires Ready(st) && rest != [] && Follow(rest[0])
    ensures Run(types, st, [Word(name)] + rest) == Run(types, st + [Ex(Sym(Lookup(types, name)))], rest)
  {
    RunWord(types, st, name, rest);
    var st1 := st + [Symb(Lookup(types, name))];
    ReadyTop(st, Symb(Lookup(types, name)));
    ReduceStep(types, st1, rest);
  }

  lemma RunOpen(types: Types, st: seq<Item>, inner: seq<Token>, rest: seq<Token>)
    requires Ready(st)
    ensures Run(types, st, [Open] + inner + [Close] + rest) == Run(types, st + [Tok(Open)], inner + ([Close] + rest))
  {
    assert [Open] + inner + [Close] + rest == [Open] + (inner + ([Close] + rest));
    ShiftStep(types, st, Open, inner + ([Close] + rest));
  }

  lemma RunClose(types: Types, st: seq<Item>, x: Expr, rest: seq<Token>)
    requires rest != []
    ensures Run(types, st + [Tok(Open)] + [Ex(x)], [Close] + rest) == Run(types, st + [Ex(x)], rest)
  {
    TopsOf(st, Tok(Open), Ex(x), Tok(Close));
    ShiftStep(types, st + [Tok(Open), Ex(x)], Close, rest);
    ReduceStep(types, st + [Tok(Open), Ex(x), Tok(Close)], rest);
  }

  lemma RunReduceNot(types: Types, x: Expr, st: seq<Item>, rest: seq<Token>)
    requires rest != []
    ensures Run(types, st + [Tok(Bang)] + [Ex(x)], rest) == Run(types, st + [Ex(Not(x))], rest)
  {
    TopsOf(st, Tok(Bang), Ex(x), Tok(Bang));
    ReduceStep(types, st + [Tok(Bang), Ex(x)], rest);
  }

  /** After a complete left operand the operator is shifted. */
  lemma RunOperator(types: Types, op: Op, acc: Expr, st: seq<Item>, rest: seq<Token>)
    requires Clean(st, op)
    ensures Run(types, st + [Ex(acc)], [Oper(op)] + rest) == Run(types, st + [Ex(acc), Tok(Oper(op))], rest)
  {
    var st1 := st + [Ex(acc)];
    assert Top(st1, 0) == Option.Some(Ex(acc));
    assert Top(st1, 1) == if st == [] then None else Option.Some(st[|st| - 1]);
    ShiftStep(types, st1, Oper(op), rest);
    TopsOf(st, Ex(acc), Tok(Oper(op)), Ex(acc));
  }

  lemma RunReduceOp(types: Types, op: Op, acc: Expr, x: Expr, st: seq<Item>, rest: seq<Token>)
    requires rest != [] && !BindsTighter(rest[0], op)
    ensures Run(types, st + [Ex(acc), Tok(Oper(op))] + [Ex(x)], rest) == Run(types, st + [Ex(Bin(op, acc, x))], rest)
  {
    TopsOf(st, Ex(acc), Tok(Oper(op)), Ex(x));
    ReduceStep(types, st + [Ex(acc), Tok(Oper(op)), Ex(x)], rest);
  }
}
