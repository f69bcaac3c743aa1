/** Dependency expressions, the symbols in them, and their value in an environment. */
module Exprs {
  import opened Tristates

  datatype SymType = TUnknown | TBoolean | TTristate | TInt | THex | TString

  /** Looking up "y", "m" or "n" always gives the built-in symbol, so no other constant has such a name. */
  type ConstName = s: string | s != "y" && s != "m" && s != "n" witness ""

  /** A symbol stands for its own identity: the lookup table holds one symbol for each name and constness,
      and the symbols of choice blocks have no name. */
  datatype Symbol =
    | Yes | Mod | No
    | Const(text: ConstName)
    | Var(name: string, vtyp: SymType)
    | Choice(id: nat, ctyp: SymType)
  {
    function Type(): SymType {
      match this
      case Var(_, t) => t
      case Choice(_, t) => t
      case _ => TUnknown
    }

    /** Any of the bits SYMBOL_YES, SYMBOL_MOD, SYMBOL_NO is set. */
    predicate IsConst() {
      Yes? || Mod? || No? || Const?
    }

    /** SYMBOL_YES or SYMBOL_NO is set; a quoted constant carries all three bits. */
    predicate HasYesOrNoFlag() {
      Yes? || No? || Const?
    }

    predicate IsBoolOrTristate() {
      Type() == TBoolean || Type() == TTristate
    }
  }

  datatype Expr =
    | Sym(s: Symbol)
    | Not(e: Expr)
    | Bin(op: Op, l: Expr, r: Expr)
    | Equal(a: Symbol, b: Symbol)
    | Unequal(a: Symbol, b: Symbol)

  datatype Option<+T> = None | Some(value: T)

  /** A missing expression (NULL) means yes. */
  type OptExpr = Option<Expr>

  /** What sym_calc_value leaves in a symbol: its tristate, and what sym_get_string_value returns. */
  datatype Value = Value(tri: Tristate, str: string)

  type Env = Symbol -> Value

  function TriName(t: Tristate): string {
    if t == NO then "n" else if t == MOD then "m" else "y"
  }

  predicate WellTypedAt(s: Symbol, v: Value) {
    match s
    case Yes => v == Value(YES, "y")
    case Mod => v == Value(MOD, "m")
    case No => v == Value(NO, "n")
    case Const(text) => v == Value(NO, text)
    case _ =>
      match s.Type()
      case TBoolean => v.tri != MOD && v.str == TriName(v.tri)
      case TTristate => v.str == TriName(v.tri)
      case TUnknown => v.tri == NO && (s.Var? ==> v.str == s.name)
      case _ => v.tri == NO
  }

  ghost predicate WellTyped(env: Env) {
    forall s :: WellTypedAt(s, env(s))
  }

  function Eval(e: Expr, env: Env): Tristate {
    match e
    case Sym(s) => env(s).tri
    case Not(x) => Complement(Eval(x, env))
    case Bin(op, l, r) => Apply(op, Eval(l, env), Eval(r, env))
    case Equal(a, b) => if env(a).str == env(b).str then YES else NO
    case Unequal(a, b) => if env(a).str == env(b).str then NO else YES
  }

  function EvalOpt(e: OptExpr, env: Env): Tristate {
    match e
    case None => YES
    case Some(x) => Eval(x, env)
  }

  function SymbolsOf(e: Expr): set<Symbol> {
    match e
    case Sym(s) => {s}
    case Not(x) => SymbolsOf(x)
    case Bin(_, l, r) => SymbolsOf(l) + SymbolsOf(r)
    case Equal(a, b) => {a, b}
    case Unequal(a, b) => {a, b}
  }

  function SymbolsOfOpt(e: OptExpr): set<Symbol> {
    if e.None? then {} else SymbolsOf(e.value)
  }

  /** The number of nodes. */
  function Size(e: Expr): nat
    ensures Size(e) >= 1
  {
    match e
    case Not(x) => 1 + Size(x)
    case Bin(_, l, r) => 1 + Size(l) + Size(r)
    case _ => 1
  }

  predicate IsOp(t: Op, e: Expr) {
    e.Bin? && e.op == t
  }

  function Neutral(t: Op): Expr {
    Sym(if t == And then Yes else No)
  }

  function Absorbing(t: Op): Expr {
    Sym(if t == And then No else Yes)
  }

  predicate IsYesOrNo(e: Expr) {
    e == Sym(Yes) || e == Sym(No)
  }

  function AllocAnd(e1: OptExpr, e2: OptExpr): OptExpr {
    if e1.None? then e2
    else if e2.None? then e1
    else Some(Bin(And, e1.value, e2.value))
  }

  function AllocOr(e1: OptExpr, e2: OptExpr): OptExpr {
    if e1.None? then e2
    else if e2.None? then e1
    else Some(Bin(Or, e1.value, e2.value))
  }

  /** Only the symbols that occur in an expression matter to its value. */
  lemma {:induction false} EvalDependsOnSymbols(e: Expr, env: Env, env': Env)
    requires forall s :: s in SymbolsOf(e) ==> env(s) == env'(s)
    ensures Eval(e, env) == Eval(e, env')
  {
    match e
    case Not(x) => EvalDependsOnSymbols(x, env, env');
    case Bin(_, l, r) =>
      EvalDependsOnSymbols(l, env, env');
      EvalDependsOnSymbols(r, env, env');
    case _ =>
  }

  /** In an environment where no symbol of e is mod, e is not mod either. */
  lemma {:induction false} ModFreeIsDefinite(e: Expr, env: Env)
    requires forall s :: s in SymbolsOf(e) ==> env(s).tri != MOD
    ensures Eval(e, env) != MOD
  {
    match e
    case Not(x) => ModFreeIsDefinite(x, env);
    case Bin(_, l, r) =>
      ModFreeIsDefinite(l, env);
      ModFreeIsDefinite(r, env);
    case _ =>
  }
}
