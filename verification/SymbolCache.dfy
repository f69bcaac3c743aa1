/** The changing part of the symbols, what the VALID flags promise about it, and what an evaluation leaves alone. */
module SymbolCache {
  import opened Tristates
  import opened Exprs
  import opened SymbolRules
  import opened SymbolTheory

  /** The changing part of struct symbol: flags VALID and NEW, curr, visible, rev_dep.tri and user. */
  datatype Cell = Cell(valid: bool, tri: Tristate, str: string, pick: Option<Symbol>,
                       visible: Tristate, rev: Tristate, user: User)

  type Cells = map<Symbol, Cell>

  function Get(cells: Cells, s: Symbol): Cell {
    if s in cells then cells[s]
    else Cell(false, NO, "", None, NO, NO, User(false, NO, "", None))
  }

  function UsersOf(cells: Cells): Users {
    s => Get(cells, s).user
  }

  /** The built-in symbols carry the flag from the start. */
  predicate IsValid(cells: Cells, s: Symbol) {
    IsBuiltin(s) || Get(cells, s).valid
  }

  /** curr.tri and sym_get_string_value */
  function ValueOf(cells: Cells, s: Symbol): Value {
    if IsBuiltin(s) then BuiltinValue(s)
    else
      var cell := Get(cells, s);
      Value(cell.tri, if s.IsBoolOrTristate() then TriName(cell.tri) else cell.str)
  }

  // ----- what the cache promises -----

  ghost predicate SettledAt(cells: Cells, o: Outcomes, s: Symbol) {
    && ValueOf(cells, s) == o(s).value
    && (!IsBuiltin(s) && s.Type() != TUnknown ==>
          var cell := Get(cells, s);
          && cell.pick == o(s).pick && cell.visible == o(s).visible && cell.rev == o(s).rev
          && (s.IsBoolOrTristate() ==> cell.str == "n"))
  }

  ghost predicate CacheOkAt(c: Config, rank: Rank, cells: Cells, o: Outcomes, busy: set<Symbol>, s: Symbol) {
    && (Inside(rank, s) && Get(cells, s).valid && s !in busy ==>
          && SettledAt(cells, o, s)
          && (c.IsMember(s) ==> IsValid(cells, c.Info(s).role.choice) && c.Info(s).role.choice !in busy))
    && (c.IsMember(s) ==> Get(cells, s).rev == NO)
  }

  /** Every flagged symbol whose calculation is not under way holds its outcome. */
  ghost predicate CacheOk(c: Config, rank: Rank, cells: Cells, o: Outcomes, busy: set<Symbol>) {
    forall s :: CacheOkAt(c, rank, cells, o, busy, s)
  }

  /** A closed set of ranked symbols, the users' values, and the outcomes they determine. */
  ghost predicate Determined(c: Config, m: Tristate, u: Users, o: Outcomes, rank: Rank) {
    Ranked(c, rank) && ChoicesOk(c, rank) && UsersOk(c, u, rank) && SolvesInside(c, m, u, o, rank)
  }

  /** The fixed surroundings of one evaluation: a closed set of ranked symbols, the users' values, the
      outcomes they determine, and the value of MODULES that type decisions use.  MODULES on top of the set is
      the symbol that is asked for, and may come out otherwise. */
  ghost predicate Setting(c: Config, m: Tristate, u: Users, o: Outcomes, rank: Rank) {
    && Determined(c, m, u, o, rank)
    && (c.modules.Some? && rank.of(c.modules.value) + 1 < rank.limit ==> o(c.modules.value).value.tri == m)
  }

  // ----- what an evaluation below rank k leaves alone -----

  predicate SameCurr(a: Cell, b: Cell) {
    a.valid == b.valid && a.tri == b.tri && a.str == b.str && a.pick == b.pick
  }

  predicate SameSeen(a: Cell, b: Cell) {
    a.visible == b.visible && a.rev == b.rev
  }

  /** A choice that has not been calculated yet may still look at its members. */
  predicate Open(c: Config, cells: Cells, s: Symbol) {
    c.IsMember(s) && !IsValid(cells, c.Info(s).role.choice)
  }

  ghost predicate KeptAt(c: Config, rank: Rank, k: nat, a: Cells, b: Cells, seen: set<Symbol>, s: Symbol) {
    var x, y := Get(a, s), Get(b, s);
    && x.user == y.user
    && (x.valid || rank.of(s) >= k ==> SameCurr(x, y))
    && (x.valid || rank.of(s) >= k ==> SameSeen(x, y) || Open(c, a, s) || s in seen)
  }

  ghost predicate Kept(c: Config, rank: Rank, k: nat, a: Cells, b: Cells, seen: set<Symbol>) {
    forall s :: KeptAt(c, rank, k, a, b, seen, s)
  }

  lemma KeptTrans(c: Config, rank: Rank, k: nat, x: Cells, y: Cells, z: Cells, seen: set<Symbol>)
    requires Kept(c, rank, k, x, y, seen) && Kept(c, rank, k, y, z, seen)
    ensures Kept(c, rank, k, x, z, seen)
  {
    forall s
      ensures KeptAt(c, rank, k, x, z, seen, s)
    {
      assert KeptAt(c, rank, k, x, y, seen, s) && KeptAt(c, rank, k, y, z, seen, s);
      if c.IsMember(s) {
        assert KeptAt(c, rank, k, x, y, seen, c.Info(s).role.choice);
      }
    }
  }

  lemma KeptWiden(c: Config, rank: Rank, k: nat, k': nat, x: Cells, y: Cells, seen: set<Symbol>, seen': set<Symbol>)
    requires Kept(c, rank, k, x, y, seen) && k <= k' && seen <= seen'
    ensures Kept(c, rank, k', x, y, seen')
  {
    forall s
      ensures KeptAt(c, rank, k', x, y, seen', s)
    {
      assert KeptAt(c, rank, k, x, y, seen, s);
    }
  }

  lemma KeptUsers(c: Config, rank: Rank, k: nat, x: Cells, y: Cells, seen: set<Symbol>)
    requires Kept(c, rank, k, x, y, seen)
    ensures forall s :: UsersOf(x)(s) == UsersOf(y)(s)
  {
    forall s
      ensures UsersOf(x)(s) == UsersOf(y)(s)
    {
      assert KeptAt(c, rank, k, x, y, seen, s);
    }
  }

  lemma SettingKept(c: Config, m: Tristate, x: Cells, y: Cells, o: Outcomes, rank: Rank, k: nat, seen: set<Symbol>)
    requires Setting(c, m, UsersOf(x), o, rank) && Kept(c, rank, k, x, y, seen)
    ensures Setting(c, m, UsersOf(y), o, rank)
  {
    KeptUsers(c, rank, k, x, y, seen);
    forall s | Inside(rank, s)
      ensures o(s) == Rule(c, m, UsersOf(y), o, s)
    {
      RuleReadsUser(c, m, UsersOf(x), UsersOf(y), o, s);
    }
  }

  /** A symbol that an expression may read: either it ranks below everything under way, or it is the
      open choice, whose value in progress env gives. */
  ghost predicate ReadableAt(c: Config, cells: Cells, o: Outcomes, rank: Rank, k: nat, busy: set<Symbol>, env: Env, t: Symbol) {
    || (rank.of(t) < k && env(t) == o(t).value)
    || (t in busy && c.IsChoice(t) && Inside(rank, t) && IsValid(cells, t) && ValueOf(cells, t) == env(t))
  }

  ghost predicate Readable(c: Config, e: OptExpr, cells: Cells, o: Outcomes, rank: Rank, k: nat, busy: set<Symbol>, env: Env) {
    e.Some? ==> forall t :: t in SymbolsOf(e.value) ==> ReadableAt(c, cells, o, rank, k, busy, env, t)
  }

  /** Nothing that s is computed from is under way. */
  ghost predicate Free(rank: Rank, s: Symbol, busy: set<Symbol>) {
    Inside(rank, s) && forall b :: b in busy ==> rank.of(b) > rank.of(s)
  }

  ghost predicate Above(rank: Rank, k: nat, busy: set<Symbol>) {
    k < rank.limit && forall b :: b in busy ==> rank.of(b) >= k
  }

  lemma ReadableKept(e: OptExpr, c: Config, x: Cells, y: Cells, o: Outcomes, rank: Rank, k: nat, busy: set<Symbol>,
                     env: Env, seen: set<Symbol>)
    requires Readable(c, e, x, o, rank, k, busy, env) && Kept(c, rank, k, x, y, seen) && Above(rank, k, busy)
    ensures Readable(c, e, y, o, rank, k, busy, env)
  {
    if e.Some? {
      forall t | t in SymbolsOf(e.value)
        ensures ReadableAt(c, y, o, rank, k, busy, env, t)
      {
        assert ReadableAt(c, x, o, rank, k, busy, env, t) && KeptAt(c, rank, k, x, y, seen, t);
      }
    }
  }

  ghost predicate AllValid(e: OptExpr, cells: Cells) {
    e.Some? ==> forall t :: t in SymbolsOf(e.value) ==> IsValid(cells, t)
  }

  lemma AllValidKept(e: OptExpr, c: Config, x: Cells, y: Cells, rank: Rank, k: nat, seen: set<Symbol>)
    requires AllValid(e, x) && Kept(c, rank, k, x, y, seen)
    ensures AllValid(e, y)
  {
    if e.Some? {
      forall t | t in SymbolsOf(e.value)
        ensures IsValid(y, t)
      {
        assert KeptAt(c, rank, k, x, y, seen, t);
      }
    }
  }

  lemma MembersRankAbove(c: Config, rank: Rank, s: Symbol, x: Symbol)
    requires Ranked(c, rank) && ChoicesOk(c, rank) && Inside(rank, s) && c.IsChoice(s) && x in c.Info(s).role.members
    ensures rank.of(x) > rank.of(s) && c.Info(x).role == MemberOf(s) && MemberBelowExcept(c, x, rank, rank.of(s), s)
  {
    assert ChoiceOkAt(c, s) && RankedAt(c, rank, s);
    if Inside(rank, x) { assert RankedAt(c, rank, x); }
  }

  lemma SeenKept(c: Config, rank: Rank, k: nat, cells: Cells, s: Symbol, visible: Tristate, rev: Tristate)
    ensures Kept(c, rank, k, cells, cells[s := Get(cells, s).(visible := visible, rev := rev)], {s})
  {
    var cells' := cells[s := Get(cells, s).(visible := visible, rev := rev)];
    forall t
      ensures KeptAt(c, rank, k, cells, cells', {s}, t)
    {
      assert t != s ==> Get(cells', t) == Get(cells, t);
    }
  }

  lemma SeenCacheOk(c: Config, rank: Rank, cells: Cells, o: Outcomes, busy: set<Symbol>, s: Symbol, visible: Tristate, rev: Tristate)
    requires CacheOk(c, rank, cells, o, busy)
    requires Inside(rank, s) ==> s in busy || !Get(cells, s).valid
    requires c.IsMember(s) ==> rev == NO
    ensures CacheOk(c, rank, cells[s := Get(cells, s).(visible := visible, rev := rev)], o, busy)
  {
    var cells' := cells[s := Get(cells, s).(visible := visible, rev := rev)];
    forall t
      ensures CacheOkAt(c, rank, cells', o, busy, t)
    {
      assert CacheOkAt(c, rank, cells, o, busy, t);
      assert forall x :: x != s ==> Get(cells', x) == Get(cells, x);
    }
  }

  // ----- one calculation from beginning to end -----

  /** As Kept, but s itself may get another value. */
  ghost predicate KeptOthers(c: Config, rank: Rank, k: nat, a: Cells, b: Cells, seen: set<Symbol>, s: Symbol) {
    && (forall t :: t != s ==> KeptAt(c, rank, k, a, b, seen, t))
    && Get(a, s).user == Get(b, s).user && Get(a, s).valid == Get(b, s).valid
  }

  lemma KeptOthersTrans(c: Config, rank: Rank, k: nat, x: Cells, y: Cells, z: Cells, seen: set<Symbol>, s: Symbol)
    requires KeptOthers(c, rank, k, x, y, seen, s) && KeptOthers(c, rank, k, y, z, seen, s)
    ensures KeptOthers(c, rank, k, x, z, seen, s)
  {
    forall t | t != s
      ensures KeptAt(c, rank, k, x, z, seen, t)
    {
      assert KeptAt(c, rank, k, x, y, seen, t) && KeptAt(c, rank, k, y, z, seen, t);
      if c.IsMember(t) && c.Info(t).role.choice != s {
        assert KeptAt(c, rank, k, x, y, seen, c.Info(t).role.choice);
      }
    }
  }

  lemma KeptIsKeptOthers(c: Config, rank: Rank, k: nat, x: Cells, y: Cells, seen: set<Symbol>, seen': set<Symbol>, s: Symbol)
    requires Kept(c, rank, k, x, y, seen) && seen <= seen' && rank.of(s) >= k
    ensures KeptOthers(c, rank, k, x, y, seen', s)
  {
    assert KeptAt(c, rank, k, x, y, seen, s);
    forall t
      ensures KeptAt(c, rank, k, x, y, seen', t)
    {
      assert KeptAt(c, rank, k, x, y, seen, t);
    }
  }

  lemma KeptOthersUsers(c: Config, m: Tristate, rank: Rank, k: nat, x: Cells, y: Cells, o: Outcomes,
                        seen: set<Symbol>, s: Symbol)
    requires Setting(c, m, UsersOf(x), o, rank) && KeptOthers(c, rank, k, x, y, seen, s)
    ensures Setting(c, m, UsersOf(y), o, rank)
  {
    forall t
      ensures UsersOf(x)(t) == UsersOf(y)(t)
    {
      if t != s { assert KeptAt(c, rank, k, x, y, seen, t); }
    }
    forall t | Inside(rank, t)
      ensures o(t) == Rule(c, m, UsersOf(y), o, t)
    {
      RuleReadsUser(c, m, UsersOf(x), UsersOf(y), o, t);
    }
  }

  /** The members of a choice, or nothing. */
  function MembersOf(c: Config, s: Symbol): set<Symbol> {
    if c.IsChoice(s) then set x | x in c.Info(s).role.members else {}
  }

  function Flagged(cells: Cells, s: Symbol): Cells {
    cells[s := Get(cells, s).(valid := true)]
  }

  function WithCurr(cells: Cells, s: Symbol, tri: Tristate, str: string, pick: Option<Symbol>): Cells {
    cells[s := Get(cells, s).(tri := tri, str := str, pick := pick)]
  }

  lemma WithCurrKeptOthers(c: Config, rank: Rank, k: nat, cells: Cells, s: Symbol, tri: Tristate, str: string,
                           pick: Option<Symbol>, seen: set<Symbol>)
    ensures KeptOthers(c, rank, k, cells, WithCurr(cells, s, tri, str, pick), seen, s)
  {
    forall t | t != s
      ensures KeptAt(c, rank, k, cells, WithCurr(cells, s, tri, str, pick), seen, t)
    {
      assert Get(WithCurr(cells, s, tri, str, pick), t) == Get(cells, t);
    }
  }

  lemma WithCurrCacheOk(c: Config, rank: Rank, cells: Cells, s: Symbol, tri: Tristate, str: string, pick: Option<Symbol>,
                        o: Outcomes, busy: set<Symbol>)
    requires CacheOk(c, rank, cells, o, busy) && s in busy
    ensures CacheOk(c, rank, WithCurr(cells, s, tri, str, pick), o, busy)
  {
    var cells' := WithCurr(cells, s, tri, str, pick);
    forall t
      ensures CacheOkAt(c, rank, cells', o, busy, t)
    {
      assert CacheOkAt(c, rank, cells, o, busy, t);
      assert forall x :: x != s ==> Get(cells', x) == Get(cells, x);
    }
  }

  /** Setting the flag puts the symbol under way. */
  lemma FlaggedCacheOk(c: Config, rank: Rank, cells: Cells, s: Symbol, o: Outcomes, busy: set<Symbol>)
    requires CacheOk(c, rank, cells, o, busy) && !IsValid(cells, s)
    ensures CacheOk(c, rank, Flagged(cells, s), o, busy + {s})
  {
    var cells', busy' := Flagged(cells, s), busy + {s};
    forall t
      ensures CacheOkAt(c, rank, cells', o, busy', t)
    {
      assert CacheOkAt(c, rank, cells, o, busy, t);
      assert forall x :: x != s ==> Get(cells', x) == Get(cells, x);
    }
  }

  /** Once it holds its outcome, the symbol is no longer under way. */
  lemma SettledCacheOk(c: Config, rank: Rank, cells: Cells, s: Symbol, o: Outcomes, busy: set<Symbol>)
    requires CacheOk(c, rank, cells, o, busy + {s}) && SettledAt(cells, o, s)
    requires c.IsMember(s) ==> IsValid(cells, c.Info(s).role.choice) && c.Info(s).role.choice !in busy
    ensures CacheOk(c, rank, cells, o, busy)
  {
    forall t
      ensures CacheOkAt(c, rank, cells, o, busy, t)
    {
      assert CacheOkAt(c, rank, cells, o, busy + {s}, t);
    }
  }

  /** From before the flag was set to the end: nothing settled has changed. */
  lemma CalculationKept(c: Config, rank: Rank, s: Symbol, cells0: Cells, cells: Cells)
    requires ChoiceOkAt(c, s) && !IsValid(cells0, s)
    requires KeptOthers(c, rank, rank.of(s), Flagged(cells0, s), cells, {s} + MembersOf(c, s), s)
    ensures Kept(c, rank, rank.of(s) + 1, cells0, cells, {})
  {
    var seen, k := {s} + MembersOf(c, s), rank.of(s) + 1;
    forall t
      ensures KeptAt(c, rank, k, cells0, cells, {}, t)
    {
      if t != s {
        assert KeptAt(c, rank, rank.of(s), Flagged(cells0, s), cells, seen, t);
        assert Get(Flagged(cells0, s), t) == Get(cells0, t);
        assert ChoiceOkAt(c, s);
        if c.IsMember(t) && c.Info(t).role.choice != s {
          assert Get(Flagged(cells0, s), c.Info(t).role.choice) == Get(cells0, c.Info(t).role.choice);
        }
      }
    }
  }

  lemma FlaggedSetting(c: Config, m: Tristate, cells: Cells, s: Symbol, o: Outcomes, rank: Rank)
    requires Setting(c, m, UsersOf(cells), o, rank)
    ensures Setting(c, m, UsersOf(Flagged(cells, s)), o, rank)
  {
    forall t | Inside(rank, t)
      ensures o(t) == Rule(c, m, UsersOf(Flagged(cells, s)), o, t)
    {
      RuleReadsUser(c, m, UsersOf(cells), UsersOf(Flagged(cells, s)), o, t);
    }
  }

  lemma UnknownKept(c: Config, m: Tristate, cells: Cells, s: Symbol, o: Outcomes, rank: Rank, busy: set<Symbol>)
    requires Setting(c, m, UsersOf(cells), o, rank) && CacheOk(c, rank, cells, o, busy)
    requires !IsValid(cells, s) && s.Type() == TUnknown && Inside(rank, s)
    ensures var cells' := cells[s := Get(cells, s).(valid := true, tri := NO, str := NameOf(s))];
      && Kept(c, rank, rank.of(s) + 1, cells, cells', {})
      && Setting(c, m, UsersOf(cells'), o, rank) && CacheOk(c, rank, cells', o, busy)
  {
    var cells' := cells[s := Get(cells, s).(valid := true, tri := NO, str := NameOf(s))];
    assert forall t :: t != s ==> Get(cells', t) == Get(cells, t);
    var k := rank.of(s) + 1;
    forall t
      ensures KeptAt(c, rank, k, cells, cells', {}, t)
    {
    }
    SettingKept(c, m, cells, cells', o, rank, k, {});
    assert o(s) == Rule(c, m, UsersOf(cells), o, s);
    assert ChoiceOkAt(c, s);
    forall t
      ensures CacheOkAt(c, rank, cells', o, busy, t)
    {
      assert CacheOkAt(c, rank, cells, o, busy, t);
      if c.IsMember(t) && Inside(rank, t) { assert ChoiceOkAt(c, t) && ChoiceOkAt(c, c.Info(t).role.choice); }
    }
  }

  lemma KeptRefl(c: Config, rank: Rank, k: nat, cells: Cells, seen: set<Symbol>)
    ensures Kept(c, rank, k, cells, cells, seen)
  {
  }

  lemma ValidIsSettled(c: Config, m: Tristate, cells: Cells, o: Outcomes, rank: Rank, s: Symbol)
    requires Setting(c, m, UsersOf(cells), o, rank) && CacheOk(c, rank, cells, o, {}) && Inside(rank, s)
    requires IsValid(cells, s)
    ensures ValueOf(cells, s) == o(s).value
  {
    assert CacheOkAt(c, rank, cells, o, {}, s);
    assert o(s) == Rule(c, m, UsersOf(cells), o, s);
  }
}
