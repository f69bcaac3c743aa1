/** The symbols as the program evaluates them: cells that are overwritten under a VALID flag, by mutually
    recursive methods.  Each method is proved against the equations of SymbolRules. */
module SymbolTable {
  import opened Tristates
  import opened Exprs
  import opened Ranges
  import opened SymbolRules
  import opened SymbolTheory
  import opened SymbolReads
  import opened SymbolCache
  import opened SymbolSet
  import opened SymbolKeep

  class SymTab {
    const c: Config
    var cells: Cells
    var modulesVal: Tristate
    /** The symbols that were asked for while their own calculation was under way. */
    ghost var met: set<Symbol>

    constructor (config: Config)
      ensures c == config && cells == map[] && modulesVal == NO && met == {}
    {
      c, cells, modulesVal, met := config, map[], NO, {};
    }

    /** The cache is sound for outcomes under m, and only choices have been met under way. */
    ghost predicate ReadyFor(m: Tristate, o: Outcomes, rank: Rank, busy: set<Symbol>)
      reads this
    {
      && Setting(c, m, UsersOf(cells), o, rank) && CacheOk(c, rank, cells, o, busy)
      && forall t :: t in met ==> c.IsChoice(t) && Inside(rank, t)
    }

    ghost predicate Ready(o: Outcomes, rank: Rank, busy: set<Symbol>)
      reads this
    {
      ReadyFor(modulesVal, o, rank, busy)
    }

    /** Between two evaluations, with MODULES among the symbols and worked out. */
    ghost predicate Current(o: Outcomes, rank: Rank)
      reads this
    {
      CurrentFor(c, modulesVal, cells, o, rank) && forall t :: t in met ==> c.IsChoice(t) && Inside(rank, t)
    }

    // ----- expr_calc_value -----

    method EvalExpr(e: Expr, ghost env: Env, ghost k: nat, ghost o: Outcomes, ghost rank: Rank, ghost busy: set<Symbol>)
        returns (tri: Tristate)
      requires Ready(o, rank, busy) && Above(rank, k, busy)
      requires Readable(c, Some(e), cells, o, rank, k, busy, env)
      modifies this
      ensures Ready(o, rank, busy) && modulesVal == old(modulesVal)
      ensures Kept(c, rank, k, old(cells), cells, {})
      ensures AllValid(Some(e), cells)
      ensures tri == Eval(e, env)
      decreases k, 1, Size(e)
    {
      match e {
        case Sym(s) =>
          ReadSymbol(s, env, k, o, rank, busy);
          tri := ValueOf(cells, s).tri;
        case Not(x) =>
          var v := EvalExpr(x, env, k, o, rank, busy);
          tri := Complement(v);
        case Bin(op, l, r) =>
          tri := EvalBin(op, l, r, env, k, o, rank, busy);
        case Equal(a, b) =>
          var same := CompareSymbols(a, b, env, k, o, rank, busy);
          tri := if same then YES else NO;
        case Unequal(a, b) =>
          var same := CompareSymbols(a, b, env, k, o, rank, busy);
          tri := if same then NO else YES;
      }
    }

    method EvalBin(op: Op, l: Expr, r: Expr, ghost env: Env, ghost k: nat, ghost o: Outcomes, ghost rank: Rank,
                   ghost busy: set<Symbol>) returns (tri: Tristate)
      requires Ready(o, rank, busy) && Above(rank, k, busy)
      requires Readable(c, Some(Bin(op, l, r)), cells, o, rank, k, busy, env)
      modifies this
      ensures Ready(o, rank, busy) && modulesVal == old(modulesVal)
      ensures Kept(c, rank, k, old(cells), cells, {})
      ensures AllValid(Some(Bin(op, l, r)), cells)
      ensures tri == Apply(op, Eval(l, env), Eval(r, env))
      decreases k, 1, 1 + Size(l) + Size(r), 0
    {
      ghost var cells0 := cells;
      var v1 := EvalExpr(l, env, k, o, rank, busy);
      ghost var cells1 := cells;
      ReadableKept(Some(Bin(op, l, r)), c, cells0, cells1, o, rank, k, busy, env, {});
      var v2 := EvalExpr(r, env, k, o, rank, busy);
      AllValidKept(Some(l), c, cells1, cells, rank, k, {});
      KeptTrans(c, rank, k, cells0, cells1, cells, {});
      tri := Apply(op, v1, v2);
    }

    /** sym_calc_value on a symbol in an expression, after which its value may be read. */
    method ReadSymbol(s: Symbol, ghost env: Env, ghost k: nat, ghost o: Outcomes, ghost rank: Rank,
                      ghost busy: set<Symbol>)
      requires Ready(o, rank, busy) && Above(rank, k, busy)
      requires ReadableAt(c, cells, o, rank, k, busy, env, s)
      modifies this
      ensures Ready(o, rank, busy) && modulesVal == old(modulesVal)
      ensures Kept(c, rank, k, old(cells), cells, {})
      ensures IsValid(cells, s) && ValueOf(cells, s) == env(s)
      decreases k, 0, 1
    {
      ghost var cells0 := cells;
      CalcValue(s, o, rank, busy);
      if !IsValid(cells0, s) {
        KeptWiden(c, rank, rank.of(s) + 1, k, cells0, cells, {}, {});
      } else {
        KeptRefl(c, rank, k, cells, {});
      }
      assert CacheOkAt(c, rank, cells, o, busy, s);
      assert o(s) == Rule(c, modulesVal, UsersOf(cells), o, s);
    }

    method CompareSymbols(a: Symbol, b: Symbol, ghost env: Env, ghost k: nat, ghost o: Outcomes, ghost rank: Rank,
                          ghost busy: set<Symbol>) returns (same: bool)
      requires Ready(o, rank, busy) && Above(rank, k, busy)
      requires ReadableAt(c, cells, o, rank, k, busy, env, a) && ReadableAt(c, cells, o, rank, k, busy, env, b)
      modifies this
      ensures Ready(o, rank, busy) && modulesVal == old(modulesVal)
      ensures Kept(c, rank, k, old(cells), cells, {})
      ensures IsValid(cells, a) && IsValid(cells, b)
      ensures same == (env(a).str == env(b).str)
      decreases k, 1, 0
    {
      ghost var cells0 := cells;
      ReadSymbol(a, env, k, o, rank, busy);
      ghost var cells1 := cells;
      assert KeptAt(c, rank, k, cells0, cells1, {}, b);
      ReadSymbol(b, env, k, o, rank, busy);
      assert KeptAt(c, rank, k, cells1, cells, {}, a);
      KeptTrans(c, rank, k, cells0, cells1, cells, {});
      same := ValueOf(cells, a).str == ValueOf(cells, b).str;
    }

    method EvalOptExpr(e: OptExpr, ghost env: Env, ghost k: nat, ghost o: Outcomes, ghost rank: Rank,
                       ghost busy: set<Symbol>) returns (tri: Tristate)
      requires Ready(o, rank, busy) && Above(rank, k, busy)
      requires Readable(c, e, cells, o, rank, k, busy, env)
      modifies this
      ensures Ready(o, rank, busy) && modulesVal == old(modulesVal)
      ensures Kept(c, rank, k, old(cells), cells, {})
      ensures AllValid(e, cells)
      ensures tri == EvalOpt(e, env)
      decreases k, 2
    {
      if e.None? {
        KeptRefl(c, rank, k, cells, {});
        tri := YES;
      } else {
        tri := EvalExpr(e.value, env, k, o, rank, busy);
      }
    }

    // ----- sym_calc_visibility -----

    /** Overwrites visible and rev_dep.tri of a symbol that is not settled. */
    method SetSeen(s: Symbol, visible: Tristate, rev: Tristate, ghost k: nat, ghost o: Outcomes, ghost rank: Rank,
                   ghost busy: set<Symbol>)
      requires Ready(o, rank, busy)
      requires Inside(rank, s) ==> s in busy || !Get(cells, s).valid
      requires c.IsMember(s) ==> rev == NO
      modifies this
      ensures Ready(o, rank, busy) && modulesVal == old(modulesVal)
      ensures Kept(c, rank, k, old(cells), cells, {s})
      ensures cells == old(cells)[s := Get(old(cells), s).(visible := visible, rev := rev)]
    {
      ghost var cells0 := cells;
      cells := cells[s := Get(cells, s).(visible := visible, rev := rev)];
      SeenKept(c, rank, k, cells0, s, visible, rev);
      SettingKept(c, modulesVal, cells0, cells, o, rank, k, {s});
      SeenCacheOk(c, rank, cells0, o, busy, s, visible, rev);
    }

    ghost predicate PromptsReadable(props: seq<Property>, env: Env, k: nat, o: Outcomes, rank: Rank, busy: set<Symbol>)
      reads this
    {
      forall p :: p in props && p.Prompt? ==> Readable(c, p.visible, cells, o, rank, k, busy, env)
    }

    method CalcPrompts(s: Symbol, ghost env: Env, ghost k: nat, ghost o: Outcomes, ghost rank: Rank,
                       ghost busy: set<Symbol>) returns (tri: Tristate)
      requires Ready(o, rank, busy) && Above(rank, k, busy)
      requires PromptsReadable(c.Info(s).props, env, k, o, rank, busy)
      modifies this
      ensures Ready(o, rank, busy) && modulesVal == old(modulesVal)
      ensures Kept(c, rank, k, old(cells), cells, {})
      ensures forall p :: p in c.Info(s).props && p.Prompt? ==> AllValid(p.visible, cells)
      ensures tri == PromptsFrom(c.Info(s).props, 0, env)
      decreases k, 3
    {
      var props := c.Info(s).props;
      ghost var cells0 := cells;
      KeptRefl(c, rank, k, cells, {});
      tri := NO;
      for i := 0 to |props|
        invariant Ready(o, rank, busy) && modulesVal == old(modulesVal)
        invariant Kept(c, rank, k, cells0, cells, {})
        invariant forall p :: p in props[..i] && p.Prompt? ==> AllValid(p.visible, cells)
        invariant Apply(Or, tri, PromptsFrom(props, i, env)) == PromptsFrom(props, 0, env)
      {
        if props[i].Prompt? {
          ghost var cells1 := cells;
          assert props[i] in props;
          ReadableKept(props[i].visible, c, cells0, cells1, o, rank, k, busy, env, {});
          var v := EvalOptExpr(props[i].visible, env, k, o, rank, busy);
          tri := Apply(Or, tri, v);
          KeptTrans(c, rank, k, cells0, cells1, cells, {});
          forall p | p in props[..i] && p.Prompt?
            ensures AllValid(p.visible, cells)
          {
            AllValidKept(p.visible, c, cells1, cells, rank, k, {});
          }
        }
      }
    }

    method CalcVisibility(s: Symbol, ghost env: Env, ghost k: nat, ghost o: Outcomes, ghost rank: Rank,
                          ghost busy: set<Symbol>)
      requires Ready(o, rank, busy) && Above(rank, k, busy)
      requires (Inside(rank, s) ==> s in busy || !Get(cells, s).valid) && rank.of(s) >= k
      requires PromptsReadable(c.Info(s).props, env, k, o, rank, busy)
      requires !c.IsMember(s) ==> Readable(c, c.Info(s).revDep, cells, o, rank, k, busy, env)
      modifies this
      ensures Ready(o, rank, busy) && modulesVal == old(modulesVal)
      ensures Kept(c, rank, k, old(cells), cells, {s})
      ensures forall p :: p in c.Info(s).props && p.Prompt? ==> AllValid(p.visible, cells)
      ensures Get(cells, s).visible == Visibility(c, s, env, modulesVal)
      ensures Get(cells, s).rev == SelectValue(c, s, env, Get(cells, s).visible, modulesVal)
      decreases k, 4
    {
      ghost var cells0 := cells;
      var visible := CalcPrompts(s, env, k, o, rank, busy);
      ghost var cells1 := cells;
      assert KeptAt(c, rank, k, cells0, cells1, {}, s);
      KeptWiden(c, rank, k, k, cells0, cells1, {}, {s});
      if visible == MOD && (s.Type() != TTristate || modulesVal == NO) {
        visible := YES;
      }
      assert CacheOkAt(c, rank, cells, o, busy, s);
      SetSeen(s, visible, Get(cells, s).rev, k, o, rank, busy);
      ghost var cells2 := cells;
      KeptTrans(c, rank, k, cells0, cells1, cells2, {s});
      forall p | p in c.Info(s).props && p.Prompt?
        ensures AllValid(p.visible, cells)
      {
        AllValidKept(p.visible, c, cells1, cells2, rank, k, {s});
      }
      if !c.IsMember(s) {
        ReadableKept(c.Info(s).revDep, c, cells0, cells2, o, rank, k, busy, env, {s});
        CalcSelect(s, env, k, o, rank, busy);
        KeptTrans(c, rank, k, cells0, cells2, cells, {s});
        forall p | p in c.Info(s).props && p.Prompt?
          ensures AllValid(p.visible, cells)
        {
          AllValidKept(p.visible, c, cells2, cells, rank, k, {s});
        }
      } else {
        assert CacheOkAt(c, rank, cells, o, busy, s);
      }
    }

    /** The second half of sym_calc_visibility. */
    method CalcSelect(s: Symbol, ghost env: Env, ghost k: nat, ghost o: Outcomes, ghost rank: Rank,
                      ghost busy: set<Symbol>)
      requires Ready(o, rank, busy) && Above(rank, k, busy)
      requires (Inside(rank, s) ==> s in busy || !Get(cells, s).valid) && rank.of(s) >= k && !c.IsMember(s)
      requires Readable(c, c.Info(s).revDep, cells, o, rank, k, busy, env)
      modifies this
      ensures Ready(o, rank, busy) && modulesVal == old(modulesVal)
      ensures Kept(c, rank, k, old(cells), cells, {s})
      ensures Get(cells, s).visible == Get(old(cells), s).visible
      ensures Get(cells, s).rev == SelectValue(c, s, env, Get(cells, s).visible, modulesVal)
      decreases k, 3
    {
      ghost var cells0 := cells;
      var rev: Tristate := NO;
      if c.Info(s).revDep.Some? {
        rev := EvalOptExpr(c.Info(s).revDep, env, k, o, rank, busy);
      } else {
        KeptRefl(c, rank, k, cells, {});
      }
      ghost var cells1 := cells;
      assert KeptAt(c, rank, k, cells0, cells1, {}, s);
      KeptWiden(c, rank, k, k, cells0, cells1, {}, {s});
      var visible := Get(cells, s).visible;
      if rev == MOD && EffectiveType(c, s, visible, modulesVal) == TBoolean {
        rev := YES;
      }
      SetSeen(s, visible, rev, k, o, rank, busy);
      KeptTrans(c, rank, k, cells0, cells1, cells, {s});
    }

    // ----- sym_get_default_prop and sym_get_range_prop -----

    method FindDefault(s: Symbol, ghost k: nat, ghost o: Outcomes, ghost rank: Rank, ghost busy: set<Symbol>)
        returns (r: Option<Property>)
      requires Ready(o, rank, busy) && Above(rank, k, busy)
      requires PropsBelow(c, s, rank, k)
      modifies this
      ensures Ready(o, rank, busy) && modulesVal == old(modulesVal)
      ensures Kept(c, rank, k, old(cells), cells, {})
      ensures r == DefaultFrom(c.Info(s).props, 0, EnvOf(o))
      decreases k, 3
    {
      var props := c.Info(s).props;
      ghost var env := EnvOf(o);
      ghost var cells0 := cells;
      KeptRefl(c, rank, k, cells, {});
      for i := 0 to |props|
        invariant Ready(o, rank, busy) && modulesVal == old(modulesVal)
        invariant Kept(c, rank, k, cells0, cells, {})
        invariant DefaultFrom(props, 0, env) == DefaultFrom(props, i, env)
      {
        if props[i].Default? {
          ghost var cells1 := cells;
          assert PropertyBelow(c, s, props[i], rank, k);
          var v := EvalOptExpr(props[i].visible, env, k, o, rank, busy);
          KeptTrans(c, rank, k, cells0, cells1, cells, {});
          if v != NO {
            return Some(props[i]);
          }
        }
      }
      r := None;
    }

    method FindRange(s: Symbol, ghost k: nat, ghost o: Outcomes, ghost rank: Rank, ghost busy: set<Symbol>)
        returns (r: Option<Property>)
      requires Ready(o, rank, busy) && Above(rank, k, busy)
      requires PropsBelow(c, s, rank, k) && FollowsRange(s)
      modifies this
      ensures Ready(o, rank, busy) && modulesVal == old(modulesVal)
      ensures Kept(c, rank, k, old(cells), cells, {})
      ensures r == RangeFrom(c.Info(s).props, 0, EnvOf(o))
      decreases k, 3
    {
      var props := c.Info(s).props;
      ghost var env := EnvOf(o);
      ghost var cells0 := cells;
      KeptRefl(c, rank, k, cells, {});
      for i := 0 to |props|
        invariant Ready(o, rank, busy) && modulesVal == old(modulesVal)
        invariant Kept(c, rank, k, cells0, cells, {})
        invariant RangeFrom(props, 0, env) == RangeFrom(props, i, env)
      {
        if props[i].Range? {
          ghost var cells1 := cells;
          assert PropertyBelow(c, s, props[i], rank, k);
          var v := EvalOptExpr(props[i].visible, env, k, o, rank, busy);
          KeptTrans(c, rank, k, cells0, cells1, cells, {});
          if v != NO {
            return Some(props[i]);
          }
        }
      }
      r := None;
    }

    // ----- sym_calc_choice -----

    /** The choice s is open: under way, with the value yes. */
    ghost predicate OpenChoice(s: Symbol, o: Outcomes, rank: Rank, busy: set<Symbol>)
      reads this
    {
      && Ready(o, rank, busy) && Above(rank, rank.of(s), busy) && c.IsChoice(s) && Inside(rank, s)
      && s in busy && IsValid(cells, s) && ValueOf(cells, s) == Value(YES, TriName(YES))
    }

    method CalcMemberVisibility(s: Symbol, x: Symbol, ghost o: Outcomes, ghost rank: Rank, ghost busy: set<Symbol>)
        returns (visible: Tristate)
      requires OpenChoice(s, o, rank, busy) && x in c.Info(s).role.members
      modifies this
      ensures OpenChoice(s, o, rank, busy) && modulesVal == old(modulesVal)
      ensures Kept(c, rank, rank.of(s), old(cells), cells, MembersOf(c, s))
      ensures visible == Visibility(c, x, OpenEnv(o, s), modulesVal)
      decreases rank.of(s), 5, 0
    {
      ghost var cells0 := cells;
      ghost var env := OpenEnv(o, s);
      MembersRankAbove(c, rank, s, x);
      assert CacheOkAt(c, rank, cells, o, busy, x);
      forall p | p in c.Info(x).props && p.Prompt?
        ensures Readable(c, p.visible, cells, o, rank, rank.of(s), busy, env)
      {
        assert PromptBelowExcept(p, rank, rank.of(s), s);
      }
      CalcVisibility(x, env, rank.of(s), o, rank, busy);
      KeptWiden(c, rank, rank.of(s), rank.of(s), cells0, cells, {x}, MembersOf(c, s));
      assert KeptAt(c, rank, rank.of(s), cells0, cells, {x}, s);
      visible := Get(cells, x).visible;
    }

    method CalcChoice(s: Symbol, ghost o: Outcomes, ghost rank: Rank, ghost busy: set<Symbol>)
        returns (pick: Option<Symbol>)
      requires OpenChoice(s, o, rank, busy)
      modifies this
      ensures OpenChoice(s, o, rank, busy) && modulesVal == old(modulesVal)
      ensures Kept(c, rank, rank.of(s), old(cells), cells, MembersOf(c, s))
      ensures pick == ChoicePick(c, s, UsersOf(old(cells))(s), OpenEnv(o, s), modulesVal)
      decreases rank.of(s), 7
    {
      ghost var cells0 := cells;
      KeptRefl(c, rank, rank.of(s), cells, MembersOf(c, s));
      var user := Get(cells, s).user;
      if user.pick.Some? {
        assert UsersOf(cells)(s) == user;
        var v := CalcMemberVisibility(s, user.pick.value, o, rank, busy);
        if v != NO {
          return user.pick;
        }
      }
      ghost var cells1 := cells;
      pick := CalcDefaultPick(s, o, rank, busy);
      KeptTrans(c, rank, rank.of(s), cells0, cells1, cells, MembersOf(c, s));
      if pick.None? {
        ghost var cells2 := cells;
        pick := CalcFirstVisible(s, o, rank, busy);
        KeptTrans(c, rank, rank.of(s), cells0, cells2, cells, MembersOf(c, s));
      }
    }

    method CalcDefaultPick(s: Symbol, ghost o: Outcomes, ghost rank: Rank, ghost busy: set<Symbol>)
        returns (pick: Option<Symbol>)
      requires OpenChoice(s, o, rank, busy)
      modifies this
      ensures OpenChoice(s, o, rank, busy) && modulesVal == old(modulesVal)
      ensures Kept(c, rank, rank.of(s), old(cells), cells, MembersOf(c, s))
      ensures pick == FirstDefaultPick(c, c.Info(s).props, 0, OpenEnv(o, s), modulesVal)
      decreases rank.of(s), 6
    {
      var props := c.Info(s).props;
      ghost var env := OpenEnv(o, s);
      ghost var cells0 := cells;
      KeptRefl(c, rank, rank.of(s), cells, MembersOf(c, s));
      for i := 0 to |props|
        invariant OpenChoice(s, o, rank, busy) && modulesVal == old(modulesVal)
        invariant Kept(c, rank, rank.of(s), cells0, cells, MembersOf(c, s))
        invariant FirstDefaultPick(c, props, 0, env, modulesVal) == FirstDefaultPick(c, props, i, env, modulesVal)
      {
        if props[i].Default? {
          ghost var cells1 := cells;
          var visible, x := CalcDefaultPickAt(s, i, o, rank, busy);
          KeptTrans(c, rank, rank.of(s), cells0, cells1, cells, MembersOf(c, s));
          if visible {
            return Some(x);
          }
        }
      }
      pick := None;
    }

    /** One round of the loop over the defaults of a choice. */
    method CalcDefaultPickAt(s: Symbol, i: nat, ghost o: Outcomes, ghost rank: Rank, ghost busy: set<Symbol>)
        returns (found: bool, x: Symbol)
      requires OpenChoice(s, o, rank, busy) && i < |c.Info(s).props| && c.Info(s).props[i].Default?
      modifies this
      ensures OpenChoice(s, o, rank, busy) && modulesVal == old(modulesVal)
      ensures Kept(c, rank, rank.of(s), old(cells), cells, MembersOf(c, s))
      ensures c.Info(s).props[i].expr == Sym(x)
      ensures found == (ActiveDefault(c.Info(s).props[i], OpenEnv(o, s)) &&
                        Visibility(c, x, OpenEnv(o, s), modulesVal) != NO)
      decreases rank.of(s), 5, 1
    {
      var p := c.Info(s).props[i];
      ghost var env := OpenEnv(o, s);
      ghost var cells0 := cells;
      assert p in c.Info(s).props;
      assert ChoiceOkAt(c, s) && RankedAt(c, rank, s) && PropertyBelow(c, s, p, rank, rank.of(s));
      x := p.expr.s;
      var v := EvalOptExpr(p.visible, env, rank.of(s), o, rank, busy);
      assert KeptAt(c, rank, rank.of(s), cells0, cells, {}, s);
      KeptWiden(c, rank, rank.of(s), rank.of(s), cells0, cells, {}, MembersOf(c, s));
      if v == NO {
        return false, x;
      }
      ghost var cells1 := cells;
      var w := CalcMemberVisibility(s, x, o, rank, busy);
      KeptTrans(c, rank, rank.of(s), cells0, cells1, cells, MembersOf(c, s));
      found := w != NO;
    }

    method CalcFirstVisible(s: Symbol, ghost o: Outcomes, ghost rank: Rank, ghost busy: set<Symbol>)
        returns (pick: Option<Symbol>)
      requires OpenChoice(s, o, rank, busy)
      modifies this
      ensures OpenChoice(s, o, rank, busy) && modulesVal == old(modulesVal)
      ensures Kept(c, rank, rank.of(s), old(cells), cells, MembersOf(c, s))
      ensures pick == FirstVisible(c, c.Info(s).role.members, 0, OpenEnv(o, s), modulesVal)
      decreases rank.of(s), 6
    {
      var members := c.Info(s).role.members;
      ghost var env := OpenEnv(o, s);
      ghost var cells0 := cells;
      KeptRefl(c, rank, rank.of(s), cells, MembersOf(c, s));
      for i := 0 to |members|
        invariant OpenChoice(s, o, rank, busy) && modulesVal == old(modulesVal)
        invariant Kept(c, rank, rank.of(s), cells0, cells, MembersOf(c, s))
        invariant FirstVisible(c, members, 0, env, modulesVal) == FirstVisible(c, members, i, env, modulesVal)
      {
        ghost var cells1 := cells;
        var v := CalcMemberVisibility(s, members[i], o, rank, busy);
        KeptTrans(c, rank, rank.of(s), cells0, cells1, cells, MembersOf(c, s));
        if v != NO {
          return Some(members[i]);
        }
      }
      pick := None;
    }

    // ----- sym_calc_value -----

    /** s is under way, and sym_calc_visibility has been over it. */
    ghost predicate Seen(s: Symbol, o: Outcomes, rank: Rank, busy: set<Symbol>)
      reads this
    {
      && Ready(o, rank, busy) && Above(rank, rank.of(s), busy) && Inside(rank, s)
      && s in busy && !IsBuiltin(s) && s.Type() != TUnknown && Get(cells, s).valid
      && Get(cells, s).visible == Visibility(c, s, EnvOf(o), modulesVal)
      && Get(cells, s).rev == SelectValue(c, s, EnvOf(o), Get(cells, s).visible, modulesVal)
      && (c.IsMember(s) ==> IsValid(cells, c.Info(s).role.choice) && c.Info(s).role.choice !in busy)
    }

    lemma SeenKeptOthers(s: Symbol, a: Cells, k: nat, rank: Rank, seen: set<Symbol>)
      requires k <= rank.of(s) && Kept(c, rank, k, a, cells, seen) && s !in seen
      requires Get(a, s).valid
      requires c.IsMember(s) ==> IsValid(a, c.Info(s).role.choice)
      ensures Get(cells, s).visible == Get(a, s).visible && Get(cells, s).rev == Get(a, s).rev
      ensures Get(cells, s).valid
      ensures c.IsMember(s) ==> IsValid(cells, c.Info(s).role.choice)
    {
      assert KeptAt(c, rank, k, a, cells, seen, s);
      if c.IsMember(s) {
        assert KeptAt(c, rank, k, a, cells, seen, c.Info(s).role.choice);
      }
    }

    method SetCurr(s: Symbol, tri: Tristate, str: string, pick: Option<Symbol>, ghost o: Outcomes, ghost rank: Rank,
                   ghost busy: set<Symbol>)
      requires Seen(s, o, rank, busy)
      modifies this
      ensures Seen(s, o, rank, busy) && modulesVal == old(modulesVal)
      ensures cells == WithCurr(old(cells), s, tri, str, pick)
      ensures KeptOthers(c, rank, rank.of(s), old(cells), cells, {s} + MembersOf(c, s), s)
    {
      ghost var cells0 := cells;
      cells := cells[s := Get(cells, s).(tri := tri, str := str, pick := pick)];
      WithCurrKeptOthers(c, rank, rank.of(s), cells0, s, tri, str, pick, {s} + MembersOf(c, s));
      WithCurrCacheOk(c, rank, cells0, s, tri, str, pick, o, busy);
      KeptOthersUsers(c, modulesVal, rank, rank.of(s), cells0, cells, o, {s} + MembersOf(c, s), s);
    }

    /** Sets the flag and works out visibility and select. */
    method Begin(s: Symbol, ghost o: Outcomes, ghost rank: Rank, ghost busy: set<Symbol>)
      requires Ready(o, rank, busy) && Free(rank, s, busy)
      requires !IsValid(cells, s) && s.Type() != TUnknown
      modifies this
      ensures Seen(s, o, rank, busy + {s}) && modulesVal == old(modulesVal)
      ensures KeptOthers(c, rank, rank.of(s), Flagged(old(cells), s), cells, {s} + MembersOf(c, s), s)
      decreases rank.of(s), 8
    {
      ghost var cells0 := cells;
      cells := cells[s := Get(cells, s).(valid := true)];
      ghost var cells1 := cells;
      FlaggedCacheOk(c, rank, cells0, s, o, busy);
      FlaggedSetting(c, modulesVal, cells0, s, o, rank);
      assert RankedAt(c, rank, s) && ChoiceOkAt(c, s);
      ghost var env := EnvOf(o);
      forall p | p in c.Info(s).props && p.Prompt?
        ensures Readable(c, p.visible, cells, o, rank, rank.of(s), busy + {s}, env)
      {
        assert PropertyBelow(c, s, p, rank, rank.of(s));
      }
      CalcVisibility(s, env, rank.of(s), o, rank, busy + {s});
      KeptIsKeptOthers(c, rank, rank.of(s), cells1, cells, {s}, {s} + MembersOf(c, s), s);
      if c.IsMember(s) {
        var p :| p in c.Info(s).props && p.Prompt? && c.Info(s).role.choice in SymbolsOfOpt(p.visible);
        assert AllValid(p.visible, cells);
      }
    }

    /** Whatever the order of calls was: a cached value is the one that plain recursion over the ranks gives. */
    lemma CachedIsPlain(s: Symbol, o: Outcomes, rank: Rank, busy: set<Symbol>)
      requires Ready(o, rank, busy) && IsValid(cells, s) && s !in busy && Inside(rank, s)
      ensures ValueOf(cells, s) == Solution(c, modulesVal, UsersOf(cells), rank)(s).value
    {
      assert CacheOkAt(c, rank, cells, o, busy, s);
      assert o(s) == Rule(c, modulesVal, UsersOf(cells), o, s);
      SolutionUnique(c, modulesVal, UsersOf(cells), rank, o, s);
    }

    method CalcValue(s: Symbol, ghost o: Outcomes, ghost rank: Rank, ghost busy: set<Symbol>)
      requires Ready(o, rank, busy)
      requires if IsValid(cells, s) then s in busy ==> c.IsChoice(s) && Inside(rank, s)
               else Free(rank, s, busy)
      modifies this
      ensures ReadyFor(old(modulesVal), o, rank, busy)
      ensures modulesVal == if c.modules == Some(s) && s.Type() != TUnknown && !IsValid(old(cells), s)
                            then o(s).value.tri else old(modulesVal)
      ensures IsValid(old(cells), s) ==> cells == old(cells)
      ensures Kept(c, rank, rank.of(s) + 1, old(cells), cells, {})
      ensures IsValid(cells, s)
      decreases if IsValid(cells, s) then 0 else rank.of(s) + 1, 0, 0
    {
      if IsValid(cells, s) {
        KeptRefl(c, rank, rank.of(s) + 1, cells, {});
        if s in busy {
          met := met + {s};
        }
        return;
      }
      if s.Type() == TUnknown {
        CalcUnknown(s, o, rank, busy);
        return;
      }
      ghost var cells0 := cells;
      ghost var seen := {s} + MembersOf(c, s);
      Begin(s, o, rank, busy);
      ghost var cells1 := cells;
      CalcCurr(s, o, rank, busy + {s});
      KeptOthersTrans(c, rank, rank.of(s), Flagged(cells0, s), cells1, cells, seen, s);
      CalculationKept(c, rank, s, cells0, cells);
      SettledCacheOk(c, rank, cells, s, o, busy);
      if c.modules == Some(s) {
        modulesVal := Get(cells, s).tri;
      }
    }

    /** curr, from the fixed start value of the type. */
    method CalcCurr(s: Symbol, ghost o: Outcomes, ghost rank: Rank, ghost busy: set<Symbol>)
      requires Seen(s, o, rank, busy)
      modifies this
      ensures Seen(s, o, rank, busy) && modulesVal == old(modulesVal)
      ensures KeptOthers(c, rank, rank.of(s), old(cells), cells, {s} + MembersOf(c, s), s)
      ensures SettledAt(cells, o, s)
      decreases rank.of(s), 10
    {
      ghost var cells0, seen := cells, {s} + MembersOf(c, s);
      SetCurr(s, NO, if s.IsBoolOrTristate() then "n" else "", None, o, rank, busy);
      ghost var cells1 := cells;
      if s.IsBoolOrTristate() {
        CalcTri(s, o, rank, busy);
      } else {
        CalcStr(s, o, rank, busy);
      }
      KeptOthersTrans(c, rank, rank.of(s), cells0, cells1, cells, seen, s);
    }

    method CalcUnknown(s: Symbol, ghost o: Outcomes, ghost rank: Rank, ghost busy: set<Symbol>)
      requires Ready(o, rank, busy) && !IsValid(cells, s) && s.Type() == TUnknown && Inside(rank, s)
      modifies this
      ensures Ready(o, rank, busy) && modulesVal == old(modulesVal)
      ensures Kept(c, rank, rank.of(s) + 1, old(cells), cells, {})
      ensures IsValid(cells, s)
    {
      ghost var cells0 := cells;
      cells := cells[s := Get(cells, s).(valid := true, tri := NO, str := NameOf(s))];
      UnknownKept(c, modulesVal, cells0, s, o, rank, busy);
    }

    /** The part for bool and tristate symbols, with the members of a choice. */
    method CalcTri(s: Symbol, ghost o: Outcomes, ghost rank: Rank, ghost busy: set<Symbol>)
      requires Seen(s, o, rank, busy) && s.IsBoolOrTristate()
      requires Get(cells, s).tri == NO && Get(cells, s).str == "n" && Get(cells, s).pick == None
      modifies this
      ensures Seen(s, o, rank, busy) && modulesVal == old(modulesVal)
      ensures KeptOthers(c, rank, rank.of(s), old(cells), cells, {s} + MembersOf(c, s), s)
      ensures SettledAt(cells, o, s)
      decreases rank.of(s), 9
    {
      ghost var cells0 := cells;
      ghost var seen := {s} + MembersOf(c, s);
      var tri := CalcTriValue(s, o, rank, busy);
      ghost var cells1 := cells;
      KeptIsKeptOthers(c, rank, rank.of(s), cells0, cells1, {}, seen, s);
      assert KeptAt(c, rank, rank.of(s), cells0, cells1, {}, s);
      SetCurr(s, tri, "n", None, o, rank, busy);
      ghost var cells2 := cells;
      KeptOthersTrans(c, rank, rank.of(s), cells0, cells1, cells2, seen, s);
      assert o(s) == Rule(c, modulesVal, UsersOf(cells), o, s);
      if c.IsChoice(s) && tri == YES {
        CalcPick(s, o, rank, busy);
        KeptOthersTrans(c, rank, rank.of(s), cells0, cells2, cells, seen, s);
      }
    }

    method CalcPick(s: Symbol, ghost o: Outcomes, ghost rank: Rank, ghost busy: set<Symbol>)
      requires Seen(s, o, rank, busy) && s.IsBoolOrTristate() && c.IsChoice(s)
      requires Get(cells, s).tri == YES && Get(cells, s).str == "n" && Get(cells, s).pick == None
      requires TriValue(c, s, UsersOf(cells)(s), EnvOf(o), PickOfChoice(c, s, o),
                        Get(cells, s).visible, Get(cells, s).rev, modulesVal) == YES
      modifies this
      ensures Seen(s, o, rank, busy) && modulesVal == old(modulesVal)
      ensures KeptOthers(c, rank, rank.of(s), old(cells), cells, {s} + MembersOf(c, s), s)
      ensures SettledAt(cells, o, s)
      decreases rank.of(s), 8
    {
      ghost var cells0 := cells;
      ghost var seen := {s} + MembersOf(c, s);
      var pick := CalcChoice(s, o, rank, busy);
      ghost var cells1 := cells;
      assert s !in MembersOf(c, s) by { assert ChoiceOkAt(c, s); }
      SeenKeptOthers(s, cells0, rank.of(s), rank, MembersOf(c, s));
      KeptIsKeptOthers(c, rank, rank.of(s), cells0, cells1, MembersOf(c, s), seen, s);
      assert Seen(s, o, rank, busy);
      SetCurr(s, if pick.Some? then YES else NO, "n", pick, o, rank, busy);
      KeptOthersTrans(c, rank, rank.of(s), cells0, cells1, cells, seen, s);
      assert o(s) == Rule(c, modulesVal, UsersOf(cells), o, s);
      assert UsersOf(cells)(s) == UsersOf(cells0)(s);
    }

    method CalcTriValue(s: Symbol, ghost o: Outcomes, ghost rank: Rank, ghost busy: set<Symbol>) returns (tri: Tristate)
      requires Seen(s, o, rank, busy) && s.IsBoolOrTristate()
      modifies this
      ensures Seen(s, o, rank, busy) && modulesVal == old(modulesVal)
      ensures Kept(c, rank, rank.of(s), old(cells), cells, {})
      ensures tri == TriValue(c, s, UsersOf(cells)(s), EnvOf(o), PickOfChoice(c, s, o),
                              Get(cells, s).visible, Get(cells, s).rev, modulesVal)
      decreases rank.of(s), 8
    {
      ghost var cells0 := cells;
      KeptRefl(c, rank, rank.of(s), cells, {});
      var visible, rev := Get(cells, s).visible, Get(cells, s).rev;
      var user := Get(cells, s).user;
      assert UsersOf(cells)(s) == user;
      tri := NO;
      if c.IsMember(s) && visible == YES {
        assert CacheOkAt(c, rank, cells, o, busy, c.Info(s).role.choice);
        assert ChoiceOkAt(c, c.Info(s).role.choice);
        assert ChoiceOkAt(c, s);
        tri := if Get(cells, c.Info(s).role.choice).pick == Some(s) then YES else NO;
      } else if Apply(Or, visible, rev) != NO {
        if user.hasValue {
          tri := user.tri;
        } else if !c.IsChoice(s) {
          tri := CalcDefaultTri(s, o, rank, busy);
        }
        tri := Apply(Or, Apply(And, tri, visible), rev);
      } else if !c.IsChoice(s) {
        tri := CalcDefaultTri(s, o, rank, busy);
      }
      if tri == MOD && EffectiveType(c, s, visible, modulesVal) == TBoolean {
        tri := YES;
      }
      assert KeptAt(c, rank, rank.of(s), cells0, cells, {}, s);
    }

    method CalcDefaultTri(s: Symbol, ghost o: Outcomes, ghost rank: Rank, ghost busy: set<Symbol>) returns (tri: Tristate)
      requires Seen(s, o, rank, busy) && s.IsBoolOrTristate() && !c.IsChoice(s)
      modifies this
      ensures Seen(s, o, rank, busy) && modulesVal == old(modulesVal)
      ensures Kept(c, rank, rank.of(s), old(cells), cells, {})
      ensures Get(cells, s) == Get(old(cells), s)
      ensures tri == DefaultTri(c, s, EnvOf(o))
      decreases rank.of(s), 7
    {
      ghost var cells0 := cells;
      assert RankedAt(c, rank, s);
      var d := FindDefault(s, rank.of(s), o, rank, busy);
      ghost var cells1 := cells;
      tri := NO;
      if d.Some? {
        assert PropertyBelow(c, s, d.value, rank, rank.of(s));
        tri := EvalExpr(d.value.expr, EnvOf(o), rank.of(s), o, rank, busy);
        KeptTrans(c, rank, rank.of(s), cells0, cells1, cells, {});
      }
      SeenKeptOthers(s, cells0, rank.of(s), rank, {});
      assert KeptAt(c, rank, rank.of(s), cells0, cells, {}, s);
    }

    /** The part for int, hex and string symbols. */
    method CalcStr(s: Symbol, ghost o: Outcomes, ghost rank: Rank, ghost busy: set<Symbol>)
      requires Seen(s, o, rank, busy) && !s.IsBoolOrTristate()
      requires Get(cells, s).tri == NO && Get(cells, s).str == "" && Get(cells, s).pick == None
      modifies this
      ensures Seen(s, o, rank, busy) && modulesVal == old(modulesVal)
      ensures KeptOthers(c, rank, rank.of(s), old(cells), cells, {s} + MembersOf(c, s), s)
      ensures SettledAt(cells, o, s)
      decreases rank.of(s), 9
    {
      ghost var cells0 := cells;
      ghost var seen := {s} + MembersOf(c, s);
      KeptRefl(c, rank, rank.of(s), cells, {});
      var user := Get(cells, s).user;
      assert UsersOf(cells)(s) == user;
      var str := "";
      if Get(cells, s).visible != NO && user.hasValue {
        str := user.str;
      } else {
        str := CalcDefaultStr(s, o, rank, busy);
      }
      ghost var cells1 := cells;
      KeptIsKeptOthers(c, rank, rank.of(s), cells0, cells1, {}, seen, s);
      SetCurr(s, NO, str, None, o, rank, busy);
      ghost var cells2 := cells;
      KeptOthersTrans(c, rank, rank.of(s), cells0, cells1, cells2, seen, s);
      assert UsersOf(cells)(s) == user;
      CheckRange(s, o, rank, busy);
      KeptOthersTrans(c, rank, rank.of(s), cells0, cells2, cells, seen, s);
      assert UsersOf(cells)(s) == user;
      assert o(s) == Rule(c, modulesVal, UsersOf(cells), o, s);
    }

    method CalcDefaultStr(s: Symbol, ghost o: Outcomes, ghost rank: Rank, ghost busy: set<Symbol>) returns (str: string)
      requires Seen(s, o, rank, busy) && !s.IsBoolOrTristate()
      modifies this
      ensures Seen(s, o, rank, busy) && modulesVal == old(modulesVal)
      ensures Kept(c, rank, rank.of(s), old(cells), cells, {})
      ensures Get(cells, s) == Get(old(cells), s)
      ensures str == DefaultStr(c, s, EnvOf(o))
      decreases rank.of(s), 7
    {
      ghost var cells0 := cells;
      assert RankedAt(c, rank, s);
      var d := FindDefault(s, rank.of(s), o, rank, busy);
      ghost var cells1 := cells;
      str := "";
      if d.Some? && d.value.expr.Sym? {
        assert PropertyBelow(c, s, d.value, rank, rank.of(s));
        assert d.value.expr.s in SymbolsOf(d.value.expr);
        str := CalcRawString(d.value.expr.s, rank.of(s), o, rank, busy);
        KeptTrans(c, rank, rank.of(s), cells0, cells1, cells, {});
      }
      SeenKeptOthers(s, cells0, rank.of(s), rank, {});
      assert KeptAt(c, rank, rank.of(s), cells0, cells, {}, s);
    }

    /** sym_calc_value on another symbol, and its curr.val. */
    method CalcRawString(t: Symbol, ghost k: nat, ghost o: Outcomes, ghost rank: Rank, ghost busy: set<Symbol>)
        returns (str: string)
      requires Ready(o, rank, busy) && Above(rank, k, busy) && rank.of(t) < k
      modifies this
      ensures Ready(o, rank, busy) && modulesVal == old(modulesVal)
      ensures Kept(c, rank, k, old(cells), cells, {})
      ensures str == RawString(t, EnvOf(o)(t))
      decreases k, 0, 2
    {
      ReadSymbol(t, EnvOf(o), k, o, rank, busy);
      assert CacheOkAt(c, rank, cells, o, busy, t);
      str := if IsBuiltin(t) then BuiltinValue(t).str else Get(cells, t).str;
    }

    /** sym_validate_range */
    method CheckRange(s: Symbol, ghost o: Outcomes, ghost rank: Rank, ghost busy: set<Symbol>)
      requires Seen(s, o, rank, busy) && !s.IsBoolOrTristate()
      requires Get(cells, s).tri == NO && Get(cells, s).pick == None
      modifies this
      ensures Seen(s, o, rank, busy) && modulesVal == old(modulesVal)
      ensures KeptOthers(c, rank, rank.of(s), old(cells), cells, {s} + MembersOf(c, s), s)
      ensures Get(cells, s).tri == NO && Get(cells, s).pick == None
      ensures Get(cells, s).str == RangeChecked(c, s, Get(old(cells), s).str, EnvOf(o))
      decreases rank.of(s), 8
    {
      ghost var cells0 := cells;
      ghost var seen := {s} + MembersOf(c, s);
      KeptRefl(c, rank, rank.of(s), cells, {});
      KeptIsKeptOthers(c, rank, rank.of(s), cells, cells, {}, seen, s);
      if s.Type() != TInt && s.Type() != THex {
        return;
      }
      var str := CalcRange(s, o, rank, busy);
      ghost var cells1 := cells;
      KeptIsKeptOthers(c, rank, rank.of(s), cells0, cells1, {}, seen, s);
      SetCurr(s, NO, str, None, o, rank, busy);
      KeptOthersTrans(c, rank, rank.of(s), cells0, cells1, cells, seen, s);
    }

    method CalcRange(s: Symbol, ghost o: Outcomes, ghost rank: Rank, ghost busy: set<Symbol>) returns (str: string)
      requires Seen(s, o, rank, busy) && (s.Type() == TInt || s.Type() == THex)
      modifies this
      ensures Seen(s, o, rank, busy) && modulesVal == old(modulesVal)
      ensures Kept(c, rank, rank.of(s), old(cells), cells, {})
      ensures str == RangeChecked(c, s, Get(old(cells), s).str, EnvOf(o))
      decreases rank.of(s), 7
    {
      ghost var cells0 := cells;
      str := Get(cells, s).str;
      assert RankedAt(c, rank, s);
      var r := FindRange(s, rank.of(s), o, rank, busy);
      if r.Some? {
        assert PropertyBelow(c, s, r.value, rank, rank.of(s));
        ghost var cells1 := cells;
        var lo := CalcRawString(r.value.lo, rank.of(s), o, rank, busy);
        ghost var cells2 := cells;
        KeptTrans(c, rank, rank.of(s), cells0, cells1, cells2, {});
        var hi := CalcRawString(r.value.hi, rank.of(s), o, rank, busy);
        KeptTrans(c, rank, rank.of(s), cells0, cells2, cells, {});
        str := ValidateRange(s.Type(), str, Bound(r.value.lo.Type(), lo), Bound(r.value.hi.Type(), hi));
      }
      SeenKeptOthers(s, cells0, rank.of(s), rank, {});
    }

    // ----- sym_clear_all_valid -----

    /** Forgets every cached value, then works out MODULES again, from any value it had.  When that is the value
        it comes to, or nothing it is computed from is tristate, the table is sound for the new value. */
    method ClearAllValid(ghost rank: Rank)
      requires Ranked(c, rank) && ChoicesOk(c, rank) && UsersOk(c, UsersOf(cells), rank)
      requires forall s :: c.IsMember(s) ==> Get(cells, s).rev == NO
      requires c.modules.Some? ==>
        && Inside(rank, c.modules.value) && !IsBuiltin(c.modules.value)
        && (c.modules.value.Type() == TUnknown ==> modulesVal == NO)
      modifies this
      ensures forall s :: UsersOf(cells)(s) == UsersOf(old(cells))(s)
      ensures modulesVal ==
        if c.modules.Some? then Solution(c, old(modulesVal), UsersOf(cells), rank)(c.modules.value).value.tri
        else old(modulesVal)
      ensures modulesVal == old(modulesVal) || ModulesPlain(c) ==>
        Current(Solution(c, modulesVal, UsersOf(cells), rank), rank)
    {
      ghost var cells0 := cells;
      cells := map s | s in cells :: cells[s].(valid := false);
      met := {};
      assert forall s :: Get(cells, s) == Get(cells0, s).(valid := false);
      assert forall s :: UsersOf(cells)(s) == UsersOf(cells0)(s);
      if c.modules.Some? {
        CalcModules(rank);
      } else {
        SolutionExists(c, modulesVal, UsersOf(cells), rank);
      }
    }

    /** sym_calc_value on MODULES while nothing else is flagged. */
    method CalcModules(ghost rank: Rank)
      requires Ranked(c, rank) && ChoicesOk(c, rank) && UsersOk(c, UsersOf(cells), rank)
      requires forall s :: !Get(cells, s).valid && (c.IsMember(s) ==> Get(cells, s).rev == NO)
      requires c.modules.Some? && Inside(rank, c.modules.value) && !IsBuiltin(c.modules.value) && met == {}
      requires c.modules.value.Type() == TUnknown ==> modulesVal == NO
      modifies this
      ensures forall s :: UsersOf(cells)(s) == UsersOf(old(cells))(s)
      ensures modulesVal == Solution(c, old(modulesVal), UsersOf(cells), rank)(c.modules.value).value.tri
      ensures modulesVal == old(modulesVal) || ModulesPlain(c) ==>
        Current(Solution(c, modulesVal, UsersOf(cells), rank), rank)
    {
      ghost var cone := ModulesConeExists(c, rank);
      ghost var cells1, m0, o := cells, modulesVal, Solution(c, modulesVal, UsersOf(cells), rank);
      CalcOnTop(o, rank, cone);
      ModulesAfter(c, m0, modulesVal, cells1, cells, o, rank, cone);
    }

    method CalcOnTop(ghost o: Outcomes, ghost rank: Rank, ghost cone: Rank)
      requires Cleared(c, modulesVal, cells, o, rank, cone) && !IsBuiltin(c.modules.value) && met == {}
      requires c.modules.value.Type() == TUnknown ==> modulesVal == NO
      modifies this
      ensures CacheOk(c, cone, cells, o, {})
      ensures Kept(c, cone, cone.limit, old(cells), cells, {})
      ensures modulesVal == o(c.modules.value).value.tri
      ensures forall t :: t in met ==> c.IsChoice(t) && Inside(rank, t)
    {
      var md := c.modules.value;
      ghost var cells0, k := cells, cone.of(md) + 1;
      OnTopSetting(c, modulesVal, cells, o, rank, md, cone);
      CalcValue(md, o, cone, {});
      KeptWiden(c, cone, k, cone.limit, cells0, cells, {}, {});
    }

    // ----- sym_tristate_within_range and sym_set_tristate_value -----

    predicate WithinRange(s: Symbol, val: Tristate)
      reads this
    {
      var cell := Get(cells, s);
      var typ := EffectiveType(c, s, cell.visible, modulesVal);
      && cell.visible != NO
      && (typ == TBoolean || typ == TTristate)
      && !(typ == TBoolean && val == MOD)
      && cell.visible > cell.rev
      && (if c.IsMember(s) && cell.visible == YES then val == YES else cell.rev <= val <= cell.visible)
    }

    /** On settled cells the test is the one on outcomes. */
    lemma WithinRangeIsAcceptable(s: Symbol, val: Tristate, o: Outcomes, rank: Rank)
      requires CacheOk(c, rank, cells, o, {}) && Inside(rank, s) && IsValid(cells, s) && !IsBuiltin(s) && s.IsBoolOrTristate()
      ensures ValueOf(cells, s).tri == o(s).value.tri
      ensures Get(cells, s).visible == o(s).visible
      ensures !c.IsMember(s) ==> WithinRange(s, val) == Acceptable(c, modulesVal, s, o(s), val)
    {
      assert CacheOkAt(c, rank, cells, o, {}, s);
    }

    /** A symbol's user data with another value, as the next evaluation will use it. */
    method SetUser(s: Symbol, user: User)
      modifies this
      ensures modulesVal == old(modulesVal) && met == old(met)
      ensures cells == old(cells)[s := Get(old(cells), s).(user := user)]
    {
      cells := cells[s := Get(cells, s).(user := user)];
    }

    /** Setting a member to yes makes it the choice's pick and drops the NEW flag of the choice and of all
        its visible members. */
    method SetPick(s: Symbol, ghost cells0: Cells)
      requires c.IsMember(s) && ChoiceOkAt(c, s) && cells == WithUser(cells0, s, Get(cells0, s).user.(hasValue := true))
      modifies this
      ensures modulesVal == old(modulesVal) && met == old(met)
      ensures forall t :: Get(cells, t) == Get(cells0, t).(user := UserAfterPick(c, cells0, s, t))
    {
      var cs := c.Info(s).role.choice;
      SetUser(cs, Get(cells, cs).user.(hasValue := true, pick := Some(s)));
      var members := c.Info(cs).role.members;
      for i := 0 to |members|
        invariant modulesVal == old(modulesVal) && met == old(met)
        invariant forall t :: Get(cells, t) == Get(cells0, t).(user := UserWhilePicking(cells0, s, cs, members[..i], t))
      {
        assert members[..i + 1] == members[..i] + [members[i]];
        ghost var cells1 := cells;
        if Get(cells, members[i]).visible != NO {
          SetUser(members[i], Get(cells, members[i]).user.(hasValue := true));
        }
        PickStep(cells0, cells1, cells, s, cs, members[..i], members[i]);
      }
      assert members[..|members|] == members;
    }

    method StoreUser(s: Symbol, val: Tristate)
      requires ChoiceOkAt(c, s)
      modifies this
      ensures modulesVal == old(modulesVal) && met == old(met)
      ensures IsAfterSet(c, old(cells), cells, s, val)
    {
      ghost var cells0 := cells;
      SetUser(s, Get(cells, s).user.(hasValue := true));
      if c.IsMember(s) && val == YES {
        SetPick(s, cells0);
      }
      SetUser(s, Get(cells, s).user.(tri := val));
    }

    /** What a set may rely on: MODULES does not depend on the symbol, or on nothing tristate. */
    ghost predicate Settable(s: Symbol, rank: Rank) {
      && Inside(rank, s) && !IsBuiltin(s) && s.IsBoolOrTristate()
      && (ModulesApart(c, s) || ModulesPlain(c))
      && (c.modules.Some? ==> !IsBuiltin(c.modules.value) && c.modules.value.Type() != TUnknown)
    }

    method SetTristate(s: Symbol, val: Tristate, ghost o: Outcomes, ghost rank: Rank)
        returns (ok: bool, ghost o': Outcomes)
      requires Current(o, rank) && IsValid(cells, s) && Settable(s, rank)
      modifies this
      ensures ok == (old(ValueOf(cells, s).tri) == val || old(WithinRange(s, val)))
      ensures !ok ==> cells == old(cells) && modulesVal == old(modulesVal) && o' == o && Current(o, rank)
      ensures ok ==> UsersAfterSet(c, old(cells), cells, s, val)
      ensures ok ==> Determined(c, modulesVal, UsersOf(cells), o', rank)
      ensures ok && (old(ValueOf(cells, s).tri) != val || old(MayKeepCache(c, modulesVal, cells, o, rank, s, val))) ==>
        Current(o', rank)
      ensures ModulesApart(c, s) ==> modulesVal == old(modulesVal)
      ensures ok && !c.IsMember(s) && !c.IsChoice(s) ==> o'(s).value.tri == val
      ensures ok && c.IsMember(s) && val == YES && modulesVal == old(modulesVal) ==> Picked(c, s, o, o', rank)
    {
      var oldval := ValueOf(cells, s).tri;
      if oldval != val && !WithinRange(s, val) {
        return false, o;
      }
      WithinRangeIsAcceptable(s, val, o, rank);
      o' := Store(s, val, oldval, o, rank);
      ok := true;
    }

    /** What an accepted set does. */
    method Store(s: Symbol, val: Tristate, oldval: Tristate, ghost o: Outcomes, ghost rank: Rank) returns (ghost o': Outcomes)
      requires Current(o, rank) && Settable(s, rank) && o(s).value.tri == oldval
      requires oldval == val || o(s).visible != NO
      requires oldval != val && !c.IsMember(s) ==> Acceptable(c, modulesVal, s, o(s), val)
      modifies this
      ensures UsersAfterSet(c, old(cells), cells, s, val) && Determined(c, modulesVal, UsersOf(cells), o', rank)
      ensures oldval != val || old(MayKeepCache(c, modulesVal, cells, o, rank, s, val)) ==> Current(o', rank)
      ensures ModulesApart(c, s) ==> modulesVal == old(modulesVal)
      ensures !c.IsMember(s) && !c.IsChoice(s) ==> o'(s).value.tri == val
      ensures c.IsMember(s) && val == YES && modulesVal == old(modulesVal) ==> Picked(c, s, o, o', rank)
    {
      ghost var cells0, m0 := cells, modulesVal;
      ghost var o1 := StoreForSet(s, val, o, rank);
      ghost var cells1 := cells;
      o' := o1;
      if oldval != val {
        RevsKept(c, rank, cells0, cells1, o, s, val);
        o' := ClearForSet(s, o1, rank);
        if modulesVal == m0 && c.IsMember(s) && val == YES {
          PickedSame(c, s, o, o1, o', rank);
        }
      } else if MayKeepCache(c, m0, cells0, o, rank, s, val) {
        SetSameReady(c, m0, cells0, cells1, s, val, o, o', rank);
      }
    }

    /** The new user values, and the outcomes they give while MODULES is as it was. */
    method StoreForSet(s: Symbol, val: Tristate, ghost o: Outcomes, ghost rank: Rank) returns (ghost o1: Outcomes)
      requires Current(o, rank) && Settable(s, rank)
      requires o(s).value.tri == val || o(s).visible != NO
      modifies this
      ensures modulesVal == old(modulesVal) && met == old(met)
      ensures IsAfterSet(c, old(cells), cells, s, val) && UsersAfterSet(c, old(cells), cells, s, val)
      ensures o1 == Solution(c, modulesVal, UsersOf(cells), rank) && Determined(c, modulesVal, UsersOf(cells), o1, rank)
      ensures c.modules.Some? && ModulesApart(c, s) ==> o1(c.modules.value) == o(c.modules.value)
      ensures !c.IsMember(s) && !c.IsChoice(s) && (o(s).value.tri == val || Acceptable(c, modulesVal, s, o(s), val)) ==>
        o1(s).value.tri == val
      ensures c.IsMember(s) && val == YES ==> Picked(c, s, o, o1, rank)
    {
      ghost var cells0 := cells;
      assert ChoiceOkAt(c, s);
      StoreUser(s, val);
      AfterSetUsers(c, cells0, cells, s, val);
      AfterSetUsersOk(c, cells0, cells, s, val, rank);
      o1 := Solution(c, modulesVal, UsersOf(cells), rank);
      SolutionExists(c, modulesVal, UsersOf(cells), rank);
      AfterStore(c, modulesVal, cells0, cells, o, o1, rank, s, val);
    }

    /** The clear after a set: o is what the new user values give under the old value of MODULES. */
    method ClearForSet(s: Symbol, ghost o: Outcomes, ghost rank: Rank) returns (ghost o': Outcomes)
      requires Determined(c, modulesVal, UsersOf(cells), o, rank) && Settable(s, rank)
      requires o == Solution(c, modulesVal, UsersOf(cells), rank)
      requires forall s :: c.IsMember(s) ==> Get(cells, s).rev == NO
      requires c.modules.Some? ==> Inside(rank, c.modules.value)
      requires c.modules.Some? && ModulesApart(c, s) ==> o(c.modules.value).value.tri == modulesVal
      modifies this
      ensures forall t :: UsersOf(cells)(t) == UsersOf(old(cells))(t)
      ensures Current(o', rank) && (ModulesApart(c, s) ==> modulesVal == old(modulesVal))
      ensures modulesVal == old(modulesVal) ==> forall t :: Inside(rank, t) ==> o'(t) == o(t)
      ensures !c.IsMember(s) ==> o'(s) == o(s)
    {
      ghost var cells0, m0 := cells, modulesVal;
      ClearAllValid(rank);
      o' := Solution(c, modulesVal, UsersOf(cells), rank);
      SameUsersSameSolution(c, m0, UsersOf(cells0), UsersOf(cells), rank);
      if modulesVal != m0 && !c.IsMember(s) {
        SolutionExists(c, m0, UsersOf(cells), rank);
        PlainModulesAgree(c, m0, modulesVal, UsersOf(cells), Solution(c, m0, UsersOf(cells), rank), o', rank, s);
      }
    }

    /** sym_toggle_tristate_value: the next acceptable value in the cycle no, mod, yes, or the old one. */
    method ToggleTristate(s: Symbol, ghost o: Outcomes, ghost rank: Rank)
        returns (newval: Tristate, ghost o': Outcomes)
      requires Current(o, rank) && IsValid(cells, s) && Settable(s, rank)
      modifies this
      ensures newval == old(
        var v := ValueOf(cells, s).tri;
        if WithinRange(s, Next(v)) then Next(v) else if WithinRange(s, Next(Next(v))) then Next(Next(v)) else v)
      ensures UsersAfterSet(c, old(cells), cells, s, newval) && Determined(c, modulesVal, UsersOf(cells), o', rank)
      ensures newval != old(ValueOf(cells, s).tri) || old(MayKeepCache(c, modulesVal, cells, o, rank, s, ValueOf(cells, s).tri)) ==>
        Current(o', rank)
      ensures !c.IsMember(s) && !c.IsChoice(s) ==> o'(s).value.tri == newval
    {
      var oldval := ValueOf(cells, s).tri;
      newval := oldval;
      ghost var tries := 0;
      while true
        invariant cells == old(cells) && modulesVal == old(modulesVal) && Current(o, rank)
        invariant 0 <= tries <= 2
        invariant newval == if tries == 0 then oldval else if tries == 1 then Next(oldval) else Next(Next(oldval))
        invariant tries >= 1 ==> !WithinRange(s, Next(oldval))
        invariant tries >= 2 ==> !WithinRange(s, Next(Next(oldval)))
        decreases 3 - tries
      {
        newval := Next(newval);
        tries := tries + 1;
        var ok;
        ok, o' := SetTristate(s, newval, o, rank);
        if ok || oldval == newval {
          break;
        }
      }
    }

    // ----- one call of sym_calc_value from outside -----

    /** The value is that of the outcomes, and no symbol was asked for while it was under way, except for a
        choice, which its members may ask for. */
    method Calculate(s: Symbol, ghost o: Outcomes, ghost rank: Rank)
      requires Setting(c, modulesVal, UsersOf(cells), o, rank) && CacheOk(c, rank, cells, o, {}) && Inside(rank, s)
      modifies this
      ensures IsValid(cells, s) && ValueOf(cells, s) == o(s).value
      ensures forall t :: t in met ==> c.IsChoice(t) && Inside(rank, t)
      ensures ReadyFor(old(modulesVal), o, rank, {})
      ensures modulesVal == if c.modules == Some(s) && s.Type() != TUnknown && !IsValid(old(cells), s)
                            then o(s).value.tri else old(modulesVal)
      ensures forall t :: UsersOf(cells)(t) == UsersOf(old(cells))(t)
    {
      met := {};
      ghost var cells0, m0 := cells, modulesVal;
      CalcValue(s, o, rank, {});
      KeptUsers(c, rank, rank.of(s) + 1, cells0, cells, {});
      ValidIsSettled(c, m0, cells, o, rank, s);
    }
  }
}
