/** The recursive evaluator of symbol.c with its cache.  Each field of
    `struct symbol` is a column of the table, indexed by symbol; SYMBOL_VALID,
    SYMBOL_WRITE and SYMBOL_DEF_USER are the sets `valid`, `write` and the keys
    of `user`. */
module Evaluator {
  import opened Tristate
  import opened Expr
  import opened Kconfig
  import opened Solutions
  import opened UserChanges

  /** A symbol without a usable type never gets a visibility. */
  predicate Pristine(s: Symbol, f: Facts) {
    s.IsLogical() || IsString(s.Type()) || f == Facts(NO, NO, NO, false, f.curr)
  }

  class SymbolTable {
    const k: Table
    var user: UserValues
    var valid: set<Symbol>
    var facts: map<Symbol, Facts>
    ghost var ref: Model

    ghost predicate Valid()
      reads this
    {
      && Acyclic(k)
      && ref.Keys == k.defs.Keys && facts.Keys == k.defs.Keys && valid <= k.defs.Keys
      && forall s {:trigger Pristine(s, facts[s])} | s in facts :: Pristine(s, facts[s])
    }

    /** The valuation of the reference model. */
    ghost function V(): Valuation
      reads this
    {
      ValuationOf(k, ref)
    }

    /** Every valid symbol numbered below `n` holds its reference value.  While a
        symbol is being evaluated it is already marked valid; it and its callers
        are numbered from `n` on. */
    ghost predicate Sound(n: nat)
      reads this
      requires Valid()
    {
      forall s {:trigger s in valid} {:trigger facts[s]} | s in valid && k.order[s] < n :: facts[s] == ref[s]
    }

    /** What evaluating below `n` leaves alone. */
    twostate predicate Kept(n: nat)
      reads this
      requires old(Valid()) && Valid()
    {
      && user == old(user) && ref == old(ref) && old(valid) <= valid
      && forall s {:trigger facts[s]} {:trigger s in valid} | s in facts && n <= k.order[s] ::
           facts[s] == old(facts[s]) && (s in valid ==> s in old(valid))
    }

    /** What evaluating a part of the symbol `s` leaves alone. */
    twostate predicate KeptExcept(s: Symbol)
      reads this
      requires old(Valid()) && Valid() && s in k.defs
    {
      && user == old(user) && ref == old(ref) && old(valid) <= valid
      && forall t {:trigger facts[t]} {:trigger t in valid} | t in facts && t != s && k.order[s] <= k.order[t] ::
           facts[t] == old(facts[t]) && (t in valid ==> t in old(valid))
    }

    ghost function Above(s: Symbol): nat
      requires Known(k, s)
    {
      if s.Config? then k.order[s] + 1 else 0
    }

    /** Between calls: whatever is cached is what the uncached rules give. */
    ghost predicate Consistent()
      reads this
    {
      Valid() && Solves(k, user, ref) && forall s | s in valid :: facts[s] == ref[s]
    }

    constructor (k: Table, user: UserValues)
      requires Acyclic(k)
      ensures Consistent() && valid == {} && this.k == k && this.user == user
    {
      this.k := k;
      this.user := user;
      valid := {};
      facts := map s | s in k.defs :: Facts(NO, NO, NO, false, Value("", NO));
      var m := SolutionExists(k, user);
      ref := m;
    }

    function CurrValue(s: Symbol): Value
      reads this
      requires s.Config? ==> s in facts
    {
      if s.Config? then facts[s].curr else ConstValue(s)
    }

    /** An assignment to fields of the record of `s`. */
    method Store(s: Symbol, f: Facts)
      requires Valid() && s in facts
      requires Pristine(s, f)
      modifies this`facts
      ensures Valid() && facts[s] == f
      ensures forall t {:trigger facts[t]} | t in facts && t != s :: facts[t] == old(facts[t])
    {
      facts := facts[s := f];
    }

    method CalcExpr(e: Expr, ghost n: nat) returns (t: Tri)
      requires Valid() && Solves(k, user, ref) && Sound(n) && Below(k, e, n)
      modifies this
      ensures Valid() && Sound(n) && Kept(n)
      ensures t == Eval(e, V())
      decreases n + 1, 1, Size(e)
    {
      match e
      case Sym(s) =>
        CalcValue(s);
        t := CurrValue(s).tri;
      case Not(a) =>
        t := CalcExpr(a, n);
        t := Complement(t);
      case Bin(op, l, r) =>
        var t1 := CalcExpr(l, n);
        var t2 := CalcExpr(r, n);
        t := Apply(op, t1, t2);
      case Equal(a, b) =>
        var same := SameText(a, b, n);
        t := if same then YES else NO;
      case Unequal(a, b) =>
        var same := SameText(a, b, n);
        t := if same then NO else YES;
    }

    /** The comparison of two symbols in expr_calc_value. */
    method SameText(a: Symbol, b: Symbol, ghost n: nat) returns (same: bool)
      requires Valid() && Solves(k, user, ref) && Sound(n) && SymBelow(k, a, n) && SymBelow(k, b, n)
      modifies this
      ensures Valid() && Sound(n) && Kept(n)
      ensures same <==> V().str(a) == V().str(b)
      decreases n + 1, 0, 0
    {
      CalcValue(a);
      CalcValue(b);
      same := StringValue(a, k.modules, CurrValue(a)) == StringValue(b, k.modules, CurrValue(b));
    }

    method CalcPtr(e: ExprPtr, none: Tri, ghost n: nat) returns (t: Tri)
      requires Valid() && Solves(k, user, ref) && Sound(n) && PtrBelow(k, e, n)
      modifies this
      ensures Valid() && Sound(n) && Kept(n)
      ensures t == Condition(e, none, V())
      decreases n + 1, 2, 0
    {
      t := none;
      if e.Some? {
        t := CalcExpr(e.value, n);
      }
    }

    /** The first loop of sym_calc_visibility. */
    method CalcPrompts(s: Symbol) returns (tri: Tri)
      requires Valid() && Solves(k, user, ref) && s in k.defs && Sound(k.order[s])
      modifies this
      ensures Valid() && Sound(k.order[s]) && Kept(k.order[s])
      ensures tri == Prompts(k.defs[s].props, |k.defs[s].props|, V())
      decreases k.order[s] + 1, 3, 0
    {
      ghost var n := k.order[s];
      assert DefBelow(k, k.defs[s], n);
      var props := k.defs[s].props;
      tri := NO;
      var i := 0;
      while i < |props|
        invariant 0 <= i <= |props|
        invariant Valid() && Sound(n) && Kept(n)
        invariant tri == Prompts(props, i, V())
      {
        if props[i].kind == PromptProp {
          assert PropBelow(k, props[i], n);
          var t := CalcPtr(props[i].visible, YES, n);
          tri := Or(tri, t);
        }
        i := i + 1;
      }
    }

    /** sym_calc_visibility for a symbol that is not a choice value. */
    method CalcVisibility(s: Symbol)
      requires Valid() && Solves(k, user, ref) && s in k.defs && s.Config? && Sound(k.order[s])
      requires s.IsLogical() || IsString(s.Type())
      modifies this
      ensures Valid() && Sound(k.order[s]) && KeptExcept(s)
      ensures facts[s].visible == ref[s].visible && facts[s].dir == ref[s].dir && facts[s].rev == ref[s].rev
      ensures facts[s].write == old(facts[s].write) && facts[s].curr == old(facts[s].curr)
      decreases k.order[s] + 1, 4, 0
    {
      SolvedVisibility(k, user, ref, s);
      assert DefBelow(k, k.defs[s], k.order[s]);
      var tri := CalcPrompts(s);
      Store(s, facts[s].(visible := PromoteVisible(s, k.modules, tri)));
      var dir := CalcPtr(k.defs[s].dirDep, YES, k.order[s]);
      Store(s, facts[s].(dir := PromoteDir(dir)));
      var rev := CalcPtr(k.defs[s].revDep, NO, k.order[s]);
      Store(s, facts[s].(rev := PromoteBoolean(s, k.modules, rev)));
    }

    /** sym_get_default_prop: the value and the condition of the first default in force. */
    method GetDefault(s: Symbol) returns (d: Option<(ExprPtr, Tri)>)
      requires Valid() && Solves(k, user, ref) && s in k.defs && Sound(k.order[s])
      modifies this
      ensures Valid() && Sound(k.order[s]) && Kept(k.order[s])
      ensures IsDefault(k.defs[s].props, V(), d) && d == DefaultOf(k, V(), s)
      ensures d.Some? ==> d.value.0.Some? && Below(k, d.value.0.value, k.order[s])
      decreases k.order[s] + 1, 3, 1
    {
      d := FindDefault(s);
      DefaultOfIff(k, V(), s, d);
    }

    /** Its loop over the properties. */
    method FindDefault(s: Symbol) returns (d: Option<(ExprPtr, Tri)>)
      requires Valid() && Solves(k, user, ref) && s in k.defs && Sound(k.order[s])
      modifies this
      ensures Valid() && Sound(k.order[s]) && Kept(k.order[s])
      ensures d == DefaultOf(k, V(), s)
      ensures d.Some? ==> d.value.0.Some? && Below(k, d.value.0.value, k.order[s])
      decreases k.order[s] + 1, 3, 0
    {
      ghost var n := k.order[s];
      assert DefBelow(k, k.defs[s], n);
      var props := k.defs[s].props;
      var i := 0;
      while i < |props|
        invariant 0 <= i <= |props|
        invariant Valid() && Sound(n) && Kept(n)
        invariant DefaultFrom(props, 0, V()) == DefaultFrom(props, i, V())
      {
        if props[i].kind == DefaultProp {
          assert PropBelow(k, props[i], n);
          var t := CalcPtr(props[i].visible, YES, n);
          if t != NO {
            return Some((props[i].value, t));
          }
        }
        i := i + 1;
      }
      d := None;
    }

    /** sym_calc_value.  The symbol is marked valid before anything is computed. */
    method CalcValue(s: Symbol)
      requires Valid() && Solves(k, user, ref) && Known(k, s)
      requires Sound(Above(s))
      modifies this
      ensures Valid() && Sound(Above(s)) && Kept(Above(s))
      ensures s.Config? ==> s in valid && facts[s] == ref[s]
      decreases Above(s), 8, 0
    {
      if !s.Config? || s in valid {
        return;
      }
      valid := valid + {s};
      Recalculate(s);
    }

    /** The part of sym_calc_value behind the cache test. */
    method Recalculate(s: Symbol)
      requires Valid() && Solves(k, user, ref) && s in k.defs && s.Config? && Sound(k.order[s])
      modifies this
      ensures Valid() && Sound(k.order[s]) && KeptExcept(s)
      ensures facts[s] == ref[s]
      decreases k.order[s] + 1, 7, 0
    {
      if !s.IsLogical() && !IsString(s.Type()) {
        SolvedOther(k, user, ref, s);
        assert Pristine(s, facts[s]);
        Store(s, facts[s].(curr := Value(s.name, NO)));
        return;
      }
      var newval := if s.IsLogical() then Value("n", NO) else Value("", NO);
      Store(s, facts[s].(write := false));
      CalcVisibility(s);
      Store(s, facts[s].(curr := newval));
      if s.IsLogical() {
        newval := CalcLogical(s, newval);
      } else {
        newval := CalcString(s, newval);
      }
      Store(s, facts[s].(curr := newval));
    }

    /** The boolean and tristate branch of sym_calc_value. */
    method CalcLogical(s: Symbol, start: Value) returns (newval: Value)
      requires Valid() && Solves(k, user, ref) && s in k.defs && Sound(k.order[s])
      requires s.IsLogical() && start == Value("n", NO) && !facts[s].write
      requires facts[s].visible == ref[s].visible && facts[s].rev == ref[s].rev
      modifies this
      ensures Valid() && Sound(k.order[s]) && KeptExcept(s)
      ensures facts[s] == old(facts[s]).(write := ref[s].write)
      ensures newval == ref[s].curr
      decreases k.order[s] + 1, 6, 0
    {
      SolvedLogical(k, user, ref, s);
      newval := start;
      if facts[s].visible != NO {
        Store(s, facts[s].(write := true));
      }
      if facts[s].visible != NO && s in user {
        newval := newval.(tri := And(user[s].tri, facts[s].visible));
      } else {
        var t := LogicalWithoutUser(s);
        newval := newval.(tri := t);
      }
      newval := newval.(tri := PromoteBoolean(s, k.modules, Or(newval.tri, facts[s].rev)));
    }

    /** The rest of it without a user value: a select marks the symbol to be written. */
    method LogicalWithoutUser(s: Symbol) returns (t: Tri)
      requires Valid() && Solves(k, user, ref) && s in k.defs && Sound(k.order[s])
      requires s.IsLogical()
      modifies this
      ensures Valid() && Sound(k.order[s]) && KeptExcept(s)
      ensures var write := old(facts[s].write) || old(facts[s].rev) != NO || DefaultOf(k, V(), s).Some?;
              facts[s] == old(facts[s]).(write := write)
      ensures t == DefaultTri(k, V(), s)
      decreases k.order[s] + 1, 5, 1
    {
      if facts[s].rev != NO {
        Store(s, facts[s].(write := true));
      }
      t := LogicalDefault(s);
    }

    /** The value a logical symbol takes from its default; n without one. */
    method LogicalDefault(s: Symbol) returns (t: Tri)
      requires Valid() && Solves(k, user, ref) && s in k.defs && Sound(k.order[s])
      requires s.IsLogical()
      modifies this
      ensures Valid() && Sound(k.order[s]) && KeptExcept(s)
      ensures facts[s] == old(facts[s]).(write := old(facts[s].write) || DefaultOf(k, V(), s).Some?)
      ensures t == DefaultTri(k, V(), s)
      decreases k.order[s] + 1, 5, 0
    {
      t := NO;
      var d := GetDefault(s);
      if d.Some? {
        Store(s, facts[s].(write := true));
        var value := CalcExpr(d.value.0.value, k.order[s]);
        t := And(value, d.value.1);
      }
    }

    /** The string, int and hex branch of sym_calc_value. */
    method CalcString(s: Symbol, start: Value) returns (newval: Value)
      requires Valid() && Solves(k, user, ref) && s in k.defs && s.Config? && Sound(k.order[s])
      requires !s.IsLogical() && IsString(s.Type()) && start == Value("", NO) && !facts[s].write
      requires facts[s].visible == ref[s].visible
      modifies this
      ensures Valid() && Sound(k.order[s]) && KeptExcept(s)
      ensures facts[s] == old(facts[s]).(write := ref[s].write)
      ensures newval == ref[s].curr
      decreases k.order[s] + 1, 6, 0
    {
      SolvedString(k, user, ref, s);
      newval := start;
      if facts[s].visible != NO {
        Store(s, facts[s].(write := true));
        if s in user {
          return newval.(val := user[s].val);
        }
      }
      var val := StringDefault(s);
      newval := newval.(val := val);
    }

    /** The value a string symbol takes from its default; empty without one. */
    method StringDefault(s: Symbol) returns (val: string)
      requires Valid() && Solves(k, user, ref) && s in k.defs && Sound(k.order[s])
      requires IsString(s.Type())
      modifies this
      ensures Valid() && Sound(k.order[s]) && KeptExcept(s)
      ensures var d := DefaultOf(k, V(), s);
              facts[s] == old(facts[s]).(write := old(facts[s].write) || (d.Some? && DefaultSymbol(d.value.0).Some?))
      ensures val == DefaultVal(k, ref, s)
      decreases k.order[s] + 1, 5, 0
    {
      val := "";
      var d := GetDefault(s);
      var ds := if d.Some? then DefaultSymbol(d.value.0) else None;
      if ds.Some? {
        val := DefaultText(s, ds.value);
      }
    }

    /** The text of the symbol `ds`, which is the value of the default. */
    method DefaultText(s: Symbol, ds: Symbol) returns (val: string)
      requires Valid() && Solves(k, user, ref) && s in k.defs && Sound(k.order[s])
      requires IsString(s.Type()) && SymBelow(k, ds, k.order[s])
      modifies this
      ensures Valid() && Sound(k.order[s]) && KeptExcept(s)
      ensures facts[s] == old(facts[s]).(write := true) && val == ValueIn(ref, ds).val
      decreases k.order[s] + 1, 4, 0
    {
      Store(s, facts[s].(write := true));
      CalcValue(ds);
      val := CurrValue(ds).val;
    }

    /** Asks for one symbol, as the front ends do.  Whatever was cached before and
        in whatever order, the answer is that of the unique solution. */
    method Ask(s: Symbol) returns (text: string)
      requires Consistent() && Known(k, s)
      modifies this
      ensures Consistent() && user == old(user) && old(valid) <= valid
      ensures s.Config? ==> s in valid
      ensures forall m: Model | Solves(k, user, m) ::
                text == ValuationOf(k, m).str(s) && (s.Config? ==> s in m && facts[s] == m[s])
    {
      CalcValue(s);
      text := StringValue(s, k.modules, CurrValue(s));
      forall m: Model | Solves(k, user, m) ensures m == ref {
        SolutionUnique(k, user, m, ref);
      }
    }

    /** A sweep over symbols in any order (for_all_symbols). */
    method AskAll(symbols: seq<Symbol>)
      requires Consistent()
      requires forall s | s in symbols :: s in k.defs && s.Config?
      modifies this
      ensures Consistent() && user == old(user) && old(valid) <= valid
      ensures forall s | s in symbols :: s in valid
      ensures forall m: Model | Solves(k, user, m) :: forall s | s in symbols :: s in m && facts[s] == m[s]
    {
      var i := 0;
      while i < |symbols|
        invariant 0 <= i <= |symbols|
        invariant Consistent() && user == old(user) && old(valid) <= valid
        invariant forall j | 0 <= j < i :: symbols[j] in valid
      {
        assert symbols[i] in symbols;
        CalcValue(symbols[i]);
        i := i + 1;
      }
      forall m: Model | Solves(k, user, m) ensures m == ref {
        SolutionUnique(k, user, m, ref);
      }
    }

    /** sym_clear_all_valid, the modules symbol being fixed: an empty cache is right
        whatever the user values have become. */
    method ClearAllValid()
      requires Valid()
      modifies this`valid, this`ref
      ensures Consistent() && valid == {}
    {
      valid := {};
      ghost var m := SolutionExists(k, user);
      ref := m;
    }

    /** sym_set_tristate_value for a symbol outside choices.  A new value takes effect
        with the cleared cache.  A confirmed one leaves the cache alone, which stays
        right exactly as long as the value is within bounds. */
    method SetTristateValue(s: Symbol, val: Tri) returns (accepted: bool)
      requires Consistent() && s in valid && s.Config? && s.IsLogical()
      modifies this
      ensures Valid()
      ensures accepted <==> val == old(facts[s].curr.tri) || WithinRange(s, k.modules, old(facts[s]), val)
      ensures !accepted ==> Consistent() && user == old(user) && valid == old(valid) && facts == old(facts)
      ensures accepted ==> user == Assign(old(user), s, val)
      ensures accepted && val != old(facts[s].curr.tri) ==> Consistent() && valid == {}
      ensures accepted && val != old(facts[s].curr.tri) ==>
                forall m: Model | Solves(k, user, m) :: s in m && m[s].curr.tri == val
      ensures accepted && val == old(facts[s].curr.tri) ==> valid == old(valid) && facts == old(facts)
      ensures accepted && val == old(facts[s].curr.tri) ==> (Consistent() <==> WithinBounds(facts[s]))
    {
      var oldval := facts[s].curr.tri;
      if oldval != val && !WithinRange(s, k.modules, facts[s], val) {
        return false;
      }
      ghost var u0, m0 := user, ref;
      ConfirmedSolvesIff(k, user, ref, s);
      user := Assign(user, s, val);
      if oldval != val {
        ClearAllValid();
        forall m': Model | Solves(k, user, m') ensures s in m' && m'[s].curr.tri == val {
          AcceptedIsHonoured(k, u0, m0, m', s, val);
        }
      }
      accepted := true;
    }
  }
}
