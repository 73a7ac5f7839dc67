/** The minimal configuration written by conf_write_defconfig (confdata.c), and
    what is left of a configuration after it is read back. */
module Defconfig {
  import opened Tristate
  import opened Expr
  import opened Kconfig
  import opened Solutions

  function PromoteDefault(s: Symbol, modules: Tri, val: Tri): Tri {
    if val == MOD && (modules == NO || s.Type() == Boolean) then YES else val
  }

  /** sym_get_string_default. */
  ghost function DefaultString(k: Table, m: Model, s: Symbol): string
    requires s in k.defs && s in m
  {
    if s.IsLogical() then
      TriString(PromoteDefault(s, k.modules, Or(DefaultTri(k, ValuationOf(k, m), s), m[s].rev)))
    else if IsString(s.Type()) then DefaultVal(k, m, s)
    else ""
  }

  ghost function Text(k: Table, m: Model, s: Symbol): string
    requires s in m
  {
    StringValue(s, k.modules, m[s].curr)
  }

  /** sym_is_changable. */
  predicate Changeable(f: Facts) {
    f.visible > f.rev
  }

  /** The tests of the loop of conf_write_defconfig, for a symbol outside choices. */
  ghost predicate IsSaved(k: Table, m: Model, s: Symbol)
    requires s in k.defs && s in m
  {
    m[s].write && Changeable(m[s]) && Text(k, m, s) != DefaultString(k, m, s)
  }

  /** A value as conf_set_sym_val stores it. */
  function Stored(s: Symbol, curr: Value): UserValue {
    if s.IsLogical() then UserValue(curr.tri, "") else UserValue(NO, curr.val)
  }

  /** The user values after the minimal configuration is read into a cleared table. */
  ghost function Saved(k: Table, m: Model): UserValues
    requires m.Keys == k.defs.Keys
  {
    map s | s in k.defs && IsSaved(k, m, s) :: Stored(s, m[s].curr)
  }

  /** The user value of a symbol is in force, the symbol is not written because it
      cannot be changed, and yet it differs from the default. */
  ghost predicate IsLost(k: Table, u: UserValues, m: Model, s: Symbol)
    requires s in k.defs && s in m
  {
    s in u && m[s].visible != NO && !Changeable(m[s]) && Text(k, m, s) != DefaultString(k, m, s)
      && (s.IsLogical() || IsString(s.Type()))
  }

  lemma TriStringInjective(a: Tri, b: Tri)
    ensures TriString(a) == TriString(b) <==> a == b
  {
    assert "y"[0] == 'y' && "n"[0] == 'n' && "m"[0] == 'm';
  }

  /** For a logical symbol, writing its default string means having that default. */
  lemma LogicalText(k: Table, u: UserValues, m: Model, s: Symbol)
    requires Acyclic(k) && Solves(k, u, m) && s in k.defs && s.Config? && s.IsLogical()
    ensures s in m
    ensures var d := PromoteDefault(s, k.modules, Or(DefaultTri(k, ValuationOf(k, m), s), m[s].rev));
            && (Text(k, m, s) == DefaultString(k, m, s) <==> m[s].curr.tri == d)
            && d == PromoteBoolean(s, k.modules, Or(DefaultTri(k, ValuationOf(k, m), s), m[s].rev))
  {
    SolvedLogical(k, u, m, s);
    var d := PromoteDefault(s, k.modules, Or(DefaultTri(k, ValuationOf(k, m), s), m[s].rev));
    TriStringInjective(m[s].curr.tri, d);
  }

  /** One symbol, everything below it being reproduced. */
  lemma SymbolReproduced(k: Table, u: UserValues, m: Model, m': Model, s: Symbol)
    requires Acyclic(k) && Solves(k, u, m) && Solves(k, Saved(k, m), m')
    requires s in k.defs && AgreeOn(m, m', BelowSet(k, k.order[s]))
    ensures s in m && s in m'
    ensures m'[s] == m[s] <==> !IsLost(k, u, m, s)
  {
    var u', n := Saved(k, m), k.order[s];
    assert DefBelow(k, k.defs[s], n);
    DefBelowSyms(k, k.defs[s], n);
    InputsAgree(k, m, m', s);
    assert m[s] == FactsFrom(k, u, m, s) && m'[s] == FactsFrom(k, u', m', s);
    if s.IsLogical() {
      LogicalReproduced(k, u, m, m', s);
    } else if IsString(s.Type()) {
      StringReproduced(k, u, m, m', s);
    }
  }

  lemma LogicalReproduced(k: Table, u: UserValues, m: Model, m': Model, s: Symbol)
    requires Acyclic(k) && Solves(k, u, m) && Solves(k, Saved(k, m), m')
    requires s in k.defs && s.Config? && s.IsLogical() && s in m && s in m'
    requires m'[s].visible == m[s].visible && m'[s].rev == m[s].rev
    requires DefaultTri(k, ValuationOf(k, m'), s) == DefaultTri(k, ValuationOf(k, m), s)
    ensures m'[s].curr == m[s].curr <==> !IsLost(k, u, m, s)
  {
    LogicalText(k, u, m, s);
    SolvedLogical(k, u, m, s);
    SolvedLogical(k, Saved(k, m), m', s);
    SolvedVisibility(k, u, m, s);
  }

  lemma StringReproduced(k: Table, u: UserValues, m: Model, m': Model, s: Symbol)
    requires Acyclic(k) && Solves(k, u, m) && Solves(k, Saved(k, m), m')
    requires s in k.defs && s.Config? && !s.IsLogical() && IsString(s.Type()) && s in m && s in m'
    requires m'[s].visible == m[s].visible
    requires DefaultVal(k, m', s) == DefaultVal(k, m, s)
    ensures m'[s].curr == m[s].curr <==> !IsLost(k, u, m, s)
  {
    SolvedString(k, u, m, s);
    SolvedString(k, Saved(k, m), m', s);
  }

  /** Below the first lost symbol everything is reproduced. */
  lemma {:induction false} ReproducedBelow(k: Table, u: UserValues, m: Model, m': Model, n: nat)
    requires Acyclic(k) && Solves(k, u, m) && Solves(k, Saved(k, m), m')
    requires forall s | s in BelowSet(k, n) :: !IsLost(k, u, m, s)
    ensures AgreeOn(m, m', BelowSet(k, n))
  {
    if n > 0 {
      ReproducedBelow(k, u, m, m', n - 1);
      forall s | s in BelowSet(k, n)
        ensures s in m && s in m' && m[s] == m'[s]
      {
        SymbolReproduced(k, u, m, m', s);
      }
    }
  }

  ghost predicate NothingLost(k: Table, u: UserValues, m: Model)
    requires m.Keys == k.defs.Keys
  {
    forall s | s in k.defs :: !IsLost(k, u, m, s)
  }

  lemma {:induction false} FirstLost(k: Table, u: UserValues, m: Model, n: nat) returns (s: Symbol)
    requires Acyclic(k) && m.Keys == k.defs.Keys
    requires exists t :: t in BelowSet(k, n) && IsLost(k, u, m, t)
    ensures s in k.defs && IsLost(k, u, m, s)
    ensures forall t | t in BelowSet(k, k.order[s]) :: !IsLost(k, u, m, t)
  {
    if exists t :: t in BelowSet(k, n - 1) && IsLost(k, u, m, t) {
      s := FirstLost(k, u, m, n - 1);
    } else {
      s :| s in BelowSet(k, n) && IsLost(k, u, m, s);
    }
  }

  /** Saving a minimal configuration and reading it back gives every symbol its
      old facts again if and only if no symbol is lost. */
  lemma RoundTrip(k: Table, u: UserValues, m: Model, m': Model)
    requires Acyclic(k) && Solves(k, u, m) && Solves(k, Saved(k, m), m')
    ensures m' == m <==> NothingLost(k, u, m)
  {
    var n := Bound(k, k.defs.Keys);
    if NothingLost(k, u, m) {
      ReproducedBelow(k, u, m, m', n);
      assert forall s | s in k.defs :: s in BelowSet(k, n);
    } else {
      var t :| t in k.defs && IsLost(k, u, m, t);
      assert t in BelowSet(k, n);
      var s := FirstLost(k, u, m, n);
      ReproducedBelow(k, u, m, m', k.order[s]);
      SymbolReproduced(k, u, m, m', s);
    }
  }

  /** Every saved symbol is needed: without a user value for it, whatever the others have,
      the configuration is another one. */
  lemma SavedIsNeeded(k: Table, u: UserValues, m: Model, s: Symbol, u': UserValues)
    requires Acyclic(k) && Solves(k, u, m) && s in k.defs && s in m
    requires IsSaved(k, m, s) && s !in u'
    ensures !Solves(k, u', m)
  {
    assert DefBelow(k, k.defs[s], k.order[s]);
    if Solves(k, u', m) {
      assert m[s] == FactsFrom(k, u', m, s);
      if s.IsLogical() {
        LogicalText(k, u', m, s);
        SolvedLogical(k, u', m, s);
      } else if IsString(s.Type()) {
        SolvedString(k, u', m, s);
      }
    }
  }

  lemma SavedIsEnough(k: Table, u: UserValues, m: Model)
    requires Acyclic(k) && Solves(k, u, m) && NothingLost(k, u, m)
    ensures Solves(k, Saved(k, m), m)
  {
    var m' := SolutionExists(k, Saved(k, m));
    RoundTrip(k, u, m, m');
  }

  /** So if nothing is lost the minimal configuration is enough, and none of its lines can
      be left out. */
  lemma SavedIsMinimal(k: Table, u: UserValues, m: Model, part: UserValues)
    requires Acyclic(k) && Solves(k, u, m) && NothingLost(k, u, m)
    requires forall s | s in part :: s in Saved(k, m) && part[s] == Saved(k, m)[s]
    ensures Solves(k, part, m) <==> part == Saved(k, m)
  {
    if part == Saved(k, m) {
      SavedIsEnough(k, u, m);
    } else {
      var s :| s in Saved(k, m) && s !in part;
      SavedIsNeeded(k, u, m, s, part);
    }
  }

  /** Only a tristate with modules can be lost: it is visible as m, selected as m,
      and its default is y.  Booleans, and tristates without modules, never are. */
  lemma LostLogical(k: Table, u: UserValues, m: Model, s: Symbol)
    requires Acyclic(k) && Solves(k, u, m) && s in k.defs && s.Config? && s.IsLogical()
    ensures s in m
    ensures IsLost(k, u, m, s) <==>
              (s in u && EffectiveType(s, k.modules) == TristateType
               && m[s].visible == MOD && m[s].rev == MOD && DefaultTri(k, ValuationOf(k, m), s) == YES)
  {
    LogicalText(k, u, m, s);
    SolvedLogical(k, u, m, s);
    SolvedVisibility(k, u, m, s);
  }

  /** A string symbol that nothing selects is never lost. */
  lemma UnselectedStringNotLost(k: Table, u: UserValues, m: Model, s: Symbol)
    requires Acyclic(k) && Solves(k, u, m) && s in k.defs && s.Config? && !s.IsLogical()
    requires k.defs[s].revDep.None?
    ensures s in m && !IsLost(k, u, m, s)
  {
    if IsString(s.Type()) {
      SolvedVisibility(k, u, m, s);
    }
  }

  /** The promise for configurations of booleans, tristates without modules and
      unselected strings: nothing is lost. */
  lemma RoundTripWithoutModules(k: Table, u: UserValues, m: Model, m': Model)
    requires Acyclic(k) && Solves(k, u, m) && Solves(k, Saved(k, m), m')
    requires forall s | s in k.defs ::
      (s.IsLogical() && (s.Type() == Boolean || k.modules == NO)) || (!s.IsLogical() && k.defs[s].revDep.None?)
    ensures m' == m
  {
    forall s | s in k.defs
      ensures !IsLost(k, u, m, s)
    {
      assert DefBelow(k, k.defs[s], k.order[s]);
      if s.IsLogical() {
        LostLogical(k, u, m, s);
      } else {
        UnselectedStringNotLost(k, u, m, s);
      }
    }
    RoundTrip(k, u, m, m');
  }

  /** A table with one such symbol: prompt and select at m, default y, user value m. */
  lemma LostExists(s: Symbol, k: Table, u: UserValues, m: Model, m': Model)
    requires s.Config? && s.Type() == TristateType
    requires k == Table(map[s := Def([Prop(PromptProp, Some(Sym(ConstMod)), None),
                                      Prop(DefaultProp, None, Some(YES_EXPR))],
                                     None, Some(Sym(ConstMod)))], YES, map[s := 0])
    requires u == map[s := UserValue(MOD, "")]
    requires Solves(k, u, m)
    ensures Acyclic(k) && s in m && m[s].curr.tri == MOD
    ensures Solves(k, Saved(k, m), m') ==> m' != m
  {
    var props, v := k.defs[s].props, ValuationOf(k, m);
    assert DefBelow(k, k.defs[s], 0);
    assert Acyclic(k);
    SolvedVisibility(k, u, m, s);
    assert Prompts(props, 0, v) == NO && Prompts(props, 1, v) == MOD && Prompts(props, 2, v) == MOD;
    assert DefaultFrom(props, 0, v) == DefaultFrom(props, 1, v) == Some((Some(YES_EXPR), YES));
    SolvedLogical(k, u, m, s);
    LostLogical(k, u, m, s);
    if Solves(k, Saved(k, m), m') {
      RoundTrip(k, u, m, m');
    }
  }
}
