/** What becomes of configurations when menu_finalize makes the property conditions
    of symbols other than tristates boolean (expr_trans_bool, menu.c).  The rules for
    the symbol itself read such a condition only through "is it n".  The condition of
    a select, however, is copied into the reverse dependency of its target, where a
    tristate target reads all of it. */
module BooleanConditions {
  import opened Tristate
  import opened Expr
  import opened ExprNormalForm
  import opened Kconfig
  import opened MenuState
  import opened Solutions

  function Rewrite(p: Prop): Prop {
    p.(visible := TransBoolPtr(p.visible))
  }

  function RewriteAll(props: seq<Prop>): seq<Prop> {
    seq(|props|, i requires 0 <= i < |props| => Rewrite(props[i]))
  }

  function RewriteDef(s: Symbol, d: Def): Def {
    if s.Type() == TristateType then d else d.(props := RewriteAll(d.props))
  }

  /** The table with the conditions of all symbols but tristates made boolean. */
  function RewriteTable(k: Table): Table {
    k.(defs := map s | s in k.defs :: RewriteDef(s, k.defs[s]))
  }

  // ----- the reverse dependencies that finalization collects -----

  function SelectsOf(defs: map<Symbol, Def>, s: Symbol): seq<Reason> {
    if s in defs then SelectReasons(Some(s), defs[s].props) else []
  }

  /** The reasons that the selects of some symbols give, one symbol after the other. */
  function SelectsOfAll(defs: map<Symbol, Def>, order: seq<Symbol>): seq<Reason> {
    if order == [] then [] else
    SelectsOfAll(defs, order[..|order| - 1]) + SelectsOf(defs, order[|order| - 1])
  }

  function Collected(defs: map<Symbol, Def>, order: seq<Symbol>, t: Symbol): ExprPtr {
    ReasonFor(AddAll(map[], SelectsOfAll(defs, order)), t)
  }

  /** The table with the reverse dependencies that its own selects give; the symbols
      are visited in the given order. */
  function Collect(k: Table, order: seq<Symbol>): Table {
    k.(defs := map s | s in k.defs :: k.defs[s].(revDep := Collected(k.defs, order, s)))
  }

  // ----- what the rewriting keeps of one symbol -----

  predicate FlatProps(props: seq<Prop>) {
    forall p | p in props :: p.visible.Some? ==> NotsFlat(p.visible.value)
  }

  /** NOT stands only over symbols in the conditions, as expr_transform leaves it. */
  predicate FlatTable(k: Table) {
    forall s | s in k.defs && s.Type() != TristateType :: FlatProps(k.defs[s].props)
  }

  predicate Declared(k: Table) {
    forall s | s in k.defs :: s.Config?
  }

  /** `b` is n exactly where `a` is. */
  predicate SameNo(a: Tri, b: Tri) {
    a == NO <==> b == NO
  }

  lemma ConditionKeepsNo(e: ExprPtr, v: Valuation)
    requires WellFormed(v) && (e.Some? ==> NotsFlat(e.value))
    ensures SameNo(Condition(e, YES, v), Condition(TransBoolPtr(e), YES, v))
  {
    if e.Some? {
      TransBoolKeepsNo(e.value, v);
    }
  }

  lemma {:induction false} PromptsKeepNo(props: seq<Prop>, i: nat, v: Valuation)
    requires WellFormed(v) && FlatProps(props) && i <= |props|
    ensures SameNo(Prompts(props, i, v), Prompts(RewriteAll(props), i, v))
  {
    if i > 0 {
      assert props[i - 1] in props;
      PromptsKeepNo(props, i - 1, v);
      ConditionKeepsNo(props[i - 1].visible, v);
    }
  }

  /** The same default is in force, although its condition may have become smaller. */
  lemma {:induction false} DefaultKept(props: seq<Prop>, i: nat, v: Valuation)
    requires WellFormed(v) && FlatProps(props) && i <= |props|
    ensures var d, e := DefaultFrom(props, i, v), DefaultFrom(RewriteAll(props), i, v);
            d.Some? == e.Some? && (d.Some? ==> d.value.0 == e.value.0 && d.value.1 != NO && e.value.1 != NO)
    decreases |props| - i
  {
    if i < |props| {
      assert props[i] in props;
      DefaultKept(props, i + 1, v);
      ConditionKeepsNo(props[i].visible, v);
    }
  }

  /** `r` is `k` with the conditions made boolean, whatever the reverse dependencies. */
  ghost predicate Boolified(k: Table, r: Table) {
    && r.modules == k.modules && r.defs.Keys == k.defs.Keys
    && forall s {:trigger r.defs[s]} | s in k.defs ::
         r.defs[s].props == RewriteDef(s, k.defs[s]).props && r.defs[s].dirDep == k.defs[s].dirDep
  }

  lemma SameReading(k: Table, r: Table, m: Model)
    requires r.modules == k.modules
    ensures ValuationOf(r, m) == ValuationOf(k, m)
  {
  }

  /** A symbol that is not a tristate is as visible as before. */
  lemma VisibleKept(k: Table, r: Table, v: Valuation, s: Symbol)
    requires WellFormed(v) && FlatTable(k) && Boolified(k, r) && s in k.defs
    ensures VisibleOf(r, v, s) == VisibleOf(k, v, s)
  {
    if s.Type() != TristateType {
      PromptsKeepNo(k.defs[s].props, |k.defs[s].props|, v);
    }
  }

  /** The value that defaults and selects give to a logical symbol, once a boolean
      at m has been raised to y. */
  lemma DefaultValueKept(k: Table, r: Table, v: Valuation, s: Symbol, rev: Tri)
    requires WellFormed(v) && FlatTable(k) && Boolified(k, r) && s in k.defs && s.IsLogical()
    ensures DefaultOf(r, v, s).Some? == DefaultOf(k, v, s).Some?
    ensures PromoteBoolean(s, k.modules, Or(DefaultTri(r, v, s), rev))
            == PromoteBoolean(s, k.modules, Or(DefaultTri(k, v, s), rev))
  {
    if s.Type() != TristateType {
      DefaultKept(k.defs[s].props, 0, v);
    }
  }

  /** A symbol whose reverse dependency is evaluated at all. */
  predicate IsTyped(s: Symbol) {
    s.IsLogical() || IsString(s.Type())
  }

  lemma LogicalFactsKept(k: Table, r: Table, u: UserValues, m: Model, s: Symbol)
    requires WellFormed(ValuationOf(k, m)) && FlatTable(k) && Boolified(k, r) && s in k.defs && s.IsLogical()
    ensures FactsFrom(r, u, m, s) == FactsFrom(k, u, m, s)
       <==> RevOf(r, ValuationOf(k, m), s) == RevOf(k, ValuationOf(k, m), s)
  {
    var v := ValuationOf(k, m);
    SameReading(k, r, m);
    VisibleKept(k, r, v, s);
    DefaultValueKept(k, r, v, s, RevOf(k, v, s));
  }

  lemma StringFactsKept(k: Table, r: Table, u: UserValues, m: Model, s: Symbol)
    requires WellFormed(ValuationOf(k, m)) && FlatTable(k) && Boolified(k, r) && s in k.defs && s.Config?
             && !s.IsLogical()
    ensures FactsFrom(r, u, m, s) == FactsFrom(k, u, m, s)
       <==> (IsTyped(s) ==> RevOf(r, ValuationOf(k, m), s) == RevOf(k, ValuationOf(k, m), s))
  {
    var v := ValuationOf(k, m);
    SameReading(k, r, m);
    VisibleKept(k, r, v, s);
    StringDefaultKept(k, r, m, s);
  }

  /** The default string is the same: its text does not depend on the condition. */
  lemma StringDefaultKept(k: Table, r: Table, m: Model, s: Symbol)
    requires WellFormed(ValuationOf(k, m)) && FlatTable(k) && Boolified(k, r) && s in k.defs && !s.IsLogical()
    ensures var d, e := DefaultOf(k, ValuationOf(k, m), s), DefaultOf(r, ValuationOf(k, m), s);
            d.Some? == e.Some? && (d.Some? ==> d.value.0 == e.value.0)
    ensures DefaultVal(r, m, s) == DefaultVal(k, m, s)
  {
    var v := ValuationOf(k, m);
    SameReading(k, r, m);
    if s.Type() != TristateType {
      DefaultKept(k.defs[s].props, 0, v);
    }
  }

  /** Every reverse dependency that is evaluated has the same value. */
  ghost predicate SameRev(k: Table, r: Table, v: Valuation)
    requires r.defs.Keys == k.defs.Keys
  {
    forall s {:trigger RevOf(k, v, s)} | s in k.defs && IsTyped(s) :: RevOf(r, v, s) == RevOf(k, v, s)
  }

  lemma FactsKeptIff(k: Table, r: Table, u: UserValues, m: Model)
    requires WellFormed(ValuationOf(k, m)) && FlatTable(k) && Boolified(k, r) && Declared(k)
    ensures (forall s | s in k.defs && s.Config? :: FactsFrom(r, u, m, s) == FactsFrom(k, u, m, s))
       <==> SameRev(k, r, ValuationOf(k, m))
  {
    var v := ValuationOf(k, m);
    forall s | s in k.defs && s.Config?
      ensures FactsFrom(r, u, m, s) == FactsFrom(k, u, m, s) <==> (IsTyped(s) ==> RevOf(r, v, s) == RevOf(k, v, s))
    {
      if s.IsLogical() {
        LogicalFactsKept(k, r, u, m, s);
      } else {
        StringFactsKept(k, r, u, m, s);
      }
    }
    if SameRev(k, r, v) {
      forall s | s in k.defs && s.Config? ensures FactsFrom(r, u, m, s) == FactsFrom(k, u, m, s) {
        assert RevOf(k, v, s) == RevOf(k, v, s);
      }
    }
  }

  lemma SolvesOther(k: Table, r: Table, u: UserValues, m: Model)
    requires Solves(k, u, m) && r.defs.Keys == k.defs.Keys && Declared(k)
    ensures Solves(r, u, m) <==> forall s | s in k.defs && s.Config? :: FactsFrom(r, u, m, s) == FactsFrom(k, u, m, s)
  {
    forall s | s in k.defs ensures s.Config? && m[s] == FactsFrom(k, u, m, s) {
    }
    if Solves(r, u, m) {
      forall s | s in k.defs && s.Config? ensures FactsFrom(r, u, m, s) == FactsFrom(k, u, m, s) {
        assert m[s] == FactsFrom(r, u, m, s);
      }
    }
  }

  /** Making the conditions boolean keeps a configuration if and only if it keeps the
      values of the reverse dependencies: a solution of one table is a solution of
      the other exactly then. */
  lemma SolutionKeptIff(k: Table, r: Table, u: UserValues, m: Model)
    requires FlatTable(k) && Boolified(k, r) && Declared(k)
    requires Solves(k, u, m) || Solves(r, u, m)
    ensures (Solves(k, u, m) && Solves(r, u, m)) <==> SameRev(k, r, ValuationOf(k, m))
  {
    SameReading(k, r, m);
    if Solves(k, u, m) {
      SolutionWellFormed(k, u, m);
      SolvesOther(k, r, u, m);
    } else {
      SolutionWellFormed(r, u, m);
      SolvesOther(r, k, u, m);
    }
    FactsKeptIff(k, r, u, m);
  }

  // ----- the reverse dependencies -----

  /** Reason by reason the same target, n for n, and never a greater value. */
  ghost predicate Matched(rs: seq<Reason>, qs: seq<Reason>, v: Valuation) {
    |qs| == |rs| && forall i {:trigger rs[i]} {:trigger qs[i]} | 0 <= i < |rs| ::
      && qs[i].target == rs[i].target
      && Condition(qs[i].why, NO, v) <= Condition(rs[i].why, NO, v)
      && SameNo(Condition(rs[i].why, NO, v), Condition(qs[i].why, NO, v))
  }

  lemma RewriteAllPrefix(props: seq<Prop>, n: nat)
    requires n <= |props|
    ensures RewriteAll(props)[..n] == RewriteAll(props[..n])
  {
  }

  lemma ReasonMatched(s: Symbol, p: Prop, v: Valuation)
    requires WellFormed(v) && (p.visible.Some? ==> NotsFlat(p.visible.value))
    ensures Matched(SelectReason(Some(s), p), SelectReason(Some(s), Rewrite(p)), v)
  {
    AllocAndValue(Some(Sym(s)), p.visible, v);
    AllocAndValue(Some(Sym(s)), Rewrite(p).visible, v);
    if p.visible.Some? {
      TransBoolKeepsNo(p.visible.value, v);
    }
  }

  lemma {:induction false} SelectsMatched(s: Symbol, props: seq<Prop>, v: Valuation)
    requires WellFormed(v) && FlatProps(props)
    ensures Matched(SelectReasons(Some(s), props), SelectReasons(Some(s), RewriteAll(props)), v)
  {
    if props != [] {
      var n := |props| - 1;
      RewriteAllPrefix(props, n);
      assert props[n] in props;
      SelectsMatched(s, props[..n], v);
      ReasonMatched(s, props[n], v);
    }
  }

  lemma {:induction false} AllMatched(k: Table, order: seq<Symbol>, v: Valuation)
    requires WellFormed(v) && FlatTable(k)
    ensures Matched(SelectsOfAll(k.defs, order), SelectsOfAll(RewriteTable(k).defs, order), v)
  {
    if order != [] {
      var n := |order| - 1;
      var s := order[n];
      AllMatched(k, order[..n], v);
      SymbolMatched(k, s, v);
      MatchedConcat(SelectsOfAll(k.defs, order[..n]), SelectsOfAll(RewriteTable(k).defs, order[..n]),
                    SelectsOf(k.defs, s), SelectsOf(RewriteTable(k).defs, s), v);
    }
  }

  lemma MatchedConcat(rs: seq<Reason>, qs: seq<Reason>, rs': seq<Reason>, qs': seq<Reason>, v: Valuation)
    requires Matched(rs, qs, v) && Matched(rs', qs', v)
    ensures Matched(rs + rs', qs + qs', v)
  {
  }

  lemma SymbolMatched(k: Table, s: Symbol, v: Valuation)
    requires WellFormed(v) && FlatTable(k)
    ensures Matched(SelectsOf(k.defs, s), SelectsOf(RewriteTable(k).defs, s), v)
  {
    if s in k.defs && s.Type() != TristateType {
      SelectsMatched(s, k.defs[s].props, v);
    }
  }

  /** Some reason for `t` is y. */
  ghost predicate Selected(rs: seq<Reason>, t: Symbol, v: Valuation) {
    exists r :: r in rs && r.target == t && Condition(r.why, NO, v) == YES
  }

  /** A target that is selected with y as declared, by no select that is still y after the
      rewriting, and not raised to y as a boolean. */
  ghost predicate Weakened(k: Table, order: seq<Symbol>, v: Valuation, t: Symbol) {
    && EffectiveType(t, k.modules) != Boolean
    && Selected(SelectsOfAll(k.defs, order), t, v)
    && !Selected(SelectsOfAll(RewriteTable(k).defs, order), t, v)
  }

  lemma CollectedRelated(k: Table, order: seq<Symbol>, v: Valuation, t: Symbol)
    requires WellFormed(v) && FlatTable(k)
    ensures var c := Condition(Collected(k.defs, order, t), NO, v);
            var d := Condition(Collected(RewriteTable(k).defs, order, t), NO, v);
            && SameNo(c, d) && d <= c
            && (c == YES <==> Selected(SelectsOfAll(k.defs, order), t, v))
            && (d == YES <==> Selected(SelectsOfAll(RewriteTable(k).defs, order), t, v))
  {
    var rs, qs := SelectsOfAll(k.defs, order), SelectsOfAll(RewriteTable(k).defs, order);
    AllMatched(k, order, v);
    AddAllValue(map[], rs, t, v, MOD);
    AddAllValue(map[], qs, t, v, MOD);
    AddAllValue(map[], rs, t, v, YES);
    AddAllValue(map[], qs, t, v, YES);
    MatchedReach(rs, qs, t, v, MOD);
    MatchedReach(rs, qs, t, v, YES);
  }

  lemma MatchedReach(rs: seq<Reason>, qs: seq<Reason>, t: Symbol, v: Valuation, x: Tri)
    requires Matched(rs, qs, v)
    ensures (exists q :: q in qs && q.target == t && Condition(q.why, NO, v) >= x)
        ==> (exists r :: r in rs && r.target == t && Condition(r.why, NO, v) >= x)
    ensures x == MOD ==> ((exists r :: r in rs && r.target == t && Condition(r.why, NO, v) >= x)
        ==> (exists q :: q in qs && q.target == t && Condition(q.why, NO, v) >= x))
  {
    if q :| q in qs && q.target == t && Condition(q.why, NO, v) >= x {
      var i :| 0 <= i < |qs| && qs[i] == q;
      assert rs[i] in rs;
    }
    if x == MOD {
      if r :| r in rs && r.target == t && Condition(r.why, NO, v) >= x {
        var i :| 0 <= i < |rs| && rs[i] == r;
        assert qs[i] in qs;
      }
    }
  }

  /** The exact difference: a weakened target is at m instead of y, every other reverse
      dependency has its value. */
  lemma RevDifference(k: Table, order: seq<Symbol>, v: Valuation, t: Symbol)
    requires WellFormed(v) && FlatTable(k) && t in k.defs
    ensures var a, b := RevOf(Collect(k, order), v, t), RevOf(Collect(RewriteTable(k), order), v, t);
            if Weakened(k, order, v, t) then a == YES && b == MOD else b == a
  {
    RevOfCollected(k, order, v, t);
    RevOfCollected(RewriteTable(k), order, v, t);
    CollectedRelated(k, order, v, t);
  }

  lemma RevOfCollected(k: Table, order: seq<Symbol>, v: Valuation, t: Symbol)
    requires t in k.defs
    ensures RevOf(Collect(k, order), v, t)
            == PromoteBoolean(t, k.modules, Condition(Collected(k.defs, order, t), NO, v))
  {
  }

  /** The two collected tables differ as a table and its rewriting do. */
  lemma CollectedBoolified(k: Table, order: seq<Symbol>)
    requires FlatTable(k) && Declared(k)
    ensures FlatTable(Collect(k, order)) && Declared(Collect(k, order))
    ensures Boolified(Collect(k, order), Collect(RewriteTable(k), order))
  {
  }

  lemma RevSameIff(k: Table, order: seq<Symbol>, v: Valuation, t: Symbol)
    requires WellFormed(v) && FlatTable(k) && t in k.defs
    ensures RevOf(Collect(RewriteTable(k), order), v, t) == RevOf(Collect(k, order), v, t)
       <==> !Weakened(k, order, v, t)
  {
    RevDifference(k, order, v, t);
  }

  lemma CollectedSameRev(k: Table, order: seq<Symbol>, v: Valuation)
    requires WellFormed(v) && FlatTable(k)
    ensures SameRev(Collect(k, order), Collect(RewriteTable(k), order), v)
       <==> forall t | t in k.defs && IsTyped(t) :: !Weakened(k, order, v, t)
  {
    var a, b := Collect(k, order), Collect(RewriteTable(k), order);
    if SameRev(a, b, v) {
      forall t | t in k.defs && IsTyped(t) ensures !Weakened(k, order, v, t) {
        assert RevOf(a, v, t) == RevOf(a, v, t);
        RevSameIff(k, order, v, t);
      }
    } else {
      var t :| t in k.defs && IsTyped(t) && RevOf(b, v, t) != RevOf(a, v, t);
      RevSameIff(k, order, v, t);
    }
  }

  /** A configuration survives if and only if none of its targets is weakened. */
  lemma CollectedKeptIff(k: Table, order: seq<Symbol>, u: UserValues, m: Model)
    requires FlatTable(k) && Declared(k)
    requires Solves(Collect(k, order), u, m) || Solves(Collect(RewriteTable(k), order), u, m)
    ensures (Solves(Collect(k, order), u, m) && Solves(Collect(RewriteTable(k), order), u, m))
       <==> forall t | t in k.defs && IsTyped(t) :: !Weakened(k, order, ValuationOf(k, m), t)
  {
    var a, b, v := Collect(k, order), Collect(RewriteTable(k), order), ValuationOf(k, m);
    SameReading(k, a, m);
    CollectedBoolified(k, order);
    SolutionKeptIff(a, b, u, m);
    CollectedWellFormed(k, order, u, m);
    CollectedSameRev(k, order, v);
  }

  lemma CollectedWellFormed(k: Table, order: seq<Symbol>, u: UserValues, m: Model)
    requires Solves(Collect(k, order), u, m) || Solves(Collect(RewriteTable(k), order), u, m)
    ensures WellFormed(ValuationOf(k, m))
  {
    var a, b := Collect(k, order), Collect(RewriteTable(k), order);
    SameReading(k, a, m);
    SameReading(k, b, m);
    if Solves(a, u, m) {
      SolutionWellFormed(a, u, m);
    } else {
      SolutionWellFormed(b, u, m);
    }
  }

  // ----- tables without weakened targets -----

  /** The select either has a target that raises m to y, or a condition that the
      rewriting leaves alone. */
  predicate HarmlessSelect(p: Prop, modules: Tri) {
    p.kind == SelectProp && DefaultSymbol(p.value).Some? ==>
      EffectiveType(DefaultSymbol(p.value).value, modules) == Boolean || TransBoolPtr(p.visible) == p.visible
  }

  predicate Harmless(k: Table) {
    forall s | s in k.defs && s.Type() != TristateType ::
      forall p | p in k.defs[s].props :: HarmlessSelect(p, k.modules)
  }

  predicate CarriedOver(rs: seq<Reason>, qs: seq<Reason>, t: Symbol) {
    forall r | r in rs && r.target == t :: r in qs
  }

  lemma {:induction false} SelectsCarried(s: Symbol, props: seq<Prop>, modules: Tri, t: Symbol)
    requires EffectiveType(t, modules) != Boolean && forall p | p in props :: HarmlessSelect(p, modules)
    ensures CarriedOver(SelectReasons(Some(s), props), SelectReasons(Some(s), RewriteAll(props)), t)
  {
    if props != [] {
      var n := |props| - 1;
      RewriteAllPrefix(props, n);
      assert HarmlessSelect(props[n], modules) && RewriteAll(props)[n] == Rewrite(props[n]);
      SelectsCarried(s, props[..n], modules, t);
    }
  }

  lemma {:induction false} AllCarried(k: Table, order: seq<Symbol>, t: Symbol)
    requires EffectiveType(t, k.modules) != Boolean && Harmless(k)
    ensures CarriedOver(SelectsOfAll(k.defs, order), SelectsOfAll(RewriteTable(k).defs, order), t)
  {
    if order != [] {
      var n := |order| - 1;
      var s := order[n];
      AllCarried(k, order[..n], t);
      if s in k.defs && s.Type() != TristateType {
        SelectsCarried(s, k.defs[s].props, k.modules, t);
      }
    }
  }

  /** If every select by a symbol other than a tristate has an effectively boolean
      target or a condition without "FOO != n" for tristates, then making the conditions
      boolean changes no configuration, whatever the user values. */
  lemma HarmlessKept(k: Table, order: seq<Symbol>, u: UserValues, m: Model)
    requires FlatTable(k) && Declared(k) && Harmless(k)
    ensures Solves(Collect(RewriteTable(k), order), u, m) <==> Solves(Collect(k, order), u, m)
  {
    if Solves(Collect(RewriteTable(k), order), u, m) || Solves(Collect(k, order), u, m) {
      forall t | t in k.defs && IsTyped(t)
        ensures !Weakened(k, order, ValuationOf(k, m), t)
      {
        if EffectiveType(t, k.modules) != Boolean {
          AllCarried(k, order, t);
        }
      }
      CollectedKeptIff(k, order, u, m);
    }
  }

  /** The step is not harmless for tristates: FOO visible if BAR!=n, with BAR at m,
      is visible with y before the rewriting and with m after it. */
  lemma TristateWouldChange(k: Table, v: Valuation, foo: Symbol, bar: Symbol)
    requires WellFormed(v) && foo.Type() == TristateType && bar.Type() == TristateType
    requires foo in k.defs && k.modules != NO && v.tri(bar) == MOD
    requires k.defs[foo].props == [Prop(PromptProp, Some(Unequal(bar, ConstNo)), None)]
    ensures VisibleOf(k, v, foo) == YES
    ensures VisibleOf(k.(defs := k.defs[foo := k.defs[foo].(props := RewriteAll(k.defs[foo].props))]), v, foo) == MOD
  {
    assert v.str(bar) == "m";
    var p := k.defs[foo].props;
    var q := RewriteAll(p);
    assert q[0].visible == Some(Sym(bar));
    assert Prompts(p, 0, v) == NO && Prompts(q, 0, v) == NO;
    assert Eval(p[0].visible.value, v) == YES;
    assert Prompts(p, 1, v) == YES && Prompts(q, 1, v) == MOD;
  }

  // ----- a table with a weakened target -----

  const FOO: Symbol := Config("FOO", Boolean)
  const BAR: Symbol := Config("BAR", TristateType)
  const BAZ: Symbol := Config("BAZ", TristateType)
  const ALWAYS: Prop := Prop(PromptProp, None, None)

  /** The boolean FOO selects the tristate BAR under a condition; FOO and BAZ have prompts. */
  function Selecting(condition: Expr): Table {
    Table(map[FOO := Def([ALWAYS, Prop(SelectProp, Some(condition), Some(Sym(BAR)))], None, None),
              BAR := Def([], None, None), BAZ := Def([ALWAYS], None, None)],
          YES, map[FOO := 1, BAR := 2, BAZ := 0])
  }

  const DECLARED: Expr := Unequal(BAZ, ConstNo)
  const CHOSEN: UserValues := map[FOO := UserValue(YES, ""), BAZ := UserValue(MOD, "")]

  lemma SelectingRewritten()
    ensures RewriteTable(Selecting(DECLARED)) == Selecting(Sym(BAZ))
  {
    var props := Selecting(DECLARED).defs[FOO].props;
    assert RewriteAll(props) == [ALWAYS, Prop(SelectProp, Some(Sym(BAZ)), Some(Sym(BAR)))];
    assert RewriteTable(Selecting(DECLARED)).defs == Selecting(Sym(BAZ)).defs;
  }

  lemma OneSelect(s: Symbol, p: Prop, q: Prop)
    requires p.kind != SelectProp
    ensures SelectReasons(Some(s), [p, q]) == SelectReason(Some(s), q)
  {
    var ps := [p, q];
    assert ps[..1] == [p] && ps[1] == q && [p][..0] == [];
    assert SelectReasons(Some(s), [p]) == [];
  }

  lemma OneReason(t: Symbol, e: Expr, s: Symbol)
    ensures ReasonFor(AddAll(map[], [Reason(t, Some(e))]), s) == if s == t then Some(e) else None
  {
    assert [Reason(t, Some(e))][..0] == [];
  }

  lemma SelectingReasons(condition: Expr, s: Symbol)
    ensures Collected(Selecting(condition).defs, [FOO], s)
            == if s == BAR then Some(Bin(AndOp, Sym(FOO), condition)) else None
  {
    SelectingSelects(condition);
    OneReason(BAR, Bin(AndOp, Sym(FOO), condition), s);
  }

  lemma SelectingSelects(condition: Expr)
    ensures SelectsOfAll(Selecting(condition).defs, [FOO]) == [Reason(BAR, Some(Bin(AndOp, Sym(FOO), condition)))]
  {
    var p := Prop(SelectProp, Some(condition), Some(Sym(BAR)));
    OneSelect(FOO, ALWAYS, p);
    assert [FOO][..0] == [] && Selecting(condition).defs[FOO].props == [ALWAYS, p];
  }

  /** The symbols of the collected table. */
  lemma SelectingDefs(condition: Expr)
    ensures var d := Collect(Selecting(condition), [FOO]).defs;
            && d.Keys == {FOO, BAR, BAZ}
            && d[FOO] == Selecting(condition).defs[FOO]
            && d[BAR] == Def([], None, Some(Bin(AndOp, Sym(FOO), condition)))
            && d[BAZ] == Def([ALWAYS], None, None)
  {
    SelectingReasons(condition, FOO);
    SelectingReasons(condition, BAR);
    SelectingReasons(condition, BAZ);
  }

  lemma Chosen(condition: Expr, m: Model, s: Symbol)
    requires Solves(Collect(Selecting(condition), [FOO]), CHOSEN, m) && (s == FOO || s == BAZ)
    ensures s in m && m[s].curr.tri == CHOSEN[s].tri
  {
    var k := Collect(Selecting(condition), [FOO]);
    SelectingDefs(condition);
    var props, v := k.defs[s].props, ValuationOf(k, m);
    SolvedVisibility(k, CHOSEN, m, s);
    assert props[0] == ALWAYS && Prompts(props, 0, v) == NO && Prompts(props, 1, v) == YES;
    SolvedLogical(k, CHOSEN, m, s);
  }

  /** What FOO and BAZ give to the reverse dependency of BAR. */
  lemma SelectingValue(condition: Expr, m: Model)
    requires condition == DECLARED || condition == Sym(BAZ)
    requires Solves(Collect(Selecting(condition), [FOO]), CHOSEN, m)
    ensures var v := ValuationOf(Collect(Selecting(condition), [FOO]), m);
            Eval(Bin(AndOp, Sym(FOO), condition), v) == if condition == DECLARED then YES else MOD
  {
    var v := ValuationOf(Collect(Selecting(condition), [FOO]), m);
    SelectingDefs(condition);
    Chosen(condition, m, FOO);
    Chosen(condition, m, BAZ);
    assert v.tri(FOO) == YES && v.tri(BAZ) == MOD && v.str(BAZ) == "m" && v.str(ConstNo) == "n";
    assert "m"[0] == 'm' && "n"[0] == 'n';
  }

  lemma SelectingSolution(condition: Expr, m: Model)
    requires condition == DECLARED || condition == Sym(BAZ)
    requires Solves(Collect(Selecting(condition), [FOO]), CHOSEN, m)
    ensures BAR in m && m[BAR].curr.tri == if condition == DECLARED then YES else MOD
  {
    var k := Collect(Selecting(condition), [FOO]);
    var v := ValuationOf(k, m);
    SelectingDefs(condition);
    SelectingValue(condition, m);
    SolvedVisibility(k, CHOSEN, m, BAR);
    SolvedLogical(k, CHOSEN, m, BAR);
    assert DefaultOf(k, v, BAR) == None && VisibleOf(k, v, BAR) == NO;
  }

  lemma SelectingAcyclic(condition: Expr)
    requires condition == DECLARED || condition == Sym(BAZ)
    ensures Acyclic(Collect(Selecting(condition), [FOO]))
  {
    var k := Collect(Selecting(condition), [FOO]);
    SelectingDefs(condition);
    assert SymBelow(k, FOO, 2) && SymBelow(k, BAZ, 2) && Below(k, condition, 2);
    assert DefBelow(k, k.defs[FOO], 1) && DefBelow(k, k.defs[BAZ], 0) && DefBelow(k, k.defs[BAR], 2);
  }

  lemma SelectingFlat()
    ensures FlatTable(Selecting(DECLARED))
  {
  }

  /** A solution of the table exists, and in it BAR has the value of the condition. */
  lemma SelectingSolved(condition: Expr) returns (m: Model)
    requires condition == DECLARED || condition == Sym(BAZ)
    ensures Solves(Collect(Selecting(condition), [FOO]), CHOSEN, m)
    ensures BAR in m && m[BAR].curr.tri == if condition == DECLARED then YES else MOD
  {
    SelectingAcyclic(condition);
    m := SolutionExists(Collect(Selecting(condition), [FOO]), CHOSEN);
    SelectingSolution(condition, m);
  }

  /** With FOO at y and BAZ at m, BAR is selected with y as declared, but only with m
      after the condition of the select was made boolean. */
  lemma RewrittenSelectDiffers() returns (m: Model, m': Model)
    ensures FlatTable(Selecting(DECLARED))
    ensures Solves(Collect(Selecting(DECLARED), [FOO]), CHOSEN, m)
    ensures Solves(Collect(RewriteTable(Selecting(DECLARED)), [FOO]), CHOSEN, m')
    ensures BAR in m && BAR in m' && m[BAR].curr.tri == YES && m'[BAR].curr.tri == MOD
  {
    SelectingFlat();
    SelectingRewritten();
    m := SelectingSolved(DECLARED);
    m' := SelectingSolved(Sym(BAZ));
  }
}
