/** The symbol table that finalization leaves behind and the one it would leave without
    making conditions boolean (menu.c): how they are related, and which configurations
    they share. */
module MenuRewriting {
  import opened Tristate
  import opened Expr
  import opened BooleanConditions
  import opened Kconfig
  import opened MenuMeaning
  import opened MenuState
  import opened MenuTable
  import opened MenuTree
  import opened Solutions

  // ----- the conditions before they are made boolean -----

  /** A property under the dependency of its entry, as declared otherwise. */
  function PlainProp(basedep: ExprPtr, p: Prop): Prop {
    p.(visible := Conjoined(basedep, p.visible))
  }

  function PlainProps(basedep: ExprPtr, props: seq<Prop>): seq<Prop> {
    seq(|props|, i requires 0 <= i < |props| => PlainProp(basedep, props[i]))
  }

  function PlainEntryProps(info: map<Entry, Info>, a: map<Entry, Data>, b: map<Entry, Data>, e: Entry, s: Symbol)
    : seq<Prop>
  {
    if e in info && e in a && e in b && info[e].sym == Some(s) then PlainProps(b[e].dep, a[e].props) else []
  }

  function PlainPropsOf(info: map<Entry, Info>, a: map<Entry, Data>, b: map<Entry, Data>, order: seq<Entry>, s: Symbol)
    : seq<Prop>
  {
    if order == [] then [] else
    PlainPropsOf(info, a, b, order[..|order| - 1], s) + PlainEntryProps(info, a, b, order[|order| - 1], s)
  }

  /** Without reverse dependencies, which the selects give. */
  function PlainTable(info: map<Entry, Info>, a: map<Entry, Data>, st: State, order: seq<Entry>, symbols: seq<Symbol>,
                      modules: Tri): Table {
    Table(map s | s in symbols :: Def(PlainPropsOf(info, a, st.data, order, s), ReasonFor(st.dirDep, s), None),
          modules, map[])
  }

  // ----- finalization rewrites this table -----

  /** The conditions of one symbol, made boolean unless it is a tristate. */
  function RewriteProps(s: Symbol, props: seq<Prop>): seq<Prop> {
    if s.Type() == TristateType then props else RewriteAll(props)
  }

  lemma RewriteConcat(s: Symbol, p: seq<Prop>, q: seq<Prop>)
    ensures RewriteProps(s, p + q) == RewriteProps(s, p) + RewriteProps(s, q)
  {
  }

  lemma EntryRewritten(s: Symbol, parentdep: ExprPtr, a: Data, b: Data)
    requires Inherits(Some(s), parentdep, a, b)
    ensures b.props == RewriteProps(s, PlainProps(b.dep, a.props))
  {
    var ps := RewriteProps(s, PlainProps(b.dep, a.props));
    forall i | 0 <= i < |b.props| ensures b.props[i] == ps[i] {
      assert Restricted(Some(s), b.dep, a.props[i], b.props[i]);
    }
  }

  lemma {:induction false} PropsRewritten(info: map<Entry, Info>, a: map<Entry, Data>, b: map<Entry, Data>,
                                          kids: Forest, parentdep: ExprPtr, order: seq<Entry>, s: Symbol)
    requires Inherited(info, a, b, kids, parentdep) && forall e | e in order :: e in Preorder(kids)
    ensures PropsOf(info, b, order, s) == RewriteProps(s, PlainPropsOf(info, a, b, order, s))
  {
    if order != [] {
      var n := |order| - 1;
      var e := order[n];
      PropsRewritten(info, a, b, kids, parentdep, order[..n], s);
      var dep := InheritedEntry(info, a, b, kids, parentdep, e);
      if info[e].sym == Some(s) {
        EntryRewritten(s, dep, a[e], b[e]);
      }
      RewriteConcat(s, PlainPropsOf(info, a, b, order[..n], s), PlainEntryProps(info, a, b, e, s));
    }
  }

  /** The finalized table, but for its reverse dependencies. */
  lemma TableRewritten(info: map<Entry, Info>, a: map<Entry, Data>, st: State, kids: Forest, parentdep: ExprPtr,
                       symbols: seq<Symbol>, modules: Tri, s: Symbol)
    requires Inherited(info, a, st.data, kids, parentdep) && s in symbols
    ensures var d := TableDefs(info, st, Preorder(kids), symbols)[s];
            var e := RewriteTable(PlainTable(info, a, st, Preorder(kids), symbols, modules)).defs[s];
            d.props == e.props && d.dirDep == e.dirDep
  {
    PropsRewritten(info, a, st.data, kids, parentdep, Preorder(kids), s);
  }

  // ----- the reverse dependencies of the rewritten table -----

  /** One of the properties selects `t`, and the symbol and its condition reach `x`. */
  ghost predicate PropReaches(s: Symbol, props: seq<Prop>, t: Symbol, v: Valuation, x: Tri) {
    && v.tri(s) >= x
    && exists i :: 0 <= i < |props| && props[i].kind == SelectProp && props[i].value == Some(Sym(t))
                   && EvalPtr(props[i].visible, v) >= x
  }

  lemma PropReachesEntry(info: map<Entry, Info>, data: map<Entry, Data>, order: seq<Entry>, s: Symbol, t: Symbol,
                         v: Valuation, x: Tri)
    ensures PropReaches(s, PropsOf(info, data, order, s), t, v, x)
       <==> exists e :: e in order && e in info && info[e].sym == Some(s) && SelectReaches(info, data, e, t, v, x)
  {
    if PropReaches(s, PropsOf(info, data, order, s), t, v, x) {
      var e := EntryOfProp(info, data, order, s, t, v, x);
    }
    if e :| e in order && e in info && info[e].sym == Some(s) && SelectReaches(info, data, e, t, v, x) {
      PropOfEntry(info, data, order, s, t, v, x, e);
    }
  }

  lemma EntryOfProp(info: map<Entry, Info>, data: map<Entry, Data>, order: seq<Entry>, s: Symbol, t: Symbol,
                    v: Valuation, x: Tri) returns (e: Entry)
    requires PropReaches(s, PropsOf(info, data, order, s), t, v, x)
    ensures e in order && e in info && info[e].sym == Some(s) && SelectReaches(info, data, e, t, v, x)
  {
    var props := PropsOf(info, data, order, s);
    var i :| 0 <= i < |props| && props[i].kind == SelectProp && props[i].value == Some(Sym(t))
             && EvalPtr(props[i].visible, v) >= x;
    e := PropsOfFrom(info, data, order, s, props[i]);
    var j :| 0 <= j < |data[e].props| && data[e].props[j] == props[i];
    assert SelectsTarget(data[e], j, t);
  }

  lemma PropOfEntry(info: map<Entry, Info>, data: map<Entry, Data>, order: seq<Entry>, s: Symbol, t: Symbol,
                    v: Valuation, x: Tri, e: Entry)
    requires e in order && e in info && info[e].sym == Some(s) && SelectReaches(info, data, e, t, v, x)
    ensures PropReaches(s, PropsOf(info, data, order, s), t, v, x)
  {
    var j :| SelectsTarget(data[e], j, t) && EvalPtr(data[e].props[j].visible, v) >= x;
    PropsOfHas(info, data, order, e, s, data[e].props[j]);
    var props := PropsOf(info, data, order, s);
    var i :| 0 <= i < |props| && props[i] == data[e].props[j];
  }

  ghost predicate SomeSelect(rs: seq<Reason>, t: Symbol, v: Valuation, x: Tri) {
    exists r :: r in rs && r.target == t && Condition(r.why, NO, v) >= x
  }

  ghost predicate SomeSymbol(defs: map<Symbol, Def>, order: seq<Symbol>, t: Symbol, v: Valuation, x: Tri) {
    exists s :: s in order && s in defs && PropReaches(s, defs[s].props, t, v, x)
  }

  lemma SomeSelectConcat(rs: seq<Reason>, qs: seq<Reason>, t: Symbol, v: Valuation, x: Tri)
    ensures SomeSelect(rs + qs, t, v, x) <==> SomeSelect(rs, t, v, x) || SomeSelect(qs, t, v, x)
  {
  }

  lemma SomeSymbolConcat(defs: map<Symbol, Def>, order: seq<Symbol>, s: Symbol, t: Symbol, v: Valuation, x: Tri)
    ensures SomeSymbol(defs, order + [s], t, v, x)
       <==> SomeSymbol(defs, order, t, v, x) || (s in defs && PropReaches(s, defs[s].props, t, v, x))
  {
    assert s in order + [s];
  }

  lemma SelectsOfIff(defs: map<Symbol, Def>, s: Symbol, t: Symbol, v: Valuation, x: Tri)
    requires WellFormed(v) && x != NO
    ensures SomeSelect(SelectsOf(defs, s), t, v, x) <==> s in defs && PropReaches(s, defs[s].props, t, v, x)
  {
    if s in defs {
      SelectReasonsIff(s, defs[s].props, t, v, x);
    }
  }

  lemma {:induction false} SelectsOfAllIff(defs: map<Symbol, Def>, order: seq<Symbol>, t: Symbol, v: Valuation, x: Tri)
    requires WellFormed(v) && x != NO
    ensures SomeSelect(SelectsOfAll(defs, order), t, v, x) <==> SomeSymbol(defs, order, t, v, x)
  {
    if order != [] {
      var n := |order| - 1;
      SelectsOfAllIff(defs, order[..n], t, v, x);
      assert order[..n] + [order[n]] == order;
      OneMoreSymbol(defs, order[..n], order[n], t, v, x);
    }
  }

  lemma OneMoreSymbol(defs: map<Symbol, Def>, order: seq<Symbol>, s: Symbol, t: Symbol, v: Valuation, x: Tri)
    requires WellFormed(v) && x != NO
    requires SomeSelect(SelectsOfAll(defs, order), t, v, x) <==> SomeSymbol(defs, order, t, v, x)
    ensures SomeSelect(SelectsOfAll(defs, order + [s]), t, v, x) <==> SomeSymbol(defs, order + [s], t, v, x)
  {
    SelectsOfIff(defs, s, t, v, x);
    SomeSelectConcat(SelectsOfAll(defs, order), SelectsOf(defs, s), t, v, x);
    SomeSymbolConcat(defs, order, s, t, v, x);
    assert (order + [s])[..|order|] == order;
  }

  /** Every symbol of an entry is among the symbols. */
  ghost predicate Covers(info: map<Entry, Info>, order: seq<Entry>, symbols: seq<Symbol>) {
    forall e | e in order && e in info && info[e].sym.Some? :: info[e].sym.value in symbols
  }

  /** The selects of the entries and those of the symbols are the same. */
  lemma SelectsAgree(info: map<Entry, Info>, st: State, kids: Forest, defs: map<Symbol, Def>, symbols: seq<Symbol>,
                     t: Symbol, v: Valuation, x: Tri)
    requires WellFormed(v) && x != NO && Added(map[], st.revDep, Selects(info, st.data, kids))
    requires Covers(info, Preorder(kids), symbols)
    requires forall s | s in symbols :: s in defs && defs[s].props == PropsOf(info, st.data, Preorder(kids), s)
    ensures Condition(ReasonFor(st.revDep, t), NO, v) >= x <==> Condition(Collected(defs, symbols, t), NO, v) >= x
  {
    ReverseDependencyIff(info, st, kids, t, v, x);
    AddAllValue(map[], SelectsOfAll(defs, symbols), t, v, x);
    SelectsOfAllIff(defs, symbols, t, v, x);
    if e :| e in Preorder(kids) && SelectReaches(info, st.data, e, t, v, x) {
      PropReachesEntry(info, st.data, Preorder(kids), info[e].sym.value, t, v, x);
    }
    if s :| s in symbols && s in defs && PropReaches(s, defs[s].props, t, v, x) {
      PropReachesEntry(info, st.data, Preorder(kids), s, t, v, x);
    }
  }

  lemma ReverseSame(info: map<Entry, Info>, st: State, kids: Forest, defs: map<Symbol, Def>, symbols: seq<Symbol>,
                    t: Symbol, v: Valuation)
    requires WellFormed(v) && Added(map[], st.revDep, Selects(info, st.data, kids))
    requires Covers(info, Preorder(kids), symbols)
    requires forall s | s in symbols :: s in defs && defs[s].props == PropsOf(info, st.data, Preorder(kids), s)
    ensures Condition(ReasonFor(st.revDep, t), NO, v) == Condition(Collected(defs, symbols, t), NO, v)
  {
    SelectsAgree(info, st, kids, defs, symbols, t, v, MOD);
    SelectsAgree(info, st, kids, defs, symbols, t, v, YES);
  }

  // ----- the configurations of the finalized table -----

  /** Two tables that differ in how their reverse dependencies are written. */
  ghost predicate SameRules(k: Table, r: Table) {
    && r.modules == k.modules && r.defs.Keys == k.defs.Keys && Declared(k)
    && forall s {:trigger r.defs[s]} {:trigger k.defs[s]} | s in k.defs ::
         && r.defs[s].props == k.defs[s].props && r.defs[s].dirDep == k.defs[s].dirDep
         && forall v: Valuation | WellFormed(v) ::
              Condition(r.defs[s].revDep, NO, v) == Condition(k.defs[s].revDep, NO, v)
  }

  lemma SameFacts(k: Table, r: Table, u: UserValues, m: Model, s: Symbol)
    requires SameRules(k, r) && WellFormed(ValuationOf(k, m)) && s in k.defs && s.Config?
    ensures FactsFrom(r, u, m, s) == FactsFrom(k, u, m, s)
  {
    SameReading(k, r, m);
    assert RevOf(r, ValuationOf(k, m), s) == RevOf(k, ValuationOf(k, m), s);
  }

  lemma SolvesAlso(k: Table, r: Table, u: UserValues, m: Model)
    requires SameRules(k, r) && Solves(k, u, m)
    ensures Solves(r, u, m)
  {
    SolutionWellFormed(k, u, m);
    forall s | s in k.defs ensures s.Config? && m[s] == FactsFrom(k, u, m, s) {
    }
    forall s | s in r.defs ensures s.Config? && m[s] == FactsFrom(r, u, m, s) {
      SameFacts(k, r, u, m, s);
    }
  }

  lemma SameSolutions(k: Table, r: Table, u: UserValues, m: Model)
    requires SameRules(k, r)
    ensures Solves(k, u, m) <==> Solves(r, u, m)
  {
    if Solves(k, u, m) {
      SolvesAlso(k, r, u, m);
    }
    if Solves(r, u, m) {
      SolvesAlso(r, k, u, m);
    }
  }

  /** What finalization leaves of the declared tree `kids`, for the given symbols. */
  ghost predicate FinalizedFor(info: map<Entry, Info>, a: map<Entry, Data>, st: State, kids: Forest, parentdep: ExprPtr,
                               symbols: seq<Symbol>) {
    && Inherited(info, a, st.data, kids, parentdep) && Added(map[], st.revDep, Selects(info, st.data, kids))
    && Covers(info, Preorder(kids), symbols) && forall s | s in symbols :: s.Config?
  }

  /** The finalized table. */
  function FinalTable(info: map<Entry, Info>, st: State, order: seq<Entry>, symbols: seq<Symbol>, modules: Tri): Table {
    Table(TableDefs(info, st, order, symbols), modules, map[])
  }

  /** The finalized table is the plain one with its conditions made boolean and the
      reverse dependencies that the selects then give. */
  lemma FinalizedIsRewritten(info: map<Entry, Info>, a: map<Entry, Data>, st: State, kids: Forest, parentdep: ExprPtr,
                             symbols: seq<Symbol>, modules: Tri)
    requires FinalizedFor(info, a, st, kids, parentdep, symbols)
    ensures SameRules(FinalTable(info, st, Preorder(kids), symbols, modules),
                      Collect(RewriteTable(PlainTable(info, a, st, Preorder(kids), symbols, modules)), symbols))
  {
    var order := Preorder(kids);
    var k := FinalTable(info, st, order, symbols, modules);
    var rewritten := RewriteTable(PlainTable(info, a, st, order, symbols, modules));
    forall s | s in symbols
      ensures s in rewritten.defs && rewritten.defs[s].props == k.defs[s].props
              && rewritten.defs[s].dirDep == k.defs[s].dirDep
    {
      TableRewritten(info, a, st, kids, parentdep, symbols, modules, s);
    }
    forall s, v: Valuation | s in k.defs && WellFormed(v)
      ensures Condition(k.defs[s].revDep, NO, v) == Condition(Collected(rewritten.defs, symbols, s), NO, v)
    {
      ReverseSame(info, st, kids, rewritten.defs, symbols, s, v);
    }
  }

  lemma PlainIsFlat(info: map<Entry, Info>, a: map<Entry, Data>, b: map<Entry, Data>, kids: Forest, parentdep: ExprPtr,
                    order: seq<Entry>, s: Symbol)
    requires Inherited(info, a, b, kids, parentdep) && forall e | e in order :: e in Preorder(kids)
    ensures FlatProps(PlainPropsOf(info, a, b, order, s))
  {
    if order != [] {
      var n := |order| - 1;
      var e := order[n];
      PlainIsFlat(info, a, b, kids, parentdep, order[..n], s);
      var dep := InheritedEntry(info, a, b, kids, parentdep, e);
      forall p | p in PlainEntryProps(info, a, b, e, s) ensures FlatPtr(p.visible) {
        var i :| 0 <= i < |a[e].props| && p == PlainProp(b[e].dep, a[e].props[i]);
        ConjoinedFlat(b[e].dep, a[e].props[i].visible);
      }
    }
  }

  /** A configuration is one both of the finalized table and of the table with plain
      conditions if and only if no target of a select is weakened. */
  lemma FinalizedKeptIff(info: map<Entry, Info>, a: map<Entry, Data>, st: State, kids: Forest, parentdep: ExprPtr,
                         symbols: seq<Symbol>, modules: Tri, u: UserValues, m: Model)
    requires FinalizedFor(info, a, st, kids, parentdep, symbols)
    requires var order := Preorder(kids);
             || Solves(FinalTable(info, st, order, symbols, modules), u, m)
             || Solves(Collect(PlainTable(info, a, st, order, symbols, modules), symbols), u, m)
    ensures var order := Preorder(kids);
            var plain := PlainTable(info, a, st, order, symbols, modules);
            Solves(FinalTable(info, st, order, symbols, modules), u, m) && Solves(Collect(plain, symbols), u, m)
            <==> forall t | t in symbols && IsTyped(t) :: !Weakened(plain, symbols, ValuationOf(plain, m), t)
  {
    var order := Preorder(kids);
    var plain := PlainTable(info, a, st, order, symbols, modules);
    FinalizedIsRewritten(info, a, st, kids, parentdep, symbols, modules);
    SameSolutions(FinalTable(info, st, order, symbols, modules), Collect(RewriteTable(plain), symbols), u, m);
    forall s | s in symbols ensures FlatProps(plain.defs[s].props) {
      PlainIsFlat(info, a, st.data, kids, parentdep, order, s);
    }
    CollectedKeptIff(plain, symbols, u, m);
  }
}
