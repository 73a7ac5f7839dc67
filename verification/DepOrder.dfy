/** A table that passes the dependency check without a report can be numbered
    the way the evaluator needs it. */
module DepOrder {
  import opened Tristate
  import opened Expr
  import opened Kconfig
  import opened DepCheck
  import opened Sequences

  /** Every declared symbol that occurs is in the table, every default has a
      value, and the direct dependencies of a symbol also condition one of its
      properties: P_SYMBOL carries the dependencies of the menu entry. */
  ghost predicate WellReferenced(defs: map<Symbol, Def>) {
    forall s | s in defs ::
      && s.Config?
      && (forall t | t in Deps(defs, s) && t.Config? :: t in defs)
      && (forall t | t in PtrSymbols(defs[s].dirDep) && t.Config? :: t in Deps(defs, s))
      && (forall p | p in defs[s].props && p.kind == DefaultProp :: p.value.Some?)
  }

  ghost function IndexIn(order: seq<Symbol>, s: Symbol): (i: nat)
    requires s in order
    ensures i < |order| && order[i] == s
  {
    var i :| 0 <= i < |order| && order[i] == s;
    i
  }

  lemma {:induction false} ExprBelow(k: Table, e: Expr, n: nat)
    requires forall s | s in Symbols(e) :: SymBelow(k, s, n)
    ensures Below(k, e, n)
  {
    match e
    case Not(a) => ExprBelow(k, a, n);
    case Bin(_, l, r) =>
      ExprBelow(k, l, n);
      ExprBelow(k, r, n);
    case _ =>
  }

  lemma PtrExprBelow(k: Table, e: ExprPtr, n: nat)
    requires forall s | s in PtrSymbols(e) :: SymBelow(k, s, n)
    ensures PtrBelow(k, e, n)
  {
    if e.Some? {
      ExprBelow(k, e.value, n);
    }
  }

  lemma DefIsBelow(k: Table, s: Symbol, n: nat)
    requires s in k.defs && WellReferenced(k.defs)
    requires forall t | t in Deps(k.defs, s) :: SymBelow(k, t, n)
    ensures DefBelow(k, k.defs[s], n)
  {
    var d := k.defs[s];
    PtrExprBelow(k, d.dirDep, n);
    PtrExprBelow(k, d.revDep, n);
    forall i | 0 <= i < |d.props|
      ensures PropBelow(k, d.props[i], n)
    {
      PropDepsIncluded(k.defs, s, i);
      var p := d.props[i];
      if p.kind == PromptProp || p.kind == DefaultProp {
        PtrExprBelow(k, p.visible, n);
        if p.kind == DefaultProp {
          assert p in d.props;
          PtrExprBelow(k, p.value, n);
        }
      }
    }
  }

  /** The conditions of P_SYMBOL properties, which are checked but not evaluated. */
  ghost predicate SymbolPropsBelow(k: Table, s: Symbol)
    requires s in k.defs && s in k.order
  {
    forall i {:trigger k.defs[s].props[i]} | 0 <= i < |k.defs[s].props| && k.defs[s].props[i].kind == SymbolProp ::
      PtrBelow(k, k.defs[s].props[i].visible, k.order[s])
  }

  /** The table is acyclic, also with respect to these conditions. */
  ghost predicate Numbered(k: Table) {
    Acyclic(k) && forall s | s in k.defs :: SymbolPropsBelow(k, s)
  }

  lemma {:induction false} BelowSymbols(k: Table, e: Expr, n: nat)
    requires Below(k, e, n)
    ensures forall s | s in Symbols(e) :: SymBelow(k, s, n)
  {
    match e
    case Not(a) => BelowSymbols(k, a, n);
    case Bin(_, l, r) =>
      BelowSymbols(k, l, n);
      BelowSymbols(k, r, n);
    case _ =>
  }

  lemma PtrBelowSymbols(k: Table, e: ExprPtr, n: nat)
    requires PtrBelow(k, e, n)
    ensures forall s | s in PtrSymbols(e) :: SymBelow(k, s, n)
  {
    if e.Some? {
      BelowSymbols(k, e.value, n);
    }
  }

  /** What the check follows is numbered below. */
  lemma DepsBelow(k: Table, s: Symbol, t: Symbol)
    requires Numbered(k) && s in k.defs && t in Deps(k.defs, s)
    ensures SymBelow(k, t, k.order[s])
  {
    var d, n := k.defs[s], k.order[s];
    assert DefBelow(k, d, n);
    if t in PtrSymbols(d.revDep) {
      PtrBelowSymbols(k, d.revDep, n);
    } else {
      var i :| 0 <= i < |d.props| && t in PropDeps(d.props[i]);
      var p := d.props[i];
      assert PropBelow(k, p, n);
      if t in PtrSymbols(p.visible) {
        PtrBelowSymbols(k, p.visible, n);
      } else {
        PtrBelowSymbols(k, p.value, n);
      }
    }
  }

  lemma {:induction false} PathBelow(k: Table, p: seq<Symbol>)
    requires Numbered(k) && p != [] && IsPath(k.defs, p) && p[|p| - 1] in k.defs
    ensures p[0] in k.defs && k.order[p[|p| - 1]] <= k.order[p[0]]
  {
    if |p| > 1 {
      var q := p[1..];
      assert p[0 + 1] in Deps(k.defs, p[0]);
      assert IsPath(k.defs, q) by {
        forall i | 0 <= i < |q| - 1 ensures q[i + 1] in Deps(k.defs, q[i]) {
          assert p[(i + 1) + 1] in Deps(k.defs, p[i + 1]);
        }
      }
      PathBelow(k, q);
      OnlyDefined(k, p[0], p[1]);
      DepsBelow(k, p[0], p[1]);
    }
  }

  /** Only the symbols of the table depend on others, and they are no constants. */
  lemma OnlyDefined(k: Table, s: Symbol, t: Symbol)
    requires Acyclic(k) && t in Deps(k.defs, s)
    ensures s in k.defs && (t in k.defs ==> t.Config?)
  {
    if t in k.defs {
      assert DefBelow(k, k.defs[t], k.order[t]);
    }
  }

  /** A table that can be numbered has no cycle, so nothing is reported: what a select
      depends on, for one, does not count. */
  lemma NumberedHasNoCycle(k: Table, p: seq<Symbol>)
    requires Numbered(k)
    ensures !IsCycle(k.defs, p)
  {
    if IsCycle(k.defs, p) {
      OnlyDefined(k, p[|p| - 1], p[0]);
      PathBelow(k, p);
      DepsBelow(k, p[|p| - 1], p[0]);
    }
  }

  /** The finishing order of a check without a report numbers the table so that it
      is acyclic: evaluation is then defined and independent of order. */
  lemma UnreportedIsAcyclic(defs: map<Symbol, Def>, modules: Tri, finished: seq<Symbol>) returns (k: Table)
    requires WellReferenced(defs)
    requires IsTopological(defs, finished) && Distinct(finished) && forall s | s in defs :: s in finished
    ensures k.defs == defs && k.modules == modules && Numbered(k)
  {
    k := Table(defs, modules, map s | s in defs :: IndexIn(finished, s));
    forall s | s in k.defs ensures SymbolNumbered(k, s) {
      FinishedIsNumbered(k, finished, s);
    }
    AllNumbered(k);
  }

  lemma AllNumbered(k: Table)
    requires k.order.Keys == k.defs.Keys && forall s | s in k.defs :: SymbolNumbered(k, s)
    ensures Numbered(k)
  {
    forall s | s in k.defs ensures s.Config? && DefBelow(k, k.defs[s], k.order[s]) && SymbolPropsBelow(k, s) {
      assert SymbolNumbered(k, s);
    }
  }

  ghost predicate SymbolNumbered(k: Table, s: Symbol)
    requires s in k.defs && s in k.order
  {
    s.Config? && DefBelow(k, k.defs[s], k.order[s]) && SymbolPropsBelow(k, s)
  }

  lemma FinishedIsNumbered(k: Table, finished: seq<Symbol>, s: Symbol)
    requires IsTopological(k.defs, finished) && Distinct(finished) && forall t | t in k.defs :: t in finished
    requires WellReferenced(k.defs) && k.order == (map t | t in k.defs :: IndexIn(finished, t)) && s in k.defs
    ensures SymbolNumbered(k, s)
  {
    FinishedBefore(k, finished, s);
    DefIsBelow(k, s, k.order[s]);
    SymbolPropsAreBelow(k, s);
  }

  lemma SymbolPropsAreBelow(k: Table, s: Symbol)
    requires s in k.defs && s in k.order && forall t | t in Deps(k.defs, s) :: SymBelow(k, t, k.order[s])
    ensures SymbolPropsBelow(k, s)
  {
    forall i | 0 <= i < |k.defs[s].props| && k.defs[s].props[i].kind == SymbolProp
      ensures PtrBelow(k, k.defs[s].props[i].visible, k.order[s])
    {
      PropDepsIncluded(k.defs, s, i);
      PtrExprBelow(k, k.defs[s].props[i].visible, k.order[s]);
    }
  }

  lemma FinishedBefore(k: Table, finished: seq<Symbol>, s: Symbol)
    requires IsTopological(k.defs, finished) && Distinct(finished) && forall t | t in k.defs :: t in finished
    requires WellReferenced(k.defs) && k.order == (map t | t in k.defs :: IndexIn(finished, t)) && s in k.defs
    ensures forall t | t in Deps(k.defs, s) :: SymBelow(k, t, k.order[s])
  {
    var n := k.order[s];
    forall t | t in Deps(k.defs, s)
      ensures SymBelow(k, t, n)
    {
      if t.Config? {
        IndexBefore(k.defs, finished, s, t);
      }
    }
  }

  lemma IndexBefore(defs: map<Symbol, Def>, finished: seq<Symbol>, s: Symbol, t: Symbol)
    requires IsTopological(defs, finished) && Distinct(finished) && s in finished && t in finished
    requires t in Deps(defs, s)
    ensures IndexIn(finished, t) < IndexIn(finished, s)
  {
    var n := IndexIn(finished, s);
    assert t in Deps(defs, finished[n]);
    var i :| 0 <= i < n && finished[i] == t;
  }
}
