/** On an acyclic table the evaluation rules have exactly one solution. */
module Solutions {
  import opened Tristate
  import opened Expr
  import opened Kconfig

  // ----- what a symbol refers to -----

  function SymSet(s: Symbol): set<Symbol> {
    if s.Config? then {s} else {}
  }

  function SymsOf(e: Expr): set<Symbol> {
    set s | s in Symbols(e) && s.Config?
  }

  function PtrSyms(e: ExprPtr): set<Symbol> {
    if e.None? then {} else SymsOf(e.value)
  }

  function PropSyms(p: Prop): set<Symbol> {
    if p.kind == PromptProp then PtrSyms(p.visible)
    else if p.kind == DefaultProp then PtrSyms(p.visible) + PtrSyms(p.value)
    else {}
  }

  /** The declared symbols the evaluation of a symbol looks at. */
  function DefSyms(d: Def): set<Symbol> {
    (set i, s | 0 <= i < |d.props| && s in PropSyms(d.props[i]) :: s) + PtrSyms(d.dirDep) + PtrSyms(d.revDep)
  }

  ghost function BelowSet(k: Table, n: nat): set<Symbol>
    requires Acyclic(k)
  {
    set s | s in k.defs && k.order[s] < n
  }

  lemma {:induction false} BelowSyms(k: Table, e: Expr, n: nat)
    requires Acyclic(k)
    ensures Below(k, e, n) <==> SymsOf(e) <= BelowSet(k, n)
  {
    match e
    case Not(a) => BelowSyms(k, a, n);
    case Bin(_, l, r) =>
      BelowSyms(k, l, n);
      BelowSyms(k, r, n);
    case Sym(s) => assert s.Config? ==> s in SymsOf(e);
    case Equal(a, b) => assert (a.Config? ==> a in SymsOf(e)) && (b.Config? ==> b in SymsOf(e));
    case Unequal(a, b) => assert (a.Config? ==> a in SymsOf(e)) && (b.Config? ==> b in SymsOf(e));
  }

  lemma DefBelowSyms(k: Table, d: Def, n: nat)
    requires Acyclic(k) && DefBelow(k, d, n)
    ensures DefSyms(d) <= BelowSet(k, n)
  {
    forall s | s in DefSyms(d)
      ensures s in BelowSet(k, n)
    {
      if s in PtrSyms(d.dirDep) {
        BelowSyms(k, d.dirDep.value, n);
      } else if s in PtrSyms(d.revDep) {
        BelowSyms(k, d.revDep.value, n);
      } else {
        var i :| 0 <= i < |d.props| && s in PropSyms(d.props[i]);
        assert PropBelow(k, d.props[i], n);
        if s in PtrSyms(d.props[i].visible) {
          BelowSyms(k, d.props[i].visible.value, n);
        } else {
          BelowSyms(k, d.props[i].value.value, n);
        }
      }
    }
  }

  // ----- equal references give equal facts -----

  /** Both models hold the same facts for every symbol in `c`. */
  ghost predicate AgreeOn(m1: Model, m2: Model, c: set<Symbol>) {
    forall s | s in c :: s in m1 && s in m2 && m1[s] == m2[s]
  }

  lemma ValueAgrees(k: Table, m1: Model, m2: Model, s: Symbol, c: set<Symbol>)
    requires AgreeOn(m1, m2, c) && SymSet(s) <= c
    ensures ValueIn(m1, s) == ValueIn(m2, s)
  {
    if s.Config? {
      assert s in SymSet(s);
    }
  }

  lemma {:induction false} EvalAgrees(k: Table, m1: Model, m2: Model, e: Expr, c: set<Symbol>)
    requires AgreeOn(m1, m2, c) && SymsOf(e) <= c
    ensures Eval(e, ValuationOf(k, m1)) == Eval(e, ValuationOf(k, m2))
  {
    match e
    case Not(a) => EvalAgrees(k, m1, m2, a, c);
    case Bin(_, l, r) =>
      EvalAgrees(k, m1, m2, l, c);
      EvalAgrees(k, m1, m2, r, c);
    case Sym(s) => ValueAgrees(k, m1, m2, s, c);
    case Equal(a, b) =>
      ValueAgrees(k, m1, m2, a, c);
      ValueAgrees(k, m1, m2, b, c);
    case Unequal(a, b) =>
      ValueAgrees(k, m1, m2, a, c);
      ValueAgrees(k, m1, m2, b, c);
  }

  lemma ConditionAgrees(k: Table, m1: Model, m2: Model, e: ExprPtr, none: Tri, c: set<Symbol>)
    requires AgreeOn(m1, m2, c) && PtrSyms(e) <= c
    ensures Condition(e, none, ValuationOf(k, m1)) == Condition(e, none, ValuationOf(k, m2))
  {
    if e.Some? {
      EvalAgrees(k, m1, m2, e.value, c);
    }
  }

  lemma PropSymsIncluded(d: Def, i: nat)
    requires i < |d.props|
    ensures PropSyms(d.props[i]) <= DefSyms(d)
  {
  }

  lemma {:induction false} PromptsAgree(k: Table, m1: Model, m2: Model, d: Def, i: nat)
    requires AgreeOn(m1, m2, DefSyms(d)) && i <= |d.props|
    ensures Prompts(d.props, i, ValuationOf(k, m1)) == Prompts(d.props, i, ValuationOf(k, m2))
  {
    if i > 0 {
      PromptsAgree(k, m1, m2, d, i - 1);
      PropSymsIncluded(d, i - 1);
      if d.props[i - 1].kind == PromptProp {
        ConditionAgrees(k, m1, m2, d.props[i - 1].visible, YES, DefSyms(d));
      }
    }
  }

  lemma {:induction false} DefaultAgrees(k: Table, m1: Model, m2: Model, d: Def, i: nat)
    requires AgreeOn(m1, m2, DefSyms(d)) && i <= |d.props|
    ensures DefaultFrom(d.props, i, ValuationOf(k, m1)) == DefaultFrom(d.props, i, ValuationOf(k, m2))
    ensures var r := DefaultFrom(d.props, i, ValuationOf(k, m1)); r.Some? ==> PtrSyms(r.value.0) <= DefSyms(d)
    decreases |d.props| - i
  {
    if i < |d.props| {
      DefaultAgrees(k, m1, m2, d, i + 1);
      PropSymsIncluded(d, i);
      if d.props[i].kind == DefaultProp {
        ConditionAgrees(k, m1, m2, d.props[i].visible, YES, DefSyms(d));
      }
    }
  }

  /** What a symbol takes from the symbols it refers to, its user value aside. */
  lemma InputsAgree(k: Table, m1: Model, m2: Model, s: Symbol)
    requires s in k.defs && AgreeOn(m1, m2, DefSyms(k.defs[s]))
    ensures VisibleOf(k, ValuationOf(k, m1), s) == VisibleOf(k, ValuationOf(k, m2), s)
    ensures RevOf(k, ValuationOf(k, m1), s) == RevOf(k, ValuationOf(k, m2), s)
    ensures DirOf(k, ValuationOf(k, m1), s) == DirOf(k, ValuationOf(k, m2), s)
    ensures DefaultOf(k, ValuationOf(k, m1), s) == DefaultOf(k, ValuationOf(k, m2), s)
    ensures DefaultTri(k, ValuationOf(k, m1), s) == DefaultTri(k, ValuationOf(k, m2), s)
    ensures DefaultVal(k, m1, s) == DefaultVal(k, m2, s)
  {
    var d := k.defs[s];
    PromptsAgree(k, m1, m2, d, |d.props|);
    ConditionAgrees(k, m1, m2, d.revDep, NO, DefSyms(d));
    ConditionAgrees(k, m1, m2, d.dirDep, YES, DefSyms(d));
    DefaultAgrees(k, m1, m2, d, 0);
    var r := DefaultOf(k, ValuationOf(k, m1), s);
    if r.Some? {
      ConditionAgrees(k, m1, m2, r.value.0, YES, DefSyms(d));
      if DefaultSymbol(r.value.0).Some? {
        ValueAgrees(k, m1, m2, DefaultSymbol(r.value.0).value, DefSyms(d));
      }
    }
  }

  lemma FactsAgree(k: Table, u1: UserValues, u2: UserValues, m1: Model, m2: Model, s: Symbol)
    requires s in k.defs && s.Config? && AgreeOn(m1, m2, DefSyms(k.defs[s]))
    requires UserOf(u1, s) == UserOf(u2, s)
    ensures FactsFrom(k, u1, m1, s) == FactsFrom(k, u2, m2, s)
  {
    InputsAgree(k, m1, m2, s);
  }

  /** Everything the symbols of `c` refer to is in `c` again. */
  ghost predicate Closed(k: Table, c: set<Symbol>) {
    forall s | s in c :: s in k.defs && DefSyms(k.defs[s]) <= c
  }

  /** Solutions whose user values coincide on a closed set coincide there. */
  lemma {:induction false} SolutionsAgreeBelow(k: Table, u1: UserValues, u2: UserValues, m1: Model, m2: Model,
                                               c: set<Symbol>, n: nat)
    requires Acyclic(k) && Solves(k, u1, m1) && Solves(k, u2, m2)
    requires Closed(k, c)
    requires forall s | s in c && k.order[s] < n :: UserOf(u1, s) == UserOf(u2, s)
    ensures AgreeOn(m1, m2, c * BelowSet(k, n))
  {
    if n > 0 {
      SolutionsAgreeBelow(k, u1, u2, m1, m2, c, n - 1);
      forall s | s in c * BelowSet(k, n)
        ensures s in m1 && s in m2 && m1[s] == m2[s]
      {
        assert DefBelow(k, k.defs[s], k.order[s]);
        DefBelowSyms(k, k.defs[s], k.order[s]);
        assert m1[s] == FactsFrom(k, u1, m1, s) && m2[s] == FactsFrom(k, u2, m2, s);
        FactsAgree(k, u1, u2, m1, m2, s);
      }
    }
  }

  lemma AllClosed(k: Table)
    requires Acyclic(k)
    ensures Closed(k, k.defs.Keys)
  {
    forall s | s in k.defs
      ensures DefSyms(k.defs[s]) <= k.defs.Keys
    {
      assert DefBelow(k, k.defs[s], k.order[s]);
      DefBelowSyms(k, k.defs[s], k.order[s]);
    }
  }

  lemma SolutionsAgree(k: Table, u1: UserValues, u2: UserValues, m1: Model, m2: Model, n: nat)
    requires Acyclic(k) && Solves(k, u1, m1) && Solves(k, u2, m2)
    requires forall s | s in k.defs && k.order[s] < n :: UserOf(u1, s) == UserOf(u2, s)
    ensures AgreeOn(m1, m2, BelowSet(k, n))
  {
    AllClosed(k);
    SolutionsAgreeBelow(k, u1, u2, m1, m2, k.defs.Keys, n);
    assert k.defs.Keys * BelowSet(k, n) == BelowSet(k, n);
  }

  ghost function Bound(k: Table, symbols: set<Symbol>): (n: nat)
    requires Acyclic(k) && symbols <= k.defs.Keys
    ensures forall s | s in symbols :: k.order[s] < n
  {
    if symbols == {} then 0
    else
      var s :| s in symbols;
      var rest := Bound(k, symbols - {s});
      if k.order[s] < rest then rest else k.order[s] + 1
  }

  lemma SolutionUnique(k: Table, u: UserValues, m1: Model, m2: Model)
    requires Acyclic(k) && Solves(k, u, m1) && Solves(k, u, m2)
    ensures m1 == m2
  {
    SolutionsAgree(k, u, u, m1, m2, Bound(k, k.defs.Keys));
  }

  /** Adds the symbols numbered n - 1 to a model of those below. */
  ghost function Extend(k: Table, u: UserValues, below: Model, n: nat): (m: Model)
    requires Acyclic(k) && n > 0
    requires below.Keys == set s | s in k.defs && k.order[s] < n - 1
    ensures m.Keys == set s | s in k.defs && k.order[s] < n
    ensures forall s | s in m :: s.Config?
    ensures forall s | s in below :: m[s] == below[s]
    ensures forall s | s in m && s !in below :: m[s] == FactsFrom(k, u, below, s)
  {
    assert forall s | s in k.defs :: DefBelow(k, k.defs[s], k.order[s]);
    map s | s in k.defs && k.order[s] < n ::
      if k.order[s] < n - 1 then below[s] else FactsFrom(k, u, below, s)
  }

  lemma ExtendSolves(k: Table, u: UserValues, below: Model, n: nat, all: Model, s: Symbol)
    requires Acyclic(k) && n > 0
    requires below.Keys == set t | t in k.defs && k.order[t] < n - 1
    requires all == Extend(k, u, below, n) && s in all && s.Config?
    requires s in below ==> below[s] == FactsFrom(k, u, below, s)
    ensures all[s] == FactsFrom(k, u, all, s)
  {
    assert DefBelow(k, k.defs[s], k.order[s]);
    DefBelowSyms(k, k.defs[s], k.order[s]);
    FactsAgree(k, u, u, below, all, s);
  }

  /** The solution restricted to the symbols numbered below `n`. */
  lemma {:induction false} SolutionBelow(k: Table, u: UserValues, n: nat) returns (m: Model)
    requires Acyclic(k)
    ensures m.Keys == set s | s in k.defs && k.order[s] < n
    ensures forall s {:trigger FactsFrom(k, u, m, s)} | s in m :: s.Config? && m[s] == FactsFrom(k, u, m, s)
  {
    if n == 0 {
      m := map[];
    } else {
      var below := SolutionBelow(k, u, n - 1);
      m := Extend(k, u, below, n);
      forall s | s in m
        ensures s.Config? && m[s] == FactsFrom(k, u, m, s)
      {
        assert s in below ==> below[s] == FactsFrom(k, u, below, s);
        ExtendSolves(k, u, below, n, m, s);
      }
    }
  }

  lemma SolutionExists(k: Table, u: UserValues) returns (m: Model)
    requires Acyclic(k)
    ensures Solves(k, u, m)
  {
    m := SolutionBelow(k, u, Bound(k, k.defs.Keys));
    assert m.Keys == k.defs.Keys;
    forall s | s in k.defs
      ensures s.Config? && m[s] == FactsFrom(k, u, m, s)
    {
      assert DefBelow(k, k.defs[s], k.order[s]);
    }
  }

  /** A solution gives the expressions the kind of valuation the simplifier
      relies on, and without modules no declared symbol is m. */
  lemma SolutionWellFormed(k: Table, u: UserValues, m: Model)
    requires Solves(k, u, m)
    ensures WellFormed(ValuationOf(k, m))
    ensures k.modules == NO ==> forall s | s in k.defs && s.IsLogical() :: m[s].curr.tri != MOD
  {
    var v := ValuationOf(k, m);
    forall s: Symbol | s in m && s.IsLogical()
      ensures s.Type() == Boolean || k.modules == NO ==> m[s].curr.tri != MOD
    {
      assert m[s] == FactsFrom(k, u, m, s);
    }
    forall s: Symbol ensures s.IsLogical() ==> v.str(s) == TriString(v.tri(s)) {
    }
  }
}
