/** What a change of a user value does to a configuration
    (sym_tristate_within_range and sym_set_tristate_value of symbol.c). */
module UserChanges {
  import opened Tristate
  import opened Expr
  import opened Kconfig
  import opened Solutions

  /** sym_tristate_within_range for a symbol outside choices. */
  predicate WithinRange(s: Symbol, modules: Tri, f: Facts, val: Tri) {
    var t := EffectiveType(s, modules);
    && f.visible != NO
    && (t == Boolean || t == TristateType)
    && !(t == Boolean && val == MOD)
    && f.visible > f.rev
    && f.rev <= val <= f.visible
  }

  /** The user values after `val` was stored for `s`. */
  function Assign(u: UserValues, s: Symbol, val: Tri): UserValues {
    u[s := UserValue(val, if s in u then u[s].val else "")]
  }

  /** Assigning a user value changes nothing the symbol itself depends on. */
  lemma InputsKept(k: Table, u: UserValues, m: Model, m': Model, s: Symbol, val: Tri)
    requires Acyclic(k) && s in k.defs && s.Config? && s.IsLogical()
    requires Solves(k, u, m) && Solves(k, Assign(u, s, val), m')
    ensures s in m && s in m'
    ensures m'[s].visible == m[s].visible && m'[s].rev == m[s].rev && m'[s].dir == m[s].dir
    ensures DefaultTri(k, ValuationOf(k, m'), s) == DefaultTri(k, ValuationOf(k, m), s)
  {
    var n := k.order[s];
    SolutionsAgree(k, u, Assign(u, s, val), m, m', n);
    assert DefBelow(k, k.defs[s], n);
    DefBelowSyms(k, k.defs[s], n);
    InputsAgree(k, m, m', s);
    SolvedVisibility(k, u, m, s);
    SolvedVisibility(k, Assign(u, s, val), m', s);
  }

  /** An accepted value is what the symbol evaluates to afterwards. */
  lemma AcceptedIsHonoured(k: Table, u: UserValues, m: Model, m': Model, s: Symbol, val: Tri)
    requires Acyclic(k) && s in k.defs && s.Config?
    requires Solves(k, u, m) && Solves(k, Assign(u, s, val), m')
    requires WithinRange(s, k.modules, m[s], val)
    ensures s in m' && m'[s].curr.tri == val
  {
    InputsKept(k, u, m, m', s, val);
    SolvedLogical(k, Assign(u, s, val), m', s);
  }

  /** Where selects leave a choice, the values in range are exactly those that the symbol
      would evaluate to: no value is refused that the user could have. */
  lemma InRangeIffHonoured(k: Table, u: UserValues, m: Model, m': Model, s: Symbol, val: Tri)
    requires Acyclic(k) && s in k.defs && s.Config? && s.IsLogical()
    requires Solves(k, u, m) && Solves(k, Assign(u, s, val), m')
    ensures s in m && s in m'
    ensures WithinRange(s, k.modules, m[s], val) <==> m[s].visible > m[s].rev && m'[s].curr.tri == val
  {
    InputsKept(k, u, m, m', s, val);
    SolvedLogical(k, Assign(u, s, val), m', s);
    SolvedVisibility(k, u, m, s);
  }

  /** Every symbol in a set closed under reference that leaves `s` out, and hence
      every symbol that does not reach `s`, keeps all its facts. */
  lemma UnreachingKept(k: Table, u: UserValues, m: Model, m': Model, s: Symbol, val: Tri, c: set<Symbol>)
    requires Acyclic(k) && s !in c && Closed(k, c)
    requires Solves(k, u, m) && Solves(k, Assign(u, s, val), m')
    ensures AgreeOn(m, m', c)
  {
    var n := Bound(k, k.defs.Keys);
    SolutionsAgreeBelow(k, u, Assign(u, s, val), m, m', c, n);
    assert c * BelowSet(k, n) == c;
  }

  /** The value a logical symbol has agrees with its visibility and selects. */
  predicate WithinBounds(f: Facts) {
    f.visible == NO || f.curr.tri <= Or(f.visible, f.rev)
  }

  /** The source also accepts the value a symbol already has, without looking at
      its range.  The next evaluation keeps that value exactly if the symbol is
      invisible or the value lies within what visibility and selects allow; a
      default above both is lost. */
  lemma ConfirmedKeptIff(k: Table, u: UserValues, m: Model, m': Model, s: Symbol)
    requires Acyclic(k) && s in k.defs && s.Config? && s.IsLogical()
    requires Solves(k, u, m) && Solves(k, Assign(u, s, m[s].curr.tri), m')
    ensures s in m && s in m'
    ensures m'[s].curr.tri == m[s].curr.tri <==> WithinBounds(m[s])
  {
    var u' := Assign(u, s, m[s].curr.tri);
    InputsKept(k, u, m, m', s, m[s].curr.tri);
    SolvedLogical(k, u, m, s);
    SolvedLogical(k, u', m', s);
    SolvedVisibility(k, u, m, s);
  }

  /** The same for the whole configuration: it stays a solution exactly then. */
  lemma ConfirmedSolvesIff(k: Table, u: UserValues, m: Model, s: Symbol)
    requires Acyclic(k) && Solves(k, u, m) && s in k.defs && s.IsLogical()
    ensures s in m
    ensures Solves(k, Assign(u, s, m[s].curr.tri), m) <==> WithinBounds(m[s])
  {
    var u' := Assign(u, s, m[s].curr.tri);
    assert m[s] == FactsFrom(k, u, m, s);
    forall t | t in k.defs && t != s
      ensures t.Config? && m[t] == FactsFrom(k, u', m, t)
    {
      assert DefBelow(k, k.defs[t], k.order[t]);
      OtherFacts(k, u, u', m, t);
    }
    assert m[s] == FactsFrom(k, u', m, s) <==> WithinBounds(m[s]);
  }

  lemma OtherFacts(k: Table, u: UserValues, u': UserValues, m: Model, t: Symbol)
    requires Solves(k, u, m) && t in k.defs && t.Config? && UserOf(u', t) == UserOf(u, t)
    ensures m[t] == FactsFrom(k, u', m, t)
  {
    assert m[t] == FactsFrom(k, u, m, t);
  }

  /** A table with one symbol whose confirmed value is lost: prompt at m, default y,
      no user value. */
  lemma ConfirmedLost(s: Symbol, k: Table, m: Model, m': Model)
    requires s.Config? && s.Type() == TristateType
    requires k == Table(map[s := Def([Prop(PromptProp, Some(Sym(ConstMod)), None),
                                      Prop(DefaultProp, None, Some(YES_EXPR))],
                                     None, None)], YES, map[s := 0])
    requires Solves(k, map[], m)
    ensures Acyclic(k) && s in m && m[s].curr.tri == YES && !WithinBounds(m[s])
    ensures Solves(k, Assign(map[], s, YES), m') ==> s in m' && m'[s].curr.tri == MOD
  {
    var props, v := k.defs[s].props, ValuationOf(k, m);
    assert DefBelow(k, k.defs[s], 0);
    assert Acyclic(k);
    SolvedVisibility(k, map[], m, s);
    assert Prompts(props, 0, v) == NO && Prompts(props, 1, v) == MOD && Prompts(props, 2, v) == MOD;
    assert DefaultFrom(props, 0, v) == DefaultFrom(props, 1, v) == Some((Some(YES_EXPR), YES));
    SolvedLogical(k, map[], m, s);
    if Solves(k, Assign(map[], s, YES), m') {
      InputsKept(k, map[], m, m', s, YES);
      SolvedLogical(k, Assign(map[], s, YES), m', s);
    }
  }
}
