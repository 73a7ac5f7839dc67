/** What finalization says of the declared menu tree: what an entry inherits from the
    entries above it, and what selects and definitions mean for the symbols (menu.c). */
module MenuMeaning {
  import opened Tristate
  import opened Expr
  import opened Kconfig
  import opened MenuState
  import opened MenuTree

  // ----- dependencies along the declared tree -----

  /** `x` was declared somewhere below `p`. */
  ghost predicate DeclaredBelow(f: Forest, p: Entry, x: Entry) {
    match f
    case Empty => false
    case Node(e, kids, rest) =>
      (e == p && x in Preorder(kids)) || DeclaredBelow(kids, p, x) || DeclaredBelow(rest, p, x)
  }

  /** The dependency of the entry or the condition of its prompt is n. */
  ghost predicate IsOff(i: Info, d: Data, v: Valuation) {
    || EvalPtr(d.dep, v) == NO
    || (i.prompt.Some? && i.prompt.value < |d.props| && EvalPtr(d.props[i.prompt.value].visible, v) == NO)
  }

  /** Nothing of the entry is in force. */
  ghost predicate AllOff(d: Data, v: Valuation) {
    && EvalPtr(d.dep, v) == NO
    && forall i {:trigger d.props[i]} | 0 <= i < |d.props| :: EvalPtr(d.props[i].visible, v) == NO
  }

  lemma RestrictedOff(sym: Option<Symbol>, basedep: ExprPtr, p: Prop, q: Prop, v: Valuation)
    requires WellFormed(v) && Restricted(sym, basedep, p, q)
    ensures EvalPtr(basedep, v) == NO || EvalPtr(p.visible, v) == NO ==> EvalPtr(q.visible, v) == NO
  {
  }

  /** An entry inherits that its parent is n. */
  lemma InheritsOff(sym: Option<Symbol>, parentdep: ExprPtr, a: Data, b: Data, v: Valuation)
    requires WellFormed(v) && Inherits(sym, parentdep, a, b)
    ensures EvalPtr(parentdep, v) == NO || EvalPtr(b.dep, v) == NO ==> AllOff(b, v)
  {
    assert Sharpens(And(EvalPtr(parentdep, v), EvalPtr(a.dep, v)), EvalPtr(b.dep, v));
    forall i | 0 <= i < |b.props|
      ensures EvalPtr(b.dep, v) == NO ==> EvalPtr(b.props[i].visible, v) == NO
    {
      assert Restricted(sym, b.dep, a.props[i], b.props[i]);
      RestrictedOff(sym, b.dep, a.props[i], b.props[i], v);
    }
  }

  /** Under a dependency that is n everything is. */
  lemma {:induction false} InheritedOff(info: map<Entry, Info>, a: map<Entry, Data>, b: map<Entry, Data>, f: Forest,
                                        parentdep: ExprPtr, x: Entry, v: Valuation)
    requires WellFormed(v) && Inherited(info, a, b, f, parentdep) && x in Preorder(f) && EvalPtr(parentdep, v) == NO
    ensures x in b && AllOff(b[x], v)
  {
    var e := f.entry;
    InheritsOff(info[e].sym, parentdep, a[e], b[e], v);
    if x in Preorder(f.kids) {
      InheritedOff(info, a, b, f.kids, DepOf(info[e], b[e]), x, v);
    } else if x != e {
      InheritedOff(info, a, b, f.rest, parentdep, x, v);
    }
  }

  /** Where an entry or its prompt is off, nothing declared below it is in force, in
      however many levels. */
  lemma {:induction false} OffBelow(info: map<Entry, Info>, a: map<Entry, Data>, b: map<Entry, Data>, f: Forest,
                                    parentdep: ExprPtr, p: Entry, x: Entry, v: Valuation)
    requires WellFormed(v) && Inherited(info, a, b, f, parentdep) && DeclaredBelow(f, p, x)
    requires p in info && p in b && IsOff(info[p], b[p], v)
    ensures x in b && AllOff(b[x], v)
  {
    var e := f.entry;
    if e == p && x in Preorder(f.kids) {
      InheritsOff(info[e].sym, parentdep, a[e], b[e], v);
      InheritedOff(info, a, b, f.kids, DepOf(info[e], b[e]), x, v);
    } else if DeclaredBelow(f.kids, p, x) {
      OffBelow(info, a, b, f.kids, DepOf(info[e], b[e]), p, x, v);
    } else {
      OffBelow(info, a, b, f.rest, parentdep, p, x, v);
    }
  }

  // ----- selects -----

  /** The i-th property of the entry selects `t`. */
  ghost predicate SelectsTarget(d: Data, i: int, t: Symbol) {
    0 <= i < |d.props| && d.props[i].kind == SelectProp && d.props[i].value == Some(Sym(t))
  }

  /** The entry of a symbol selects `t`, and both the symbol and the condition of the
      select reach `x`. */
  ghost predicate SelectReaches(info: map<Entry, Info>, data: map<Entry, Data>, e: Entry, t: Symbol, v: Valuation,
                                x: Tri) {
    && e in info && e in data && info[e].sym.Some? && v.tri(info[e].sym.value) >= x
    && exists i :: SelectsTarget(data[e], i, t) && EvalPtr(data[e].props[i].visible, v) >= x
  }

  lemma SelectReasonIff(s: Symbol, p: Prop, t: Symbol, v: Valuation, x: Tri)
    requires WellFormed(v) && x != NO
    ensures (exists r :: r in SelectReason(Some(s), p) && r.target == t && Condition(r.why, NO, v) >= x)
       <==> p.kind == SelectProp && p.value == Some(Sym(t)) && v.tri(s) >= x && EvalPtr(p.visible, v) >= x
  {
    AllocAndValue(Some(Sym(s)), p.visible, v);
    var rs := SelectReason(Some(s), p);
    if rs != [] {
      assert rs[0] in rs && forall r | r in rs :: r == rs[0];
    }
  }

  lemma {:induction false} SelectReasonsIff(s: Symbol, props: seq<Prop>, t: Symbol, v: Valuation, x: Tri)
    requires WellFormed(v) && x != NO
    ensures (exists r :: r in SelectReasons(Some(s), props) && r.target == t && Condition(r.why, NO, v) >= x)
       <==> && v.tri(s) >= x
            && exists i :: 0 <= i < |props| && props[i].kind == SelectProp && props[i].value == Some(Sym(t))
                           && EvalPtr(props[i].visible, v) >= x
  {
    if props != [] {
      var n := |props| - 1;
      SelectReasonsIff(s, props[..n], t, v, x);
      SelectReasonIff(s, props[n], t, v, x);
      assert forall i | 0 <= i < n :: props[..n][i] == props[i];
    }
  }

  lemma EntrySelectsIff(info: map<Entry, Info>, data: map<Entry, Data>, e: Entry, t: Symbol, v: Valuation, x: Tri)
    requires WellFormed(v) && x != NO
    ensures (exists r :: r in EntrySelects(info, data, e) && r.target == t && Condition(r.why, NO, v) >= x)
       <==> SelectReaches(info, data, e, t, v, x)
  {
    if e in info && e in data {
      var rs := SelectReasons(info[e].sym, data[e].props);
      assert forall r :: r in multiset(rs) <==> r in rs;
      if info[e].sym.Some? {
        SelectReasonsIff(info[e].sym.value, data[e].props, t, v, x);
        var props := data[e].props;
        assert forall i :: SelectsTarget(data[e], i, t)
                      <==> 0 <= i < |props| && props[i].kind == SelectProp && props[i].value == Some(Sym(t));
      } else {
        NoSymbolNoSelects(data[e].props);
      }
    }
  }

  lemma {:induction false} NoSymbolNoSelects(props: seq<Prop>)
    ensures SelectReasons(None, props) == []
  {
    if props != [] {
      NoSymbolNoSelects(props[..|props| - 1]);
    }
  }

  ghost predicate SomeReason(m: multiset<Reason>, t: Symbol, v: Valuation, x: Tri) {
    exists r :: r in m && r.target == t && Condition(r.why, NO, v) >= x
  }

  ghost predicate SomeEntry(info: map<Entry, Info>, data: map<Entry, Data>, s: seq<Entry>, t: Symbol, v: Valuation,
                            x: Tri) {
    exists e :: e in s && SelectReaches(info, data, e, t, v, x)
  }

  lemma SomeEntryOfNode(info: map<Entry, Info>, data: map<Entry, Data>, f: Forest, t: Symbol, v: Valuation, x: Tri)
    requires f.Node?
    ensures SomeEntry(info, data, Preorder(f), t, v, x)
       <==> || SelectReaches(info, data, f.entry, t, v, x) || SomeEntry(info, data, Preorder(f.kids), t, v, x)
            || SomeEntry(info, data, Preorder(f.rest), t, v, x)
  {
    assert forall e :: e in Preorder(f) <==> e == f.entry || e in Preorder(f.kids) || e in Preorder(f.rest);
  }

  lemma {:induction false} SelectsIff(info: map<Entry, Info>, data: map<Entry, Data>, f: Forest, t: Symbol,
                                      v: Valuation, x: Tri)
    requires WellFormed(v) && x != NO
    ensures SomeReason(Selects(info, data, f), t, v, x) <==> SomeEntry(info, data, Preorder(f), t, v, x)
  {
    if f.Node? {
      EntrySelectsIff(info, data, f.entry, t, v, x);
      SelectsIff(info, data, f.kids, t, v, x);
      SelectsIff(info, data, f.rest, t, v, x);
      SomeEntryOfNode(info, data, f, t, v, x);
    }
  }

  /** The reverse dependency of a symbol reaches `x` exactly if some entry selects it
      with a symbol and a condition that do. */
  lemma ReverseDependencyIff(info: map<Entry, Info>, st: State, f: Forest, t: Symbol, v: Valuation, x: Tri)
    requires WellFormed(v) && x != NO && Added(map[], st.revDep, Selects(info, st.data, f))
    ensures Condition(ReasonFor(st.revDep, t), NO, v) >= x
       <==> exists e :: e in Preorder(f) && SelectReaches(info, st.data, e, t, v, x)
  {
    AddedValue(map[], st.revDep, Selects(info, st.data, f), t, v, x);
    SelectsIff(info, st.data, f, t, v, x);
    assert SomeEntry(info, st.data, Preorder(f), t, v, x)
      <==> exists e :: e in Preorder(f) && SelectReaches(info, st.data, e, t, v, x);
  }

  // ----- direct dependencies -----

  /** The entry was declared without children. */
  ghost predicate DeclaredLeaf(f: Forest, x: Entry) {
    match f
    case Empty => false
    case Node(e, kids, rest) => (e == x && kids.Empty?) || DeclaredLeaf(kids, x) || DeclaredLeaf(rest, x)
  }

  lemma {:induction false} LeafDepsIff(info: map<Entry, Info>, data: map<Entry, Data>, f: Forest, r: Reason)
    ensures r in LeafDeps(info, data, f)
       <==> exists e :: DeclaredLeaf(f, e) && e in info && e in data && info[e].sym == Some(r.target)
                        && r.why == data[e].dep
  {
    if f.Node? {
      LeafDepsIff(info, data, f.kids, r);
      LeafDepsIff(info, data, f.rest, r);
      assert forall e ::
          DeclaredLeaf(f, e) <==> (e == f.entry && f.kids.Empty?) || DeclaredLeaf(f.kids, e) || DeclaredLeaf(f.rest, e);
    }
  }

  /** The direct dependency of a symbol reaches `x` exactly if some definition without
      declared children has a dependency, and one that does. */
  lemma DirectDependencyIff(info: map<Entry, Info>, st: State, f: Forest, s: Symbol, v: Valuation, x: Tri)
    requires x != NO && Added(map[], st.dirDep, LeafDeps(info, st.data, f))
    ensures Condition(ReasonFor(st.dirDep, s), NO, v) >= x
       <==> exists e :: LeafReach(info, st.data, f, e, s, v, x)
  {
    AddedValue(map[], st.dirDep, LeafDeps(info, st.data, f), s, v, x);
    LeafReaches(info, st.data, f, s, v, x);
  }

  lemma LeafReaches(info: map<Entry, Info>, data: map<Entry, Data>, f: Forest, s: Symbol, v: Valuation, x: Tri)
    requires x != NO
    ensures (exists r :: r in LeafDeps(info, data, f) && r.target == s && Condition(r.why, NO, v) >= x)
       <==> exists e :: LeafReach(info, data, f, e, s, v, x)
  {
    if r :| r in LeafDeps(info, data, f) && r.target == s && Condition(r.why, NO, v) >= x {
      var e := LeafOfReason(info, data, f, s, v, x, r);
    }
    if e :| LeafReach(info, data, f, e, s, v, x) {
      LeafDepsIff(info, data, f, Reason(s, data[e].dep));
    }
  }

  ghost predicate LeafReach(info: map<Entry, Info>, data: map<Entry, Data>, f: Forest, e: Entry, s: Symbol,
                            v: Valuation, x: Tri) {
    && DeclaredLeaf(f, e) && e in info && e in data && info[e].sym == Some(s)
    && data[e].dep.Some? && EvalPtr(data[e].dep, v) >= x
  }

  lemma LeafOfReason(info: map<Entry, Info>, data: map<Entry, Data>, f: Forest, s: Symbol, v: Valuation, x: Tri,
                     r: Reason) returns (e: Entry)
    requires x != NO && r in LeafDeps(info, data, f) && r.target == s && Condition(r.why, NO, v) >= x
    ensures LeafReach(info, data, f, e, s, v, x)
  {
    LeafDepsIff(info, data, f, r);
    e :| DeclaredLeaf(f, e) && e in info && e in data && info[e].sym == Some(r.target) && r.why == data[e].dep;
  }
}
