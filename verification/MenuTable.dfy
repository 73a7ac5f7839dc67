/** From the menus to the symbols: the symbol table that finalization leaves behind, and
    the check of its dependencies at the end of conf_parse (zconf.y). */
module MenuTable {
  import opened Tristate
  import opened Expr
  import opened Kconfig
  import opened DepCheck
  import opened DepOrder
  import opened MenuFinalize
  import opened MenuState
  import opened MenuTree

  // ----- the table -----

  function EntryProps(info: map<Entry, Info>, data: map<Entry, Data>, e: Entry, s: Symbol): seq<Prop> {
    if e in info && e in data && info[e].sym == Some(s) then data[e].props else []
  }

  /** The properties of a symbol, entry by entry. */
  function PropsOf(info: map<Entry, Info>, data: map<Entry, Data>, order: seq<Entry>, s: Symbol): seq<Prop> {
    if order == [] then [] else
    PropsOf(info, data, order[..|order| - 1], s) + EntryProps(info, data, order[|order| - 1], s)
  }

  function TableDefs(info: map<Entry, Info>, st: State, order: seq<Entry>, symbols: seq<Symbol>): map<Symbol, Def> {
    map s | s in symbols :: Def(PropsOf(info, st.data, order, s), ReasonFor(st.dirDep, s), ReasonFor(st.revDep, s))
  }

  lemma {:induction false} PropsOfHas(info: map<Entry, Info>, data: map<Entry, Data>, order: seq<Entry>, e: Entry,
                                      s: Symbol, p: Prop)
    requires e in order && p in EntryProps(info, data, e, s)
    ensures p in PropsOf(info, data, order, s)
  {
    var n := |order| - 1;
    if order[n] != e {
      assert order == order[..n] + [order[n]];
      PropsOfHas(info, data, order[..n], e, s, p);
    }
  }

  lemma {:induction false} PropsOfFrom(info: map<Entry, Info>, data: map<Entry, Data>, order: seq<Entry>, s: Symbol,
                                       p: Prop) returns (e: Entry)
    requires p in PropsOf(info, data, order, s)
    ensures e in order && p in EntryProps(info, data, e, s)
  {
    var n := |order| - 1;
    e := order[n];
    if p !in EntryProps(info, data, e, s) {
      e := PropsOfFrom(info, data, order[..n], s, p);
    }
  }

  // ----- what a direct dependency names -----

  /** Symbols get into a dependency with one of the reasons added. */
  lemma {:induction false} AddAllSymbols(m: map<Symbol, ExprPtr>, rs: seq<Reason>, t: Symbol, x: Symbol)
    returns (r: Reason)
    requires ReasonFor(m, t).None? && x in PtrSymbols(ReasonFor(AddAll(m, rs), t))
    ensures r in rs && r.target == t && x in PtrSymbols(r.why)
  {
    var n := |rs| - 1;
    r := rs[n];
    if r.target != t || x !in PtrSymbols(r.why) {
      r := AddAllSymbols(m, rs[..n], t, x);
    }
  }

  lemma AddedSymbols(a: map<Symbol, ExprPtr>, b: map<Symbol, ExprPtr>, m: multiset<Reason>, t: Symbol, x: Symbol)
    returns (r: Reason)
    requires Added(a, b, m) && ReasonFor(a, t).None? && x in PtrSymbols(ReasonFor(b, t))
    ensures r in m && r.target == t && x in PtrSymbols(r.why)
  {
    var rs :| multiset(rs) == m && b == AddAll(a, rs);
    r := AddAllSymbols(a, rs, t, x);
    assert r in multiset(rs);
  }

  /** The reasons are the dependencies of the leaves. */
  lemma {:induction false} LeafReason(info: map<Entry, Info>, data: map<Entry, Data>, f: Forest, r: Reason)
    returns (e: Entry)
    requires r in LeafDeps(info, data, f)
    ensures e in Preorder(f) && e in info && e in data && info[e].sym == Some(r.target) && r.why == data[e].dep
  {
    e := f.entry;
    if !(f.kids.Empty? && r in LeafDep(info, data, e)) {
      if r in LeafDeps(info, data, f.kids) {
        e := LeafReason(info, data, f.kids, r);
      } else {
        e := LeafReason(info, data, f.rest, r);
      }
    }
  }

  /** The P_SYMBOL property that every entry of a symbol is declared with. */
  ghost predicate IsSymbolProp(p: Prop) {
    p.kind == SymbolProp && p.visible.None?
  }

  ghost predicate WellDeclared(i: Info, d: Data) {
    && (i.sym.Some? ==> i.sym.value.Config? && exists p :: p in d.props && IsSymbolProp(p))
    && (forall p | p in d.props && p.kind == DefaultProp :: p.value.Some?)
  }

  ghost predicate AllWellDeclared(info: map<Entry, Info>, data: map<Entry, Data>, f: Forest) {
    forall e | e in Preorder(f) && e in info && e in data :: WellDeclared(info[e], data[e])
  }

  lemma {:induction false} InheritedEntry(info: map<Entry, Info>, a: map<Entry, Data>, b: map<Entry, Data>, f: Forest,
                                          parentdep: ExprPtr, e: Entry)
    returns (dep: ExprPtr)
    requires Inherited(info, a, b, f, parentdep) && e in Preorder(f)
    ensures e in info && e in a && e in b && Inherits(info[e].sym, dep, a[e], b[e])
  {
    dep := parentdep;
    if e != f.entry {
      if e in Preorder(f.kids) {
        dep := InheritedEntry(info, a, b, f.kids, DepOf(info[f.entry], b[f.entry]), e);
      } else {
        dep := InheritedEntry(info, a, b, f.rest, parentdep, e);
      }
    }
  }

  /** The symbols of the dependency of an entry recur in the condition of its P_SYMBOL
      property. */
  lemma SymbolPropRecurs(sym: Option<Symbol>, parentdep: ExprPtr, i: Info, a: Data, b: Data, x: Symbol)
    returns (p: Prop)
    requires Inherits(sym, parentdep, a, b) && WellDeclared(i, a) && i.sym.Some?
    requires x.Config? && x in PtrSymbols(b.dep)
    ensures p in b.props && p.kind == SymbolProp && x in PtrSymbols(p.visible)
  {
    var q :| q in a.props && IsSymbolProp(q);
    var j :| 0 <= j < |a.props| && a.props[j] == q;
    assert Restricted(sym, b.dep, a.props[j], b.props[j]);
    p := b.props[j];
  }

  /** What finalization says of the declared tree. */
  ghost predicate FinalizedFrom(info: map<Entry, Info>, a: map<Entry, Data>, st: State, kids: Forest,
                                parentdep: ExprPtr) {
    && Inherited(info, a, st.data, kids, parentdep) && AllWellDeclared(info, a, kids)
    && Added(map[], st.dirDep, LeafDeps(info, st.data, kids))
  }

  /** Where a symbol of a direct dependency recurs. */
  lemma DirDepProp(info: map<Entry, Info>, a: map<Entry, Data>, st: State, kids: Forest, parentdep: ExprPtr,
                   s: Symbol, x: Symbol) returns (e: Entry, p: Prop)
    requires FinalizedFrom(info, a, st, kids, parentdep) && x.Config? && x in PtrSymbols(ReasonFor(st.dirDep, s))
    ensures e in Preorder(kids) && p in EntryProps(info, st.data, e, s)
    ensures p.kind == SymbolProp && x in PtrSymbols(p.visible)
  {
    var r := AddedSymbols(map[], st.dirDep, LeafDeps(info, st.data, kids), s, x);
    e := LeafReason(info, st.data, kids, r);
    var dep := InheritedEntry(info, a, st.data, kids, parentdep, e);
    p := SymbolPropRecurs(info[e].sym, dep, info[e], a[e], st.data[e], x);
  }

  lemma DirDepRecurs(info: map<Entry, Info>, a: map<Entry, Data>, st: State, kids: Forest, parentdep: ExprPtr,
                     symbols: seq<Symbol>, s: Symbol, x: Symbol)
    requires FinalizedFrom(info, a, st, kids, parentdep)
    requires s in symbols && x.Config? && x in PtrSymbols(ReasonFor(st.dirDep, s))
    ensures x in Deps(TableDefs(info, st, Preorder(kids), symbols), s)
  {
    var e, p := DirDepProp(info, a, st, kids, parentdep, s, x);
    PropsOfHas(info, st.data, Preorder(kids), e, s, p);
    SymbolPropFollowed(TableDefs(info, st, Preorder(kids), symbols), s, p, x);
  }

  lemma SymbolPropFollowed(defs: map<Symbol, Def>, s: Symbol, p: Prop, x: Symbol)
    requires s in defs && p in defs[s].props && p.kind == SymbolProp && x in PtrSymbols(p.visible)
    ensures x in Deps(defs, s)
  {
    var i :| 0 <= i < |defs[s].props| && defs[s].props[i] == p;
    PropDepsIncluded(defs, s, i);
  }

  lemma DefaultsKept(info: map<Entry, Info>, a: map<Entry, Data>, st: State, kids: Forest, parentdep: ExprPtr,
                     s: Symbol, p: Prop)
    requires FinalizedFrom(info, a, st, kids, parentdep)
    requires p in PropsOf(info, st.data, Preorder(kids), s) && p.kind == DefaultProp
    ensures p.value.Some?
  {
    var e := PropsOfFrom(info, st.data, Preorder(kids), s, p);
    var dep := InheritedEntry(info, a, st.data, kids, parentdep, e);
    var j :| 0 <= j < |st.data[e].props| && st.data[e].props[j] == p;
    assert Restricted(info[e].sym, st.data[e].dep, a[e].props[j], st.data[e].props[j]);
    assert WellDeclared(info[e], a[e]) && a[e].props[j] in a[e].props;
  }

  /** Every declared symbol that a property names is in the table. */
  ghost predicate Closed(defs: map<Symbol, Def>) {
    forall s, t | s in defs && t in Deps(defs, s) && t.Config? :: t in defs
  }

  /** So the table meets what numbering it by the finishing order of the check needs. */
  lemma FinalizedWellReferenced(info: map<Entry, Info>, a: map<Entry, Data>, st: State, kids: Forest,
                                parentdep: ExprPtr, symbols: seq<Symbol>)
    requires FinalizedFrom(info, a, st, kids, parentdep) && forall s | s in symbols :: s.Config?
    requires Closed(TableDefs(info, st, Preorder(kids), symbols))
    ensures WellReferenced(TableDefs(info, st, Preorder(kids), symbols))
  {
    var defs := TableDefs(info, st, Preorder(kids), symbols);
    forall s | s in defs
      ensures forall t | t in PtrSymbols(defs[s].dirDep) && t.Config? :: t in Deps(defs, s)
      ensures forall p | p in defs[s].props && p.kind == DefaultProp :: p.value.Some?
    {
      forall t | t in PtrSymbols(defs[s].dirDep) && t.Config? ensures t in Deps(defs, s) {
        DirDepRecurs(info, a, st, kids, parentdep, symbols, s, t);
      }
      forall p | p in defs[s].props && p.kind == DefaultProp ensures p.value.Some? {
        DefaultsKept(info, a, st, kids, parentdep, s, p);
      }
    }
  }

  // ----- the end of conf_parse -----

  /** The symbols the check can meet, constants included. */
  ghost function Universe(defs: map<Symbol, Def>): set<Symbol> {
    defs.Keys + set s, t | s in defs && t in Deps(defs, s) :: t
  }

  lemma UniverseClosed(defs: map<Symbol, Def>)
    ensures forall s | s in Universe(defs) :: Deps(defs, s) <= Universe(defs)
  {
  }

  /** The symbols can be numbered so that each refers only to smaller ones. */
  ghost predicate CanBeNumbered(defs: map<Symbol, Def>, modules: Tri) {
    exists order {:trigger Table(defs, modules, order)} :: Numbered(Table(defs, modules, order))
  }

  lemma NoCycleOnceNumbered(defs: map<Symbol, Def>, modules: Tri)
    requires CanBeNumbered(defs, modules)
    ensures !exists p :: IsCycle(defs, p)
  {
    var order :| Numbered(Table(defs, modules, order));
    forall p ensures !IsCycle(defs, p) {
      NumberedHasNoCycle(Table(defs, modules, order), p);
    }
  }

  /** The dependencies of all symbols are checked.  Without a report a table that is well
      referenced can be evaluated, and there is a report only if it cannot be numbered. */
  method CheckTable(defs: map<Symbol, Def>, symbols: seq<Symbol>, modules: Tri)
    returns (c: DepChecker, errors: nat, ghost k: Table)
    requires forall s :: s in defs <==> s in symbols
    ensures c.defs == defs && errors == 0 && (c.reports != [] <==> exists p :: IsCycle(defs, p))
    ensures c.reports == [] && WellReferenced(defs) ==> k.defs == defs && k.modules == modules && Numbered(k)
    ensures CanBeNumbered(defs, modules) ==> c.reports == []
  {
    UniverseClosed(defs);
    c := new DepChecker(defs, Universe(defs));
    errors := c.CheckAll(symbols);
    k := Table(defs, modules, map[]);
    if c.reports == [] && WellReferenced(defs) {
      k := UnreportedIsAcyclic(defs, modules, c.finished);
    }
    if CanBeNumbered(defs, modules) {
      NoCycleOnceNumbered(defs, modules);
    }
  }

  /** The menus are finalized and the dependencies of all symbols checked.  A recursion is
      reported exactly if the finalized table has a cycle; without a report the table can
      be evaluated. */
  method FinishParsing(m: MenuBuilder, root: Entry, symbols: seq<Symbol>, modules: Tri, ghost kids: Forest)
    returns (c: DepChecker, errors: nat, ghost k: Table)
    requires m.Valid() && m.log == [] && m.st.dirDep == map[]
    requires Linked(m.st.links, Node(root, kids, Empty), Null, Null) && FlatTop(m.st.data, Node(root, kids, Empty))
    requires root in m.info && m.info[root].sym.None? && AllWellDeclared(m.info, m.st.data, kids)
    requires forall s | s in symbols :: s.Config?
    modifies m
    ensures c.defs == TableDefs(m.info, m.st, Preorder(kids), symbols)
    ensures errors == 0 && (c.reports != [] <==> exists p :: IsCycle(c.defs, p))
    ensures c.reports == [] && Closed(c.defs) ==> k.defs == c.defs && k.modules == modules && Numbered(k)
    ensures CanBeNumbered(c.defs, modules) ==> c.reports == []
  {
    ghost var before := m.st.data;
    var visited;
    ghost var kids';
    visited, kids' := FinalizeMenus(m, root, kids);
    var defs := TableDefs(m.info, m.st, visited, symbols);
    if Closed(defs) {
      ParsedWellReferenced(m.info, before, m.st, root, kids, symbols);
    }
    c, errors, k := CheckTable(defs, symbols, modules);
  }

  lemma ParsedWellReferenced(info: map<Entry, Info>, a: map<Entry, Data>, st: State, root: Entry, kids: Forest,
                             symbols: seq<Symbol>)
    requires root in info && info[root].sym.None? && root in st.data && HasPrompt(info[root], st.data[root])
    requires AllWellDeclared(info, a, kids) && forall s | s in symbols :: s.Config?
    requires Inherited(info, a, st.data, kids, DepOf(info[root], st.data[root]))
    requires Added(map[], st.dirDep, LeafDeps(info, st.data, Node(root, kids, Empty)))
    requires Closed(TableDefs(info, st, Preorder(kids), symbols))
    ensures WellReferenced(TableDefs(info, st, Preorder(kids), symbols))
  {
    RootLeafDeps(info, st.data, root, kids);
    FinalizedWellReferenced(info, a, st, kids, DepOf(info[root], st.data[root]), symbols);
  }

  lemma RootLeafDeps(info: map<Entry, Info>, data: map<Entry, Data>, root: Entry, kids: Forest)
    requires root in info && info[root].sym.None?
    ensures LeafDeps(info, data, Node(root, kids, Empty)) == LeafDeps(info, data, kids)
  {
    assert LeafDeps(info, data, Empty) == multiset{};
  }
}
