/** What menu_finalize (menu.c) does to the expressions: how dependencies are
    inherited along the declared menu tree, and what every entry contributes to the
    reverse and direct dependencies of the symbols. */
module MenuState {
  import opened Tristate
  import opened Expr
  import opened ExprNormalForm
  import opened ExprDuplicates
  import opened Kconfig
  import opened MenuTree
  import opened Sequences

  /** What does not change: the symbol, which property is the prompt, and whether
      the prompt has a text. */
  datatype Info = Info(sym: Option<Symbol>, prompt: Option<nat>, hasText: bool)

  /** What finalization rewrites: the dependencies and the property conditions. */
  datatype Data = Data(dep: ExprPtr, props: seq<Prop>)

  /** Everything menu_finalize writes: the pointers, the expressions of the
      entries, and the reverse and direct dependencies of the symbols. */
  datatype State = State(links: Links, data: map<Entry, Data>,
                         revDep: map<Symbol, ExprPtr>, dirDep: map<Symbol, ExprPtr>)

  predicate HasPrompt(i: Info, d: Data) {
    i.prompt.Some? ==> i.prompt.value < |d.props|
  }

  ghost predicate ValidState(info: map<Entry, Info>, st: State) {
    && st.data.Keys == info.Keys
    && st.links.next.Keys == info.Keys && st.links.list.Keys == info.Keys && st.links.parent.Keys == info.Keys
    && forall e {:trigger st.data[e]} | e in info :: HasPrompt(info[e], st.data[e])
  }

  /** The dependency of an entry that the submenu test looks at and that its
      children inherit. */
  function DepOf(i: Info, d: Data): ExprPtr
    requires HasPrompt(i, d)
  {
    if i.prompt.Some? then d.props[i.prompt.value].visible else d.dep
  }

  predicate FlatPtr(e: ExprPtr) {
    e.Some? ==> NotsFlat(e.value)
  }

  predicate FlatData(d: Data) {
    FlatPtr(d.dep) && forall i {:trigger d.props[i]} | 0 <= i < |d.props| :: FlatPtr(d.props[i].visible)
  }

  // ----- inherited conditions -----

  /** `r` is the simplified conjunction of `a` and `b`. */
  ghost predicate Conjunction(a: ExprPtr, b: ExprPtr, r: ExprPtr) {
    forall v: Valuation | WellFormed(v) :: Sharpens(And(EvalPtr(a, v), EvalPtr(b, v)), EvalPtr(r, v))
  }

  /** expr_eliminate_dups(expr_alloc_and(expr_copy(a), expr_transform(b))). */
  function Conjoined(a: ExprPtr, b: ExprPtr): ExprPtr {
    WithoutDupsPtr(AllocAnd(a, TransformPtr(b)))
  }

  lemma ConjoinedMeaning(a: ExprPtr, b: ExprPtr)
    ensures Conjunction(a, b, Conjoined(a, b))
  {
    forall v: Valuation | WellFormed(v)
      ensures Sharpens(And(EvalPtr(a, v), EvalPtr(b, v)), EvalPtr(Conjoined(a, b), v))
    {
      if b.Some? {
        TransformMeaning(b.value, v);
      }
      AllocAndValue(a, TransformPtr(b), v);
      WithoutDupsPtrMeaning(AllocAnd(a, TransformPtr(b)), v);
    }
  }

  lemma ConjoinedFlat(a: ExprPtr, b: ExprPtr)
    requires FlatPtr(a)
    ensures FlatPtr(Conjoined(a, b))
  {
    if b.Some? {
      TransformNormal(b.value);
      NormalIsFlat(Transform(b.value));
    }
    var c := AllocAnd(a, TransformPtr(b));
    if c.Some? {
      WithoutDupsIrredundant(c.value);
    }
  }

  /** The expression was simplified already. */
  predicate Simplified(e: ExprPtr) {
    WithoutDupsPtr(e) == e
  }

  /** What is conjoined is simplified, and conjoining nothing to it changes nothing. */
  lemma ConjoinedSimplified(a: ExprPtr, b: ExprPtr)
    ensures Simplified(Conjoined(a, b))
    ensures Simplified(a) && b.None? ==> Conjoined(a, b) == a
  {
    var c := AllocAnd(a, TransformPtr(b));
    if c.Some? {
      WithoutDupsIdempotent(c.value);
    }
  }

  /** `r` is n where the conjunction is n, and not n where it is y; this is all that a
      symbol other than a tristate sees of the conditions of its own prompts and
      defaults.  The target of a select may see more of it (`BooleanConditions`). */
  ghost predicate SameOff(a: ExprPtr, b: ExprPtr, r: ExprPtr) {
    forall v: Valuation | WellFormed(v) ::
      var x := And(EvalPtr(a, v), EvalPtr(b, v));
      (x == NO ==> EvalPtr(r, v) == NO) && (x == YES ==> EvalPtr(r, v) != NO)
  }

  lemma TransBoolSameOff(a: ExprPtr, b: ExprPtr, r: ExprPtr)
    requires Conjunction(a, b, r) && FlatPtr(r)
    ensures SameOff(a, b, TransBoolPtr(r)) && FlatPtr(TransBoolPtr(r))
  {
    if r.Some? {
      TransBoolFlat(r.value);
    }
    forall v: Valuation | WellFormed(v)
      ensures var x := And(EvalPtr(a, v), EvalPtr(b, v)); var y := EvalPtr(TransBoolPtr(r), v);
              (x == NO ==> y == NO) && (x == YES ==> y != NO)
    {
      assert Sharpens(And(EvalPtr(a, v), EvalPtr(b, v)), EvalPtr(r, v));
      if r.Some? {
        TransBoolKeepsNo(r.value, v);
      }
    }
  }

  /** The same declared symbols occur in both. */
  ghost predicate SameDeclared(a: ExprPtr, b: ExprPtr) {
    forall s: Symbol | s.Config? :: s in PtrSymbols(a) <==> s in PtrSymbols(b)
  }

  lemma TransBoolSameDeclared(e: ExprPtr)
    ensures SameDeclared(TransBoolPtr(e), e)
  {
    if e.Some? {
      forall s: Symbol | s.Config? ensures s in PtrSymbols(TransBoolPtr(e)) <==> s in PtrSymbols(e) {
        TransBoolSymbols(e.value, s);
      }
    }
  }

  predicate UntestedPtr(e: ExprPtr) {
    e.Some? ==> Untested(e.value)
  }

  /** The symbol's own conditions are made boolean. */
  predicate IsTwoValued(sym: Option<Symbol>) {
    sym.Some? && sym.value.Type() != TristateType
  }

  /** The property `p` under the dependency `basedep`. */
  function RestrictedProp(sym: Option<Symbol>, basedep: ExprPtr, p: Prop): Prop {
    var dep := Conjoined(basedep, p.visible);
    p.(visible := if IsTwoValued(sym) then TransBoolPtr(dep) else dep)
  }

  /** What this says: the condition is the conjunction, as far as the symbol sees of it,
      and for a symbol other than a tristate it compares no tristate with n.  Without a
      condition of its own, as the P_SYMBOL property of an entry, it names the symbols
      of the dependency. */
  ghost predicate Restricted(sym: Option<Symbol>, basedep: ExprPtr, p: Prop, q: Prop) {
    && q == RestrictedProp(sym, basedep, p) && FlatPtr(q.visible)
    && (p.visible.None? ==> SameDeclared(q.visible, basedep))
    && if IsTwoValued(sym)
       then SameOff(basedep, p.visible, q.visible) && UntestedPtr(q.visible)
       else Conjunction(basedep, p.visible, q.visible)
  }

  lemma RestrictedMeaning(sym: Option<Symbol>, basedep: ExprPtr, p: Prop)
    requires FlatPtr(basedep) && Simplified(basedep)
    ensures Restricted(sym, basedep, p, RestrictedProp(sym, basedep, p))
  {
    var dep := Conjoined(basedep, p.visible);
    ConjoinedMeaning(basedep, p.visible);
    ConjoinedFlat(basedep, p.visible);
    ConjoinedSimplified(basedep, p.visible);
    if IsTwoValued(sym) {
      TransBoolSameOff(basedep, p.visible, dep);
      TransBoolSameDeclared(dep);
      if dep.Some? {
        TransBoolUntested(dep.value);
      }
    }
  }

  /** The entry data `b` are `a` under the dependency `parentdep` of the parent. */
  ghost predicate Inherits(sym: Option<Symbol>, parentdep: ExprPtr, a: Data, b: Data) {
    && b.dep == Conjoined(parentdep, a.dep) && FlatPtr(b.dep) && Conjunction(parentdep, a.dep, b.dep)
    && |b.props| == |a.props|
    && forall i | 0 <= i < |a.props| :: Restricted(sym, b.dep, a.props[i], b.props[i])
  }

  lemma InheritsFlat(sym: Option<Symbol>, parentdep: ExprPtr, a: Data, b: Data)
    requires Inherits(sym, parentdep, a, b)
    ensures FlatData(b)
  {
    forall i | 0 <= i < |b.props| ensures FlatPtr(b.props[i].visible) {
      assert Restricted(sym, b.dep, a.props[i], b.props[i]);
    }
  }

  // ----- reasons: what is or-ed to the dependencies of a symbol -----

  datatype Reason = Reason(target: Symbol, why: ExprPtr)

  function ReasonFor(m: map<Symbol, ExprPtr>, t: Symbol): ExprPtr {
    if t in m then m[t] else None
  }

  function AddOne(m: map<Symbol, ExprPtr>, r: Reason): map<Symbol, ExprPtr> {
    m[r.target := AllocOr(ReasonFor(m, r.target), r.why)]
  }

  function AddAll(m: map<Symbol, ExprPtr>, rs: seq<Reason>): map<Symbol, ExprPtr> {
    if rs == [] then m else AddOne(AddAll(m, rs[..|rs| - 1]), rs[|rs| - 1])
  }

  lemma {:induction false} AddAllAppend(m: map<Symbol, ExprPtr>, rs: seq<Reason>, qs: seq<Reason>)
    ensures AddAll(m, rs + qs) == AddAll(AddAll(m, rs), qs)
  {
    if qs == [] {
      assert rs + qs == rs;
    } else {
      var n := |qs| - 1;
      AddAllAppend(m, rs, qs[..n]);
      assert (rs + qs)[..|rs| + n] == rs + qs[..n];
    }
  }

  /** A symbol's dependency reaches `x` exactly if it did before or one of the
      reasons added for it does. */
  lemma {:induction false} AddAllValue(m: map<Symbol, ExprPtr>, rs: seq<Reason>, t: Symbol, v: Valuation, x: Tri)
    requires x != NO
    ensures Condition(ReasonFor(AddAll(m, rs), t), NO, v) >= x
       <==> Condition(ReasonFor(m, t), NO, v) >= x
            || exists r :: r in rs && r.target == t && Condition(r.why, NO, v) >= x
  {
    if rs != [] {
      var n := |rs| - 1;
      AddAllValue(m, rs[..n], t, v, x);
      assert rs == rs[..n] + [rs[n]];
    }
  }

  /** `b` is `a` with exactly the given reasons added, in some order. */
  ghost predicate Added(a: map<Symbol, ExprPtr>, b: map<Symbol, ExprPtr>, m: multiset<Reason>) {
    exists rs {:trigger AddAll(a, rs)} :: multiset(rs) == m && b == AddAll(a, rs)
  }

  lemma AddedNothing(a: map<Symbol, ExprPtr>)
    ensures Added(a, a, multiset{})
  {
    assert a == AddAll(a, []);
  }

  lemma AddedSeq(a: map<Symbol, ExprPtr>, rs: seq<Reason>)
    ensures Added(a, AddAll(a, rs), multiset(rs))
  {
  }

  lemma AddedOne(a: map<Symbol, ExprPtr>, r: Reason)
    ensures Added(a, AddOne(a, r), multiset{r})
  {
    assert [r][..0] == [];
    assert AddAll(a, [r]) == AddOne(a, r);
  }

  lemma AddedTrans(a: map<Symbol, ExprPtr>, b: map<Symbol, ExprPtr>, c: map<Symbol, ExprPtr>,
                   m: multiset<Reason>, n: multiset<Reason>)
    requires Added(a, b, m) && Added(b, c, n)
    ensures Added(a, c, m + n)
  {
    var rs :| multiset(rs) == m && b == AddAll(a, rs);
    var qs :| multiset(qs) == n && c == AddAll(b, qs);
    AddAllAppend(a, rs, qs);
    assert multiset(rs + qs) == m + n;
  }

  lemma AddedValue(a: map<Symbol, ExprPtr>, b: map<Symbol, ExprPtr>, m: multiset<Reason>, t: Symbol, v: Valuation,
                   x: Tri)
    requires Added(a, b, m) && x != NO
    ensures Condition(ReasonFor(b, t), NO, v) >= x
       <==> Condition(ReasonFor(a, t), NO, v) >= x
            || exists r :: r in m && r.target == t && Condition(r.why, NO, v) >= x
  {
    var rs :| multiset(rs) == m && b == AddAll(a, rs);
    AddAllValue(a, rs, t, v, x);
    assert forall r :: r in rs <==> r in multiset(rs);
  }

  // ----- direct dependencies of several definitions -----

  /** All reasons for `t` are unconditional. */
  predicate AllUnconditional(m: multiset<Reason>, t: Symbol) {
    forall r | r in m && r.target == t :: r.why.None?
  }

  predicate AllConditional(m: multiset<Reason>, t: Symbol) {
    forall r | r in m && r.target == t :: r.why.Some?
  }

  /** Some definition of `t` is in force, NULL being y: what a direct dependency is
      meant to say. */
  ghost predicate SomeInForce(m: multiset<Reason>, t: Symbol, v: Valuation) {
    exists r :: r in m && r.target == t && EvalPtr(r.why, v) != NO
  }

  ghost predicate SomeConditionalInForce(m: multiset<Reason>, t: Symbol, v: Valuation) {
    exists r :: r in m && r.target == t && r.why.Some? && EvalPtr(r.why, v) != NO
  }

  lemma {:induction false} AddAllNothing(m: map<Symbol, ExprPtr>, rs: seq<Reason>, t: Symbol)
    ensures ReasonFor(AddAll(m, rs), t).None? <==> ReasonFor(m, t).None? && AllUnconditional(multiset(rs), t)
  {
    if rs != [] {
      var n := |rs| - 1;
      AddAllNothing(m, rs[..n], t);
      assert rs == rs[..n] + [rs[n]];
      assert multiset(rs) == multiset(rs[..n]) + multiset{rs[n]};
    }
  }

  /** The direct dependency that definitions build with expr_alloc_or, once m counts as
      y, is their disjunction with NULL as y if and only if all of them are conditional,
      or all are unconditional, or a conditional one is in force: an unconditional
      definition adds nothing to a conditional one. */
  lemma DirDepIsDisjunctionIff(a: map<Symbol, ExprPtr>, b: map<Symbol, ExprPtr>, m: multiset<Reason>, t: Symbol,
                               v: Valuation)
    requires Added(a, b, m) && ReasonFor(a, t).None? && exists r :: r in m && r.target == t
    ensures (PromoteDir(Condition(ReasonFor(b, t), YES, v)) == if SomeInForce(m, t, v) then YES else NO)
       <==> AllConditional(m, t) || AllUnconditional(m, t) || SomeConditionalInForce(m, t, v)
  {
    var rs :| multiset(rs) == m && b == AddAll(a, rs);
    AddAllNothing(a, rs, t);
    AddedValue(a, b, m, t, v, MOD);
    assert (exists r :: r in m && r.target == t && Condition(r.why, NO, v) >= MOD) <==> SomeConditionalInForce(m, t, v);
  }

  /** Over all valuations. */
  lemma DirDepAlwaysDisjunctionIff(a: map<Symbol, ExprPtr>, b: map<Symbol, ExprPtr>, m: multiset<Reason>, t: Symbol)
    requires Added(a, b, m) && ReasonFor(a, t).None? && exists r :: r in m && r.target == t
    ensures (forall v: Valuation | WellFormed(v) ::
               PromoteDir(Condition(ReasonFor(b, t), YES, v)) == if SomeInForce(m, t, v) then YES else NO)
       <==> AllConditional(m, t) || AllUnconditional(m, t)
            || forall v: Valuation | WellFormed(v) :: SomeConditionalInForce(m, t, v)
  {
    forall v: Valuation | WellFormed(v)
      ensures (PromoteDir(Condition(ReasonFor(b, t), YES, v)) == if SomeInForce(m, t, v) then YES else NO)
         <==> AllConditional(m, t) || AllUnconditional(m, t) || SomeConditionalInForce(m, t, v)
    {
      DirDepIsDisjunctionIff(a, b, m, t, v);
    }
  }

  /** Two definitions, one of them unconditional: where the condition of the other is n,
      the direct dependency is n. */
  lemma UnconditionalForgotten(t: Symbol, x: Symbol, v: Valuation)
    requires v.tri(x) == NO
    ensures var m := multiset{Reason(t, None), Reason(t, Some(Sym(x)))};
            var b := AddAll(map[], [Reason(t, None), Reason(t, Some(Sym(x)))]);
            Added(map[], b, m) && SomeInForce(m, t, v) && PromoteDir(Condition(ReasonFor(b, t), YES, v)) == NO
  {
    var r, q := Reason(t, None), Reason(t, Some(Sym(x)));
    var rs := [r, q];
    assert rs[..1] == [r] && [r][..0] == [];
    AddedSeq(map[], rs);
    assert multiset(rs) == multiset{r, q};
    assert r in multiset{r, q} && EvalPtr(r.why, v) == YES;
    assert AddAll(map[], [r]) == map[t := None];
    assert AddAll(map[], rs) == map[t := Some(Sym(x))];
  }

  /** A select of the symbol `s`: the reason that the target gets. */
  function SelectReason(sym: Option<Symbol>, p: Prop): seq<Reason> {
    if sym.Some? && p.kind == SelectProp && DefaultSymbol(p.value).Some?
    then [Reason(DefaultSymbol(p.value).value, AllocAnd(Some(Sym(sym.value)), p.visible))]
    else []
  }

  function SelectReasons(sym: Option<Symbol>, props: seq<Prop>): seq<Reason> {
    if props == [] then [] else
    SelectReasons(sym, props[..|props| - 1]) + SelectReason(sym, props[|props| - 1])
  }

  function EntrySelects(info: map<Entry, Info>, data: map<Entry, Data>, e: Entry): multiset<Reason> {
    if e in info && e in data then multiset(SelectReasons(info[e].sym, data[e].props)) else multiset{}
  }

  /** The selects of all entries of the forest. */
  function Selects(info: map<Entry, Info>, data: map<Entry, Data>, f: Forest): multiset<Reason> {
    match f
    case Empty => multiset{}
    case Node(e, kids, rest) => EntrySelects(info, data, e) + Selects(info, data, kids) + Selects(info, data, rest)
  }

  /** The selects of the entries below those of the list itself. */
  function SelectsBelow(info: map<Entry, Info>, data: map<Entry, Data>, f: Forest): multiset<Reason> {
    match f
    case Empty => multiset{}
    case Node(_, kids, rest) => Selects(info, data, kids) + SelectsBelow(info, data, rest)
  }

  function LeafDep(info: map<Entry, Info>, data: map<Entry, Data>, e: Entry): multiset<Reason> {
    if e in info && e in data && info[e].sym.Some? then multiset{Reason(info[e].sym.value, data[e].dep)} else multiset{}
  }

  /** The dependencies of the symbol entries without declared children. */
  function LeafDeps(info: map<Entry, Info>, data: map<Entry, Data>, f: Forest): multiset<Reason> {
    match f
    case Empty => multiset{}
    case Node(e, kids, rest) =>
      (if kids.Empty? then LeafDep(info, data, e) else multiset{})
      + LeafDeps(info, data, kids) + LeafDeps(info, data, rest)
  }

  // ----- the effect on a whole forest -----

  /** Every entry of the declared forest ended up with what it inherits. */
  ghost predicate Inherited(info: map<Entry, Info>, a: map<Entry, Data>, b: map<Entry, Data>, f: Forest,
                            parentdep: ExprPtr) {
    match f
    case Empty => true
    case Node(e, kids, rest) =>
      && e in info && e in a && e in b && HasPrompt(info[e], b[e])
      && Inherits(info[e].sym, parentdep, a[e], b[e])
      && Inherited(info, a, b, kids, DepOf(info[e], b[e]))
      && Inherited(info, a, b, rest, parentdep)
  }

  /** The same for the entries below those of the list, which are themselves unchanged. */
  ghost predicate InheritedBelow(info: map<Entry, Info>, a: map<Entry, Data>, b: map<Entry, Data>, f: Forest) {
    match f
    case Empty => true
    case Node(e, kids, rest) =>
      && e in info && e in a && e in b && HasPrompt(info[e], b[e]) && b[e] == a[e]
      && Inherited(info, a, b, kids, DepOf(info[e], b[e]))
      && InheritedBelow(info, a, b, rest)
  }

  /** Only the entries of the list itself inherited from `parentdep`. */
  ghost predicate InheritedTop(info: map<Entry, Info>, a: map<Entry, Data>, b: map<Entry, Data>, f: Forest,
                               parentdep: ExprPtr) {
    match f
    case Empty => true
    case Node(e, kids, rest) =>
      && e in info && e in a && e in b && HasPrompt(info[e], b[e])
      && Inherits(info[e].sym, parentdep, a[e], b[e]) && SameData(a, b, Preorder(kids))
      && InheritedTop(info, a, b, rest, parentdep)
  }

  ghost predicate SameData(a: map<Entry, Data>, b: map<Entry, Data>, s: seq<Entry>) {
    forall e | e in s && e in a :: e in b && b[e] == a[e]
  }

  ghost predicate SameDataOutside(a: map<Entry, Data>, b: map<Entry, Data>, s: seq<Entry>) {
    a.Keys == b.Keys && forall e | e in a && e !in s :: b[e] == a[e]
  }

  lemma SameDataSplit(a: map<Entry, Data>, b: map<Entry, Data>, f: Forest)
    requires f.Node? && SameData(a, b, Preorder(f))
    ensures SameData(a, b, Preorder(f.kids)) && SameData(a, b, Preorder(f.rest))
    ensures f.entry in a ==> f.entry in b && b[f.entry] == a[f.entry]
  {
    assert f.entry in Preorder(f);
    assert forall e | e in Preorder(f.kids) :: e in Preorder(f);
    assert forall e | e in Preorder(f.rest) :: e in Preorder(f);
  }

  /** Changes elsewhere, before or after, do not matter. */
  lemma {:induction false} InheritedFrame(info: map<Entry, Info>, a: map<Entry, Data>, b: map<Entry, Data>,
                                          c: map<Entry, Data>, d: map<Entry, Data>, f: Forest, parentdep: ExprPtr)
    requires Inherited(info, b, c, f, parentdep)
    requires SameData(b, a, Preorder(f)) && SameData(c, d, Preorder(f))
    ensures Inherited(info, a, d, f, parentdep)
  {
    if f.Node? {
      SameDataSplit(b, a, f);
      SameDataSplit(c, d, f);
      InheritedFrame(info, a, b, c, d, f.kids, DepOf(info[f.entry], c[f.entry]));
      InheritedFrame(info, a, b, c, d, f.rest, parentdep);
    }
  }

  lemma {:induction false} InheritedBelowFrame(info: map<Entry, Info>, a: map<Entry, Data>, b: map<Entry, Data>,
                                               c: map<Entry, Data>, d: map<Entry, Data>, f: Forest)
    requires InheritedBelow(info, b, c, f)
    requires SameData(b, a, Preorder(f)) && SameData(c, d, Preorder(f))
    ensures InheritedBelow(info, a, d, f)
  {
    if f.Node? {
      SameDataSplit(b, a, f);
      SameDataSplit(c, d, f);
      InheritedFrame(info, a, b, c, d, f.kids, DepOf(info[f.entry], c[f.entry]));
      InheritedBelowFrame(info, a, b, c, d, f.rest);
    }
  }

  lemma {:induction false} SelectsFrame(info: map<Entry, Info>, a: map<Entry, Data>, b: map<Entry, Data>, f: Forest)
    requires a.Keys == b.Keys && SameData(a, b, Preorder(f))
    ensures Selects(info, a, f) == Selects(info, b, f) && SelectsBelow(info, a, f) == SelectsBelow(info, b, f)
  {
    if f.Node? {
      SameDataSplit(a, b, f);
      SelectsFrame(info, a, b, f.kids);
      SelectsFrame(info, a, b, f.rest);
    }
  }

  lemma {:induction false} LeafDepsFrame(info: map<Entry, Info>, a: map<Entry, Data>, b: map<Entry, Data>, f: Forest)
    requires a.Keys == b.Keys && SameData(a, b, Preorder(f))
    ensures LeafDeps(info, a, f) == LeafDeps(info, b, f)
  {
    if f.Node? {
      SameDataSplit(a, b, f);
      LeafDepsFrame(info, a, b, f.kids);
      LeafDepsFrame(info, a, b, f.rest);
    }
  }

  lemma {:induction false} InheritedAppend(info: map<Entry, Info>, a: map<Entry, Data>, b: map<Entry, Data>, f: Forest,
                                           g: Forest)
    ensures InheritedBelow(info, a, b, Append(f, g)) <==> InheritedBelow(info, a, b, f) && InheritedBelow(info, a, b, g)
  {
    if f.Node? {
      InheritedAppend(info, a, b, f.rest, g);
    }
  }

  lemma {:induction false} SelectsAppend(info: map<Entry, Info>, b: map<Entry, Data>, f: Forest, g: Forest)
    ensures SelectsBelow(info, b, Append(f, g)) == SelectsBelow(info, b, f) + SelectsBelow(info, b, g)
  {
    if f.Node? {
      SelectsAppend(info, b, f.rest, g);
    }
  }

  lemma {:induction false} LeafDepsAppend(info: map<Entry, Info>, b: map<Entry, Data>, f: Forest, g: Forest)
    ensures LeafDeps(info, b, Append(f, g)) == LeafDeps(info, b, f) + LeafDeps(info, b, g)
  {
    if f.Node? {
      LeafDepsAppend(info, b, f.rest, g);
    }
  }

  /** The contributions of one entry with children, and of one without. */
  lemma NodeReasons(info: map<Entry, Info>, data: map<Entry, Data>, i: Entry, f: Forest)
    ensures SelectsBelow(info, data, Node(i, f, Empty)) == Selects(info, data, f)
    ensures f.Node? ==> LeafDeps(info, data, Node(i, f, Empty)) == LeafDeps(info, data, f)
    ensures SelectsBelow(info, data, Node(i, Empty, f)) == SelectsBelow(info, data, f)
    ensures LeafDeps(info, data, Node(i, Empty, f)) == LeafDeps(info, data, f) + LeafDep(info, data, i)
  {
    assert Selects(info, data, Empty) == SelectsBelow(info, data, Empty) == LeafDeps(info, data, Empty) == multiset{};
  }

  /** What finalizing the entries of the list `f`, one after the other, does: the
      entries below inherit, and their selects and the leaf dependencies are added. */
  ghost predicate Effect(info: map<Entry, Info>, a: State, b: State, f: Forest) {
    forall c {:trigger EffectOf(info, a, c, f)} | c == b :: EffectOf(info, a, c, f)
  }

  ghost predicate EffectOf(info: map<Entry, Info>, a: State, b: State, f: Forest) {
    && InheritedBelow(info, a.data, b.data, f)
    && SameDataOutside(a.data, b.data, Preorder(f))
    && Added(a.revDep, b.revDep, SelectsBelow(info, b.data, f))
    && Added(a.dirDep, b.dirDep, LeafDeps(info, b.data, f))
  }

  lemma EffectNone(info: map<Entry, Info>, a: State)
    ensures Effect(info, a, a, Empty)
  {
    AddedNothing(a.revDep);
    AddedNothing(a.dirDep);
  }

  /** The pointers have no part in it. */
  lemma EffectLinks(info: map<Entry, Info>, a: State, b: State, c: State, f: Forest)
    requires Effect(info, a, b, f) && c == b.(links := c.links)
    ensures Effect(info, a, c, f)
  {
    assert EffectOf(info, a, b, f);
  }

  lemma SameDataDisjoint(a: map<Entry, Data>, b: map<Entry, Data>, s: seq<Entry>, t: seq<Entry>)
    requires SameDataOutside(a, b, s) && forall e | e in t :: e !in s
    ensures SameData(a, b, t) && SameData(b, a, t)
  {
  }

  lemma EffectJoin(info: map<Entry, Info>, a: State, b: State, c: State, f: Forest, g: Forest)
    requires Effect(info, a, b, f) && Effect(info, b, c, g)
    requires Distinct(Preorder(f) + Preorder(g))
    ensures Effect(info, a, c, Append(f, g))
  {
    assert EffectOf(info, a, b, f) && EffectOf(info, b, c, g);
    DistinctConcat(Preorder(f), Preorder(g));
    SameDataDisjoint(a.data, b.data, Preorder(f), Preorder(g));
    SameDataDisjoint(b.data, c.data, Preorder(g), Preorder(f));
    assert SameData(a.data, a.data, Preorder(f)) && SameData(c.data, c.data, Preorder(g));
    InheritedBelowFrame(info, a.data, a.data, b.data, c.data, f);
    InheritedBelowFrame(info, a.data, b.data, c.data, c.data, g);
    SelectsFrame(info, b.data, c.data, f);
    LeafDepsFrame(info, b.data, c.data, f);
    InheritedAppend(info, a.data, c.data, f, g);
    SelectsAppend(info, c.data, f, g);
    LeafDepsAppend(info, c.data, f, g);
    AddedTrans(a.revDep, b.revDep, c.revDep, SelectsBelow(info, b.data, f), SelectsBelow(info, c.data, g));
    AddedTrans(a.dirDep, b.dirDep, c.dirDep, LeafDeps(info, b.data, f), LeafDeps(info, c.data, g));
    PreorderAppend(f, g);
  }

  /** The selects of the entries of the list alone. */
  function SelectsTop(info: map<Entry, Info>, data: map<Entry, Data>, f: Forest): multiset<Reason> {
    match f
    case Empty => multiset{}
    case Node(e, _, rest) => EntrySelects(info, data, e) + SelectsTop(info, data, rest)
  }

  lemma {:induction false} InheritedBoth(info: map<Entry, Info>, a: map<Entry, Data>, b: map<Entry, Data>,
                                         c: map<Entry, Data>, f: Forest, parentdep: ExprPtr)
    requires InheritedTop(info, a, b, f, parentdep) && InheritedBelow(info, b, c, f) && a.Keys == b.Keys
    ensures Inherited(info, a, c, f, parentdep)
    ensures Selects(info, c, f) == SelectsTop(info, b, f) + SelectsBelow(info, c, f)
  {
    if f.Node? {
      assert SameData(b, a, Preorder(f.kids)) && SameData(c, c, Preorder(f.kids));
      InheritedFrame(info, a, b, c, c, f.kids, DepOf(info[f.entry], c[f.entry]));
      InheritedBoth(info, a, b, c, f.rest, parentdep);
    }
  }

  /** An entry with children: they inherited first, then they were finalized. */
  lemma EffectInner(info: map<Entry, Info>, a: State, b: State, c: State, i: Entry, kids: Forest)
    requires kids.Node? && i in info && i in a.data && HasPrompt(info[i], a.data[i]) && i !in Preorder(kids)
    requires InheritedTop(info, a.data, b.data, kids, DepOf(info[i], a.data[i]))
             && SameDataOutside(a.data, b.data, Preorder(kids))
    requires Added(a.revDep, b.revDep, SelectsTop(info, b.data, kids)) && b.dirDep == a.dirDep
    requires Effect(info, b, c, kids)
    ensures Effect(info, a, c, Node(i, kids, Empty))
  {
    assert EffectOf(info, b, c, kids);
    InheritedBoth(info, a.data, b.data, c.data, kids, DepOf(info[i], a.data[i]));
    AddedTrans(a.revDep, b.revDep, c.revDep, SelectsTop(info, b.data, kids), SelectsBelow(info, c.data, kids));
    NodeReasons(info, c.data, i, kids);
    assert forall e | e !in Preorder(Node(i, kids, Empty)) :: e !in Preorder(kids);
    assert EffectOf(info, a, c, Node(i, kids, Empty));
  }

  /** An entry of a symbol without children: the followers it takes in are
      finalized, then its own dependency is added. */
  lemma EffectLeaf(info: map<Entry, Info>, a: State, b: State, c: State, i: Entry, taken: Forest)
    requires i in info && i in a.data && HasPrompt(info[i], a.data[i]) && i !in Preorder(taken) && info[i].sym.Some?
    requires Effect(info, a, b, taken) && i in b.data
    requires c.data == b.data && c.revDep == b.revDep
    requires c.dirDep == AddOne(b.dirDep, Reason(info[i].sym.value, b.data[i].dep))
    ensures Effect(info, a, c, Node(i, Empty, taken))
  {
    assert EffectOf(info, a, b, taken);
    AddedOne(b.dirDep, Reason(info[i].sym.value, b.data[i].dep));
    AddedTrans(a.dirDep, b.dirDep, c.dirDep, LeafDeps(info, b.data, taken), LeafDep(info, b.data, i));
    NodeReasons(info, c.data, i, taken);
    assert forall e | e !in Preorder(Node(i, Empty, taken)) :: e !in Preorder(taken);
    assert EffectOf(info, a, c, Node(i, Empty, taken));
  }

  lemma EffectPlain(info: map<Entry, Info>, a: State, i: Entry)
    requires i in info && i in a.data && HasPrompt(info[i], a.data[i]) && info[i].sym.None?
    ensures Effect(info, a, a, Node(i, Empty, Empty))
  {
    AddedNothing(a.revDep);
    AddedNothing(a.dirDep);
    NodeReasons(info, a.data, i, Empty);
    assert EffectOf(info, a, a, Node(i, Empty, Empty));
  }

  // ----- the list of children of one entry -----

  /** The entries of the list inherited from `parentdep`, and nothing else changed. */
  ghost predicate Handed(info: map<Entry, Info>, a: State, b: State, f: Forest, parentdep: ExprPtr) {
    && b.links == a.links && b.dirDep == a.dirDep
    && InheritedTop(info, a.data, b.data, f, parentdep) && SameDataOutside(a.data, b.data, Preorder(f))
    && Added(a.revDep, b.revDep, SelectsTop(info, b.data, f))
  }

  lemma HandedNone(info: map<Entry, Info>, a: State, parentdep: ExprPtr)
    ensures Handed(info, a, a, Empty, parentdep)
  {
    AddedNothing(a.revDep);
  }

  lemma {:induction false} TopFrame(info: map<Entry, Info>, a: map<Entry, Data>, b: map<Entry, Data>,
                                    c: map<Entry, Data>, f: Forest, parentdep: ExprPtr)
    requires InheritedTop(info, a, b, f, parentdep) && b.Keys == c.Keys && SameData(b, c, Preorder(f))
    ensures InheritedTop(info, a, c, f, parentdep) && SelectsTop(info, c, f) == SelectsTop(info, b, f)
  {
    if f.Node? {
      SameDataSplit(b, c, f);
      TopFrame(info, a, b, c, f.rest, parentdep);
    }
  }

  lemma {:induction false} TopAppend(info: map<Entry, Info>, a: map<Entry, Data>, b: map<Entry, Data>,
                                     f: Forest, g: Forest, parentdep: ExprPtr)
    ensures InheritedTop(info, a, b, Append(f, g), parentdep)
       <==> InheritedTop(info, a, b, f, parentdep) && InheritedTop(info, a, b, g, parentdep)
  {
    if f.Node? {
      TopAppend(info, a, b, f.rest, g, parentdep);
    }
  }

  lemma {:induction false} SelectsTopAppend(info: map<Entry, Info>, b: map<Entry, Data>, f: Forest, g: Forest)
    ensures SelectsTop(info, b, Append(f, g)) == SelectsTop(info, b, f) + SelectsTop(info, b, g)
  {
    if f.Node? {
      SelectsTopAppend(info, b, f.rest, g);
    }
  }

  /** The entry `e` inherits after the list `f` did. */
  lemma HandedFirst(info: map<Entry, Info>, a: map<Entry, Data>, b: map<Entry, Data>, c: map<Entry, Data>, f: Forest,
                    e: Entry, kids: Forest, parentdep: ExprPtr)
    requires SameDataOutside(a, b, Preorder(f)) && e !in Preorder(kids)
    requires forall x | x in Preorder(f) :: x !in [e] + Preorder(kids)
    requires e in info && e in b && c.Keys == b.Keys && HasPrompt(info[e], c[e])
    requires forall x | x in b && x != e :: c[x] == b[x]
    requires Inherits(info[e].sym, parentdep, b[e], c[e])
    ensures InheritedTop(info, a, c, Node(e, kids, Empty), parentdep)
  {
    assert e in [e] + Preorder(kids);
    assert forall x | x in Preorder(kids) :: x in [e] + Preorder(kids) && x != e;
    assert SameData(a, c, Preorder(kids));
  }

  /** One more entry `e`, with everything below it. */
  lemma HandedEntry(info: map<Entry, Info>, a: map<Entry, Data>, b: map<Entry, Data>, c: map<Entry, Data>, f: Forest,
                    e: Entry, kids: Forest, parentdep: ExprPtr)
    requires InheritedTop(info, a, b, f, parentdep) && SameDataOutside(a, b, Preorder(f))
    requires Distinct(Preorder(f) + ([e] + Preorder(kids)))
    requires e in info && e in b && c.Keys == b.Keys && HasPrompt(info[e], c[e])
    requires forall x | x in b && x != e :: c[x] == b[x]
    requires Inherits(info[e].sym, parentdep, b[e], c[e])
    ensures InheritedTop(info, a, c, Append(f, Node(e, kids, Empty)), parentdep)
    ensures SelectsTop(info, c, Append(f, Node(e, kids, Empty))) == SelectsTop(info, b, f) + EntrySelects(info, c, e)
  {
    var first := Node(e, kids, Empty);
    DistinctConcat(Preorder(f), [e] + Preorder(kids));
    DistinctConcat([e], Preorder(kids));
    assert e in [e] && e in [e] + Preorder(kids);
    HandedFirst(info, a, b, c, f, e, kids, parentdep);
    TopFrame(info, a, b, c, f, parentdep);
    TopAppend(info, a, c, f, first, parentdep);
    SelectsTopAppend(info, c, f, first);
    assert SelectsTop(info, c, first) == EntrySelects(info, c, e);
  }

  lemma HandedOutside(a: map<Entry, Data>, b: map<Entry, Data>, c: map<Entry, Data>, f: Forest, e: Entry, kids: Forest)
    requires SameDataOutside(a, b, Preorder(f)) && c.Keys == b.Keys && forall x | x in b && x != e :: c[x] == b[x]
    ensures SameDataOutside(a, c, Preorder(Append(f, Node(e, kids, Empty))))
  {
    PreorderAppend(f, Node(e, kids, Empty));
    assert e in [e] + Preorder(kids);
  }

  lemma HandedStep(info: map<Entry, Info>, a: State, b: State, c: State, f: Forest, e: Entry, kids: Forest,
                   parentdep: ExprPtr)
    requires Handed(info, a, b, f, parentdep) && Distinct(Preorder(f) + ([e] + Preorder(kids)))
    requires e in info && e in b.data && c.data.Keys == b.data.Keys && HasPrompt(info[e], c.data[e])
    requires forall x | x in b.data && x != e :: c.data[x] == b.data[x]
    requires Inherits(info[e].sym, parentdep, b.data[e], c.data[e])
    requires c == b.(data := c.data, revDep := AddAll(b.revDep, SelectReasons(info[e].sym, c.data[e].props)))
    ensures Handed(info, a, c, Append(f, Node(e, kids, Empty)), parentdep)
  {
    HandedEntry(info, a.data, b.data, c.data, f, e, kids, parentdep);
    HandedOutside(a.data, b.data, c.data, f, e, kids);
    AddedSeq(b.revDep, SelectReasons(info[e].sym, c.data[e].props));
    AddedTrans(a.revDep, b.revDep, c.revDep, SelectsTop(info, b.data, f), EntrySelects(info, c.data, e));
  }
}
