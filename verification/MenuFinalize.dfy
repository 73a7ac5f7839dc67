/** menu_finalize (menu.c): dependencies are handed down the menu tree, entries
    that depend on the symbol before them become its submenu, and the entries
    below an entry without a prompt move up.  Choices are not part of the model. */
module MenuFinalize {
  import opened Expr
  import opened ExprNormalForm
  import opened ExprDuplicates
  import opened Kconfig
  import opened MenuArrange
  import opened MenuState
  import opened MenuTree
  import opened Submenu
  import opened Sequences

  method Conjoin(a: ExprPtr, b: ExprPtr) returns (r: ExprPtr)
    ensures r == Conjoined(a, b) && Conjunction(a, b, r) && Simplified(r)
    ensures FlatPtr(a) ==> FlatPtr(r)
    ensures Simplified(a) && b.None? ==> r == a
  {
    var t := TransformPtr(b);
    r := EliminateDupsPtr(AllocAnd(a, t));
    ConjoinedMeaning(a, b);
    ConjoinedSimplified(a, b);
    if FlatPtr(a) {
      ConjoinedFlat(a, b);
    }
  }

  /** The entries of the list itself have been given their dependencies. */
  ghost predicate FlatTop(data: map<Entry, Data>, f: Forest) {
    match f
    case Empty => true
    case Node(e, _, rest) => e in data && FlatData(data[e]) && FlatTop(data, rest)
  }

  lemma {:induction false} FlatTopFrame(data: map<Entry, Data>, data': map<Entry, Data>, f: Forest)
    requires FlatTop(data, f)
    requires forall e | e in Preorder(f) && e in data :: e in data' && data'[e] == data[e]
    ensures FlatTop(data', f)
  {
    if f.Node? {
      assert f.entry in Preorder(f);
      FlatTopFrame(data, data', f.rest);
    }
  }

  ghost predicate Unchanged(st: State, st': State, e: Entry) {
    && SameAt(st.links, st'.links, e)
    && (e in st.data ==> e in st'.data && st'.data[e] == st.data[e])
  }

  /** Everything about entries outside `s` is the same. */
  ghost predicate Outside(st: State, st': State, s: seq<Entry>) {
    forall e {:trigger Unchanged(st, st', e)} | e !in s :: Unchanged(st, st', e)
  }

  lemma OutsideTrans(a: State, b: State, c: State, s: seq<Entry>, t: seq<Entry>)
    requires Outside(a, b, s) && Outside(b, c, t)
    requires forall e | e in t :: e in s
    ensures Outside(a, c, s)
  {
    forall e | e !in s ensures Unchanged(a, c, e) {
      assert Unchanged(a, b, e) && Unchanged(b, c, e);
    }
  }

  lemma OutsideLinked(a: State, b: State, s: seq<Entry>, f: Forest, par: Link, end: Link)
    requires Outside(a, b, s) && Linked(a.links, f, par, end)
    requires forall e | e in Preorder(f) :: e !in s
    ensures Linked(b.links, f, par, end)
  {
    forall e | e in Preorder(f) ensures SameAt(a.links, b.links, e) {
      assert Unchanged(a, b, e);
    }
    LinkedFrame(a.links, b.links, f, par, end);
  }

  lemma OutsideFlat(a: State, b: State, s: seq<Entry>, f: Forest)
    requires Outside(a, b, s) && FlatTop(a.data, f)
    requires forall e | e in Preorder(f) :: e !in s
    ensures FlatTop(b.data, f)
  {
    forall e | e in Preorder(f) && e in a.data ensures e in b.data && b.data[e] == a.data[e] {
      assert Unchanged(a, b, e);
    }
    FlatTopFrame(a.data, b.data, f);
  }

  /** A change of the pointers alone. */
  lemma OutsideLinks(a: State, l: Links, s: seq<Entry>)
    requires forall x | x !in s :: SameAt(a.links, l, x)
    ensures Outside(a, a.(links := l), s)
  {
  }

  /** A sibling list while it is worked on: `done` with the parent `to`, `todo`
      still with the parent `from`, together the entries `whole`. */
  ghost predicate Halfway(info: map<Entry, Info>, st: State, done: Forest, todo: Forest, whole: seq<Entry>, to: Link,
                          from: Link) {
    && Linked(st.links, done, to, HeadOr(todo, Null)) && Linked(st.links, todo, from, Null)
    && Preorder(done) + Preorder(todo) == whole && Distinct(whole)
    && PromptedBelow(info, done) && FlatTop(st.data, todo)
  }

  /** The entries `gone` of the list `all` were taken in by `i` since the state
      `start`: `done` is what became of them, `todo` what is left. */
  ghost predicate Adopting(info: map<Entry, Info>, start: State, st: State, before: seq<Entry>, log: seq<Entry>,
                           done: Forest, todo: Forest, gone: Forest, all: Forest, i: Entry, par: Link) {
    forall c {:trigger AdoptingIn(info, start, c, before, log, done, todo, gone, all, i, par)} | c == st ::
      AdoptingIn(info, start, c, before, log, done, todo, gone, all, i, par)
  }

  ghost predicate AdoptingIn(info: map<Entry, Info>, start: State, st: State, before: seq<Entry>, log: seq<Entry>,
                             done: Forest, todo: Forest, gone: Forest, all: Forest, i: Entry, par: Link) {
    && Halfway(info, st, done, todo, Preorder(all), To(i), par)
    && HeadOr(done, HeadOr(todo, Null)) == HeadOr(all, Null) && log == before + Preorder(done)
    && Outside(start, st, Preorder(all)) && all == Append(gone, todo) && Effect(info, start, st, gone)
    && |Preorder(todo)| <= |Preorder(all)|
  }

  class MenuBuilder {
    const info: map<Entry, Info>
    var st: State
    /** The calls of menu_finalize. */
    ghost var log: seq<Entry>

    /** The tree as it was declared, nothing being finalized. */
    constructor (info: map<Entry, Info>, st: State)
      requires ValidState(info, st)
      ensures Valid() && this.info == info && this.st == st && log == []
    {
      this.info, this.st := info, st;
      log := [];
    }

    ghost predicate Valid()
      reads this
    {
      ValidState(info, st)
    }

    function EntryDep(e: Entry): ExprPtr
      reads this
      requires e in info && e in st.data && HasPrompt(info[e], st.data[e])
    {
      DepOf(info[e], st.data[e])
    }

    function PromptCondition(e: Entry): ExprPtr
      reads this
      requires e in info && e in st.data && HasPrompt(info[e], st.data[e])
    {
      PromptOf(info[e], st.data[e])
    }

    // ----- handing dependencies down -----

    /** A select adds the selecting symbol, under the condition of the select, to
        the reverse dependencies of its target. */
    method AddSelect(s: Symbol, p: Prop)
      requires p.kind == SelectProp
      modifies this`st
      ensures st == old(st).(revDep := AddAll(old(st.revDep), SelectReason(Some(s), p)))
    {
      var target := DefaultSymbol(p.value);
      if target.Some? {
        var t := target.value;
        var reason := AllocAnd(Some(Sym(s)), p.visible);
        assert SelectReason(Some(s), p)[..0] == [];
        st := st.(revDep := st.revDep[t := AllocOr(if t in st.revDep then st.revDep[t] else None, reason)]);
      }
    }

    /** A property under the dependency of its entry. */
    method Restrict(sym: Option<Symbol>, basedep: ExprPtr, p: Prop) returns (q: Prop)
      requires FlatPtr(basedep) && Simplified(basedep)
      ensures Restricted(sym, basedep, p, q)
    {
      var dep := Conjoin(basedep, p.visible);
      RestrictedMeaning(sym, basedep, p);
      if sym.Some? && sym.value.Type() != TristateType {
        dep := TransBoolPtr(dep);
      }
      q := p.(visible := dep);
    }

    /** The dependencies of one entry: those of its parent and its own, and with
        them the conditions of its properties. */
    method Propagate(e: Entry, parentdep: ExprPtr)
      requires Valid() && e in info && FlatPtr(parentdep)
      modifies this`st
      ensures Valid() && Inherits(info[e].sym, parentdep, old(st.data[e]), st.data[e])
      ensures st == old(st).(data := old(st.data)[e := st.data[e]],
                             revDep := AddAll(old(st.revDep), SelectReasons(info[e].sym, st.data[e].props)))
    {
      var sym := info[e].sym;
      var basedep := Conjoin(parentdep, st.data[e].dep);
      var props := PropagateProps(sym, basedep, st.data[e].props);
      InheritsFrom(sym, parentdep, old(st.data[e]), basedep, props);
      st := st.(data := st.data[e := Data(basedep, props)]);
    }

    /** Its loop over the properties. */
    method PropagateProps(sym: Option<Symbol>, basedep: ExprPtr, was: seq<Prop>) returns (props: seq<Prop>)
      requires FlatPtr(basedep) && Simplified(basedep)
      modifies this`st
      ensures RestrictedUpTo(sym, basedep, was, props, |props|)
      ensures st == old(st).(revDep := AddAll(old(st.revDep), SelectReasons(sym, props)))
    {
      props := was;
      var i := 0;
      ghost var start := st.revDep;
      while i < |props|
        invariant 0 <= i <= |props| && RestrictedUpTo(sym, basedep, was, props, i)
        invariant st == old(st).(revDep := AddAll(start, SelectReasons(sym, props[..i])))
      {
        props := PropagateProp(sym, basedep, was, props, i, start);
        i := i + 1;
      }
      assert props[..i] == props;
    }

    /** One round of it. */
    method PropagateProp(sym: Option<Symbol>, basedep: ExprPtr, ghost was: seq<Prop>, props: seq<Prop>, i: nat,
                         ghost start: map<Symbol, ExprPtr>)
      returns (props': seq<Prop>)
      requires FlatPtr(basedep) && Simplified(basedep)
      requires i < |props| && RestrictedUpTo(sym, basedep, was, props, i)
      requires st.revDep == AddAll(start, SelectReasons(sym, props[..i]))
      modifies this`st
      ensures |props'| == |props| && RestrictedUpTo(sym, basedep, was, props', i + 1)
      ensures st == old(st).(revDep := AddAll(start, SelectReasons(sym, props'[..i + 1])))
    {
      var q := Restrict(sym, basedep, props[i]);
      RestrictedNext(sym, basedep, was, props, i, q);
      SelectsGrow(start, sym, props, props[i := q], i);
      props' := props[i := q];
      if q.kind == SelectProp && sym.Some? {
        AddSelect(sym.value, q);
      }
    }

    /** The first loop of menu_finalize over the children. */
    method PropagateAll(i: Entry, parentdep: ExprPtr, ghost kids: Forest)
      requires Valid() && i in info && st.links.list[i] == HeadOr(kids, Null)
      requires Linked(st.links, kids, To(i), Null) && Distinct(Preorder(kids)) && FlatPtr(parentdep)
      modifies this`st
      ensures Valid() && Handed(info, old(st), st, kids, parentdep)
    {
      var menu := st.links.list[i];
      ghost var done, todo := Empty, kids;
      HandedNone(info, st, parentdep);
      while menu != Null
        invariant Valid() && menu == HeadOr(todo, Null)
        invariant Linked(old(st.links), todo, To(i), Null) && Append(done, todo) == kids
        invariant Handed(info, old(st), st, done, parentdep)
        decreases todo
      {
        var e := menu.entry;
        ghost var before := st;
        Propagate(e, parentdep);
        HandedNext(info, old(st), before, st, done, todo, kids, parentdep);
        done, todo := Append(done, Node(e, todo.kids, Empty)), todo.rest;
        menu := st.links.next[e];
      }
      AppendEmpty(done);
    }

    // ----- moving entries up -----

    /** The inner loop of the hoisting: all children of `e` get the parent of `e`. */
    method Reparent(e: Entry, i: Entry, ghost kids: Forest) returns (last: Entry)
      requires Valid() && e in info && st.links.list[e] == HeadOr(kids, Null) && kids.Node?
      requires Linked(st.links, kids, To(e), Null) && Distinct(Preorder(kids)) && e !in Preorder(kids)
      modifies this`st
      ensures Valid() && Linked(st.links, kids, To(i), Null) && last == LastEntry(kids)
      ensures st == old(st).(links := st.links)
      ensures forall x | x !in Preorder(kids) :: SameAt(old(st.links), st.links, x)
    {
      last := st.links.list[e].entry;
      ghost var done, todo := Empty, kids;
      while true
        invariant Valid() && todo.Node? && last == todo.entry && st == old(st).(links := st.links)
        invariant Append(done, todo) == kids && LastEntry(kids) == LastEntry(todo)
        invariant Linked(st.links, done, To(i), HeadOr(todo, Null)) && Linked(st.links, todo, To(e), Null)
        invariant forall x | x !in Preorder(kids) :: SameAt(old(st.links), st.links, x)
        decreases todo
      {
        ReparentStep(st.links, done, todo, To(e), To(i), kids);
        st := st.(links := SetParent(st.links, last, To(i)));
        done := Append(done, Node(last, todo.kids, Empty));
        if st.links.next[last] == Null {
          AppendEmpty(done);
          break;
        }
        todo := todo.rest;
        last := st.links.next[last].entry;
      }
    }

    /** One hoisting: the children of the first entry of `todo` become its followers. */
    method HoistOne(e: Entry, i: Entry, ghost done: Forest, ghost todo: Forest) returns (ghost todo': Forest)
      requires Valid() && todo.Node? && todo.entry == e && todo.kids.Node?
      requires Linked(st.links, done, To(i), To(e)) && Linked(st.links, todo, To(i), Null)
      requires Distinct(Preorder(todo)) && forall x | x in Preorder(done) :: x !in Preorder(todo)
      requires PromptedBelow(info, todo)
      modifies this`st
      ensures Valid() && todo' == Node(e, Empty, Append(todo.kids, todo.rest))
      ensures st == old(st).(links := st.links)
      ensures Linked(st.links, done, To(i), To(e)) && Linked(st.links, todo', To(i), Null)
      ensures Preorder(todo') == Preorder(todo) && PromptedBelow(info, todo')
      ensures forall x | x !in Preorder(todo) :: SameAt(old(st.links), st.links, x)
    {
      DistinctParts(todo);
      ghost var l0 := st.links;
      var last := Reparent(e, i, todo.kids);
      HoistStep(l0, st.links, done, todo, To(i));
      HoistOneOrder(info, todo);
      st := st.(links := HoistLinks(st.links, e, last));
      todo' := Node(e, Empty, Append(todo.kids, todo.rest));
    }

    /** The last loop of menu_finalize: a child without a prompt text gives its own
        children to `i`, behind itself; they are then looked at in turn. */
    method Hoist(i: Entry, ghost kids: Forest) returns (ghost kids': Forest)
      requires Valid() && i in info && st.links.list[i] == HeadOr(kids, Null)
      requires Linked(st.links, kids, To(i), Null) && Distinct(Preorder(kids)) && i !in Preorder(kids)
      requires PromptedBelow(info, kids)
      modifies this`st
      ensures Valid() && Linked(st.links, kids', To(i), Null) && HeadOr(kids', Null) == HeadOr(kids, Null)
      ensures Preorder(kids') == Preorder(kids) && Prompted(info, kids') && kids' == Hoisted(info, kids)
      ensures st == old(st).(links := st.links)
      ensures forall x | x !in Preorder(kids) :: SameAt(old(st.links), st.links, x)
    {
      var menu := st.links.list[i];
      ghost var done, todo := Empty, kids;
      while menu != Null
        invariant Valid() && menu == HeadOr(todo, Null) && st == old(st).(links := st.links)
        invariant Linked(st.links, done, To(i), HeadOr(todo, Null)) && Linked(st.links, todo, To(i), Null)
        invariant Preorder(done) + Preorder(todo) == Preorder(kids)
        invariant HeadOr(done, HeadOr(todo, Null)) == HeadOr(kids, Null)
        invariant Prompted(info, done) && PromptedBelow(info, todo)
        invariant Append(done, Hoisted(info, todo)) == Hoisted(info, kids)
        invariant forall x | x !in Preorder(kids) :: SameAt(old(st.links), st.links, x)
        decreases |Preorder(todo)|
      {
        var e := menu.entry;
        DistinctConcat(Preorder(done), Preorder(todo));
        if st.links.list[e] != Null && !info[e].hasText {
          todo := HoistOne(e, i, done, todo);
        }
        ghost var first := Node(e, todo.kids, Empty);
        assert Prompted(info, first);
        PassOver(st.links, info, done, todo, To(i));
        AppendAssociative(done, first, Hoisted(info, todo.rest));
        done, todo := Append(done, first), todo.rest;
        menu := st.links.next[e];
      }
      AppendEmpty(done);
      kids' := done;
    }

    // ----- menu_finalize -----

    /** The recursive call for the first entry that is left of a sibling list. */
    method FinalizeNext(e: Entry, ghost done: Forest, ghost todo: Forest, ghost whole: seq<Entry>, ghost to: Link,
                        ghost from: Link)
      returns (ghost todo': Forest, ghost taken: Forest)
      requires Valid() && todo.Node? && todo.entry == e && Halfway(info, st, done, todo, whole, to, from)
      modifies this
      ensures Valid() && todo'.Node? && todo'.entry == e && Halfway(info, st, done, todo', whole, to, from)
      ensures Prompted(info, todo'.kids) && |Preorder(todo')| == |Preorder(todo)|
      ensures log == old(log) + ([e] + Preorder(todo'.kids))
      ensures todo == Append(taken, todo'.rest) && Effect(info, old(st), st, taken) && taken.Node? && taken.entry == e
      ensures Arranged(info, st.data, taken, Node(e, todo'.kids, Empty), HeadOr(todo'.rest, Null))
      ensures Outside(old(st), st, whole)
      decreases |Preorder(todo)|, 2
    {
      DistinctConcat(Preorder(done), Preorder(todo));
      ghost var before := st;
      ghost var k, r, t := Finalize(e, todo.kids, todo.rest, from);
      todo', taken := Node(e, k, r), Node(e, todo.kids, t);
      FinalizedNext(info, before, st, done, todo, todo', whole, to, from);
    }

    /** The loop that finalizes the children.  Each call may take some of the
        following siblings into a submenu; the loop goes on with what is left. */
    method FinalizeChildren(i: Entry, ghost kids: Forest) returns (ghost kids': Forest)
      requires Valid() && i in info && st.links.list[i] == HeadOr(kids, Null)
      requires Halfway(info, st, Empty, kids, Preorder(kids), To(i), To(i))
      modifies this
      ensures Valid() && Linked(st.links, kids', To(i), Null) && HeadOr(kids', Null) == HeadOr(kids, Null)
      ensures Preorder(kids') == Preorder(kids) && PromptedBelow(info, kids')
      ensures log == old(log) + Preorder(kids')
      ensures Outside(old(st), st, Preorder(kids)) && Effect(info, old(st), st, kids)
      ensures Arrange(info, st.data, kids) == kids'
      decreases |Preorder(kids)|, 3
    {
      var menu := st.links.list[i];
      ghost var done, todo, whole := Empty, kids, Preorder(kids);
      ghost var gone, taken := Empty, Empty;
      EffectNone(info, st);
      NothingArranged(info, st.data, menu);
      while menu != Null
        invariant Valid() && menu == HeadOr(todo, Null)
        invariant Halfway(info, st, done, todo, whole, To(i), To(i))
        invariant HeadOr(done, HeadOr(todo, Null)) == HeadOr(kids, Null)
        invariant log == old(log) + Preorder(done) && |Preorder(todo)| <= |whole|
        invariant Outside(old(st), st, whole)
        invariant kids == Append(gone, todo) && Effect(info, old(st), st, gone)
        invariant Arranged(info, st.data, gone, done, HeadOr(todo, Null))
        decreases |Preorder(todo)|
      {
        var e := menu.entry;
        ghost var before := st;
        todo, taken := FinalizeNext(e, done, todo, whole, To(i), To(i));
        OutsideTrans(old(st), before, st, whole, whole);
        EffectGrows(info, old(st), before, st, gone, taken, todo.rest, kids);
        ArrangedNext(info, before, st, gone, done, taken, Node(e, todo.kids, Empty), HeadOr(todo.rest, Null));
        gone := Append(gone, taken);
        PassHalfway(info, st, old(log), done, todo, whole, To(i));
        done, todo := Append(done, Node(e, todo.kids, Empty)), todo.rest;
        menu := st.links.next[e];
      }
      AppendEmpty(gone);
      kids' := done;
    }

    method PutBelow(e: Entry, i: Entry)
      requires Valid() && e in info
      modifies this`st
      ensures Valid() && st == old(st).(links := SetParent(old(st.links), e, To(i)))
    {
      ParentValid(info, st, e, To(i));
      st := st.(links := SetParent(st.links, e, To(i)));
    }

    /** One accepted entry is finalized. */
    method FinalizeTaken(e: Entry, i: Entry, ghost done: Forest, ghost todo: Forest, ghost par: Link,
                         ghost gone: Forest, ghost all: Forest)
      returns (ghost now: Forest, ghost taken: Forest)
      requires Valid() && todo.Node? && todo.entry == e && Halfway(info, st, done, todo, Preorder(all), To(i), par)
      requires i !in Preorder(all) && Taking(info, st.data, i, gone, done, To(e)) && TakesIn(info, st.data, i, e)
      requires all == Append(gone, todo) && Distinct(Preorder(all))
      modifies this
      ensures Valid() && now.Node? && now.entry == e && Halfway(info, st, done, now, Preorder(all), To(i), par)
      ensures Prompted(info, now.kids) && |Preorder(now)| == |Preorder(todo)|
      ensures log == old(log) + ([e] + Preorder(now.kids)) && Outside(old(st), st, Preorder(all))
      ensures todo == Append(taken, now.rest) && Effect(info, old(st), st, taken)
      ensures Taking(info, st.data, i, Append(gone, taken), Append(done, Node(e, now.kids, Empty)),
                     HeadOr(now.rest, Null))
      ensures i in st.data && st.data[i] == old(st.data[i])
      decreases |Preorder(todo)|, 3
    {
      ghost var before := st;
      now, taken := FinalizeNext(e, done, todo, Preorder(all), To(i), par);
      TakingNext(info, before, st, i, gone, done, taken, now, todo, all);
    }

    /** One accepted entry: it is finalized and gets its new parent. */
    method AdoptOne(e: Entry, i: Entry, ghost done: Forest, ghost todo: Forest, ghost par: Link,
                    ghost start: State, ghost before: seq<Entry>, ghost gone: Forest, ghost all: Forest)
      returns (ghost done': Forest, ghost todo': Forest, ghost gone': Forest)
      requires Valid() && todo.Node? && todo.entry == e
      requires Adopting(info, start, st, before, log, done, todo, gone, all, i, par)
      requires i !in Preorder(all) && Taking(info, st.data, i, gone, done, To(e)) && TakesIn(info, st.data, i, e)
      modifies this
      ensures Valid() && done'.Node? && LastEntry(done') == e && |Preorder(todo')| < |Preorder(todo)|
      ensures Adopting(info, start, st, before, log, done', todo', gone', all, i, par)
      ensures Taking(info, st.data, i, gone', done', HeadOr(todo', Null)) && st.data[i] == old(st.data[i])
      ensures e in info && st.links.next[e] == HeadOr(todo', Null)
      decreases |Preorder(todo)|, 4
    {
      AdoptingHalfway(info, start, st, before, log, done, todo, gone, all, i, par);
      ghost var now, taken := FinalizeTaken(e, i, done, todo, par, gone, all);
      ghost var finalized := st;
      PutBelow(e, i);
      done', todo', gone' := Append(done, Node(e, now.kids, Empty)), now.rest, Append(gone, taken);
      AdoptedOne(info, start, old(st), finalized, st, before, old(log), log, done, todo, now, done', gone, taken, all,
                 i, par);
    }

    /** The leaf branch: following siblings that depend on the symbol `s` of the
        entry become its children, as long as the test accepts them. */
    method AdoptFollowers(i: Entry, s: Symbol, ghost rest: Forest, ghost par: Link)
      returns (ghost kids': Forest, ghost rest': Forest, ghost taken: Forest)
      requires Valid() && Linked(st.links, Node(i, Empty, rest), par, Null)
      requires Distinct(Preorder(Node(i, Empty, rest))) && FlatTop(st.data, rest) && i in info && info[i].sym == Some(s)
      modifies this
      ensures Valid() && Linked(st.links, Node(i, kids', rest'), par, Null)
      ensures Preorder(kids') + Preorder(rest') == Preorder(rest) && PromptedBelow(info, kids')
      ensures log == old(log) + Preorder(kids')
      ensures FlatTop(st.data, rest') && st.data[i] == old(st.data[i])
      ensures Outside(old(st), st, [i] + Preorder(rest))
      ensures rest == Append(taken, rest') && Effect(info, old(st), st, taken)
      ensures Collected(info, st.data, i, Empty, taken, kids', HeadOr(rest', Null))
      decreases |Preorder(rest)|, 7
    {
      DistinctParts(Node(i, Empty, rest));
      ghost var before, whole := st, Preorder(rest);
      var last;
      kids', rest', taken, last := AdoptAccepted(i, s, rest, par);
      AfterAccepted(before, st, i, rest, par);
      ghost var loop := st;
      TakeIn(i, last, kids', rest', par, whole);
      OutsideTrans(before, loop, st, [i] + whole, [i] + whole);
      EffectLinks(info, before, loop, st, taken);
    }

    /** One round of the loop of the leaf branch. */
    method AdoptNext(e: Entry, i: Entry, s: Symbol, base: ExprPtr, basedep: Expr, ghost done: Forest,
                     ghost todo: Forest,
                     ghost par: Link, ghost start: State, ghost before: seq<Entry>, ghost gone: Forest,
                     ghost all: Forest)
      returns (accepted: bool, ghost done': Forest, ghost todo': Forest, ghost gone': Forest)
      requires Valid() && todo.Node? && todo.entry == e && basedep == NotNo(base)
      requires i in info && info[i].sym == Some(s) && base == PromptCondition(i) && i !in Preorder(all)
      requires Adopting(info, start, st, before, log, done, todo, gone, all, i, par)
      requires Taking(info, st.data, i, gone, done, To(e))
      modifies this
      ensures Valid() && Adopting(info, start, st, before, log, done', todo', gone', all, i, par)
      ensures Taking(info, st.data, i, gone', done', HeadOr(todo', Null)) && st.data[i] == old(st.data[i])
      ensures !accepted ==> done' == done && todo' == todo && gone' == gone && !TakesIn(info, st.data, i, e)
      ensures accepted ==> done'.Node? && LastEntry(done') == e && |Preorder(todo')| < |Preorder(todo)|
                           && e in info && st.links.next[e] == HeadOr(todo', Null)
      decreases |Preorder(todo)|, 5
    {
      done', todo', gone' := done, todo, gone;
      AdoptingEntry(info, start, st, before, log, done, todo, gone, all, i, par);
      var dep := EntryDep(e);
      accepted := AcceptsEntry(s, base, basedep, dep);
      if accepted {
        done', todo', gone' := AdoptOne(e, i, done, todo, par, start, before, gone, all);
      }
    }

    /** The loop of the leaf branch: it stops at the first sibling that the test
        does not accept. */
    method AdoptAccepted(i: Entry, s: Symbol, ghost rest: Forest, ghost par: Link)
      returns (ghost kids': Forest, ghost rest': Forest, ghost taken: Forest, last: Link)
      requires Valid() && i in info && info[i].sym == Some(s) && st.links.next[i] == HeadOr(rest, Null)
      requires Linked(st.links, rest, par, Null) && Distinct(Preorder(rest)) && FlatTop(st.data, rest)
               && i !in Preorder(rest)
      modifies this
      ensures Valid() && last == if kids'.Node? then To(LastEntry(kids')) else Null
      ensures AdoptingIn(info, old(st), st, old(log), log, kids', rest', taken, rest, i, par)
      ensures Collected(info, st.data, i, Empty, taken, kids', HeadOr(rest', Null))
      decreases |Preorder(rest)|, 6
    {
      var base := PromptCondition(i);
      var basedep := TestNotNo(base);
      var menu := st.links.next[i];
      last := Null;
      kids', rest', taken := Empty, rest, Empty;
      NothingAdopted(info, st, log, rest, i, par);
      NothingArranged(info, st.data, menu);
      while menu != Null
        invariant Valid() && menu == HeadOr(rest', Null) && |Preorder(rest')| <= |Preorder(rest)|
        invariant last == if kids'.Node? then To(LastEntry(kids')) else Null
        invariant Adopting(info, old(st), st, old(log), log, kids', rest', taken, rest, i, par)
        invariant Taking(info, st.data, i, taken, kids', menu) && base == PromptCondition(i)
        decreases |Preorder(rest')|
      {
        var e := menu.entry;
        var accepted;
        accepted, kids', rest', taken := AdoptNext(e, i, s, base, basedep, kids', rest', par, old(st), old(log), taken,
                                                   rest);
        if !accepted {
          break;
        }
        last := To(e);
        menu := st.links.next[e];
      }
      assert AdoptingIn(info, old(st), st, old(log), log, kids', rest', taken, rest, i, par);
    }

    /** The pointers of the entry itself after the loop of the leaf branch. */
    method TakeIn(i: Entry, last: Link, ghost done: Forest, ghost todo: Forest, ghost par: Link,
                  ghost whole: seq<Entry>)
      requires Valid() && last == (if done.Node? then To(LastEntry(done)) else Null)
      requires Halfway(info, st, done, todo, whole, To(i), par) && i in info && i !in whole
      requires st.links.parent[i] == par && st.links.list[i] == Null
               && st.links.next[i] == HeadOr(done, HeadOr(todo, Null))
      modifies this`st
      ensures Valid() && Linked(st.links, Node(i, done, todo), par, Null)
      ensures st == old(st).(links := st.links)
      ensures Outside(old(st), st, [i] + whole)
    {
      if last != Null {
        DistinctConcat(Preorder(done), Preorder(todo));
        AdoptedLinks(st.links, i, done, todo, par);
        assert i in [i] + whole && last.entry in [i] + whole;
        CutOut(i, last.entry);
      }
      OutsideLinks(old(st), st.links, [i] + whole);
    }

    method CutOut(i: Entry, last: Entry)
      requires Valid() && HasEntry(st.links, i) && HasEntry(st.links, last)
      modifies this`st
      ensures Valid() && st == old(st).(links := st.links)
      ensures var l1 := SetList(old(st.links), i, old(st.links).next[i]);
              var l2 := SetNext(l1, i, l1.next[last]);
              st.links == SetNext(l2, last, Null)
      ensures forall x | x != i && x != last :: SameAt(old(st.links), st.links, x)
    {
      st := st.(links := SetList(st.links, i, st.links.next[i]));
      st := st.(links := SetNext(st.links, i, st.links.next[last]));
      st := st.(links := SetNext(st.links, last, Null));
    }

    /** menu_finalize for the entry `i` with the children `kids` and the following
        siblings `rest`. */
    method Finalize(i: Entry, ghost kids: Forest, ghost rest: Forest, ghost par: Link)
      returns (ghost kids': Forest, ghost rest': Forest, ghost taken: Forest)
      requires Valid() && Linked(st.links, Node(i, kids, rest), par, Null)
      requires Distinct(Preorder(Node(i, kids, rest))) && FlatTop(st.data, Node(i, kids, rest))
      modifies this
      ensures Valid() && Linked(st.links, Node(i, kids', rest'), par, Null)
      ensures Preorder(kids') + Preorder(rest') == Preorder(kids) + Preorder(rest)
      ensures Prompted(info, kids')
      ensures log == old(log) + ([i] + Preorder(kids'))
      ensures FlatTop(st.data, Node(i, kids', rest'))
      ensures Outside(old(st), st, Preorder(Node(i, kids, rest)))
      ensures rest == Append(taken, rest') && Effect(info, old(st), st, Node(i, kids, taken))
      ensures Arranged(info, st.data, Node(i, kids, taken), Node(i, kids', Empty), HeadOr(rest', Null))
      decreases |Preorder(Node(i, kids, rest))|, 1
    {
      log := log + [i];
      kids', rest', taken := FinalizeList(i, kids, rest, par);
      ghost var before, all := st, Preorder(Node(i, kids, rest));
      SameOrder(i, kids, rest, kids', rest');
      DistinctParts(Node(i, kids', rest'));
      ghost var k := Hoist(i, kids');
      AfterHoist(before, st, i, kids', k, rest', par, all);
      OutsideTrans(old(st), before, st, all, all);
      EffectLinks(info, old(st), before, st, Node(i, kids, taken));
      ConcatAssociative(old(log), [i], Preorder(k));
      CollectedArranged(info, st.data, i, kids, taken, kids', HeadOr(rest', Null));
      kids' := k;
    }

    /** menu_finalize up to its last loop. */
    method FinalizeList(i: Entry, ghost kids: Forest, ghost rest: Forest, ghost par: Link)
      returns (ghost kids': Forest, ghost rest': Forest, ghost taken: Forest)
      requires Valid() && Linked(st.links, Node(i, kids, rest), par, Null)
      requires Distinct(Preorder(Node(i, kids, rest))) && FlatTop(st.data, Node(i, kids, rest))
      modifies this
      ensures Valid() && Linked(st.links, Node(i, kids', rest'), par, Null)
      ensures Preorder(kids') + Preorder(rest') == Preorder(kids) + Preorder(rest)
      ensures PromptedBelow(info, kids')
      ensures log == old(log) + Preorder(kids')
      ensures FlatTop(st.data, Node(i, kids', rest'))
      ensures Outside(old(st), st, Preorder(Node(i, kids, rest)))
      ensures rest == Append(taken, rest') && Effect(info, old(st), st, Node(i, kids, taken))
      ensures Collected(info, st.data, i, kids, taken, kids', HeadOr(rest', Null))
      decreases |Preorder(Node(i, kids, rest))|, 0
    {
      DistinctParts(Node(i, kids, rest));
      ghost var st0, all := st, Preorder(Node(i, kids, rest));
      assert all == [i] + (Preorder(kids) + Preorder(rest));
      kids', rest', taken := kids, rest, Empty;
      if st.links.list[i] != Null {
        kids' := FinalizeInner(i, kids);
        AfterInner(st0, st, i, kids, kids', rest, par);
      } else if info[i].sym.Some? {
        kids', rest', taken := FinalizeLeaf(i, rest, par);
      } else {
        OutsideLinks(st0, st.links, all);
        EffectPlain(info, st, i);
        NothingArranged(info, st.data, HeadOr(rest', Null));
      }
    }

    /** The branch for a symbol without children. */
    method FinalizeLeaf(i: Entry, ghost rest: Forest, ghost par: Link)
      returns (ghost kids': Forest, ghost rest': Forest, ghost taken: Forest)
      requires Valid() && Linked(st.links, Node(i, Empty, rest), par, Null)
      requires Distinct(Preorder(Node(i, Empty, rest))) && FlatTop(st.data, Node(i, Empty, rest))
      requires i in info && info[i].sym.Some?
      modifies this
      ensures Valid() && Linked(st.links, Node(i, kids', rest'), par, Null)
      ensures Preorder(kids') + Preorder(rest') == Preorder(rest) && PromptedBelow(info, kids')
      ensures log == old(log) + Preorder(kids')
      ensures FlatTop(st.data, Node(i, kids', rest'))
      ensures Outside(old(st), st, Preorder(Node(i, Empty, rest)))
      ensures rest == Append(taken, rest') && Effect(info, old(st), st, Node(i, Empty, taken))
      ensures Collected(info, st.data, i, Empty, taken, kids', HeadOr(rest', Null))
      decreases |Preorder(rest)|, 8
    {
      DistinctParts(Node(i, Empty, rest));
      var s := info[i].sym.value;
      kids', rest', taken := AdoptFollowers(i, s, rest, par);
      ghost var before := st;
      st := st.(dirDep := st.dirDep[s := AllocOr(if s in st.dirDep then st.dirDep[s] else None, st.data[i].dep)]);
      LeafDone(info, old(st), before, st, i, kids', rest', taken, rest, par);
    }

    /** The branch for an entry with children. */
    method FinalizeInner(i: Entry, ghost kids: Forest) returns (ghost kids': Forest)
      requires Valid() && i in info && st.links.list[i] == HeadOr(kids, Null) && kids.Node?
      requires Linked(st.links, kids, To(i), Null) && Distinct(Preorder(kids))
      requires FlatData(st.data[i]) && i !in Preorder(kids)
      modifies this
      ensures Valid() && Linked(st.links, kids', To(i), Null) && HeadOr(kids', Null) == HeadOr(kids, Null)
      ensures Preorder(kids') == Preorder(kids) && PromptedBelow(info, kids')
      ensures log == old(log) + Preorder(kids')
      ensures Outside(old(st), st, Preorder(kids)) && Effect(info, old(st), st, Node(i, kids, Empty))
      ensures Arrange(info, st.data, kids) == kids'
      decreases |Preorder(kids)|, 4
    {
      var parentdep := EntryDep(i);
      PropagateAll(i, parentdep, kids);
      ghost var before := st;
      HandedList(info, old(st), st, kids, parentdep);
      NothingDone(info, st, kids, To(i), To(i));
      kids' := FinalizeChildren(i, kids);
      InnerDone(info, old(st), before, st, i, kids);
    }
  }

  /** The whole tree: menu_finalize for the root menu and then the walk of the
      configuration writers.  The walk meets the entries in the order of their
      declaration, each was finalized once, every entry inherited the dependency of
      its declared parent, the symbols got the selects of all entries and the
      dependencies of all leaves, whatever was moved, and every entry sits where the
      submenu test and the prompt texts put it. */
  method FinalizeMenus(m: MenuBuilder, root: Entry, ghost kids: Forest)
    returns (visited: seq<Entry>, ghost kids': Forest)
    requires m.Valid() && m.log == []
    requires Linked(m.st.links, Node(root, kids, Empty), Null, Null) && FlatTop(m.st.data, Node(root, kids, Empty))
    modifies m
    ensures m.Valid()
    ensures Linked(m.st.links, Node(root, kids', Empty), Null, Null) && Prompted(m.info, kids')
    ensures visited == Preorder(kids) == Preorder(kids') && Distinct(visited) && m.log == [root] + visited
    ensures Node(root, kids', Empty) == Arrange(m.info, m.st.data, Node(root, kids, Empty))
    ensures root in m.info && root in m.st.data && HasPrompt(m.info[root], m.st.data[root])
    ensures Inherited(m.info, old(m.st.data), m.st.data, kids, DepOf(m.info[root], m.st.data[root]))
    ensures Added(old(m.st.revDep), m.st.revDep, Selects(m.info, m.st.data, kids))
    ensures Added(old(m.st.dirDep), m.st.dirDep, LeafDeps(m.info, m.st.data, Node(root, kids, Empty)))
  {
    RootedDistinct(m.st.links, root, kids);
    ghost var rest', taken;
    kids', rest', taken := m.Finalize(root, kids, Empty, Null);
    NothingTaken(taken, rest', kids, kids');
    RootEffect(m.info, old(m.st), m.st, root, kids);
    visited := Walk(m.st.links, root, kids');
  }

  lemma NothingTaken(taken: Forest, rest': Forest, kids: Forest, kids': Forest)
    requires Empty == Append(taken, rest') && Preorder(kids') + Preorder(rest') == Preorder(kids) + Preorder(Empty)
    ensures taken == Empty && rest' == Empty && Preorder(kids') == Preorder(kids)
  {
    assert Preorder(kids') + [] == Preorder(kids') && Preorder(kids) + [] == Preorder(kids);
  }

  lemma RootEffect(info: map<Entry, Info>, a: State, b: State, root: Entry, kids: Forest)
    requires Effect(info, a, b, Node(root, kids, Empty))
    ensures root in info && root in b.data && HasPrompt(info[root], b.data[root])
    ensures Inherited(info, a.data, b.data, kids, DepOf(info[root], b.data[root]))
    ensures Added(a.revDep, b.revDep, Selects(info, b.data, kids))
    ensures Added(a.dirDep, b.dirDep, LeafDeps(info, b.data, Node(root, kids, Empty)))
  {
    assert EffectOf(info, a, b, Node(root, kids, Empty));
    NodeReasons(info, b.data, root, kids);
  }

  /** The followers `gone` were arranged as `done`, and all pass the test of `i`. */
  ghost predicate Taking(info: map<Entry, Info>, data: map<Entry, Data>, i: Entry, gone: Forest, done: Forest,
                         next: Link) {
    Arranged(info, data, gone, done, next) && AfterRun(info, data, i, done).Empty?
  }

  lemma ArrangedNext(info: map<Entry, Info>, a: State, b: State, gone: Forest, done: Forest, taken: Forest,
                     placed: Forest, next: Link)
    requires taken.Node? && Arranged(info, a.data, gone, done, To(taken.entry))
             && Arranged(info, b.data, taken, placed, next)
    requires Effect(info, a, b, taken) && Distinct(Preorder(gone) + Preorder(taken))
    ensures Arranged(info, b.data, Append(gone, taken), Append(done, placed), next)
  {
    assert EffectOf(info, a, b, taken);
    DistinctConcat(Preorder(gone), Preorder(taken));
    SameDataDisjoint(a.data, b.data, Preorder(taken), Preorder(gone));
    ArrangedGrows(info, a.data, b.data, gone, done, taken, placed, next);
  }

  lemma {:induction false} RunThrough(info: map<Entry, Info>, data: map<Entry, Data>, i: Entry, f: Forest, g: Forest)
    requires AfterRun(info, data, i, f).Empty?
    ensures AfterRun(info, data, i, Append(f, g)) == AfterRun(info, data, i, g)
  {
    if f.Node? {
      RunThrough(info, data, i, f.rest, g);
    }
  }

  lemma TakingGrows(info: map<Entry, Info>, a: State, b: State, i: Entry, gone: Forest, done: Forest, taken: Forest,
                    kids: Forest, next: Link)
    requires taken.Node? && Taking(info, a.data, i, gone, done, To(taken.entry))
             && TakesIn(info, a.data, i, taken.entry)
    requires Arranged(info, b.data, taken, Node(taken.entry, kids, Empty), next)
    requires Effect(info, a, b, taken) && Distinct(Preorder(gone) + Preorder(taken)) && i !in Preorder(taken)
    ensures Taking(info, b.data, i, Append(gone, taken), Append(done, Node(taken.entry, kids, Empty)), next)
  {
    var first := Node(taken.entry, kids, Empty);
    assert EffectOf(info, a, b, taken);
    ArrangedNext(info, a, b, gone, done, taken, first, next);
    DistinctConcat(Preorder(gone), Preorder(taken));
    SameDataDisjoint(a.data, b.data, Preorder(taken), Preorder(gone));
    ArrangeOrder(info, a.data, gone);
    TakenRun(info, a.data, b.data, i, done, first);
  }

  lemma TakenRun(info: map<Entry, Info>, a: map<Entry, Data>, b: map<Entry, Data>, i: Entry, done: Forest,
                 first: Forest)
    requires a.Keys == b.Keys && SameData(a, b, Preorder(done)) && (i in a ==> b[i] == a[i])
    requires AfterRun(info, a, i, done).Empty? && first.Node? && first.rest.Empty? && TakesIn(info, b, i, first.entry)
    ensures AfterRun(info, b, i, Append(done, first)).Empty?
  {
    RunFrame(info, a, b, i, done);
    RunThrough(info, b, i, done, first);
  }

  lemma TakingNext(info: map<Entry, Info>, a: State, b: State, i: Entry, gone: Forest, done: Forest, taken: Forest,
                   now: Forest, todo: Forest, all: Forest)
    requires taken.Node? && now.Node? && now.entry == taken.entry
    requires Taking(info, a.data, i, gone, done, To(taken.entry)) && TakesIn(info, a.data, i, taken.entry)
    requires Arranged(info, b.data, taken, Node(taken.entry, now.kids, Empty), HeadOr(now.rest, Null))
    requires Effect(info, a, b, taken) && i !in Preorder(all)
    requires all == Append(gone, todo) && todo == Append(taken, now.rest) && Distinct(Preorder(all))
    ensures Taking(info, b.data, i, Append(gone, taken), Append(done, Node(now.entry, now.kids, Empty)),
                   HeadOr(now.rest, Null))
    ensures i in b.data && b.data[i] == a.data[i]
  {
    PreorderAppend(gone, todo);
    PreorderAppend(taken, now.rest);
    ConcatAssociative(Preorder(gone), Preorder(taken), Preorder(now.rest));
    DistinctConcat(Preorder(gone) + Preorder(taken), Preorder(now.rest));
    assert EffectOf(info, a, b, taken);
    TakingGrows(info, a, b, i, gone, done, taken, now.kids, HeadOr(now.rest, Null));
  }

  /** More entries of the list `kids` are finalized. */
  lemma EffectGrows(info: map<Entry, Info>, a: State, b: State, c: State, gone: Forest, taken: Forest, rest: Forest,
                    kids: Forest)
    requires Effect(info, a, b, gone) && Effect(info, b, c, taken)
    requires kids == Append(gone, Append(taken, rest)) && Distinct(Preorder(kids))
    ensures Effect(info, a, c, Append(gone, taken)) && kids == Append(Append(gone, taken), rest)
    ensures Distinct(Preorder(gone) + Preorder(taken))
  {
    AppendAssociative(gone, taken, rest);
    PreorderAppend(gone, taken);
    PreorderAppend(Append(gone, taken), rest);
    DistinctConcat(Preorder(Append(gone, taken)), Preorder(rest));
    EffectJoin(info, a, b, c, gone, taken);
  }

  lemma TakenApart(i: Entry, taken: Forest, rest': Forest, rest: Forest)
    requires rest == Append(taken, rest') && i !in Preorder(rest)
    ensures i !in Preorder(taken)
  {
    PreorderAppend(taken, rest');
  }

  lemma OutsideSame(a: State, b: State, c: State, s: seq<Entry>)
    requires Outside(a, b, s) && c.links == b.links && c.data == b.data
    ensures Outside(a, c, s)
  {
    forall e | e !in s ensures Unchanged(a, c, e) {
      assert Unchanged(a, b, e);
    }
  }

  lemma SameOrder(i: Entry, kids: Forest, rest: Forest, kids': Forest, rest': Forest)
    requires Preorder(kids') + Preorder(rest') == Preorder(kids) + Preorder(rest)
    ensures Preorder(Node(i, kids', rest')) == Preorder(Node(i, kids, rest))
  {
    ConcatAssociative([i], Preorder(kids), Preorder(rest));
    ConcatAssociative([i], Preorder(kids'), Preorder(rest'));
  }

  /** The entry itself and its followers while its children were finalized. */
  lemma AfterInner(a: State, b: State, i: Entry, kids: Forest, kids': Forest, rest: Forest, par: Link)
    requires Linked(a.links, Node(i, kids, rest), par, Null) && Distinct(Preorder(Node(i, kids, rest)))
    requires FlatTop(a.data, Node(i, kids, rest))
    requires Outside(a, b, Preorder(kids)) && Linked(b.links, kids', To(i), Null)
             && HeadOr(kids', Null) == HeadOr(kids, Null)
    ensures Linked(b.links, Node(i, kids', rest), par, Null) && FlatTop(b.data, Node(i, kids', rest))
    ensures Outside(a, b, Preorder(Node(i, kids, rest)))
  {
    DistinctParts(Node(i, kids, rest));
    assert Unchanged(a, b, i);
    OutsideLinked(a, b, Preorder(kids), rest, par, Null);
    OutsideFlat(a, b, Preorder(kids), rest);
    OutsideWider(a, b, Preorder(kids), Preorder(Node(i, kids, rest)));
  }

  /** The beginning of the work on a list. */
  lemma NothingDone(info: map<Entry, Info>, st: State, todo: Forest, to: Link, from: Link)
    requires Linked(st.links, todo, from, Null) && Distinct(Preorder(todo)) && FlatTop(st.data, todo)
    ensures Halfway(info, st, Empty, todo, Preorder(todo), to, from)
  {
    assert Preorder(Empty) + Preorder(todo) == Preorder(todo);
  }

  lemma NothingAdopted(info: map<Entry, Info>, st: State, log: seq<Entry>, rest: Forest, i: Entry, par: Link)
    requires Linked(st.links, rest, par, Null) && Distinct(Preorder(rest)) && FlatTop(st.data, rest)
    ensures Adopting(info, st, st, log, log, Empty, rest, Empty, rest, i, par)
  {
    NothingDone(info, st, rest, To(i), par);
    EffectNone(info, st);
    assert log == log + Preorder(Empty);
    assert AdoptingIn(info, st, st, log, log, Empty, rest, Empty, rest, i, par);
  }

  lemma AdoptingEntry(info: map<Entry, Info>, start: State, st: State, before: seq<Entry>, log: seq<Entry>,
                      done: Forest, todo: Forest, gone: Forest, all: Forest, i: Entry, par: Link)
    requires Adopting(info, start, st, before, log, done, todo, gone, all, i, par) && todo.Node?
    ensures HasEntry(st.links, todo.entry)
  {
    assert AdoptingIn(info, start, st, before, log, done, todo, gone, all, i, par);
  }

  lemma AdoptingHalfway(info: map<Entry, Info>, start: State, st: State, before: seq<Entry>, log: seq<Entry>,
                        done: Forest, todo: Forest, gone: Forest, all: Forest, i: Entry, par: Link)
    requires Adopting(info, start, st, before, log, done, todo, gone, all, i, par)
    ensures Halfway(info, st, done, todo, Preorder(all), To(i), par) && all == Append(gone, todo)
  {
    assert AdoptingIn(info, start, st, before, log, done, todo, gone, all, i, par);
  }

  lemma ParentValid(info: map<Entry, Info>, st: State, e: Entry, to: Link)
    requires ValidState(info, st) && e in info
    ensures ValidState(info, st.(links := SetParent(st.links, e, to)))
  {
  }

  /** One more entry was finalized, and then got its parent. */
  lemma AdoptEffect(info: map<Entry, Info>, a: State, b: State, c: State, d: State, whole: seq<Entry>,
                    gone: Forest, taken: Forest, rest: Forest, all: Forest)
    requires Outside(a, b, whole) && Outside(b, c, whole) && Outside(c, d, whole) && d == c.(links := d.links)
    requires Effect(info, a, b, gone) && Effect(info, b, c, taken)
    requires all == Append(gone, Append(taken, rest)) && Distinct(Preorder(all))
    ensures Outside(a, d, whole) && Effect(info, a, d, Append(gone, taken)) && all == Append(Append(gone, taken), rest)
  {
    OutsideTrans(a, b, c, whole, whole);
    OutsideTrans(a, c, d, whole, whole);
    EffectLinks(info, b, c, d, taken);
    EffectGrows(info, a, b, d, gone, taken, rest, all);
  }

  lemma AdoptedOne(info: map<Entry, Info>, start: State, a: State, b: State, c: State, before: seq<Entry>,
                   log: seq<Entry>, log': seq<Entry>, done: Forest, todo: Forest, now: Forest, done': Forest,
                   gone: Forest, taken: Forest, all: Forest, i: Entry, par: Link)
    requires Adopting(info, start, a, before, log, done, todo, gone, all, i, par) && todo.Node?
    requires now.Node? && now.entry == todo.entry && now.entry in info
             && Halfway(info, b, done, now, Preorder(all), To(i), par)
    requires Prompted(info, now.kids) && |Preorder(now)| == |Preorder(todo)|
    requires log' == log + ([now.entry] + Preorder(now.kids)) && Outside(a, b, Preorder(all))
    requires todo == Append(taken, now.rest) && Effect(info, a, b, taken)
    requires c == b.(links := SetParent(b.links, now.entry, To(i)))
             && done' == Append(done, Node(now.entry, now.kids, Empty))
    ensures Adopting(info, start, c, before, log', done', now.rest, Append(gone, taken), all, i, par)
    ensures done'.Node? && LastEntry(done') == now.entry && |Preorder(now.rest)| < |Preorder(todo)|
    ensures now.entry in c.links.next && c.links.next[now.entry] == HeadOr(now.rest, Null)
  {
    assert AdoptingIn(info, start, a, before, log, done, todo, gone, all, i, par);
    AdoptHalfway(info, b, before, done, now, Preorder(all), i, par);
    AdoptEffect(info, start, a, b, c, Preorder(all), gone, taken, now.rest, all);
    assert AdoptingIn(info, start, c, before, log', done', now.rest, Append(gone, taken), all, i, par);
  }

  /** The children inherited, then they were finalized. */
  lemma InnerDone(info: map<Entry, Info>, a: State, b: State, c: State, i: Entry, kids: Forest)
    requires kids.Node? && i in info && i in a.data && HasPrompt(info[i], a.data[i]) && i !in Preorder(kids)
    requires Handed(info, a, b, kids, DepOf(info[i], a.data[i])) && Outside(a, b, Preorder(kids))
    requires Effect(info, b, c, kids) && Outside(b, c, Preorder(kids))
    ensures Effect(info, a, c, Node(i, kids, Empty)) && Outside(a, c, Preorder(kids))
  {
    OutsideTrans(a, b, c, Preorder(kids), Preorder(kids));
    EffectInner(info, a, b, c, i, kids);
  }

  /** The dependency of a leaf was added to those of its symbol. */
  lemma LeafDone(info: map<Entry, Info>, a: State, b: State, c: State, i: Entry,
                 kids': Forest, rest': Forest, taken: Forest, rest: Forest, par: Link)
    requires Linked(b.links, Node(i, kids', rest'), par, Null) && FlatTop(b.data, rest')
    requires i in info && info[i].sym.Some? && i in a.data && i in b.data && HasPrompt(info[i], a.data[i])
    requires b.data[i] == a.data[i] && FlatData(a.data[i]) && i !in Preorder(rest)
    requires Outside(a, b, [i] + Preorder(rest)) && rest == Append(taken, rest') && Effect(info, a, b, taken)
    requires c == b.(dirDep := AddOne(b.dirDep, Reason(info[i].sym.value, b.data[i].dep)))
    ensures Linked(c.links, Node(i, kids', rest'), par, Null) && FlatTop(c.data, Node(i, kids', rest'))
    ensures Outside(a, c, Preorder(Node(i, Empty, rest))) && Effect(info, a, c, Node(i, Empty, taken))
  {
    TakenApart(i, taken, rest', rest);
    EffectLeaf(info, a, b, c, i, taken);
    assert Preorder(Node(i, Empty, rest)) == [i] + Preorder(rest);
    OutsideSame(a, b, c, [i] + Preorder(rest));
  }

  /** The entry itself while its followers were finalized. */
  lemma AfterAccepted(a: State, b: State, i: Entry, rest: Forest, par: Link)
    requires Linked(a.links, Node(i, Empty, rest), par, Null) && i in a.data
    requires Outside(a, b, Preorder(rest)) && i !in Preorder(rest)
    ensures HasEntry(b.links, i) && i in b.data && b.data[i] == a.data[i]
    ensures b.links.parent[i] == par && b.links.next[i] == HeadOr(rest, Null) && b.links.list[i] == Null
    ensures Outside(a, b, [i] + Preorder(rest))
  {
    assert Unchanged(a, b, i);
    OutsideRight(a, b, [i], Preorder(rest));
  }

  /** The same for the hoisting. */
  lemma AfterHoist(a: State, b: State, i: Entry, kids: Forest, kids': Forest, rest: Forest, par: Link, all: seq<Entry>)
    requires Linked(a.links, Node(i, kids, rest), par, Null) && Distinct(Preorder(Node(i, kids, rest)))
    requires FlatTop(a.data, Node(i, kids, rest)) && all == Preorder(Node(i, kids, rest))
    requires b == a.(links := b.links) && forall x | x !in Preorder(kids) :: SameAt(a.links, b.links, x)
    requires Linked(b.links, kids', To(i), Null) && HeadOr(kids', Null) == HeadOr(kids, Null)
    ensures Linked(b.links, Node(i, kids', rest), par, Null) && FlatTop(b.data, Node(i, kids', rest))
    ensures Outside(a, b, all)
  {
    OutsideLinks(a, b.links, Preorder(kids));
    AfterInner(a, b, i, kids, kids', rest, par);
  }

  /** The first `i` properties were restricted, and the others not yet. */
  ghost predicate RestrictedUpTo(sym: Option<Symbol>, basedep: ExprPtr, was: seq<Prop>, props: seq<Prop>, i: nat) {
    && i <= |props| == |was| && props[i..] == was[i..]
    && forall j | 0 <= j < i :: Restricted(sym, basedep, was[j], props[j])
  }

  lemma InheritsFrom(sym: Option<Symbol>, parentdep: ExprPtr, a: Data, basedep: ExprPtr, props: seq<Prop>)
    requires basedep == Conjoined(parentdep, a.dep) && FlatPtr(basedep) && Conjunction(parentdep, a.dep, basedep)
    requires RestrictedUpTo(sym, basedep, a.props, props, |props|)
    ensures Inherits(sym, parentdep, a, Data(basedep, props))
  {
  }

  lemma RestrictedNext(sym: Option<Symbol>, basedep: ExprPtr, was: seq<Prop>, props: seq<Prop>, i: nat, q: Prop)
    requires RestrictedUpTo(sym, basedep, was, props, i) && i < |props| && Restricted(sym, basedep, props[i], q)
    ensures RestrictedUpTo(sym, basedep, was, props[i := q], i + 1)
  {
    assert props[i] == props[i..][0] == was[i..][0] == was[i];
    assert props[i := q][i + 1..] == props[i..][1..] == was[i..][1..] == was[i + 1..];
  }

  lemma SelectsGrow(m: map<Symbol, ExprPtr>, sym: Option<Symbol>, props: seq<Prop>, props': seq<Prop>, i: nat)
    requires i < |props| == |props'| && props[..i] == props'[..i]
    ensures AddAll(AddAll(m, SelectReasons(sym, props[..i])), SelectReason(sym, props'[i]))
         == AddAll(m, SelectReasons(sym, props'[..i + 1]))
  {
    assert props'[..i + 1][..i] == props[..i];
    AddAllAppend(m, SelectReasons(sym, props[..i]), SelectReason(sym, props'[i]));
  }

  /** The first entry of the rest of a list, and the list without it. */
  lemma NextOfList(done: Forest, todo: Forest, kids: Forest)
    requires todo.Node? && Append(done, todo) == kids && Distinct(Preorder(kids))
    ensures Distinct(Preorder(done) + ([todo.entry] + Preorder(todo.kids)))
    ensures Append(Append(done, Node(todo.entry, todo.kids, Empty)), todo.rest) == kids
  {
    var first := Node(todo.entry, todo.kids, Empty);
    AppendAssociative(done, first, todo.rest);
    PreorderAppend(done, first);
    PreorderAppend(Append(done, first), todo.rest);
    DistinctConcat(Preorder(Append(done, first)), Preorder(todo.rest));
    assert Preorder(first) == [todo.entry] + Preorder(todo.kids);
  }

  lemma HandedNext(info: map<Entry, Info>, a: State, b: State, c: State, done: Forest, todo: Forest, kids: Forest,
                   parentdep: ExprPtr)
    requires todo.Node? && Append(done, todo) == kids && Distinct(Preorder(kids)) && Handed(info, a, b, done, parentdep)
    requires todo.entry in info && todo.entry in b.data && todo.entry in c.data
             && HasPrompt(info[todo.entry], c.data[todo.entry])
    requires Inherits(info[todo.entry].sym, parentdep, b.data[todo.entry], c.data[todo.entry])
    requires c == b.(data := b.data[todo.entry := c.data[todo.entry]],
                     revDep := AddAll(b.revDep, SelectReasons(info[todo.entry].sym, c.data[todo.entry].props)))
    ensures Handed(info, a, c, Append(done, Node(todo.entry, todo.kids, Empty)), parentdep)
    ensures Append(Append(done, Node(todo.entry, todo.kids, Empty)), todo.rest) == kids
  {
    NextOfList(done, todo, kids);
    HandedStep(info, a, b, c, done, todo.entry, todo.kids, parentdep);
  }

  /** The list after its entries were given their dependencies. */
  lemma HandedList(info: map<Entry, Info>, a: State, b: State, kids: Forest, parentdep: ExprPtr)
    requires Handed(info, a, b, kids, parentdep)
    ensures Outside(a, b, Preorder(kids)) && FlatTop(b.data, kids)
  {
    InheritedTopFlat(info, a.data, b.data, kids, parentdep);
  }

  lemma {:induction false} InheritedTopFlat(info: map<Entry, Info>, a: map<Entry, Data>, b: map<Entry, Data>, f: Forest,
                                            parentdep: ExprPtr)
    requires InheritedTop(info, a, b, f, parentdep)
    ensures FlatTop(b, f)
  {
    if f.Node? {
      InheritsFlat(info[f.entry].sym, parentdep, a[f.entry], b[f.entry]);
      InheritedTopFlat(info, a, b, f.rest, parentdep);
    }
  }

  /** One hoisting, the children of the first entry having been given the parent `par`. */
  lemma HoistStep(l0: Links, l1: Links, done: Forest, todo: Forest, par: Link)
    requires todo.Node? && todo.kids.Node? && Distinct(Preorder(todo))
    requires Linked(l0, done, par, To(todo.entry)) && Linked(l0, todo, par, Null)
    requires forall x | x in Preorder(done) :: x !in Preorder(todo)
    requires Linked(l1, todo.kids, par, Null)
    requires forall x | x !in Preorder(todo.kids) :: SameAt(l0, l1, x)
    ensures var l2 := HoistLinks(l1, todo.entry, LastEntry(todo.kids));
            && HasEntry(l1, todo.entry) && HasEntry(l1, LastEntry(todo.kids))
            && Linked(l2, done, par, To(todo.entry))
            && Linked(l2, Node(todo.entry, Empty, Append(todo.kids, todo.rest)), par, Null)
            && forall x | x !in Preorder(todo) :: SameAt(l0, l2, x)
  {
    var e, kids, rest := todo.entry, todo.kids, todo.rest;
    DistinctParts(todo);
    assert SameAt(l0, l1, e);
    LinkedFrame(l0, l1, rest, par, Null);
    LastLinked(l1, kids, par, Null);
    HoistLinked(l1, e, kids, rest, par);
    var l2 := HoistLinks(l1, e, LastEntry(kids));
    SameThrough(l0, l1, l2, Preorder(todo));
    LinkedFrame(l0, l2, done, par, To(e));
  }

  lemma SameThrough(l0: Links, l1: Links, l2: Links, s: seq<Entry>)
    requires forall x | x !in s :: SameAt(l0, l1, x)
    requires forall x | x !in s :: SameAt(l1, l2, x)
    ensures forall x | x !in s :: SameAt(l0, l2, x)
  {
  }

  lemma HoistOneOrder(info: map<Entry, Info>, todo: Forest)
    requires todo.Node? && PromptedBelow(info, todo)
    ensures var todo' := Node(todo.entry, Empty, Append(todo.kids, todo.rest));
            Preorder(todo') == Preorder(todo) && PromptedBelow(info, todo')
  {
    PreorderAppend(todo.kids, todo.rest);
    assert [todo.entry] + (Preorder(todo.kids) + Preorder(todo.rest)) == Preorder(todo);
    PromptedAppend(info, todo.kids, todo.rest);
  }

  /** Going on to the next sibling. */
  lemma PassOver(l: Links, info: map<Entry, Info>, done: Forest, todo: Forest, par: Link)
    requires todo.Node? && Linked(l, done, par, HeadOr(todo, Null)) && Linked(l, todo, par, Null)
    ensures var done' := Append(done, Node(todo.entry, todo.kids, Empty));
            && Linked(l, done', par, HeadOr(todo.rest, Null)) && Linked(l, todo.rest, par, Null)
            && Preorder(done') + Preorder(todo.rest) == Preorder(done) + Preorder(todo)
            && HeadOr(done', HeadOr(todo.rest, Null)) == HeadOr(done, HeadOr(todo, Null))
            && (Prompted(info, done) && Prompted(info, Node(todo.entry, todo.kids, Empty)) ==> Prompted(info, done'))
            && (PromptedBelow(info, done) && Prompted(info, todo.kids) && todo.entry in info ==>
                  PromptedBelow(info, done'))
  {
    var first := Node(todo.entry, todo.kids, Empty);
    LinkedAppend(l, done, first, par, HeadOr(todo.rest, Null));
    PreorderAppend(done, first);
    PromptedAppend(info, done, first);
    assert Preorder(first) + Preorder(todo.rest) == Preorder(todo);
  }

  lemma ReparentStep(l: Links, done: Forest, todo: Forest, from: Link, to: Link, kids: Forest)
    requires todo.Node? && Append(done, todo) == kids && Distinct(Preorder(kids))
    requires Linked(l, done, to, HeadOr(todo, Null)) && Linked(l, todo, from, Null)
    ensures var l' := SetParent(l, todo.entry, to);
            var done' := Append(done, Node(todo.entry, todo.kids, Empty));
            && Linked(l', done', to, HeadOr(todo.rest, Null)) && Linked(l', todo.rest, from, Null)
            && Append(done', todo.rest) == kids
            && (todo.rest.Node? ==> LastEntry(todo.rest) == LastEntry(todo))
            && todo.entry in Preorder(kids)
  {
    PreorderAppend(done, todo);
    DistinctConcat(Preorder(done), Preorder(todo));
    AppendAssociative(done, Node(todo.entry, todo.kids, Empty), todo.rest);
    EntryInside(done, todo);
    ReparentLinks(l, done, todo, from, to);
  }

  lemma EntryInside(done: Forest, todo: Forest)
    requires todo.Node?
    ensures todo.entry in Preorder(todo) && todo.entry in Preorder(done) + Preorder(todo)
  {
  }

  lemma ReparentLinks(l: Links, done: Forest, todo: Forest, from: Link, to: Link)
    requires todo.Node? && Distinct(Preorder(todo)) && todo.entry !in Preorder(done)
    requires Linked(l, done, to, To(todo.entry)) && Linked(l, todo, from, Null)
    ensures var l' := SetParent(l, todo.entry, to);
            && Linked(l', Append(done, Node(todo.entry, todo.kids, Empty)), to, HeadOr(todo.rest, Null))
            && Linked(l', todo.rest, from, Null)
  {
    var e, l' := todo.entry, SetParent(l, todo.entry, to);
    DistinctParts(todo);
    LinkedFrame(l, l', done, to, To(e));
    LinkedFrame(l, l', todo.kids, To(e), Null);
    LinkedFrame(l, l', todo.rest, from, Null);
    LinkedAppend(l', done, Node(e, todo.kids, Empty), to, HeadOr(todo.rest, Null));
  }

  lemma {:induction false} AppendAssociative(f: Forest, g: Forest, h: Forest)
    ensures Append(Append(f, g), h) == Append(f, Append(g, h))
  {
    if f.Node? {
      AppendAssociative(f.rest, g, h);
    }
  }

  lemma {:induction false} LastAppend(f: Forest, g: Forest)
    requires g.Node?
    ensures Append(f, g).Node? && LastEntry(Append(f, g)) == LastEntry(g)
  {
    if f.Node? {
      LastAppend(f.rest, g);
    }
  }

  /** The three assignments after the loop of the leaf branch. */
  lemma AdoptedLinks(l: Links, i: Entry, done: Forest, todo: Forest, par: Link)
    requires done.Node? && HasEntry(l, i) && l.parent[i] == par && l.next[i] == To(done.entry)
    requires Linked(l, done, To(i), HeadOr(todo, Null)) && Linked(l, todo, par, Null)
    requires Distinct(Preorder(done) + Preorder(todo)) && i !in Preorder(done) && i !in Preorder(todo)
    ensures HasEntry(l, LastEntry(done)) && LastEntry(done) in Preorder(done)
    ensures var last := LastEntry(done);
            var l1 := SetList(l, i, l.next[i]);
            var l2 := SetNext(l1, i, l1.next[last]);
            var l3 := SetNext(l2, last, Null);
            Linked(l3, Node(i, done, todo), par, Null)
  {
    var last := LastEntry(done);
    LastLinked(l, done, To(i), HeadOr(todo, Null));
    DistinctConcat(Preorder(done), Preorder(todo));
    LinkedNewEnd(l, done, To(i), HeadOr(todo, Null), Null);
    var l0 := SetNext(l, last, Null);
    var l1 := SetList(l, i, l.next[i]);
    var l2 := SetNext(l1, i, l1.next[last]);
    var l3 := SetNext(l2, last, Null);
    LinkedFrame(l0, l3, done, To(i), Null);
    LinkedFrame(l, l3, todo, par, Null);
  }

  /** The first entry of what is left was finalized. */
  lemma FinalizedNext(info: map<Entry, Info>, a: State, b: State, done: Forest, todo: Forest, todo': Forest,
                      whole: seq<Entry>, to: Link, from: Link)
    requires Halfway(info, a, done, todo, whole, to, from) && todo.Node? && todo'.Node? && todo'.entry == todo.entry
    requires Outside(a, b, Preorder(todo)) && Linked(b.links, todo', from, Null) && FlatTop(b.data, todo')
    requires Preorder(todo'.kids) + Preorder(todo'.rest) == Preorder(todo.kids) + Preorder(todo.rest)
    ensures Halfway(info, b, done, todo', whole, to, from)
    ensures Preorder(todo') == Preorder(todo) && Outside(a, b, whole)
  {
    SameOrder(todo.entry, todo.kids, todo.rest, todo'.kids, todo'.rest);
    DistinctConcat(Preorder(done), Preorder(todo));
    OutsideLinked(a, b, Preorder(todo), done, to, To(todo.entry));
    OutsideRight(a, b, Preorder(done), Preorder(todo));
  }

  lemma OutsideRight(a: State, b: State, s: seq<Entry>, t: seq<Entry>)
    requires Outside(a, b, t)
    ensures Outside(a, b, s + t)
  {
  }

  lemma OutsideWider(a: State, b: State, s: seq<Entry>, t: seq<Entry>)
    requires Outside(a, b, s) && forall e | e in s :: e in t
    ensures Outside(a, b, t)
  {
  }

  /** The preorder of what is done grows by the entry and everything below it. */
  lemma OrderGrows(before: seq<Entry>, done: Forest, todo: Forest)
    requires todo.Node?
    ensures var done' := Append(done, Node(todo.entry, todo.kids, Empty));
            && Preorder(done') == Preorder(done) + ([todo.entry] + Preorder(todo.kids))
            && Preorder(done') + Preorder(todo.rest) == Preorder(done) + Preorder(todo)
            && (before + Preorder(done)) + ([todo.entry] + Preorder(todo.kids)) == before + Preorder(done')
            && |Preorder(todo.rest)| < |Preorder(todo)|
  {
    var first := Node(todo.entry, todo.kids, Empty);
    var d, f, r := Preorder(done), [todo.entry] + Preorder(todo.kids), Preorder(todo.rest);
    PreorderAppend(done, first);
    assert Preorder(first) == f + [] == f;
    ConcatAssociative(d, f, r);
    ConcatAssociative(before, d, f);
  }

  /** The finalized entry is done with, its parent staying the same. */
  lemma PassHalfway(info: map<Entry, Info>, st: State, before: seq<Entry>, done: Forest, todo: Forest,
                    whole: seq<Entry>, par: Link)
    requires Halfway(info, st, done, todo, whole, par, par) && todo.Node? && Prompted(info, todo.kids)
    requires todo.entry in info
    ensures var done' := Append(done, Node(todo.entry, todo.kids, Empty));
            && Halfway(info, st, done', todo.rest, whole, par, par)
            && HeadOr(done', HeadOr(todo.rest, Null)) == HeadOr(done, HeadOr(todo, Null))
            && (before + Preorder(done)) + ([todo.entry] + Preorder(todo.kids)) == before + Preorder(done')
            && |Preorder(todo.rest)| < |Preorder(todo)|
            && todo.entry in st.links.next && st.links.next[todo.entry] == HeadOr(todo.rest, Null)
  {
    PassOver(st.links, info, done, todo, par);
    OrderGrows(before, done, todo);
  }

  /** The finalized entry is done with and gets the parent `i`. */
  lemma AdoptHalfway(info: map<Entry, Info>, st: State, before: seq<Entry>, done: Forest, todo: Forest,
                     whole: seq<Entry>, i: Entry, par: Link)
    requires Halfway(info, st, done, todo, whole, To(i), par) && todo.Node? && Prompted(info, todo.kids)
    requires todo.entry in info
    ensures var done' := Append(done, Node(todo.entry, todo.kids, Empty));
            var st' := st.(links := SetParent(st.links, todo.entry, To(i)));
            && Halfway(info, st', done', todo.rest, whole, To(i), par)
            && HeadOr(done', HeadOr(todo.rest, Null)) == HeadOr(done, HeadOr(todo, Null))
            && (before + Preorder(done)) + ([todo.entry] + Preorder(todo.kids)) == before + Preorder(done')
            && |Preorder(todo.rest)| < |Preorder(todo)|
            && todo.entry in st.links.next && st.links.next[todo.entry] == HeadOr(todo.rest, Null)
            && done'.Node? && LastEntry(done') == todo.entry && Outside(st, st', whole)
  {
    var first := Node(todo.entry, todo.kids, Empty);
    PreorderAppend(done, todo);
    ReparentStep(st.links, done, todo, par, To(i), Append(done, todo));
    OrderGrows(before, done, todo);
    PromptedAppend(info, done, first);
    LastAppend(done, first);
    HeadAppendOr(done, first, HeadOr(todo.rest, Null));
    assert todo.entry in whole;
    OutsideLinks(st, SetParent(st.links, todo.entry, To(i)), whole);
  }

  lemma HeadAppendOr(f: Forest, g: Forest, end: Link)
    requires g.Node?
    ensures HeadOr(Append(f, g), end) == HeadOr(f, To(g.entry))
  {
  }
}
