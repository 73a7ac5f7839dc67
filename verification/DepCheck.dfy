/** The search for recursive dependencies (sym_check_deps and its helpers in
    symbol.c) on a table without choices. */
module DepCheck {
  import opened Expr
  import opened Kconfig
  import opened Sequences

  // ----- the relation that is searched -----

  /** What the check follows in a property; selects are skipped. */
  function PropDeps(p: Prop): set<Symbol> {
    match p.kind
    case SelectProp => {}
    case DefaultProp => PtrSymbols(p.visible) + PtrSymbols(p.value)
    case _ => PtrSymbols(p.visible)
  }

  /** Constants have no properties. */
  function DefOf(defs: map<Symbol, Def>, s: Symbol): Def {
    if s in defs then defs[s] else Def([], None, None)
  }

  function Deps(defs: map<Symbol, Def>, s: Symbol): set<Symbol> {
    var d := DefOf(defs, s);
    PtrSymbols(d.revDep) + set i, t | 0 <= i < |d.props| && t in PropDeps(d.props[i]) :: t
  }

  /** Everything the first `i` properties lead to is in `c`. */
  ghost predicate PropsWithin(props: seq<Prop>, i: nat, c: set<Symbol>) {
    i <= |props| && forall j {:trigger props[j]} | 0 <= j < i :: PropDeps(props[j]) <= c
  }

  lemma DepsOfParts(defs: map<Symbol, Def>, s: Symbol, c: set<Symbol>)
    requires PtrSymbols(DefOf(defs, s).revDep) <= c
    requires PropsWithin(DefOf(defs, s).props, |DefOf(defs, s).props|, c)
    ensures Deps(defs, s) <= c
  {
  }

  lemma PropDepsIncluded(defs: map<Symbol, Def>, s: Symbol, i: nat)
    requires i < |DefOf(defs, s).props|
    ensures PropDeps(DefOf(defs, s).props[i]) <= Deps(defs, s)
  {
  }

  ghost predicate IsPath(defs: map<Symbol, Def>, p: seq<Symbol>) {
    forall i | 0 <= i < |p| - 1 :: p[i + 1] in Deps(defs, p[i])
  }

  /** A path of symbols whose last one depends on the first. */
  ghost predicate IsCycle(defs: map<Symbol, Def>, p: seq<Symbol>) {
    p != [] && IsPath(defs, p) && p[0] in Deps(defs, p[|p| - 1])
  }

  /** Every symbol comes after everything it depends on. */
  ghost predicate IsTopological(defs: map<Symbol, Def>, order: seq<Symbol>) {
    forall i, t {:trigger t in Deps(defs, order[i])} | 0 <= i < |order| && t in Deps(defs, order[i]) :: t in order[..i]
  }

  lemma {:induction false} PathDescends(defs: map<Symbol, Def>, order: seq<Symbol>, p: seq<Symbol>, at: nat)
    returns (end: nat)
    requires IsTopological(defs, order) && Distinct(order)
    requires p != [] && IsPath(defs, p) && at < |order| && order[at] == p[0]
    ensures end <= at && order[end] == p[|p| - 1]
  {
    end := at;
    if |p| > 1 {
      assert p[0 + 1] in Deps(defs, order[at]);
      assert p[1] in order[..at];
      var next :| 0 <= next < at && order[next] == p[1];
      assert IsPath(defs, p[1..]) by {
        forall i | 0 <= i < |p[1..]| - 1 ensures p[1..][i + 1] in Deps(defs, p[1..][i]) {
          assert p[(i + 1) + 1] in Deps(defs, p[i + 1]);
        }
      }
      end := PathDescends(defs, order, p[1..], next);
    }
  }

  /** A topological order that holds every symbol with dependencies excludes cycles. */
  lemma TopologicalHasNoCycle(defs: map<Symbol, Def>, order: seq<Symbol>, p: seq<Symbol>)
    requires IsTopological(defs, order) && Distinct(order)
    requires forall s | s in defs :: s in order
    ensures !IsCycle(defs, p)
  {
    if IsCycle(defs, p) {
      var first := p[0];
      assert first in defs by {
        if |p| > 1 {
          assert p[0 + 1] in Deps(defs, p[0]);
        }
      }
      var at :| 0 <= at < |order| && order[at] == first;
      var end := PathDescends(defs, order, p, at);
    }
  }

  /** The symbols on the stack from the i-th on, if the last depends on it. */
  lemma StackCycle(defs: map<Symbol, Def>, stack: seq<Symbol>, i: nat)
    requires i < |stack| && IsPath(defs, stack) && stack[i] in Deps(defs, stack[|stack| - 1])
    ensures IsCycle(defs, stack[i..])
  {
    var p := stack[i..];
    forall j | 0 <= j < |p| - 1 ensures p[j + 1] in Deps(defs, p[j]) {
      assert stack[(i + j) + 1] in Deps(defs, stack[i + j]);
    }
  }

  lemma PathAppend(defs: map<Symbol, Def>, p: seq<Symbol>, s: Symbol)
    requires IsPath(defs, p) && (p != [] ==> s in Deps(defs, p[|p| - 1]))
    ensures IsPath(defs, p + [s])
  {
  }

  lemma TopologicalAppend(defs: map<Symbol, Def>, order: seq<Symbol>, s: Symbol)
    requires IsTopological(defs, order) && forall t | t in Deps(defs, s) :: t in order
    ensures IsTopological(defs, order + [s])
  {
    var all := order + [s];
    forall i, t | 0 <= i < |all| && t in Deps(defs, all[i])
      ensures t in all[..i]
    {
      if i < |order| {
        assert all[..i] == order[..i];
      } else {
        assert all[..i] == order;
      }
    }
  }

  // ----- the search -----

  class DepChecker {
    const defs: map<Symbol, Def>
    /** All symbols, closed under the relation. */
    ghost const universe: set<Symbol>
    /** SYMBOL_CHECK: on the stack; SYMBOL_CHECKED: met before. */
    var check: set<Symbol>
    var checked: set<Symbol>
    /** The dep_stack chain, check_top being its last element. */
    var stack: seq<Symbol>
    /** The cycles printed by sym_check_print_recursive. */
    var reports: seq<seq<Symbol>>
    /** Symbols in the order in which their check ended. */
    ghost var finished: seq<Symbol>

    ghost predicate Valid()
      reads this
    {
      && (forall s | s in universe :: Deps(defs, s) <= universe)
      && check <= checked && checked <= universe
      && (forall s | s in stack :: s in check) && (forall s | s in check :: s in stack)
      && Distinct(stack) && IsPath(defs, stack)
      && (forall r | r in reports :: IsCycle(defs, r))
      && Distinct(finished)
      && (forall s | s in finished :: s in checked && s !in check)
      && (forall s | s in checked && s !in check :: s in finished)
      && (reports == [] ==> IsTopological(defs, finished))
    }

    constructor (defs: map<Symbol, Def>, ghost universe: set<Symbol>)
      requires forall s | s in universe :: Deps(defs, s) <= universe
      ensures Valid() && this.defs == defs && this.universe == universe
      ensures checked == {} && stack == [] && reports == []
    {
      this.defs := defs;
      this.universe := universe;
      check, checked, stack, reports, finished := {}, {}, [], [], [];
    }

    /** All of these were checked and have left the stack. */
    ghost predicate Cleared(c: set<Symbol>)
      reads this
    {
      forall s | s in c :: s in checked && s !in check
    }

    ghost predicate ClearedProps(props: seq<Prop>, i: nat)
      reads this
    {
      i <= |props| && forall j {:trigger props[j]} | 0 <= j < i :: Cleared(PropDeps(props[j]))
    }

    /** What every call leaves behind. */
    twostate predicate Advanced()
      reads this
    {
      && stack == old(stack) && check == old(check) && old(checked) <= checked
      && old(reports) <= reports && old(finished) <= finished
    }

    /** sym_check_print_recursive: the stack from `last` upwards. */
    method Report(last: Symbol)
      requires Valid() && stack != [] && last in check
      requires last in Deps(defs, stack[|stack| - 1])
      modifies this`reports
      ensures Valid() && Advanced() && reports != []
    {
      ghost var j :| 0 <= j < |stack| && stack[j] == last;
      var i := |stack| - 1;
      while stack[i] != last
        invariant j <= i < |stack|
        decreases i
      {
        i := i - 1;
      }
      StackCycle(defs, stack, i);
      reports := reports + [stack[i..]];
    }

    /** Entering a symbol: its flags are set and it goes on the stack. */
    method Push(sym: Symbol)
      requires Valid() && sym in universe && sym !in checked
      requires stack != [] ==> sym in Deps(defs, stack[|stack| - 1])
      modifies this`check, this`checked, this`stack
      ensures Valid() && check == old(check) + {sym} && checked == old(checked) + {sym} && stack == old(stack) + [sym]
    {
      check, checked := check + {sym}, checked + {sym};
      stack := stack + [sym];
      PathAppend(defs, old(stack), sym);
    }

    /** Leaving it: it stays marked as checked. */
    method Pop(sym: Symbol)
      requires Valid() && stack != [] && stack[|stack| - 1] == sym
      requires reports == [] ==> Cleared(Deps(defs, sym))
      modifies this`check, this`stack, this`finished
      ensures Valid() && check == old(check) - {sym} && stack == old(stack)[..|old(stack)| - 1]
      ensures finished == old(finished) + [sym]
    {
      assert sym in stack && sym !in finished;
      stack := stack[..|stack| - 1];
      check := check - {sym};
      finished := finished + [sym];
      if reports == [] {
        TopologicalAppend(defs, old(finished), sym);
      }
    }

    /** sym_check_deps: None when the dependencies are in order. */
    method CheckDeps(sym: Symbol) returns (r: Option<Symbol>)
      requires Valid() && sym in universe
      requires stack != [] ==> sym in Deps(defs, stack[|stack| - 1])
      modifies this
      ensures Valid() && Advanced()
      ensures sym in checked
      ensures r.Some? ==> r.value in check
      ensures reports == [] ==> r == None && sym !in check
      decreases universe - checked, 1
    {
      if sym in check {
        assert stack != [];
        Report(sym);
        return Some(sym);
      }
      if sym in checked {
        return None;
      }
      r := CheckNew(sym);
    }

    /** The branch for a symbol that was not met before. */
    method CheckNew(sym: Symbol) returns (r: Option<Symbol>)
      requires Valid() && sym in universe && sym !in checked
      requires stack != [] ==> sym in Deps(defs, stack[|stack| - 1])
      modifies this
      ensures Valid() && Advanced()
      ensures sym in checked && sym !in check
      ensures r.Some? ==> r.value in check
      ensures reports == [] ==> r == None
      decreases universe - checked, 0
    {
      Push(sym);
      r := CheckSymDeps(sym);
      Pop(sym);
      if r == Some(sym) {
        r := None;
      }
    }

    /** sym_check_expr_deps on behalf of the symbol on top of the stack. */
    method CheckExprDeps(e: ExprPtr) returns (r: Option<Symbol>)
      requires Valid() && stack != []
      requires PtrSymbols(e) <= Deps(defs, stack[|stack| - 1])
      modifies this
      ensures Valid() && Advanced()
      ensures r.Some? ==> r.value in check
      ensures reports == [] ==> r == None && Cleared(PtrSymbols(e))
      decreases universe - checked, 3, if e.Some? then Size(e.value) else 0, 0
    {
      if e.None? {
        return None;
      }
      match e.value
      case Bin(_, left, right) =>
        r := CheckExprDeps(Some(left));
        if r.Some? {
          return;
        }
        assert universe - checked <= old(universe - checked);
        r := CheckExprAfter(Some(right), Symbols(left));
      case Not(a) =>
        r := CheckExprDeps(Some(a));
      case Equal(a, b) =>
        r := CheckPair(a, b, Deps(defs, stack[|stack| - 1]));
      case Unequal(a, b) =>
        r := CheckPair(a, b, Deps(defs, stack[|stack| - 1]));
      case Sym(s) =>
        r := CheckDeps(s);
    }

    /** The two sides of a comparison. */
    method CheckPair(a: Symbol, b: Symbol, ghost top: set<Symbol>) returns (r: Option<Symbol>)
      requires Valid() && stack != [] && top == Deps(defs, stack[|stack| - 1]) && a in top && b in top
      modifies this
      ensures Valid() && Advanced()
      ensures r.Some? ==> r.value in check
      ensures reports == [] ==> r == None && Cleared({a, b})
      decreases universe - checked, 2, 1
    {
      r := CheckDepsAfter(a, {}, top);
      if r.Some? {
        return;
      }
      r := CheckDepsAfter(b, {} + {a}, top);
    }

    /** What was cleared before stays so. */
    method CheckDepsAfter(s: Symbol, ghost before: set<Symbol>, ghost top: set<Symbol>) returns (r: Option<Symbol>)
      requires Valid() && stack != [] && top == Deps(defs, stack[|stack| - 1]) && s in top
      requires reports == [] ==> Cleared(before)
      modifies this
      ensures Valid() && Advanced()
      ensures r.Some? ==> r.value in check
      ensures reports == [] ==> r == None && Cleared(before + {s})
      decreases universe - checked, 2, 0
    {
      r := CheckDeps(s);
    }

    /** One round of the loop of sym_check_sym_deps. */
    method CheckProp(p: Prop) returns (r: Option<Symbol>)
      requires Valid() && stack != []
      requires PropDeps(p) <= Deps(defs, stack[|stack| - 1])
      modifies this
      ensures Valid() && Advanced()
      ensures r.Some? ==> r.value in check
      ensures reports == [] ==> r == None && Cleared(PropDeps(p))
      decreases universe - checked, 4, 1
    {
      if p.kind == SelectProp {
        return None;
      }
      r := CheckExprDeps(p.visible);
      if r.Some? || p.kind != DefaultProp {
        return;
      }
      assert PropDeps(p) == PtrSymbols(p.visible) + PtrSymbols(p.value);
      assert universe - checked <= old(universe - checked);
      r := CheckExprAfter(p.value, PtrSymbols(p.visible));
    }

    /** What was cleared before stays so. */
    method CheckExprAfter(e: ExprPtr, ghost before: set<Symbol>) returns (r: Option<Symbol>)
      requires Valid() && stack != []
      requires PtrSymbols(e) <= Deps(defs, stack[|stack| - 1]) && (reports == [] ==> Cleared(before))
      modifies this
      ensures Valid() && Advanced()
      ensures r.Some? ==> r.value in check
      ensures reports == [] ==> r == None && Cleared(before + PtrSymbols(e))
      decreases universe - checked, 3, if e.Some? then Size(e.value) else 0, 1
    {
      r := CheckExprDeps(e);
    }

    /** sym_check_sym_deps, the symbol being pushed already. */
    method CheckSymDeps(sym: Symbol) returns (r: Option<Symbol>)
      requires Valid() && stack != [] && stack[|stack| - 1] == sym
      modifies this
      ensures Valid() && Advanced()
      ensures r.Some? ==> r.value in check
      ensures reports == [] ==> r == None && Cleared(Deps(defs, sym))
      decreases universe - checked, 6
    {
      r := CheckExprDeps(DefOf(defs, sym).revDep);
      if r.Some? {
        return;
      }
      r := CheckProps(sym);
      if reports == [] {
        DepsOfParts(defs, sym, checked - check);
      }
    }

    /** Its loop over the properties. */
    method CheckProps(sym: Symbol) returns (r: Option<Symbol>)
      requires Valid() && stack != [] && stack[|stack| - 1] == sym
      modifies this
      ensures Valid() && Advanced()
      ensures r.Some? ==> r.value in check
      ensures reports == [] ==>
                r == None && ClearedProps(DefOf(defs, sym).props, |DefOf(defs, sym).props|)
      decreases universe - checked, 5
    {
      var props := DefOf(defs, sym).props;
      r := None;
      var i := 0;
      while i < |props|
        invariant 0 <= i <= |props|
        invariant Valid() && Advanced() && r == None
        invariant reports == [] ==> ClearedProps(props, i)
      {
        r := CheckPropAt(sym, i);
        if r.Some? {
          return;
        }
        i := i + 1;
      }
    }

    method CheckPropAt(sym: Symbol, i: nat) returns (r: Option<Symbol>)
      requires Valid() && stack != [] && stack[|stack| - 1] == sym && i < |DefOf(defs, sym).props|
      requires reports == [] ==> ClearedProps(DefOf(defs, sym).props, i)
      modifies this
      ensures Valid() && Advanced()
      ensures r.Some? ==> r.value in check
      ensures reports == [] ==> r == None && ClearedProps(DefOf(defs, sym).props, i + 1)
      decreases universe - checked, 5, 0
    {
      PropDepsIncluded(defs, sym, i);
      r := CheckProp(DefOf(defs, sym).props[i]);
    }

    /** The sweep of conf_parse over all symbols; `errors` is what it adds to
        zconfnerrs.  A recursion is reported exactly if there is a cycle, and then
        it is only printed: the count stays at zero.  Without a report the symbols
        were finished in a topological order. */
    method CheckAll(symbols: seq<Symbol>) returns (errors: nat)
      requires Valid() && stack == [] && checked == {} && reports == []
      requires forall s | s in symbols :: s in universe
      requires forall s | s in defs :: s in symbols
      modifies this
      ensures Valid() && stack == []
      ensures reports != [] <==> exists p :: IsCycle(defs, p)
      ensures forall r | r in reports :: IsCycle(defs, r)
      ensures reports == [] ==>
                IsTopological(defs, finished) && Distinct(finished) && forall s | s in defs :: s in finished
      ensures errors == 0
    {
      errors := 0;
      var i := 0;
      while i < |symbols|
        invariant 0 <= i <= |symbols|
        invariant Valid() && stack == [] && errors == 0
        invariant forall j | 0 <= j < i :: symbols[j] in checked
      {
        assert symbols[i] in symbols;
        var r := CheckDeps(symbols[i]);
        errors := errors + if r.Some? then 1 else 0;
        i := i + 1;
      }
      if reports == [] {
        forall s | s in defs ensures s in finished {
          assert s in symbols;
        }
        forall p ensures !IsCycle(defs, p) {
          TopologicalHasNoCycle(defs, finished, p);
        }
      } else {
        assert reports[0] in reports;
      }
    }
  }
}
