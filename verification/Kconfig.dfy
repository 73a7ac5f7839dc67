/** The symbol table of Kconfig and the value every symbol should have:
    the evaluation rules of symbol.c read without their cache. */
module Kconfig {
  import opened Tristate
  import opened Expr

  datatype PropType = PromptProp | DefaultProp | SelectProp | SymbolProp

  /** A property: its condition, and for defaults the value. */
  datatype Prop = Prop(kind: PropType, visible: ExprPtr, value: ExprPtr)

  datatype Def = Def(props: seq<Prop>, dirDep: ExprPtr, revDep: ExprPtr)

  /** What the user or a configuration file assigned to a symbol. */
  datatype UserValue = UserValue(tri: Tri, val: string)

  type UserValues = map<Symbol, UserValue>

  /** `modules` is the value of the modules symbol.  `order` numbers the symbols
      so that each one refers only to symbols with smaller numbers. */
  datatype Table = Table(defs: map<Symbol, Def>, modules: Tri, order: map<Symbol, nat>)

  predicate Known(k: Table, s: Symbol) {
    s.Config? ==> s in k.defs && s in k.order
  }

  predicate SymBelow(k: Table, s: Symbol, n: nat) {
    s.Config? ==> s in k.defs && s in k.order && k.order[s] < n
  }

  predicate Below(k: Table, e: Expr, n: nat) {
    match e
    case Sym(s) => SymBelow(k, s, n)
    case Not(a) => Below(k, a, n)
    case Bin(_, l, r) => Below(k, l, n) && Below(k, r, n)
    case Equal(a, b) => SymBelow(k, a, n) && SymBelow(k, b, n)
    case Unequal(a, b) => SymBelow(k, a, n) && SymBelow(k, b, n)
  }

  predicate PtrBelow(k: Table, e: ExprPtr, n: nat) {
    e.Some? ==> Below(k, e.value, n)
  }

  predicate PropBelow(k: Table, p: Prop, n: nat) {
    p.kind == PromptProp || p.kind == DefaultProp ==>
      PtrBelow(k, p.visible, n) && (p.kind == DefaultProp ==> p.value.Some? && Below(k, p.value.value, n))
  }

  /** Everything a symbol refers to is defined and numbered below it. */
  predicate DefBelow(k: Table, d: Def, n: nat) {
    && (forall i {:trigger PropBelow(k, d.props[i], n)} | 0 <= i < |d.props| :: PropBelow(k, d.props[i], n))
    && PtrBelow(k, d.dirDep, n) && PtrBelow(k, d.revDep, n)
  }

  predicate Acyclic(k: Table) {
    && k.order.Keys == k.defs.Keys
    && forall s {:trigger DefBelow(k, k.defs[s], k.order[s])} | s in k.defs ::
         s.Config? && DefBelow(k, k.defs[s], k.order[s])
  }

  /** A symbol value as the source stores it: both members of symbol_value. */
  datatype Value = Value(val: string, tri: Tri)

  /** What evaluation leaves in a symbol record. */
  datatype Facts = Facts(visible: Tri, dir: Tri, rev: Tri, write: bool, curr: Value)

  predicate IsString(t: SymType) {
    t == StringType || t == IntType || t == HexType
  }

  /** sym_get_type outside choices: without modules a tristate is a boolean. */
  function EffectiveType(s: Symbol, modules: Tri): SymType {
    if s.Type() == TristateType && modules == NO then Boolean else s.Type()
  }

  function PromoteVisible(s: Symbol, modules: Tri, t: Tri): Tri {
    if t == MOD && (s.Type() != TristateType || modules == NO) then YES else t
  }

  function PromoteBoolean(s: Symbol, modules: Tri, t: Tri): Tri {
    if t == MOD && EffectiveType(s, modules) == Boolean then YES else t
  }

  function PromoteDir(t: Tri): Tri {
    if t == MOD then YES else t
  }

  function ConstValue(s: Symbol): Value
    requires !s.Config?
  {
    match s
    case ConstNo => Value("n", NO)
    case ConstMod => Value("m", MOD)
    case ConstYes => Value("y", YES)
    case Literal(text) => Value(text, NO)
  }

  /** sym_get_string_value. */
  function StringValue(s: Symbol, modules: Tri, curr: Value): string {
    if s.IsLogical() then
      if curr.tri == MOD && modules == NO then "n" else TriString(curr.tri)
    else curr.val
  }

  /** prop_get_symbol on the value of a default. */
  function DefaultSymbol(value: ExprPtr): Option<Symbol> {
    if value.Some? && value.value.Sym? then Some(value.value.sym) else None
  }

  // ----- reference semantics -----

  /** The facts of every symbol of a table. */
  type Model = map<Symbol, Facts>

  function ValueIn(m: Model, s: Symbol): Value {
    if !s.Config? then ConstValue(s) else if s in m then m[s].curr else Value("", NO)
  }

  /** The valuation under which the expressions of the table are read. */
  ghost function ValuationOf(k: Table, m: Model): Valuation {
    Valuation((s: Symbol) => ValueIn(m, s).tri, (s: Symbol) => StringValue(s, k.modules, ValueIn(m, s)))
  }

  /** A missing condition is y, except that a missing select is n. */
  ghost function Condition(e: ExprPtr, none: Tri, v: Valuation): Tri {
    if e.None? then none else Eval(e.value, v)
  }

  /** The disjunction of the conditions of the first `i` properties that are prompts. */
  ghost function Prompts(props: seq<Prop>, i: nat, v: Valuation): Tri
    requires i <= |props|
  {
    if i == 0 then NO
    else if props[i - 1].kind != PromptProp then Prompts(props, i - 1, v)
    else Or(Prompts(props, i - 1, v), Condition(props[i - 1].visible, YES, v))
  }

  /** The first default from the i-th property on whose condition is not n. */
  ghost function DefaultFrom(props: seq<Prop>, i: nat, v: Valuation): Option<(ExprPtr, Tri)>
    requires i <= |props|
    decreases |props| - i
  {
    if i == |props| then None
    else if props[i].kind == DefaultProp && Condition(props[i].visible, YES, v) != NO then
      Some((props[i].value, Condition(props[i].visible, YES, v)))
    else DefaultFrom(props, i + 1, v)
  }

  ghost function VisibleOf(k: Table, v: Valuation, s: Symbol): Tri
    requires s in k.defs
  {
    PromoteVisible(s, k.modules, Prompts(k.defs[s].props, |k.defs[s].props|, v))
  }

  ghost function RevOf(k: Table, v: Valuation, s: Symbol): Tri
    requires s in k.defs
  {
    PromoteBoolean(s, k.modules, Condition(k.defs[s].revDep, NO, v))
  }

  ghost function DirOf(k: Table, v: Valuation, s: Symbol): Tri
    requires s in k.defs
  {
    PromoteDir(Condition(k.defs[s].dirDep, YES, v))
  }

  ghost function DefaultOf(k: Table, v: Valuation, s: Symbol): Option<(ExprPtr, Tri)>
    requires s in k.defs
  {
    DefaultFrom(k.defs[s].props, 0, v)
  }

  /** The value a logical symbol takes from its defaults alone. */
  ghost function DefaultTri(k: Table, v: Valuation, s: Symbol): Tri
    requires s in k.defs
  {
    var d := DefaultOf(k, v, s);
    if d.None? then NO else And(Condition(d.value.0, YES, v), d.value.1)
  }

  /** The value a string symbol takes from its defaults alone. */
  ghost function DefaultVal(k: Table, m: Model, s: Symbol): string
    requires s in k.defs
  {
    var d := DefaultOf(k, ValuationOf(k, m), s);
    if d.None? || DefaultSymbol(d.value.0).None? then ""
    else ValueIn(m, DefaultSymbol(d.value.0).value).val
  }

  /** The value of a logical symbol from visibility, user value, default and selects. */
  function LogicalValue(s: Symbol, modules: Tri, visible: Tri, user: Option<UserValue>, dflt: Tri, rev: Tri): Tri {
    var t := if visible != NO && user.Some? then And(user.value.tri, visible) else dflt;
    PromoteBoolean(s, modules, Or(t, rev))
  }

  function UserOf(u: UserValues, s: Symbol): Option<UserValue> {
    if s in u then Some(u[s]) else None
  }

  /** What a symbol must hold when the other symbols hold `m`. */
  ghost function FactsFrom(k: Table, u: UserValues, m: Model, s: Symbol): Facts
    requires s in k.defs && s.Config?
  {
    var v := ValuationOf(k, m);
    var d := DefaultOf(k, v, s);
    var visible, rev, dir := VisibleOf(k, v, s), RevOf(k, v, s), DirOf(k, v, s);
    if s.IsLogical() then
      var t := LogicalValue(s, k.modules, visible, UserOf(u, s), DefaultTri(k, v, s), rev);
      Facts(visible, dir, rev, visible != NO || rev != NO || d.Some?, Value("n", t))
    else if IsString(s.Type()) then
      var val := if visible != NO && s in u then u[s].val else DefaultVal(k, m, s);
      Facts(visible, dir, rev, visible != NO || (d.Some? && DefaultSymbol(d.value.0).Some?), Value(val, NO))
    else
      Facts(NO, NO, NO, false, Value(s.name, NO))
  }

  /** The meaning of a configuration: every symbol holds what it must hold. */
  ghost predicate Solves(k: Table, u: UserValues, m: Model) {
    && m.Keys == k.defs.Keys
    && forall s {:trigger FactsFrom(k, u, m, s)} | s in k.defs :: s.Config? && m[s] == FactsFrom(k, u, m, s)
  }

  // ----- which property counts -----

  /** Some prompt reaches the value. */
  lemma {:induction false} PromptsReach(props: seq<Prop>, i: nat, v: Valuation, x: Tri)
    requires i <= |props| && x != NO
    ensures Prompts(props, i, v) >= x
       <==> exists j :: 0 <= j < i && props[j].kind == PromptProp && Condition(props[j].visible, YES, v) >= x
  {
    if i > 0 {
      PromptsReach(props, i - 1, v, x);
    }
  }

  ghost predicate InForce(p: Prop, v: Valuation) {
    p.kind == DefaultProp && Condition(p.visible, YES, v) != NO
  }

  /** The i-th property is a default whose condition is not n, and every default before
      it has the condition n. */
  ghost predicate IsFirstDefault(props: seq<Prop>, i: int, v: Valuation) {
    0 <= i < |props| && InForce(props[i], v) && forall h | 0 <= h < i :: !InForce(props[h], v)
  }

  ghost predicate IsDefault(props: seq<Prop>, v: Valuation, d: Option<(ExprPtr, Tri)>) {
    match d
    case None => forall i | 0 <= i < |props| :: !InForce(props[i], v)
    case Some((value, c)) =>
      exists i :: IsFirstDefault(props, i, v) && props[i].value == value && Condition(props[i].visible, YES, v) == c
  }

  lemma {:induction false} DefaultFromFirst(props: seq<Prop>, n: nat, v: Valuation)
    requires n <= |props| && forall h | 0 <= h < n :: !InForce(props[h], v)
    ensures IsDefault(props, v, DefaultFrom(props, n, v))
    decreases |props| - n
  {
    if n < |props| {
      if InForce(props[n], v) {
        assert IsFirstDefault(props, n, v);
      } else {
        DefaultFromFirst(props, n + 1, v);
      }
    }
  }

  /** The default of a symbol is the first one whose condition is not n, if there is one. */
  lemma DefaultOfIff(k: Table, v: Valuation, s: Symbol, d: Option<(ExprPtr, Tri)>)
    requires s in k.defs
    ensures DefaultOf(k, v, s) == d <==> IsDefault(k.defs[s].props, v, d)
  {
    var props := k.defs[s].props;
    DefaultFromFirst(props, 0, v);
    if IsDefault(props, v, d) {
      OneDefault(props, v, d, DefaultOf(k, v, s));
    }
  }

  lemma OneDefault(props: seq<Prop>, v: Valuation, d: Option<(ExprPtr, Tri)>, e: Option<(ExprPtr, Tri)>)
    requires IsDefault(props, v, d) && IsDefault(props, v, e)
    ensures d == e
  {
    if d.Some? && e.Some? {
      var i :| IsFirstDefault(props, i, v) && props[i].value == d.value.0
               && Condition(props[i].visible, YES, v) == d.value.1;
      var j :| IsFirstDefault(props, j, v) && props[j].value == e.value.0
               && Condition(props[j].visible, YES, v) == e.value.1;
      assert i == j;
    }
  }

  /** A default of a logical symbol gives what both its value and its condition allow. */
  lemma DefaultTriReach(k: Table, v: Valuation, s: Symbol, x: Tri)
    requires s in k.defs && x != NO
    ensures DefaultTri(k, v, s) >= x
       <==> exists i :: && IsFirstDefault(k.defs[s].props, i, v)
                        && Condition(k.defs[s].props[i].visible, YES, v) >= x
                        && Condition(k.defs[s].props[i].value, YES, v) >= x
  {
    var props := k.defs[s].props;
    DefaultFromFirst(props, 0, v);
    if i :| IsFirstDefault(props, i, v) {
      assert IsDefault(props, v, Some((props[i].value, Condition(props[i].visible, YES, v))));
      DefaultOfIff(k, v, s, Some((props[i].value, Condition(props[i].visible, YES, v))));
      assert forall j | IsFirstDefault(props, j, v) :: j == i;
    }
  }

  /** The default string is the value of the symbol that the first default names. */
  lemma DefaultValIff(k: Table, m: Model, s: Symbol, i: int, t: Symbol)
    requires s in k.defs && IsFirstDefault(k.defs[s].props, i, ValuationOf(k, m))
    requires k.defs[s].props[i].value == Some(Sym(t))
    ensures DefaultVal(k, m, s) == if !t.Config? then ConstValue(t).val else if t in m then m[t].curr.val else ""
  {
    var props, v := k.defs[s].props, ValuationOf(k, m);
    DefaultOfIff(k, v, s, Some((props[i].value, Condition(props[i].visible, YES, v))));
  }

  // ----- visibility and dependencies -----

  /** m stays m for a tristate with modules alone; otherwise it counts as y. */
  lemma VisibleOfIff(k: Table, v: Valuation, s: Symbol)
    requires s in k.defs
    ensures var props := k.defs[s].props;
            var any := exists j :: 0 <= j < |props| && props[j].kind == PromptProp
                                   && Condition(props[j].visible, YES, v) >= MOD;
            var full := exists j :: 0 <= j < |props| && props[j].kind == PromptProp
                                    && Condition(props[j].visible, YES, v) >= YES;
            && (VisibleOf(k, v, s) == NO <==> !any)
            && (VisibleOf(k, v, s) == MOD <==> any && !full && s.Type() == TristateType && k.modules != NO)
  {
    var props := k.defs[s].props;
    PromptsReach(props, |props|, v, MOD);
    PromptsReach(props, |props|, v, YES);
  }

  lemma RevOfIff(k: Table, v: Valuation, s: Symbol)
    requires s in k.defs
    ensures RevOf(k, v, s) == NO <==> k.defs[s].revDep.None? || EvalPtr(k.defs[s].revDep, v) == NO
    ensures RevOf(k, v, s) == MOD
       <==> && k.defs[s].revDep.Some? && EvalPtr(k.defs[s].revDep, v) == MOD
            && s.Type() != Boolean && (s.Type() == TristateType ==> k.modules != NO)
  {
  }

  /** The direct dependency only says whether it is n. */
  lemma DirOfIff(k: Table, v: Valuation, s: Symbol)
    requires s in k.defs
    ensures DirOf(k, v, s) == if EvalPtr(k.defs[s].dirDep, v) == NO then NO else YES
  {
  }

  // ----- the equations of a solution, one at a time -----

  lemma SolvedVisibility(k: Table, u: UserValues, m: Model, s: Symbol)
    requires Solves(k, u, m) && s in k.defs && s.Config? && (s.IsLogical() || IsString(s.Type()))
    ensures s in m
    ensures m[s].visible == VisibleOf(k, ValuationOf(k, m), s)
    ensures m[s].rev == RevOf(k, ValuationOf(k, m), s)
    ensures m[s].dir == DirOf(k, ValuationOf(k, m), s)
  {
    assert m[s] == FactsFrom(k, u, m, s);
  }

  lemma SolvedLogical(k: Table, u: UserValues, m: Model, s: Symbol)
    requires Solves(k, u, m) && s in k.defs && s.IsLogical()
    ensures s in m
    ensures m[s].curr.val == "n"
    ensures m[s].visible != NO && s in u ==>
              m[s].curr.tri == PromoteBoolean(s, k.modules, Or(And(u[s].tri, m[s].visible), m[s].rev)) && m[s].write
    ensures !(m[s].visible != NO && s in u) ==>
              m[s].curr.tri == PromoteBoolean(s, k.modules, Or(DefaultTri(k, ValuationOf(k, m), s), m[s].rev))
    ensures m[s].write <==> m[s].visible != NO || m[s].rev != NO || DefaultOf(k, ValuationOf(k, m), s).Some?
  {
    assert m[s] == FactsFrom(k, u, m, s);
  }

  lemma SolvedString(k: Table, u: UserValues, m: Model, s: Symbol)
    requires Solves(k, u, m) && s in k.defs && !s.IsLogical() && IsString(s.Type())
    ensures s in m
    ensures m[s].curr.tri == NO
    ensures m[s].visible != NO && s in u ==> m[s].curr.val == u[s].val && m[s].write
    ensures !(m[s].visible != NO && s in u) ==> m[s].curr.val == DefaultVal(k, m, s)
    ensures var d := DefaultOf(k, ValuationOf(k, m), s);
            m[s].write <==> m[s].visible != NO || (d.Some? && DefaultSymbol(d.value.0).Some?)
  {
    assert m[s] == FactsFrom(k, u, m, s);
  }

  lemma SolvedOther(k: Table, u: UserValues, m: Model, s: Symbol)
    requires Solves(k, u, m) && s in k.defs && s.Config? && !s.IsLogical() && !IsString(s.Type())
    ensures s in m && m[s] == Facts(NO, NO, NO, false, Value(s.name, NO))
  {
    assert m[s] == FactsFrom(k, u, m, s);
  }
}
