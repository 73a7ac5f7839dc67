/** Joining two members of an AND/OR list into one (expr_join_or and
    expr_join_and of expr.c). */
module ExprJoin {
  import opened Tristate
  import opened Expr
  import opened ExprEquality
  import opened ExprNormalForm

  /** The symbol the first operand is about; a negation is looked through. */
  function FirstSubject(e: Expr): Option<Symbol> {
    match e
    case Sym(s) => Some(s)
    case Equal(a, _) => Some(a)
    case Unequal(a, _) => Some(a)
    case Not(x) =>
      (match x
       case Sym(s) => Some(s)
       case Equal(a, _) => Some(a)
       case Unequal(a, _) => Some(a)
       case _ => None)
    case Bin(_, _, _) => None
  }

  /** For the second operand only the negation of a plain symbol is looked through. */
  function SecondSubject(e: Expr): Option<Symbol> {
    if e.Not? && !e.arg.Sym? then None else FirstSubject(e)
  }

  /** The symbol both operands are about, when it is boolean or tristate. */
  function Subject(e1: Expr, e2: Expr): Option<Symbol> {
    var s1, s2 := FirstSubject(e1), SecondSubject(e2);
    if s1.Some? && s1 == s2 && s1.value.IsLogical() then s1
    else None
  }

  predicate OneEach(x: Symbol, y: Symbol, a: Symbol, b: Symbol) {
    (x == a && y == b) || (x == b && y == a)
  }

  function JoinOr(e1: Expr, e2: Expr): ExprPtr {
    if ExprEq(e1, e2) then Some(e1) else
    var subject := Subject(e1, e2);
    if subject.None? then None else
    var s := subject.value;
    if s.Type() == TristateType && e1.Equal? && e2.Equal? then
      if OneEach(e1.rhs, e2.rhs, ConstYes, ConstMod) then Some(Unequal(s, ConstNo))
      else if OneEach(e1.rhs, e2.rhs, ConstYes, ConstNo) then Some(Unequal(s, ConstMod))
      else if OneEach(e1.rhs, e2.rhs, ConstMod, ConstNo) then Some(Unequal(s, ConstYes))
      else None
    else if s.Type() == Boolean
            && ((e1.Not? && e1.arg.Sym? && e2.Sym?) || (e2.Not? && e2.arg.Sym? && e1.Sym?)) then
      Some(YES_EXPR)
    else None
  }

  /** `e` is the plain symbol and `f` compares it with `c`. */
  predicate SymAndEqual(e: Expr, f: Expr, c: Symbol) {
    e.Sym? && f.Equal? && f.rhs == c
  }

  predicate SymAndUnequal(e: Expr, f: Expr, c: Symbol) {
    e.Sym? && f.Unequal? && f.rhs == c
  }

  function JoinAnd(e1: Expr, e2: Expr): ExprPtr {
    if ExprEq(e1, e2) then Some(e1) else
    var subject := Subject(e1, e2);
    if subject.None? then None else
    var s := subject.value;
    if SymAndEqual(e1, e2, ConstYes) || SymAndEqual(e2, e1, ConstYes) then Some(Equal(s, ConstYes))
    else if SymAndUnequal(e1, e2, ConstNo) || SymAndUnequal(e2, e1, ConstNo) then Some(Sym(s))
    else if SymAndUnequal(e1, e2, ConstMod) || SymAndUnequal(e2, e1, ConstMod) then Some(Equal(s, ConstYes))
    else if s.Type() != TristateType then None
    else if e1.Equal? && e2.Unequal? && e1.rhs.IsConst() && e2.rhs.IsConst() then
      Some(if e1.rhs != e2.rhs then Equal(s, e1.rhs) else NO_EXPR)
    else if e1.Unequal? && e2.Equal? && e1.rhs.IsConst() && e2.rhs.IsConst() then
      Some(if e2.rhs != e1.rhs then Equal(s, e2.rhs) else NO_EXPR)
    else if e1.Unequal? && e2.Unequal? then
      if OneEach(e1.rhs, e2.rhs, ConstYes, ConstNo) then Some(Equal(s, ConstMod))
      else if OneEach(e1.rhs, e2.rhs, ConstYes, ConstMod) then Some(Equal(s, ConstNo))
      else if OneEach(e1.rhs, e2.rhs, ConstMod, ConstNo) then Some(Equal(s, ConstYes))
      else None
    else None
  }

  function Join(op: Op, e1: Expr, e2: Expr): ExprPtr {
    if op == AndOp then JoinAnd(e1, e2) else JoinOr(e1, e2)
  }

  lemma StringOfLogical(s: Symbol, v: Valuation)
    requires WellFormed(v)
    requires s.IsLogical()
    ensures v.str(s) == "n" <==> v.tri(s) == NO
    ensures v.str(s) == "m" <==> v.tri(s) == MOD
    ensures v.str(s) == "y" <==> v.tri(s) == YES
  {
    assert v.str(s) == TriString(v.tri(s));
    assert "y"[0] == 'y' && "n"[0] == 'n' && "m"[0] == 'm';
  }

  lemma JoinOrMeaning(e1: Expr, e2: Expr, v: Valuation)
    requires WellFormed(v)
    requires !ExprEq(e1, e2) && JoinOr(e1, e2).Some?
    ensures Eval(JoinOr(e1, e2).value, v) == Or(Eval(e1, v), Eval(e2, v))
  {
    var s := Subject(e1, e2).value;
    StringOfLogical(s, v);
    assert "y"[0] == 'y' && "n"[0] == 'n' && "m"[0] == 'm';
  }

  /** The rules of expr_join_and that combine a symbol with a comparison. */
  lemma SymbolAndComparison(s: Symbol, f: Expr, v: Valuation)
    requires WellFormed(v)
    requires s.IsLogical() && (f.Equal? || f.Unequal?) && f.lhs == s
    ensures SymAndEqual(Sym(s), f, ConstYes) ==> And(Eval(Sym(s), v), Eval(f, v)) == Eval(Equal(s, ConstYes), v)
    ensures SymAndUnequal(Sym(s), f, ConstMod) ==> And(Eval(Sym(s), v), Eval(f, v)) == Eval(Equal(s, ConstYes), v)
    ensures SymAndUnequal(Sym(s), f, ConstNo) ==> And(Eval(Sym(s), v), Eval(f, v)) == Eval(Sym(s), v)
  {
    StringOfLogical(s, v);
    assert "y"[0] == 'y' && "n"[0] == 'n' && "m"[0] == 'm';
  }

  lemma EqualAndUnequal(s: Symbol, x: Symbol, y: Symbol, v: Valuation)
    requires WellFormed(v) && x.IsConst() && y.IsConst()
    ensures And(Eval(Equal(s, x), v), Eval(Unequal(s, y), v)) == if x != y then Eval(Equal(s, x), v) else NO
  {
    if x != y {
      assert v.str(x) != v.str(y);
    }
  }

  lemma BothUnequal(s: Symbol, v: Valuation)
    requires WellFormed(v) && s.IsLogical()
    ensures And(Eval(Unequal(s, ConstYes), v), Eval(Unequal(s, ConstNo), v)) == Eval(Equal(s, ConstMod), v)
    ensures And(Eval(Unequal(s, ConstYes), v), Eval(Unequal(s, ConstMod), v)) == Eval(Equal(s, ConstNo), v)
    ensures And(Eval(Unequal(s, ConstMod), v), Eval(Unequal(s, ConstNo), v)) == Eval(Equal(s, ConstYes), v)
  {
    StringOfLogical(s, v);
  }

  /** The join of the two has their value, if there is one. */
  ghost predicate JoinedAnd(e1: Expr, e2: Expr, v: Valuation) {
    !ExprEq(e1, e2) && JoinAnd(e1, e2).Some? ==> Eval(JoinAnd(e1, e2).value, v) == And(Eval(e1, v), Eval(e2, v))
  }

  lemma EqualUnequalJoined(s: Symbol, x: Symbol, y: Symbol, v: Valuation)
    requires WellFormed(v)
    ensures JoinedAnd(Equal(s, x), Unequal(s, y), v) && JoinedAnd(Unequal(s, y), Equal(s, x), v)
  {
    if x.IsConst() && y.IsConst() {
      EqualAndUnequal(s, x, y, v);
    }
  }

  lemma UnequalJoined(s: Symbol, x: Symbol, y: Symbol, v: Valuation)
    requires WellFormed(v)
    ensures JoinedAnd(Unequal(s, x), Unequal(s, y), v)
  {
    if s.IsLogical() {
      BothUnequal(s, v);
    }
  }

  /** The rules of expr_join_and that combine two comparisons of a tristate. */
  lemma ComparisonsOfTristate(e1: Expr, e2: Expr, v: Valuation)
    requires WellFormed(v)
    requires !ExprEq(e1, e2) && JoinAnd(e1, e2).Some? && !e1.Sym? && !e2.Sym?
    ensures Eval(JoinAnd(e1, e2).value, v) == And(Eval(e1, v), Eval(e2, v))
  {
    assert (e1.Equal? && e2.Unequal?) || (e1.Unequal? && e2.Equal?) || (e1.Unequal? && e2.Unequal?);
    assert e1.lhs == e2.lhs;
    if e1.Equal? {
      EqualUnequalJoined(e1.lhs, e1.rhs, e2.rhs, v);
    } else if e2.Equal? {
      EqualUnequalJoined(e1.lhs, e2.rhs, e1.rhs, v);
    } else {
      UnequalJoined(e1.lhs, e1.rhs, e2.rhs, v);
    }
  }

  /** A join has exactly the value of the two operands together, also when
      symbols are m. */
  lemma JoinMeaning(op: Op, e1: Expr, e2: Expr, v: Valuation)
    requires WellFormed(v)
    requires Join(op, e1, e2).Some?
    ensures Eval(Join(op, e1, e2).value, v) == Apply(op, Eval(e1, v), Eval(e2, v))
  {
    if ExprEq(e1, e2) {
      ExprEqSound(e1, e2, v);
    } else if op == OrOp {
      JoinOrMeaning(e1, e2, v);
    } else if e1.Sym? {
      SymbolAndComparison(e1.sym, e2, v);
    } else if e2.Sym? {
      SymbolAndComparison(e2.sym, e1, v);
      ApplyCommutes(op, Eval(e1, v), Eval(e2, v));
    } else {
      ComparisonsOfTristate(e1, e2, v);
    }
  }

  // ----- when there is a join -----

  /** A boolean and its negation. */
  predicate Opposite(a: Expr, b: Expr) {
    a.Sym? && a.sym.Type() == Boolean && b == Not(a)
  }

  /** Different values of one tristate. */
  predicate TwoValuesOf(s: Symbol, x: Symbol, t: Symbol, y: Symbol) {
    s == t && s.Type() == TristateType && x.IsTriConst() && y.IsTriConst() && x != y
  }

  /** A tristate is one constant and is not another, or the same one. */
  predicate IsAndIsNot(a: Expr, b: Expr) {
    && a.Equal? && b.Unequal? && a.lhs == b.lhs && a.lhs.Type() == TristateType
    && a.rhs.IsConst() && b.rhs.IsConst()
  }

  /** A boolean or tristate beside a comparison that it answers. */
  predicate Answers(a: Expr, b: Expr) {
    && a.Sym? && a.sym.IsLogical()
    && (b == Equal(a.sym, ConstYes) || b == Unequal(a.sym, ConstNo) || b == Unequal(a.sym, ConstMod))
  }

  /** The two members say no more than one expression could. */
  predicate Superfluous(op: Op, a: Expr, b: Expr) {
    if op == OrOp then
      || Opposite(a, b) || Opposite(b, a)
      || (a.Equal? && b.Equal? && TwoValuesOf(a.lhs, a.rhs, b.lhs, b.rhs))
    else
      || (a.Unequal? && b.Unequal? && TwoValuesOf(a.lhs, a.rhs, b.lhs, b.rhs))
      || IsAndIsNot(a, b) || IsAndIsNot(b, a) || Answers(a, b) || Answers(b, a)
  }

  lemma JoinOrIff(e1: Expr, e2: Expr)
    ensures JoinOr(e1, e2).Some? <==> ExprEq(e1, e2) || Superfluous(OrOp, e1, e2)
  {
  }

  lemma JoinAndIff(e1: Expr, e2: Expr)
    ensures JoinAnd(e1, e2).Some? <==> ExprEq(e1, e2) || Superfluous(AndOp, e1, e2)
  {
  }

  /** Two members are joined exactly if they are equal or superfluous together. */
  lemma JoinIff(op: Op, e1: Expr, e2: Expr)
    ensures Join(op, e1, e2).Some? <==> ExprEq(e1, e2) || Superfluous(op, e1, e2)
  {
    JoinOrIff(e1, e2);
    JoinAndIff(e1, e2);
  }

  lemma JoinSmall(op: Op, e1: Expr, e2: Expr)
    requires !IsOp(op, e1)
    requires Join(op, e1, e2).Some?
    ensures var t := Join(op, e1, e2).value; !IsOp(op, t) && 1 + Size(t) <= Size(e1) + Size(e2)
  {
  }

  lemma JoinFlat(op: Op, e1: Expr, e2: Expr)
    requires NotsFlat(e1)
    ensures Join(op, e1, e2).Some? ==> NotsFlat(Join(op, e1, e2).value)
  {
  }
}
