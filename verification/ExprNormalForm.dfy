/** Negation normal form, and the rewritings of comparisons (expr.c). */
module ExprNormalForm {
  import opened Tristate
  import opened Expr

  // ----- expr_transform -----

  /** NOT doubles the weight of its operand, so De Morgan's rules, which copy
      the NOT and drop one level below it, lower the weight. */
  function Weight(e: Expr): (w: nat)
    ensures w > 0
  {
    match e
    case Sym(_) => 1
    case Not(a) => 2 * Weight(a)
    case Bin(_, l, r) => 1 + Weight(l) + Weight(r)
    case Equal(_, _) => 2
    case Unequal(_, _) => 2
  }

  lemma DeMorganLowersWeight(op: Op, l: Expr, r: Expr)
    ensures Weight(Bin(Dual(op), Not(l), Not(r))) < 2 * Weight(Bin(op, l, r))
  {
    assert Weight(Not(l)) == 2 * Weight(l) && Weight(Not(r)) == 2 * Weight(r);
  }

  function Transform(e: Expr): (r: Expr)
    ensures Weight(r) <= Weight(e)
    decreases Weight(e)
  {
    match e
    case Sym(_) => e
    case Bin(op, l, r) => Bin(op, Transform(l), Transform(r))
    case Equal(a, b) =>
      if a.Type() != Boolean then e
      else if b == ConstNo then Not(Sym(a))
      else if b == ConstMod then NO_EXPR
      else if b == ConstYes then Sym(a)
      else e
    case Unequal(a, b) =>
      if a.Type() != Boolean then e
      else if b == ConstNo then Sym(a)
      else if b == ConstMod then YES_EXPR
      else if b == ConstYes then Not(Sym(a))
      else e
    case Not(a) =>
      var t := Transform(a);
      match t
      case Not(x) => Transform(x)
      case Equal(x, y) => Unequal(x, y)
      case Unequal(x, y) => Equal(x, y)
      case Bin(op, l, r) =>
        DeMorganLowersWeight(op, l, r);
        Transform(Bin(Dual(op), Not(l), Not(r)))
      case Sym(s) =>
        if s == ConstYes then NO_EXPR
        else if s == ConstMod then Sym(ConstMod)
        else if s == ConstNo then YES_EXPR
        else Not(t)
  }

  function TransformPtr(e: ExprPtr): ExprPtr {
    if e.None? then None else Some(Transform(e.value))
  }

  /** A comparison of a boolean with a tristate constant, which Transform removes. */
  predicate BooleanTest(a: Symbol, b: Symbol) {
    a.Type() == Boolean && b.IsTriConst()
  }

  /** Negation normal form: NOT stands only over a symbol that is not a built-in
      constant, and no boolean is compared with a tristate constant. */
  predicate Normal(e: Expr) {
    match e
    case Sym(_) => true
    case Not(a) => a.Sym? && !a.sym.IsTriConst()
    case Bin(_, l, r) => Normal(l) && Normal(r)
    case Equal(a, b) => !BooleanTest(a, b)
    case Unequal(a, b) => !BooleanTest(a, b)
  }

  lemma {:induction false} TransformMeaning(e: Expr, v: Valuation)
    requires WellFormed(v)
    ensures Eval(Transform(e), v) == Eval(e, v)
    decreases Weight(e)
  {
    match e
    case Bin(op, l, r) =>
      TransformMeaning(l, v);
      TransformMeaning(r, v);
    case Not(a) =>
      TransformMeaning(a, v);
      match Transform(a) {
        case Not(x) => TransformMeaning(x, v);
        case Bin(op, l, r) =>
          DeMorganLowersWeight(op, l, r);
          TransformMeaning(Bin(Dual(op), Not(l), Not(r)), v);
        case _ =>
      }
    case Equal(a, b) =>
      BooleanTestMeaning(a, b, v);
    case Unequal(a, b) =>
      BooleanTestMeaning(a, b, v);
    case Sym(_) =>
  }

  lemma BooleanTestMeaning(a: Symbol, b: Symbol, v: Valuation)
    requires WellFormed(v)
    ensures BooleanTest(a, b) ==> (v.str(a) == v.str(b) <==> v.tri(a) == v.tri(b))
  {
    assert v.str(a) == v.str(a);
    if BooleanTest(a, b) {
      assert v.str(a) == TriString(v.tri(a));
      assert "y"[0] == 'y' && "n"[0] == 'n' && "m"[0] == 'm';
    }
  }

  lemma {:induction false} TransformNormal(e: Expr)
    ensures Normal(Transform(e))
    decreases Weight(e)
  {
    match e
    case Bin(op, l, r) =>
      TransformNormal(l);
      TransformNormal(r);
    case Not(a) =>
      TransformNormal(a);
      match Transform(a) {
        case Not(x) => TransformNormal(x);
        case Bin(op, l, r) =>
          DeMorganLowersWeight(op, l, r);
          TransformNormal(Bin(Dual(op), Not(l), Not(r)));
        case _ =>
      }
    case _ =>
  }

  /** The normal forms are exactly the expressions that Transform leaves alone. */
  lemma {:induction false} TransformFixesNormal(e: Expr)
    ensures Normal(e) <==> Transform(e) == e
  {
    if Normal(e) {
      if e.Bin? {
        TransformFixesNormal(e.left);
        TransformFixesNormal(e.right);
      }
    } else {
      TransformNormal(e);
    }
  }

  lemma TransformIdempotent(e: Expr)
    ensures Transform(Transform(e)) == Transform(e)
  {
    TransformNormal(e);
    TransformFixesNormal(Transform(e));
  }

  // ----- expr_trans_bool -----

  function TransBool(e: Expr): Expr {
    match e
    case Bin(op, l, r) => Bin(op, TransBool(l), TransBool(r))
    case Not(a) => Not(TransBool(a))
    case Unequal(a, b) => if a.Type() == TristateType && b == ConstNo then Sym(a) else e
    case _ => e
  }

  function TransBoolPtr(e: ExprPtr): ExprPtr {
    if e.None? then None else Some(TransBool(e.value))
  }

  /** No comparison T!=n of a tristate T is left. */
  predicate Untested(e: Expr) {
    match e
    case Bin(_, l, r) => Untested(l) && Untested(r)
    case Not(a) => Untested(a)
    case Unequal(a, b) => !(a.Type() == TristateType && b == ConstNo)
    case _ => true
  }

  /** The rewriting leaves none, and it changes exactly the expressions that have one. */
  lemma {:induction false} TransBoolUntested(e: Expr)
    ensures Untested(TransBool(e)) && (TransBool(e) == e <==> Untested(e))
  {
    match e
    case Bin(_, l, r) =>
      TransBoolUntested(l);
      TransBoolUntested(r);
    case Not(a) => TransBoolUntested(a);
    case _ =>
  }

  /** The rewriting drops no symbol but the constant n, and brings none in. */
  lemma {:induction false} TransBoolSymbols(e: Expr, s: Symbol)
    requires s.Config?
    ensures s in Symbols(TransBool(e)) <==> s in Symbols(e)
  {
    match e
    case Bin(_, l, r) =>
      TransBoolSymbols(l, s);
      TransBoolSymbols(r, s);
    case Not(a) => TransBoolSymbols(a, s);
    case _ =>
  }

  /** NOT stands only over symbols; weaker than Normal, and kept by all later
      simplifications. */
  predicate NotsFlat(e: Expr) {
    match e
    case Not(a) => a.Sym?
    case Bin(_, l, r) => NotsFlat(l) && NotsFlat(r)
    case _ => true
  }

  lemma {:induction false} NormalIsFlat(e: Expr)
    requires Normal(e)
    ensures NotsFlat(e)
  {
    if e.Bin? {
      NormalIsFlat(e.left);
      NormalIsFlat(e.right);
    }
  }

  lemma {:induction false} TransBoolFlat(e: Expr)
    requires NotsFlat(e)
    ensures NotsFlat(TransBool(e))
  {
    if e.Bin? {
      TransBoolFlat(e.left);
      TransBoolFlat(e.right);
    }
  }

  /** With NOT only over symbols the rewriting never raises a value and never turns
      a value other than n into n. */
  lemma {:induction false} TransBoolKeepsNo(e: Expr, v: Valuation)
    requires WellFormed(v)
    requires NotsFlat(e)
    ensures Eval(TransBool(e), v) == NO <==> Eval(e, v) == NO
    ensures Eval(TransBool(e), v) <= Eval(e, v)
  {
    match e
    case Bin(_, l, r) =>
      TransBoolKeepsNo(l, v);
      TransBoolKeepsNo(r, v);
    case Unequal(a, b) =>
      assert v.str(a) == v.str(a);
    case _ =>
  }

  /** Under a NOT of such a comparison "is n" is kept exactly if the tristate is not m:
      for FOO at m, !(FOO!=n) is n, but it is rewritten to !FOO, which is m. */
  lemma TransBoolUnderNotIff(foo: Symbol, v: Valuation)
    requires WellFormed(v) && foo.Type() == TristateType
    ensures var e := Not(Unequal(foo, ConstNo));
            (Eval(TransBool(e), v) == NO <==> Eval(e, v) == NO) <==> v.tri(foo) != MOD
  {
    assert v.str(foo) == TriString(v.tri(foo));
    assert "y"[0] == 'y' && "n"[0] == 'n' && "m"[0] == 'm';
  }

  lemma TransBoolUnderNotDiffers(v: Valuation, foo: Symbol)
    requires WellFormed(v) && foo.Type() == TristateType && v.tri(foo) == MOD
    ensures var e := Not(Unequal(foo, ConstNo));
            !NotsFlat(e) && Eval(e, v) == NO && Eval(TransBool(e), v) != NO
  {
    assert v.str(foo) == "m";
  }

  // ----- expr_trans_compare, against y and n -----

  /** The comparison `e = y`, `e != y`, `e = n` or `e != n` (`equal` is the
      relation, `no` says that the constant is n) pushed down to the symbols. */
  function TransCompare(e: Expr, equal: bool, no: bool): Expr {
    var c := if no then ConstNo else ConstYes;
    match e
    case Bin(op, l, r) =>
      var cmp := Bin(if no then Dual(op) else op, TransCompare(l, true, no), TransCompare(r, true, no));
      if equal then cmp else Not(cmp)
    case Not(a) => TransCompare(a, !equal, no)
    case Sym(s) => if equal then Equal(s, c) else Unequal(s, c)
    case _ => if equal != no then e else Not(e)
  }

  function TransComparePtr(e: ExprPtr, equal: bool, no: bool): Expr {
    if e.Some? then TransCompare(e.value, equal, no)
    else
      var c := Sym(if no then ConstNo else ConstYes);
      if equal then c else Not(c)
  }

  /** No operand of a NOT is m. */
  ghost predicate NotsDefinite(e: Expr, v: Valuation) {
    match e
    case Not(a) => Eval(a, v) != MOD && NotsDefinite(a, v)
    case Bin(_, l, r) => NotsDefinite(l, v) && NotsDefinite(r, v)
    case _ => true
  }

  /** Comparing the string of a symbol with that of the constant says what comparing
      the tristates would say. */
  ghost predicate Spelled(s: Symbol, v: Valuation, no: bool) {
    v.str(s) == (if no then "n" else "y") <==> v.tri(s) == (if no then NO else YES)
  }

  /** So it is for all symbols that are operands. */
  ghost predicate LeavesSpelled(e: Expr, v: Valuation, no: bool) {
    match e
    case Sym(s) => Spelled(s, v, no)
    case Not(a) => LeavesSpelled(a, v, no)
    case Bin(_, l, r) => LeavesSpelled(l, v, no) && LeavesSpelled(r, v, no)
    case _ => true
  }

  /** Booleans, tristates and the built-in constants are spelled by their strings. */
  lemma LogicalSpelled(s: Symbol, v: Valuation, no: bool)
    requires WellFormed(v) && (s.IsLogical() || s.IsTriConst())
    ensures Spelled(s, v, no)
  {
    assert v.str(s) == TriString(v.tri(s));
    assert "y"[0] == 'y' && "n"[0] == 'n' && "m"[0] == 'm';
  }

  /** The expression is never m: no tristate and no constant m is an operand. */
  predicate Definite(e: Expr) {
    match e
    case Sym(s) => s.Type() == Boolean || s == ConstYes || s == ConstNo
    case Not(a) => Definite(a)
    case Bin(_, l, r) => Definite(l) && Definite(r)
    case _ => true
  }

  lemma {:induction false} DefiniteNeverMod(e: Expr, v: Valuation)
    requires WellFormed(v) && Definite(e)
    ensures Eval(e, v) != MOD
  {
    match e
    case Not(a) => DefiniteNeverMod(a, v);
    case Bin(_, l, r) =>
      DefiniteNeverMod(l, v);
      DefiniteNeverMod(r, v);
    case _ =>
  }

  /** NOT stands only over expressions that are never m. */
  predicate NotsOverDefinite(e: Expr) {
    match e
    case Not(a) => Definite(a)
    case Bin(_, l, r) => NotsOverDefinite(l) && NotsOverDefinite(r)
    case _ => true
  }

  lemma {:induction false} NotsOverDefiniteSuffices(e: Expr, v: Valuation)
    requires WellFormed(v) && NotsOverDefinite(e)
    ensures NotsDefinite(e, v)
  {
    match e
    case Not(a) =>
      DefiniteNeverMod(a, v);
      InnerNotsDefinite(a, v);
    case Bin(_, l, r) =>
      NotsOverDefiniteSuffices(l, v);
      NotsOverDefiniteSuffices(r, v);
    case _ =>
  }

  lemma {:induction false} InnerNotsDefinite(e: Expr, v: Valuation)
    requires WellFormed(v) && Definite(e)
    ensures NotsDefinite(e, v)
  {
    match e
    case Not(a) =>
      DefiniteNeverMod(a, v);
      InnerNotsDefinite(a, v);
    case Bin(_, l, r) =>
      InnerNotsDefinite(l, v);
      InnerNotsDefinite(r, v);
    case _ =>
  }

  predicate LogicalLeaves(e: Expr) {
    match e
    case Sym(s) => s.IsTriConst() || s.IsLogical()
    case Not(a) => LogicalLeaves(a)
    case Bin(_, l, r) => LogicalLeaves(l) && LogicalLeaves(r)
    case _ => true
  }

  lemma {:induction false} LogicalLeavesSpelled(e: Expr, v: Valuation, no: bool)
    requires WellFormed(v) && LogicalLeaves(e)
    ensures LeavesSpelled(e, v, no)
  {
    match e
    case Sym(s) => LogicalSpelled(s, v, no);
    case Not(a) => LogicalLeavesSpelled(a, v, no);
    case Bin(_, l, r) =>
      LogicalLeavesSpelled(l, v, no);
      LogicalLeavesSpelled(r, v, no);
    case _ =>
  }

  ghost function CompareValue(t: Tri, equal: bool, no: bool): Tri {
    if (t == (if no then NO else YES)) == equal then YES else NO
  }

  lemma {:induction false} TransCompareMeaning(e: Expr, equal: bool, no: bool, v: Valuation)
    requires WellFormed(v)
    requires LeavesSpelled(e, v, no) && NotsDefinite(e, v)
    ensures Eval(TransCompare(e, equal, no), v) == CompareValue(Eval(e, v), equal, no)
  {
    match e
    case Bin(_, l, r) =>
      TransCompareMeaning(l, true, no, v);
      TransCompareMeaning(r, true, no, v);
    case Not(a) =>
      TransCompareMeaning(a, !equal, no, v);
    case _ =>
  }

  /** For a symbol alone the condition is exact.  It always holds of booleans,
      tristates and the built-in constants.  Any other symbol is n, and then its string
      must not be "y" where it is compared with y, and must be "n" where with n. */
  lemma TransCompareSymbolIff(s: Symbol, equal: bool, no: bool, v: Valuation)
    requires WellFormed(v) && (s.IsLogical() || s.IsTriConst() || v.tri(s) == NO)
    ensures Eval(TransCompare(Sym(s), equal, no), v) == CompareValue(v.tri(s), equal, no)
       <==> s.IsLogical() || s.IsTriConst() || (if no then v.str(s) == "n" else v.str(s) != "y")
  {
    if s.IsLogical() || s.IsTriConst() {
      LogicalSpelled(s, v, no);
    }
  }

  /** The string of a symbol that is never defined is its name, and its tristate is n:
      UNDEF!=n is y although UNDEF is n. */
  lemma TransCompareUndefined(undef: Symbol, v: Valuation)
    requires WellFormed(v) && v.tri(undef) == NO && undef.Config? && v.str(undef) == undef.name && undef.name != "n"
    ensures Eval(TransCompare(Sym(undef), false, true), v) == YES && CompareValue(v.tri(undef), false, true) == NO
    ensures DependsSymbol(Unequal(undef, ConstNo), undef) && Eval(Unequal(undef, ConstNo), v) == YES
  {
  }

  /** At a NOT the comparison comes out right exactly if the operand is not m. */
  lemma TransCompareNotIff(a: Expr, equal: bool, no: bool, v: Valuation)
    requires WellFormed(v) && LeavesSpelled(a, v, no) && NotsDefinite(a, v)
    ensures Eval(TransCompare(Not(a), equal, no), v) == CompareValue(Eval(Not(a), v), equal, no) <==> Eval(a, v) != MOD
  {
    TransCompareMeaning(a, !equal, no, v);
  }

  /** Under a NOT whose operand is m the comparison with n comes out wrong: !m is
      m, hence not n, but the rewritten test `FOO = n` is n. */
  lemma TransCompareNotOfMod(v: Valuation, foo: Symbol)
    requires WellFormed(v) && foo.Type() == TristateType && v.tri(foo) == MOD
    ensures Eval(TransCompare(Not(Sym(foo)), false, true), v) == NO
    ensures CompareValue(Eval(Not(Sym(foo)), v), false, true) == YES
  {
    assert v.str(foo) == "m";
  }

  // ----- expr_contains_symbol, expr_depends_symbol -----

  predicate ContainsSymbol(e: Expr, s: Symbol) {
    match e
    case Bin(_, l, r) => ContainsSymbol(l, s) || ContainsSymbol(r, s)
    case Sym(t) => t == s
    case Equal(a, b) => a == s || b == s
    case Unequal(a, b) => a == s || b == s
    case Not(a) => ContainsSymbol(a, s)
  }

  /** Wherever it stands. */
  lemma {:induction false} ContainsSymbolIff(e: Expr, s: Symbol)
    ensures ContainsSymbol(e, s) <==> s in Symbols(e)
  {
    match e
    case Bin(_, l, r) =>
      ContainsSymbolIff(l, s);
      ContainsSymbolIff(r, s);
    case Not(a) => ContainsSymbolIff(a, s);
    case _ =>
  }

  predicate DependsSymbol(e: Expr, s: Symbol) {
    match e
    case Bin(op, l, r) => op == AndOp && (DependsSymbol(l, s) || DependsSymbol(r, s))
    case Sym(t) => t == s
    case Equal(a, b) => a == s && (b == ConstYes || b == ConstMod)
    case Unequal(a, b) => a == s && b == ConstNo
    case Not(_) => false
  }

  /** A dependency on `s` is n wherever `s` is, its string included. */
  lemma {:induction false} DependsSymbolMeaning(e: Expr, s: Symbol, v: Valuation)
    requires WellFormed(v)
    requires DependsSymbol(e, s) && v.tri(s) == NO && v.str(s) == "n"
    ensures Eval(e, v) == NO
  {
    match e
    case Bin(_, l, r) =>
      if DependsSymbol(l, s) {
        DependsSymbolMeaning(l, s, v);
      } else {
        DependsSymbolMeaning(r, s, v);
      }
    case Equal(_, _) => assert v.str(s) == "n";
    case Unequal(_, _) => assert v.str(s) == "n";
    case Sym(_) =>
  }
}
