/** Deciding whether a menu entry becomes a submenu entry of the symbol before it
    (the leaf branch of menu_finalize in menu.c). */
module Submenu {
  import opened Tristate
  import opened Expr
  import opened ExprEquality
  import opened ExprBags
  import opened ExprNormalForm
  import opened ExprJoin
  import opened ExprDuplicates

  function ContainsPtr(e: ExprPtr, s: Symbol): bool {
    e.Some? && ContainsSymbol(e.value, s)
  }

  function DependsPtr(e: ExprPtr, s: Symbol): bool {
    e.Some? && DependsSymbol(e.value, s)
  }

  /** An expression for which comparing with n at the symbols is exact. */
  ghost predicate Comparable(e: ExprPtr, v: Valuation) {
    e.Some? ==> LeavesSpelled(e.value, v, true) && NotsDefinite(e.value, v)
  }

  /** The dependency `dep` is n wherever `s` is, its string included; a boolean or
      tristate at n always has the string n. */
  ghost predicate OffWithSymbol(dep: ExprPtr, s: Symbol) {
    forall v: Valuation | WellFormed(v) && v.tri(s) == NO && v.str(s) == "n" :: EvalPtr(dep, v) == NO
  }

  /** The dependency `dep` is n wherever the condition `base` is, as far as comparing
      both with n at the symbols is exact. */
  ghost predicate OffWithCondition(dep: ExprPtr, base: ExprPtr) {
    forall v: Valuation | WellFormed(v) && Comparable(dep, v) && Comparable(base, v) && EvalPtr(base, v) == NO ::
      EvalPtr(dep, v) == NO
  }

  /** The same in all valuations. */
  ghost predicate OffWherever(dep: ExprPtr, base: ExprPtr) {
    forall v: Valuation | WellFormed(v) && EvalPtr(base, v) == NO :: EvalPtr(dep, v) == NO
  }

  ghost predicate SubmenuSound(s: Symbol, base: ExprPtr, dep: ExprPtr) {
    OffWithSymbol(dep, s) || OffWithCondition(dep, base)
  }

  lemma TransComparePtrMeaning(e: ExprPtr, v: Valuation)
    requires WellFormed(v) && Comparable(e, v)
    ensures Eval(TransComparePtr(e, false, true), v) == if EvalPtr(e, v) == NO then NO else YES
  {
    if e.Some? {
      TransCompareMeaning(e.value, false, true, v);
    }
  }

  /** `r` says y where `e` is not n, and n where it is. */
  ghost predicate TestsNotNo(e: ExprPtr, r: Expr) {
    forall v: Valuation | WellFormed(v) && Comparable(e, v) :: Eval(r, v) == if EvalPtr(e, v) == NO then NO else YES
  }

  /** The condition `e != n`, simplified. */
  function NotNo(e: ExprPtr): Expr {
    WithoutDups(Transform(TransComparePtr(e, false, true)))
  }

  lemma NotNoMeaning(e: ExprPtr)
    ensures TestsNotNo(e, NotNo(e))
  {
    var cmp := TransComparePtr(e, false, true);
    forall v: Valuation | WellFormed(v) && Comparable(e, v)
      ensures Eval(NotNo(e), v) == if EvalPtr(e, v) == NO then NO else YES
    {
      TransComparePtrMeaning(e, v);
      TransformMeaning(cmp, v);
      WithoutDupsMeaning(Transform(cmp), v);
    }
  }

  method TestNotNo(e: ExprPtr) returns (r: Expr)
    ensures TestsNotNo(e, r) && r == NotNo(e)
  {
    var cmp := TransComparePtr(e, false, true);
    r := EliminateDups(Transform(cmp));
    NotNoMeaning(e);
  }

  /** Which entries are taken in under the symbol `s` with the prompt condition `base`. */
  predicate Accepted(s: Symbol, base: ExprPtr, dep: ExprPtr) {
    ContainsPtr(dep, s) && (DependsPtr(dep, s) || EliminateEq(NotNo(dep), NotNo(base)).1 == YES_EXPR)
  }

  /** An accepted entry is off whenever the symbol is off, or whenever its prompt
      condition is and comparing both with n at the symbols is exact. */
  lemma AcceptedSound(s: Symbol, base: ExprPtr, dep: ExprPtr)
    requires Accepted(s, base, dep)
    ensures SubmenuSound(s, base, dep)
  {
    if DependsPtr(dep, s) {
      forall v: Valuation | WellFormed(v) && v.tri(s) == NO && v.str(s) == "n" ensures EvalPtr(dep, v) == NO {
        DependsSymbolMeaning(dep.value, s, v);
      }
    } else {
      NotNoMeaning(dep);
      NotNoMeaning(base);
      forall v: Valuation | WellFormed(v) && Comparable(dep, v) && Comparable(base, v) && EvalPtr(base, v) == NO
        ensures EvalPtr(dep, v) == NO
      {
        LeftoverYesImplies(NotNo(dep), NotNo(base), v);
      }
    }
  }

  /** Which entries pass the test, where the condition of the prompt comes down to basic
      tests that must all hold: those whose own test is a conjunction with all of them,
      beside those that depend on the symbol outright. */
  lemma AcceptedIff(s: Symbol, base: ExprPtr, dep: ExprPtr)
    requires BasicList(AndOp, NotNo(base)) && Members(AndOp, NotNo(base)) !! CONSTANTS
    ensures Accepted(s, base, dep)
       <==> && ContainsPtr(dep, s)
            && (|| DependsPtr(dep, s)
                || (IsOp(AndOp, NotNo(dep))
                    && Bag(AndOp, NotNo(base), CONSTANTS) <= Bag(AndOp, NotNo(dep), CONSTANTS)))
  {
    NothingLeftIff(NotNo(dep), NotNo(base));
  }

  /** Without a condition on the prompt every entry that names the symbol passes. */
  lemma AcceptedUnconditional(s: Symbol, dep: ExprPtr)
    ensures Accepted(s, None, dep) <==> ContainsPtr(dep, s)
  {
    ConstantLeftover(NotNo(dep));
  }

  /** What excludes the failing cases can be read off the expression: NOT stands over
      nothing that can be m, and the operands are booleans, tristates or built-in
      constants. */
  predicate Checkable(e: ExprPtr) {
    e.Some? ==> LogicalLeaves(e.value) && NotsOverDefinite(e.value)
  }

  lemma CheckableComparable(e: ExprPtr, v: Valuation)
    requires WellFormed(v) && Checkable(e)
    ensures Comparable(e, v)
  {
    if e.Some? {
      LogicalLeavesSpelled(e.value, v, true);
      NotsOverDefiniteSuffices(e.value, v);
    }
  }

  /** With such conditions an accepted entry is off whenever the symbol is off, or
      whenever its prompt condition is, in all valuations. */
  lemma AcceptedOff(s: Symbol, base: ExprPtr, dep: ExprPtr)
    requires Accepted(s, base, dep) && Checkable(base) && Checkable(dep)
    ensures OffWithSymbol(dep, s) || OffWherever(dep, base)
  {
    AcceptedSound(s, base, dep);
    forall v: Valuation | WellFormed(v)
      ensures Comparable(base, v) && Comparable(dep, v)
    {
      CheckableComparable(base, v);
      CheckableComparable(dep, v);
    }
  }

  // ----- an accepted entry that stays visible -----

  const MASTER: Symbol := Config("S", TristateType)
  const OTHER: Symbol := Config("X", TristateType)
  const BAZ: Symbol := Config("BAZ", TristateType)

  /** S depends on BAZ=n, and the entry behind it on !BAZ && (S || X). */
  const MASTER_CONDITION: Expr := Equal(BAZ, ConstNo)
  const FOLLOWER_DEP: Expr := Bin(AndOp, Not(Sym(BAZ)), Bin(OrOp, Sym(MASTER), Sym(OTHER)))

  const EITHER: Expr := Bin(OrOp, Unequal(MASTER, ConstNo), Unequal(OTHER, ConstNo))
  const FOLLOWER_TEST: Expr := Bin(AndOp, MASTER_CONDITION, EITHER)

  lemma EitherKept()
    ensures Plain(EITHER)
  {
    TwoKept(OrOp, EITHER);
  }

  lemma EitherNoJoin()
    ensures Join(AndOp, MASTER_CONDITION, EITHER).None? && Join(AndOp, EITHER, MASTER_CONDITION).None?
  {
  }

  lemma EitherNoComplement()
    ensures NoComplement(AndOp, EITHER, MASTER_CONDITION) && NoComplement(AndOp, EITHER, FOLLOWER_TEST)
  {
    var c := Bin(AndOp, Equal(MASTER, ConstNo), Equal(OTHER, ConstNo));
    assert Transform(Not(EITHER)) == c;
    NothingExtracted(MASTER_CONDITION);
    NothingExtracted(FOLLOWER_TEST);
  }

  /** No member of S=n && X=n is one of the test. */
  lemma NothingExtracted(test: Expr)
    requires test == MASTER_CONDITION || test == FOLLOWER_TEST
    ensures var c := Bin(AndOp, Equal(MASTER, ConstNo), Equal(OTHER, ConstNo));
            ExtractEq(AndOp, None, c, test) == (None, c, test)
  {
    var a, b := Equal(MASTER, ConstNo), Equal(OTHER, ConstNo);
    assert ExtractEq(AndOp, None, a, test) == (None, a, test);
    assert ExtractEq(AndOp, None, b, test) == (None, b, test);
  }

  lemma FollowerCompared()
    ensures Transform(TransComparePtr(Some(FOLLOWER_DEP), false, true)) == FOLLOWER_TEST
  {
    assert TransComparePtr(Some(FOLLOWER_DEP), false, true)
        == Not(Bin(OrOp, Unequal(BAZ, ConstNo), Bin(AndOp, Equal(MASTER, ConstNo), Equal(OTHER, ConstNo))));
  }

  lemma MasterTest()
    ensures NotNo(Some(MASTER_CONDITION)) == MASTER_CONDITION
  {
  }

  lemma FollowerKept()
    ensures WithoutDups(FOLLOWER_TEST) == FOLLOWER_TEST
  {
    EitherKept();
    EitherNoComplement();
    EitherNoJoin();
    TwoKept(AndOp, FOLLOWER_TEST);
  }

  lemma FollowerTest()
    ensures NotNo(Some(FOLLOWER_DEP)) == FOLLOWER_TEST
  {
    FollowerCompared();
    FollowerKept();
  }

  lemma FollowerAccepted()
    ensures Accepted(MASTER, Some(MASTER_CONDITION), Some(FOLLOWER_DEP))
  {
    MasterTest();
    FollowerTest();
    FollowerPass();
    assert ContainsSymbol(FOLLOWER_DEP, MASTER);
  }

  lemma FollowerPass()
    ensures EliminatePass(AndOp, FOLLOWER_TEST, MASTER_CONDITION) == (Bin(AndOp, YES_EXPR, EITHER), YES_EXPR)
  {
    assert EliminatePass(AndOp, MASTER_CONDITION, MASTER_CONDITION) == (YES_EXPR, YES_EXPR);
    assert EliminatePass(AndOp, EITHER, YES_EXPR) == (EITHER, YES_EXPR);
  }

  function FollowerChoice(s: Symbol): Tri {
    if s == BAZ then MOD else if s == OTHER then YES else NO
  }

  lemma FollowerValues(v: Valuation)
    requires WellFormed(v) && v.tri(MASTER) == NO && v.tri(BAZ) == MOD && v.tri(OTHER) == YES
    ensures v.str(MASTER) == "n" && EvalPtr(Some(MASTER_CONDITION), v) == NO && EvalPtr(Some(FOLLOWER_DEP), v) == MOD
  {
    assert v.str(BAZ) == "m" && v.str(ConstNo) == "n" && "m"[0] == 'm' && "n"[0] == 'n';
    var either := Bin(OrOp, Sym(MASTER), Sym(OTHER));
    assert Eval(Sym(BAZ), v) == MOD && Eval(Not(Sym(BAZ)), v) == MOD;
    assert Eval(Sym(MASTER), v) == NO && Eval(Sym(OTHER), v) == YES && Eval(either, v) == YES;
    assert FOLLOWER_DEP == Bin(AndOp, Not(Sym(BAZ)), either);
  }

  lemma FollowerUncheckable()
    ensures Checkable(Some(MASTER_CONDITION)) && !Checkable(Some(FOLLOWER_DEP))
  {
    assert !Definite(Sym(BAZ));
  }

  /** The entry is placed under S.  With BAZ at m and X at y it is visible as m, although
      S and the condition of its prompt are n: !BAZ is m. */
  lemma AcceptedWhileVisible() returns (v: Valuation)
    ensures Accepted(MASTER, Some(MASTER_CONDITION), Some(FOLLOWER_DEP))
    ensures Checkable(Some(MASTER_CONDITION)) && !Checkable(Some(FOLLOWER_DEP))
    ensures WellFormed(v) && v.tri(MASTER) == NO && v.str(MASTER) == "n"
    ensures EvalPtr(Some(MASTER_CONDITION), v) == NO && EvalPtr(Some(FOLLOWER_DEP), v) == MOD
  {
    FollowerAccepted();
    FollowerUncheckable();
    v := ValuationExists((s: Symbol) => FollowerChoice(s));
    assert v.tri(MASTER) == NO && v.tri(BAZ) == MOD && v.tri(OTHER) == YES;
    FollowerValues(v);
  }

  /** The symbol itself, or one of the comparisons S=y, S=m and S!=n. */
  predicate NeedsSymbol(m: Expr, s: Symbol) {
    m == Sym(s) || m == Equal(s, ConstYes) || m == Equal(s, ConstMod) || m == Unequal(s, ConstNo)
  }

  /** What depends on a symbol outright: a conjunction with such a member. */
  lemma {:induction false} DependsSymbolIff(e: Expr, s: Symbol)
    ensures DependsSymbol(e, s) <==> exists m :: m in Members(AndOp, e) && NeedsSymbol(m, s)
  {
    if IsOp(AndOp, e) {
      DependsSymbolIff(e.left, s);
      DependsSymbolIff(e.right, s);
    } else {
      assert e in Members(AndOp, e) && DependsSymbol(e, s) == NeedsSymbol(e, s);
    }
  }

  /** An outright dependency is always accepted. */
  lemma DependsAccepted(s: Symbol, base: ExprPtr, dep: ExprPtr)
    requires DependsPtr(dep, s)
    ensures Accepted(s, base, dep)
  {
    DependsContains(dep.value, s);
  }

  /** One round of the loop over the following entries, with `basedep` already
      computed from the prompt condition `base` of the symbol `s`.  An accepted entry
      names the symbol and is off with it or, where comparing with n at the symbols is
      exact, with its prompt condition; an entry that depends on the symbol outright is
      always accepted. */
  method AcceptsEntry(s: Symbol, ghost base: ExprPtr, basedep: Expr, dep: ExprPtr) returns (accepted: bool)
    requires basedep == NotNo(base)
    ensures accepted ==> ContainsPtr(dep, s) && SubmenuSound(s, base, dep)
    ensures DependsPtr(dep, s) ==> accepted
    ensures accepted == Accepted(s, base, dep)
  {
    accepted := ContainsPtr(dep, s);
    if accepted && !DependsPtr(dep, s) {
      var test := TestNotNo(dep);
      var (_, left) := EliminateEq(test, basedep);
      accepted := left == YES_EXPR;
    }
    if accepted {
      AcceptedSound(s, base, dep);
    }
    if DependsPtr(dep, s) {
      DependsAccepted(s, base, dep);
    }
  }

  lemma {:induction false} DependsContains(e: Expr, s: Symbol)
    requires DependsSymbol(e, s)
    ensures ContainsSymbol(e, s)
  {
    match e
    case Bin(_, l, r) =>
      if DependsSymbol(l, s) {
        DependsContains(l, s);
      } else {
        DependsContains(r, s);
      }
    case _ =>
  }

  /** Two-valued valuations make every expression without m comparable. */
  lemma {:induction false} TwoValuedNotsDefinite(e: Expr, v: Valuation)
    requires WellFormed(v) && TwoValued(v) && !ContainsSymbol(e, ConstMod)
    ensures NotsDefinite(e, v)
  {
    match e
    case Not(a) =>
      TwoValuedDefinite(a, v);
      TwoValuedNotsDefinite(a, v);
    case Bin(_, l, r) =>
      TwoValuedNotsDefinite(l, v);
      TwoValuedNotsDefinite(r, v);
    case _ =>
  }

  /** Over booleans: where both the symbol and its prompt condition are n, so is
      the dependency of every entry placed under it. */
  lemma SubmenuOff(s: Symbol, base: ExprPtr, dep: ExprPtr, v: Valuation)
    requires SubmenuSound(s, base, dep)
    requires WellFormed(v) && TwoValued(v)
    requires dep.Some? ==> LeavesSpelled(dep.value, v, true) && !ContainsSymbol(dep.value, ConstMod)
    requires base.Some? ==> LeavesSpelled(base.value, v, true) && !ContainsSymbol(base.value, ConstMod)
    requires v.tri(s) == NO && v.str(s) == "n" && EvalPtr(base, v) == NO
    ensures EvalPtr(dep, v) == NO
  {
    if dep.Some? {
      TwoValuedNotsDefinite(dep.value, v);
    }
    if base.Some? {
      TwoValuedNotsDefinite(base.value, v);
    }
  }
}
