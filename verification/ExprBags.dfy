/** What comparing and extracting finds in lists whose members are symbols, comparisons
    and negations of these: exactly the members they have in common, counted (expr.c). */
module ExprBags {
  import opened Tristate
  import opened Expr
  import opened ExprEquality

  /** An expression without AND and OR. */
  predicate Basic(e: Expr) {
    !e.Bin? && (e.Not? ==> Basic(e.arg))
  }

  /** The members of the list, counted, leaving out those in `gone`. */
  function Bag(op: Op, e: Expr, gone: set<Expr>): multiset<Expr> {
    if IsOp(op, e) then Bag(op, e.left, gone) + Bag(op, e.right, gone)
    else if e in gone then multiset{}
    else multiset{e}
  }

  /** All members are basic. */
  predicate BasicList(op: Op, e: Expr) {
    if IsOp(op, e) then BasicList(op, e.left) && BasicList(op, e.right) else Basic(e)
  }

  lemma LeafBag(op: Op, e: Expr, gone: set<Expr>)
    requires !IsOp(op, e)
    ensures Bag(op, e, gone) == if e in gone then multiset{} else multiset{e}
  {
  }

  const CONSTANTS: set<Expr> := {YES_EXPR, NO_EXPR}

  lemma {:induction false} BasicEq(a: Expr, b: Expr)
    requires Basic(a) || Basic(b)
    ensures ExprEq(a, b) <==> a == b
  {
    if a.Not? && b.Not? {
      BasicEq(a.arg, b.arg);
    }
  }

  // ----- expr_eliminate_eq -----

  /** What one pass leaves in both lists: the difference of their members. */
  ghost predicate PassLeaves(op: Op, e1: Expr, e2: Expr) {
    var (n1, n2) := EliminatePass(op, e1, e2);
    && Bag(op, n1, CONSTANTS) == Bag(op, e1, CONSTANTS) - Bag(op, e2, CONSTANTS)
    && Bag(op, n2, CONSTANTS) == Bag(op, e2, CONSTANTS) - Bag(op, e1, CONSTANTS)
  }

  lemma DifferenceOfSum<T>(a: multiset<T>, b: multiset<T>, c: multiset<T>)
    ensures (a - c) + (b - (c - a)) == (a + b) - c && (c - a) - b == c - (a + b)
  {
  }

  lemma {:induction false} PassBasic(op: Op, e1: Expr, e2: Expr)
    ensures var (n1, n2) := EliminatePass(op, e1, e2);
            (BasicList(op, e1) ==> BasicList(op, n1)) && (BasicList(op, e2) ==> BasicList(op, n2))
    decreases Size(e1) + Size(e2)
  {
    if IsOp(op, e1) {
      PassBasic(op, e1.left, e2);
      PassBasic(op, e1.right, EliminatePass(op, e1.left, e2).1);
    } else if IsOp(op, e2) {
      PassBasic(op, e1, e2.left);
      PassBasic(op, EliminatePass(op, e1, e2.left).0, e2.right);
    }
  }

  lemma FirstLeaves(op: Op, l: Expr, r: Expr, e2: Expr)
    requires PassLeaves(op, l, e2) && PassLeaves(op, r, EliminatePass(op, l, e2).1)
    ensures PassLeaves(op, Bin(op, l, r), e2)
  {
    DifferenceOfSum(Bag(op, l, CONSTANTS), Bag(op, r, CONSTANTS), Bag(op, e2, CONSTANTS));
  }

  lemma SecondLeaves(op: Op, e1: Expr, l: Expr, r: Expr)
    requires !IsOp(op, e1) && PassLeaves(op, e1, l) && PassLeaves(op, EliminatePass(op, e1, l).0, r)
    ensures PassLeaves(op, e1, Bin(op, l, r))
  {
    DifferenceOfSum(Bag(op, l, CONSTANTS), Bag(op, r, CONSTANTS), Bag(op, e1, CONSTANTS));
  }

  lemma LeafLeaves(op: Op, e1: Expr, e2: Expr)
    requires !IsOp(op, e1) && !IsOp(op, e2) && (Basic(e1) || Basic(e2))
    ensures PassLeaves(op, e1, e2)
  {
    BasicEq(e1, e2);
    SingleDifference(e1, e2);
    SingleDifference(e2, e1);
    var n := Sym(Neutral(op));
    assert n in CONSTANTS && (IsYesNo(e1) <==> e1 in CONSTANTS) && (IsYesNo(e2) <==> e2 in CONSTANTS);
    assert EliminatePass(op, e1, e2) == if e1 == e2 && !IsYesNo(e1) then (n, n) else (e1, e2);
  }

  lemma SingleDifference<T>(a: T, b: T)
    ensures multiset{a} - multiset{b} == if a == b then multiset{} else multiset{a}
    ensures multiset{a} - multiset{} == multiset{a} && multiset{} - multiset{a} == multiset{}
  {
  }

  /** A pass strikes out the members that both lists have in common, as often as
      both have them; y and n do not count. */
  lemma {:induction false} PassStrikesCommon(op: Op, e1: Expr, e2: Expr)
    requires BasicList(op, e1) || BasicList(op, e2)
    ensures PassLeaves(op, e1, e2)
    decreases Size(e1) + Size(e2)
  {
    if IsOp(op, e1) {
      PassBasic(op, e1.left, e2);
      PassStrikesCommon(op, e1.left, e2);
      PassStrikesCommon(op, e1.right, EliminatePass(op, e1.left, e2).1);
      FirstLeaves(op, e1.left, e1.right, e2);
    } else if IsOp(op, e2) {
      PassBasic(op, e1, e2.left);
      PassStrikesCommon(op, e1, e2.left);
      PassStrikesCommon(op, EliminatePass(op, e1, e2.left).0, e2.right);
      SecondLeaves(op, e1, e2.left, e2.right);
    } else {
      LeafLeaves(op, e1, e2);
    }
  }

  // ----- lists with nothing left -----

  /** A list from which only `c` remains folds to it. */
  lemma {:induction false} EmptyBagFolds(op: Op, e: Expr)
    requires Bag(op, e, {Sym(Neutral(op))}) == multiset{}
    ensures EliminateYN(e) == Sym(Neutral(op))
  {
    if IsOp(op, e) {
      EmptyBagFolds(op, e.left);
      EmptyBagFolds(op, e.right);
    }
  }

  /** Folding a list without absorbing constant keeps its members. */
  lemma {:induction false} FoldKeepsBag(op: Op, e: Expr)
    requires BasicList(op, e) && Sym(Absorbing(op)) !in Bag(op, e, {Sym(Neutral(op))})
    ensures Bag(op, EliminateYN(e), {Sym(Neutral(op))}) == Bag(op, e, {Sym(Neutral(op))})
  {
    if IsOp(op, e) {
      FoldKeepsBag(op, e.left);
      FoldKeepsBag(op, e.right);
      FoldTwo(op, e.left, e.right);
    }
  }

  lemma FoldTwo(op: Op, l: Expr, r: Expr)
    requires Sym(Absorbing(op)) !in Bag(op, EliminateYN(l), {Sym(Neutral(op))})
    requires Sym(Absorbing(op)) !in Bag(op, EliminateYN(r), {Sym(Neutral(op))})
    ensures Bag(op, EliminateYN(Bin(op, l, r)), {Sym(Neutral(op))})
         == Bag(op, EliminateYN(l), {Sym(Neutral(op))}) + Bag(op, EliminateYN(r), {Sym(Neutral(op))})
  {
    var neutral, absorbing := Sym(Neutral(op)), Sym(Absorbing(op));
    var x, y, z := EliminateYN(l), EliminateYN(r), EliminateYN(Bin(op, l, r));
    LeafBag(op, absorbing, {neutral});
    LeafBag(op, neutral, {neutral});
    assert x != absorbing && y != absorbing;
    assert z == if x == neutral then y else if y == neutral then x else Bin(op, x, y);
    SplitBag(op, x, y, {neutral});
  }

  lemma SplitBag(op: Op, l: Expr, r: Expr, gone: set<Expr>)
    ensures Bag(op, Bin(op, l, r), gone) == Bag(op, l, gone) + Bag(op, r, gone)
    ensures Bag(op, l, gone) + multiset{} == Bag(op, l, gone) && multiset{} + Bag(op, r, gone) == Bag(op, r, gone)
  {
  }

  /** Only members that occur count. */
  lemma {:induction false} BagOfMembers(op: Op, e: Expr, gone: set<Expr>)
    ensures forall x :: x in Bag(op, e, gone) <==> x in Members(op, e) && x !in gone
  {
    if IsOp(op, e) {
      BagOfMembers(op, e.left, gone);
      BagOfMembers(op, e.right, gone);
    }
  }

  /** The lists without y and n have nothing but the neutral constant to leave out. */
  lemma {:induction false} BagWithout(op: Op, e: Expr, x: Expr, gone: set<Expr>)
    requires x !in Members(op, e)
    ensures Bag(op, e, gone + {x}) == Bag(op, e, gone)
  {
    if IsOp(op, e) {
      BagWithout(op, e.left, x, gone);
      BagWithout(op, e.right, x, gone);
    }
  }

  /** A list of basic members other than y and n. */
  ghost predicate PlainList(op: Op, e: Expr) {
    IsOp(op, e) && BasicList(op, e) && Members(op, e) !! CONSTANTS
  }

  /** What a pass leaves of such a list, once folded. */
  lemma LeftoverFolds(op: Op, e: Expr, n: Expr)
    requires Members(op, e) !! CONSTANTS && Thinned(op, e, n)
    ensures Bag(op, n, CONSTANTS) == multiset{} ==> EliminateYN(n) == Sym(Neutral(op))
    ensures BasicList(op, n) ==> Bag(op, EliminateYN(n), {Sym(Neutral(op))}) == Bag(op, n, CONSTANTS)
  {
    var neutral, absorbing := Sym(Neutral(op)), Sym(Absorbing(op));
    assert CONSTANTS == {neutral} + {absorbing};
    BagWithout(op, n, absorbing, {neutral});
    if Bag(op, n, CONSTANTS) == multiset{} {
      EmptyBagFolds(op, n);
    }
    if BasicList(op, n) {
      BagOfMembers(op, n, {neutral});
      FoldKeepsBag(op, n);
    }
  }

  /** expr_eq of two lists of such members: the members are the same, as often, in
      whatever order and grouping. */
  lemma ExprEqIff(op: Op, e1: Expr, e2: Expr)
    requires PlainList(op, e1) && PlainList(op, e2)
    ensures ExprEq(e1, e2) <==> Bag(op, e1, {}) == Bag(op, e2, {})
  {
    var b1, b2 := Bag(op, e1, {}), Bag(op, e2, {});
    LeftoverBags(op, e1, e2);
    if ExprEq(e1, e2) {
      SameDifference(b1, b2);
    }
  }

  /** What expr_eliminate_eq leaves of two such lists, and when that is nothing. */
  lemma LeftoverBags(op: Op, e1: Expr, e2: Expr)
    requires PlainList(op, e1) && PlainList(op, e2)
    ensures var r := EliminateEq(e1, e2); var neutral := Sym(Neutral(op));
            var b1, b2 := Bag(op, e1, {}), Bag(op, e2, {});
            && Bag(op, r.0, {neutral}) == b1 - b2 && Bag(op, r.1, {neutral}) == b2 - b1
            && (b1 == b2 ==> r == (neutral, neutral))
  {
    var (n1, n2) := EliminatePass(op, e1, e2);
    PassedBags(op, e1, e2);
    PassBasic(op, e1, e2);
    PassThins(op, e1, e2);
    LeftoverFolds(op, e1, n1);
    LeftoverFolds(op, e2, n2);
    OnePass(op, e1, e2);
  }

  lemma PassedBags(op: Op, e1: Expr, e2: Expr)
    requires PlainList(op, e1) && PlainList(op, e2)
    ensures var (n1, n2) := EliminatePass(op, e1, e2); var b1, b2 := Bag(op, e1, {}), Bag(op, e2, {});
            Bag(op, n1, CONSTANTS) == b1 - b2 && Bag(op, n2, CONSTANTS) == b2 - b1
  {
    PassStrikesCommon(op, e1, e2);
    PlainBag(op, e1);
    PlainBag(op, e2);
  }

  lemma OnePass(op: Op, e1: Expr, e2: Expr)
    requires IsOp(op, e1) && IsOp(op, e2)
    ensures var (n1, n2) := EliminatePass(op, e1, e2); EliminateEq(e1, e2) == (EliminateYN(n1), EliminateYN(n2))
  {
    PassShape(op, e1, e2);
  }

  lemma PlainBag(op: Op, e: Expr)
    requires PlainList(op, e)
    ensures Bag(op, e, CONSTANTS) == Bag(op, e, {})
  {
    BagWithout(op, e, YES_EXPR, {});
    BagWithout(op, e, NO_EXPR, {} + {YES_EXPR});
    assert {} + {YES_EXPR} + {NO_EXPR} == CONSTANTS;
  }

  lemma SameDifference<T>(a: multiset<T>, b: multiset<T>)
    requires a - b == b - a
    ensures a == b
  {
    forall x ensures a[x] == b[x] {
      assert (a - b)[x] == (b - a)[x];
    }
  }

  /** Nothing of the second list survives, under AND, exactly if the first is a list
      that has all its members. */
  lemma NothingLeftIff(e1: Expr, e2: Expr)
    requires BasicList(AndOp, e2) && Members(AndOp, e2) !! CONSTANTS
    ensures EliminateEq(e1, e2).1 == YES_EXPR
       <==> IsOp(AndOp, e1) && Bag(AndOp, e2, CONSTANTS) <= Bag(AndOp, e1, CONSTANTS)
  {
    if IsOp(AndOp, e1) {
      AndLeftoverIff(e1, e2);
    } else if e1.Bin? {
      OrLeavesSome(e1, e2);
    } else {
      LeafLeavesSome(e1, e2);
    }
  }

  lemma AndLeftoverIff(e1: Expr, e2: Expr)
    requires IsOp(AndOp, e1) && BasicList(AndOp, e2) && Members(AndOp, e2) !! CONSTANTS
    ensures EliminateEq(e1, e2).1 == YES_EXPR <==> Bag(AndOp, e2, CONSTANTS) <= Bag(AndOp, e1, CONSTANTS)
  {
    var (n1, n2) := EliminatePass(AndOp, e1, e2);
    PassShape(AndOp, e1, e2);
    PassStrikesCommon(AndOp, e1, e2);
    PassBasic(AndOp, e1, e2);
    PassThins(AndOp, e1, e2);
    LeftoverIff(AndOp, e2, n2);
    assert EliminateEq(e1, e2).1 == EliminateYN(n2);
    SubsetIff(Bag(AndOp, e2, CONSTANTS), Bag(AndOp, e1, CONSTANTS));
  }

  lemma SubsetIff<T>(a: multiset<T>, b: multiset<T>)
    ensures a <= b <==> a - b == multiset{}
  {
    if a - b == multiset{} {
      forall x ensures a[x] <= b[x] {
        assert (a - b)[x] == 0;
      }
    }
  }

  lemma LeftoverIff(op: Op, e: Expr, n: Expr)
    requires Members(op, e) !! CONSTANTS && Thinned(op, e, n) && BasicList(op, n)
    ensures EliminateYN(n) == Sym(Neutral(op)) <==> Bag(op, n, CONSTANTS) == multiset{}
  {
    LeftoverFolds(op, e, n);
    LeafBag(op, Sym(Neutral(op)), {Sym(Neutral(op))});
  }

  /** A disjunction takes out nothing of a conjunction, or all of it as n. */
  lemma OrLeavesSome(e1: Expr, e2: Expr)
    requires IsOp(OrOp, e1) && BasicList(AndOp, e2) && Members(AndOp, e2) !! CONSTANTS
    ensures EliminateEq(e1, e2).1 != YES_EXPR
  {
    var (a, b) := EliminatePass(OrOp, e1, e2);
    PassShape(OrOp, e1, e2);
    if b == e2 && b.Bin? {
      PassKept(a, b);
    }
  }

  /** No member of the conjunction is the whole first expression. */
  lemma PassKept(e1: Expr, e2: Expr)
    requires !IsOp(AndOp, e1) && IsOp(AndOp, e2) && BasicList(AndOp, e2) && Members(AndOp, e2) !! CONSTANTS
    ensures EliminateYN(EliminatePass(AndOp, e1, e2).1) != YES_EXPR
  {
    var n := EliminatePass(AndOp, e1, e2).1;
    PassStrikesCommon(AndOp, e1, e2);
    PassBasic(AndOp, e1, e2);
    PassThins(AndOp, e1, e2);
    LeftoverIff(AndOp, e2, n);
    TwoInBag(AndOp, e2);
    LeafBag(AndOp, e1, CONSTANTS);
    SubsetIff(Bag(AndOp, e2, CONSTANTS), Bag(AndOp, e1, CONSTANTS));
  }

  lemma TwoInBag(op: Op, e: Expr)
    requires IsOp(op, e) && Members(op, e) !! CONSTANTS
    ensures |Bag(op, e, CONSTANTS)| >= 2
  {
    OneInBag(op, e.left);
    OneInBag(op, e.right);
  }

  lemma {:induction false} OneInBag(op: Op, e: Expr)
    requires Members(op, e) !! CONSTANTS
    ensures |Bag(op, e, CONSTANTS)| >= 1
  {
    if IsOp(op, e) {
      OneInBag(op, e.left);
    }
  }

  lemma LeafLeavesSome(e1: Expr, e2: Expr)
    requires !e1.Bin? && BasicList(AndOp, e2) && Members(AndOp, e2) !! CONSTANTS
    ensures EliminateEq(e1, e2).1 != YES_EXPR
  {
    if e2.Bin? {
      PassKept(e1, e2);
    }
  }

  /** Nothing is left of y. */
  lemma ConstantLeftover(e1: Expr)
    ensures EliminateEq(e1, YES_EXPR).1 == YES_EXPR
  {
    if e1.Bin? {
      ListMeetsYes(e1.op, e1);
    }
  }

  lemma {:induction false} ListMeetsYes(op: Op, e: Expr)
    ensures EliminatePass(op, e, YES_EXPR).1 == YES_EXPR
  {
    if IsOp(op, e) {
      ListMeetsYes(op, e.left);
      ListMeetsYes(op, e.right);
    }
  }

  // ----- expr_extract_eq -----

  /** What the extraction leaves in both lists; here constants count as well. */
  ghost predicate ExtractLeaves(op: Op, acc: ExprPtr, e1: Expr, e2: Expr) {
    var r := ExtractEq(op, acc, e1, e2);
    && Bag(op, r.1, Gone(op)) == Bag(op, e1, Gone(op)) - Bag(op, e2, Gone(op))
    && Bag(op, r.2, Gone(op)) == Bag(op, e2, Gone(op)) - Bag(op, e1, Gone(op))
  }

  function Gone(op: Op): set<Expr> {
    {Sym(Neutral(op))}
  }

  /** Without a common part both lists are as they were. */
  lemma {:induction false} NoneExtracted(op: Op, acc: ExprPtr, e1: Expr, e2: Expr)
    ensures var r := ExtractEq(op, acc, e1, e2); r.0.None? ==> acc.None? && r.1 == e1 && r.2 == e2
    decreases Size(e1) + Size(e2)
  {
    if IsOp(op, e1) {
      var x := ExtractEq(op, acc, e1.left, e2);
      NoneExtracted(op, acc, e1.left, e2);
      NoneExtracted(op, x.0, e1.right, x.2);
    } else if IsOp(op, e2) {
      var x := ExtractEq(op, acc, e1, e2.left);
      NoneExtracted(op, acc, e1, e2.left);
      NoneExtracted(op, x.0, x.1, e2.right);
    }
  }

  lemma FirstExtractLeaves(op: Op, acc: ExprPtr, l: Expr, r: Expr, e2: Expr)
    requires ExtractLeaves(op, acc, l, e2)
    requires var x := ExtractEq(op, acc, l, e2); ExtractLeaves(op, x.0, r, x.2)
    ensures ExtractLeaves(op, acc, Bin(op, l, r), e2)
  {
    var gone := Gone(op);
    DifferenceOfSum(Bag(op, l, gone), Bag(op, r, gone), Bag(op, e2, gone));
  }

  lemma SecondExtractLeaves(op: Op, acc: ExprPtr, e1: Expr, l: Expr, r: Expr)
    requires !IsOp(op, e1) && ExtractLeaves(op, acc, e1, l)
    requires var x := ExtractEq(op, acc, e1, l); ExtractLeaves(op, x.0, x.1, r)
    ensures ExtractLeaves(op, acc, e1, Bin(op, l, r))
  {
    var gone := Gone(op);
    DifferenceOfSum(Bag(op, l, gone), Bag(op, r, gone), Bag(op, e1, gone));
  }

  lemma LeafExtractLeaves(op: Op, acc: ExprPtr, e1: Expr, e2: Expr)
    requires !IsOp(op, e1) && !IsOp(op, e2) && (Basic(e1) || Basic(e2))
    ensures ExtractLeaves(op, acc, e1, e2)
  {
    BasicEq(e1, e2);
    SingleDifference(e1, e2);
    SingleDifference(e2, e1);
    var n, r := Sym(Neutral(op)), ExtractEq(op, acc, e1, e2);
    assert (r.1, r.2) == if e1 == e2 then (n, n) else (e1, e2);
    LeafBag(op, e1, Gone(op));
    LeafBag(op, e2, Gone(op));
    LeafBag(op, n, Gone(op));
  }

  lemma {:induction false} ExtractBasic(op: Op, acc: ExprPtr, e1: Expr, e2: Expr)
    ensures var r := ExtractEq(op, acc, e1, e2);
            (BasicList(op, e1) ==> BasicList(op, r.1)) && (BasicList(op, e2) ==> BasicList(op, r.2))
    decreases Size(e1) + Size(e2)
  {
    if IsOp(op, e1) {
      var x := ExtractEq(op, acc, e1.left, e2);
      ExtractBasic(op, acc, e1.left, e2);
      ExtractBasic(op, x.0, e1.right, x.2);
    } else if IsOp(op, e2) {
      var x := ExtractEq(op, acc, e1, e2.left);
      ExtractBasic(op, acc, e1, e2.left);
      ExtractBasic(op, x.0, x.1, e2.right);
    }
  }

  lemma {:induction false} ExtractStrikesCommon(op: Op, acc: ExprPtr, e1: Expr, e2: Expr)
    requires BasicList(op, e1) || BasicList(op, e2)
    ensures ExtractLeaves(op, acc, e1, e2)
    decreases Size(e1) + Size(e2)
  {
    if IsOp(op, e1) {
      var x := ExtractEq(op, acc, e1.left, e2);
      ExtractBasic(op, acc, e1.left, e2);
      ExtractStrikesCommon(op, acc, e1.left, e2);
      ExtractStrikesCommon(op, x.0, e1.right, x.2);
      FirstExtractLeaves(op, acc, e1.left, e1.right, e2);
    } else if IsOp(op, e2) {
      var x := ExtractEq(op, acc, e1, e2.left);
      ExtractBasic(op, acc, e1, e2.left);
      ExtractStrikesCommon(op, acc, e1, e2.left);
      ExtractStrikesCommon(op, x.0, x.1, e2.right);
      SecondExtractLeaves(op, acc, e1, e2.left, e2.right);
    } else {
      LeafExtractLeaves(op, acc, e1, e2);
    }
  }

  /** Leaving members out leaves the count of the others. */
  lemma {:induction false} BagCounts(op: Op, e: Expr, gone: set<Expr>, x: Expr)
    requires x !in gone
    ensures Bag(op, e, gone)[x] == Bag(op, e, {})[x]
  {
    if IsOp(op, e) {
      BagCounts(op, e.left, gone, x);
      BagCounts(op, e.right, gone, x);
    }
  }

  /** Nothing is left of a list of such members exactly if the other list has all of
      them, as often. */
  lemma ExtractsAllIff(op: Op, e1: Expr, e2: Expr)
    requires PlainList(op, e1)
    ensures Extract(op, e1, e2).1 == Sym(Neutral(op)) <==> Bag(op, e1, {}) <= Bag(op, e2, {})
  {
    var neutral := Sym(Neutral(op));
    var (c, n1, n2) := ExtractEq(op, None, e1, e2);
    ExtractStrikesCommon(op, None, e1, e2);
    ExtractBasic(op, None, e1, e2);
    NoneExtracted(op, None, e1, e2);
    ExtractComplete(op, None, e1, e2);
    ExtractedFolds(op, e1, n1);
    BagNotEmpty(op, e1);
    forall x | x != neutral
      ensures Bag(op, e1, Gone(op))[x] == Bag(op, e1, {})[x] && Bag(op, e2, Gone(op))[x] == Bag(op, e2, {})[x]
    {
      BagCounts(op, e1, Gone(op), x);
      BagCounts(op, e2, Gone(op), x);
    }
    BagOfMembers(op, e1, {});
    BagOfMembers(op, e1, Gone(op));
    SubsetByCount(Bag(op, e1, {}), Bag(op, e2, {}), Bag(op, e1, Gone(op)), Bag(op, e2, Gone(op)), neutral);
  }

  lemma SubsetByCount<T>(a: multiset<T>, b: multiset<T>, c: multiset<T>, d: multiset<T>, n: T)
    requires n !in a && n !in c && forall x | x != n :: c[x] == a[x] && d[x] == b[x]
    ensures a <= b <==> c - d == multiset{}
  {
    if c - d == multiset{} {
      forall x ensures a[x] <= b[x] {
        assert (c - d)[x] == 0;
      }
    }
    if a <= b {
      forall x ensures (c - d)[x] == 0 {
        assert a[x] <= b[x];
      }
    }
  }

  lemma {:induction false} BagNotEmpty(op: Op, e: Expr)
    requires Members(op, e) !! CONSTANTS
    ensures Bag(op, e, Gone(op)) != multiset{}
  {
    if IsOp(op, e) {
      BagNotEmpty(op, e.left);
    }
  }

  lemma ExtractedFolds(op: Op, e: Expr, n: Expr)
    requires PlainList(op, e) && Thinned(op, e, n) && BasicList(op, n)
    ensures EliminateYN(n) == Sym(Neutral(op)) <==> Bag(op, n, Gone(op)) == multiset{}
  {
    var neutral, absorbing := Sym(Neutral(op)), Sym(Absorbing(op));
    BagOfMembers(op, n, Gone(op));
    FoldKeepsBag(op, n);
    if Bag(op, n, Gone(op)) == multiset{} {
      EmptyBagFolds(op, n);
    }
  }
}
