/** Constant folding, equality of expressions modulo common parts, and
    common-part extraction (expr.c). */
module ExprEquality {
  import opened Tristate
  import opened Expr

  // ----- expr_eliminate_yn -----

  function EliminateYN(e: Expr): (r: Expr)
    ensures Size(r) <= Size(e)
  {
    if !e.Bin? then e else
    var l := EliminateYN(e.left);
    var r := EliminateYN(e.right);
    if l == Sym(Absorbing(e.op)) then l
    else if l == Sym(Neutral(e.op)) then r
    else if r == Sym(Absorbing(e.op)) then r
    else if r == Sym(Neutral(e.op)) then l
    else Bin(e.op, l, r)
  }

  /** No AND/OR node reachable through AND/OR nodes has a constant child. */
  predicate Folded(e: Expr) {
    e.Bin? ==>
      && !IsYesNo(e.left) && !IsYesNo(e.right)
      && Folded(e.left) && Folded(e.right)
  }

  lemma {:induction false} EliminateYNMeaning(e: Expr, v: Valuation)
    requires WellFormed(v)
    ensures Eval(EliminateYN(e), v) == Eval(e, v)
  {
    if e.Bin? {
      EliminateYNMeaning(e.left, v);
      EliminateYNMeaning(e.right, v);
    }
  }

  lemma {:induction false} EliminateYNFolds(e: Expr)
    ensures Folded(EliminateYN(e))
    ensures Folded(e) <==> EliminateYN(e) == e
    ensures !Folded(e) ==> Size(EliminateYN(e)) < Size(e)
  {
    if e.Bin? {
      EliminateYNFolds(e.left);
      EliminateYNFolds(e.right);
    }
  }

  // ----- expr_eq and expr_eliminate_eq -----

  datatype NodeType = SymNode | NotNode | BinNode(op: Op) | EqualNode | UnequalNode

  function TypeOf(e: Expr): NodeType {
    match e
    case Sym(_) => SymNode
    case Not(_) => NotNode
    case Bin(op, _, _) => BinNode(op)
    case Equal(_, _) => EqualNode
    case Unequal(_, _) => UnequalNode
  }

  function ExprEq(e1: Expr, e2: Expr): bool
    decreases Size(e1) + Size(e2), 2
  {
    if TypeOf(e1) != TypeOf(e2) then false else
    match e1
    case Equal(a, b) => a == e2.lhs && b == e2.rhs
    case Unequal(a, b) => a == e2.lhs && b == e2.rhs
    case Sym(s) => s == e2.sym
    case Not(a) => ExprEq(a, e2.arg)
    case Bin(_, _, _) =>
      var r := EliminateEq(e1, e2);
      r.0.Sym? && r.1.Sym? && r.0.sym == r.1.sym
  }

  /** One pass of __expr_eliminate_eq: every leaf of the `op` list `e1` is
      compared with every leaf of the `op` list `e2`, and an equal pair is
      overwritten on both sides by the neutral constant.  The result holds the
      two rewritten trees. */
  function EliminatePass(op: Op, e1: Expr, e2: Expr): (r: (Expr, Expr))
    ensures Size(r.0) <= Size(e1) && Size(r.1) <= Size(e2)
    decreases Size(e1) + Size(e2), if IsOp(op, e1) || IsOp(op, e2) then 0 else 3
  {
    if IsOp(op, e1) then
      var (l, m) := EliminatePass(op, e1.left, e2);
      var (r, n) := EliminatePass(op, e1.right, m);
      (Bin(op, l, r), n)
    else if IsOp(op, e2) then
      var (m, l) := EliminatePass(op, e1, e2.left);
      var (n, r) := EliminatePass(op, m, e2.right);
      (n, Bin(op, l, r))
    else if e1 == e2 && IsYesNo(e1) then (e1, e2)
    else if !ExprEq(e1, e2) then (e1, e2)
    else (Sym(Neutral(op)), Sym(Neutral(op)))
  }

  function EliminateEq(e1: Expr, e2: Expr): (r: (Expr, Expr))
    decreases Size(e1) + Size(e2), 1
  {
    var (a, b) := if e1.Bin? then EliminatePass(e1.op, e1, e2) else (e1, e2);
    var (a', b') := if TypeOf(a) != TypeOf(b) && b.Bin? then EliminatePass(b.op, a, b) else (a, b);
    (EliminateYN(a'), EliminateYN(b'))
  }

  /** The part of both lists that one pass takes out. */
  function CommonPart(op: Op, e1: Expr, e2: Expr): Expr
    decreases Size(e1) + Size(e2)
  {
    if IsOp(op, e1) then
      Bin(op, CommonPart(op, e1.left, e2), CommonPart(op, e1.right, EliminatePass(op, e1.left, e2).1))
    else if IsOp(op, e2) then
      Bin(op, CommonPart(op, e1, e2.left), CommonPart(op, EliminatePass(op, e1, e2.left).0, e2.right))
    else if !(e1 == e2 && IsYesNo(e1)) && ExprEq(e1, e2) then e1
    else Sym(Neutral(op))
  }

  /** Both equations of one pass. */
  ghost predicate PassFactored(op: Op, e1: Expr, e2: Expr, v: Valuation) {
    var n := EliminatePass(op, e1, e2);
    var c := Eval(CommonPart(op, e1, e2), v);
    Eval(e1, v) == Apply(op, Eval(n.0, v), c) && Eval(e2, v) == Apply(op, Eval(n.1, v), c)
  }

  lemma FirstPassFactored(op: Op, left: Expr, right: Expr, e2: Expr, v: Valuation)
    requires PassFactored(op, left, e2, v) && PassFactored(op, right, EliminatePass(op, left, e2).1, v)
    ensures PassFactored(op, Bin(op, left, right), e2, v)
  {
    var (l, m) := EliminatePass(op, left, e2);
    var (r, n) := EliminatePass(op, right, m);
    var c, d := Eval(CommonPart(op, left, e2), v), Eval(CommonPart(op, right, m), v);
    ApplyExchange(op, Eval(l, v), Eval(r, v), c, d);
    ApplyAssociative(op, Eval(n, v), d, c);
    ApplyCommutes(op, c, d);
  }

  lemma SecondPassFactored(op: Op, e1: Expr, left: Expr, right: Expr, v: Valuation)
    requires !IsOp(op, e1)
    requires PassFactored(op, e1, left, v) && PassFactored(op, EliminatePass(op, e1, left).0, right, v)
    ensures PassFactored(op, e1, Bin(op, left, right), v)
  {
    var (m, l) := EliminatePass(op, e1, left);
    var (n, r) := EliminatePass(op, m, right);
    var c, d := Eval(CommonPart(op, e1, left), v), Eval(CommonPart(op, m, right), v);
    ApplyExchange(op, Eval(l, v), Eval(r, v), c, d);
    ApplyAssociative(op, Eval(n, v), d, c);
    ApplyCommutes(op, c, d);
  }

  /** One pass factors both expressions over the same common part. */
  lemma {:induction false} EliminatePassFactors(op: Op, e1: Expr, e2: Expr, v: Valuation)
    requires WellFormed(v)
    ensures var (n1, n2) := EliminatePass(op, e1, e2);
            && Eval(e1, v) == Apply(op, Eval(n1, v), Eval(CommonPart(op, e1, e2), v))
            && Eval(e2, v) == Apply(op, Eval(n2, v), Eval(CommonPart(op, e1, e2), v))
    decreases Size(e1) + Size(e2), if IsOp(op, e1) || IsOp(op, e2) then 0 else 3, 1
  {
    if IsOp(op, e1) {
      EliminatePassFactors(op, e1.left, e2, v);
      EliminatePassFactors(op, e1.right, EliminatePass(op, e1.left, e2).1, v);
      FirstPassFactored(op, e1.left, e1.right, e2, v);
    } else if IsOp(op, e2) {
      EliminatePassFactors(op, e1, e2.left, v);
      EliminatePassFactors(op, EliminatePass(op, e1, e2.left).0, e2.right, v);
      SecondPassFactored(op, e1, e2.left, e2.right, v);
    } else {
      LeavesPassFactored(op, e1, e2, v);
    }
  }

  lemma {:induction false} LeavesPassFactored(op: Op, e1: Expr, e2: Expr, v: Valuation)
    requires WellFormed(v) && !IsOp(op, e1) && !IsOp(op, e2)
    ensures PassFactored(op, e1, e2, v)
    decreases Size(e1) + Size(e2), 3, 0
  {
    if !(e1 == e2 && IsYesNo(e1)) && ExprEq(e1, e2) {
      ExprEqSound(e1, e2, v);
    }
    NeutralValue(op, Eval(e1, v), v);
    NeutralValue(op, Eval(e2, v), v);
  }

  /** Expressions reported equal have the same value under every valuation. */
  lemma {:induction false} ExprEqSound(e1: Expr, e2: Expr, v: Valuation)
    requires WellFormed(v)
    requires ExprEq(e1, e2)
    ensures Eval(e1, v) == Eval(e2, v)
    decreases Size(e1) + Size(e2), 2
  {
    match e1
    case Not(a) => ExprEqSound(a, e2.arg, v);
    case Bin(op, _, _) =>
      var (n1, n2) := EliminatePass(op, e1, e2);
      EliminatePassFactors(op, e1, e2, v);
      PassShape(op, e1, e2);
      EliminateYNMeaning(n1, v);
      EliminateYNMeaning(n2, v);
    case _ =>
  }

  /** A pass leaves lists lists and other members other members. */
  lemma {:induction false} PassShape(op: Op, e1: Expr, e2: Expr)
    ensures var (n1, n2) := EliminatePass(op, e1, e2);
            && (IsOp(op, n1) <==> IsOp(op, e1)) && (IsOp(op, n2) <==> IsOp(op, e2))
            && (!IsOp(op, e1) ==> n1 == e1 || n1 == Sym(Neutral(op)))
            && (!IsOp(op, e2) ==> n2 == e2 || n2 == Sym(Neutral(op)))
    decreases Size(e1) + Size(e2)
  {
    if IsOp(op, e1) {
      PassShape(op, e1.left, e2);
      PassShape(op, e1.right, EliminatePass(op, e1.left, e2).1);
    } else if IsOp(op, e2) {
      PassShape(op, e1, e2.left);
      PassShape(op, EliminatePass(op, e1, e2.left).0, e2.right);
    }
  }

  /** expr_eliminate_eq: both expressions are their leftovers put back into one
      common context, first under `op2` with `d`, then under `op1` with `c`. */
  lemma EliminateEqContext(e1: Expr, e2: Expr, v: Valuation)
    returns (op1: Op, c: Tri, op2: Op, d: Tri)
    requires WellFormed(v)
    ensures var (n1, n2) := EliminateEq(e1, e2);
            && Eval(e1, v) == Apply(op1, Apply(op2, Eval(n1, v), d), c)
            && Eval(e2, v) == Apply(op1, Apply(op2, Eval(n2, v), d), c)
  {
    op1, c, op2, d := AndOp, YES, AndOp, YES;
    var (a, b) := if e1.Bin? then EliminatePass(e1.op, e1, e2) else (e1, e2);
    if e1.Bin? {
      EliminatePassFactors(e1.op, e1, e2, v);
      op1, c := e1.op, Eval(CommonPart(e1.op, e1, e2), v);
    }
    var (a', b') := if TypeOf(a) != TypeOf(b) && b.Bin? then EliminatePass(b.op, a, b) else (a, b);
    if TypeOf(a) != TypeOf(b) && b.Bin? {
      EliminatePassFactors(b.op, a, b, v);
      op2, d := b.op, Eval(CommonPart(b.op, a, b), v);
    }
    EliminateYNMeaning(a', v);
    EliminateYNMeaning(b', v);
  }

  /** If nothing but y is left of the second expression, it is implied by the
      first one: where the second is n, so is the first. */
  lemma LeftoverYesImplies(e1: Expr, e2: Expr, v: Valuation)
    requires WellFormed(v)
    requires EliminateEq(e1, e2).1 == YES_EXPR
    requires Eval(e2, v) == NO
    ensures Eval(e1, v) == NO
  {
    var op1, c, op2, d := EliminateEqContext(e1, e2, v);
    ContextOfYes(op1, c, op2, d, Eval(EliminateEq(e1, e2).0, v));
  }

  // ----- nothing common is left behind -----

  function Members(op: Op, e: Expr): (r: set<Expr>)
    ensures forall m | m in r :: !IsOp(op, m)
  {
    if IsOp(op, e) then Members(op, e.left) + Members(op, e.right) else {e}
  }

  /** The two lists have no member in common but y and n. */
  ghost predicate NothingCommon(op: Op, e1: Expr, e2: Expr) {
    forall a, b | a in Members(op, e1) && b in Members(op, e2) && ExprEq(a, b) :: a == b && IsYesNo(a)
  }

  /** The members of `e` are among those of `e0`, but for the neutral constant. */
  predicate Thinned(op: Op, e0: Expr, e: Expr) {
    Members(op, e) <= Members(op, e0) + {Sym(Neutral(op))}
  }

  lemma ThinnedTwice(op: Op, a: Expr, b: Expr, c: Expr)
    requires Thinned(op, a, b) && Thinned(op, b, c)
    ensures Thinned(op, a, c)
  {
  }

  lemma ThinnedList(op: Op, l: Expr, r: Expr, l': Expr, r': Expr)
    requires Thinned(op, l, l') && Thinned(op, r, r')
    ensures Thinned(op, Bin(op, l, r), Bin(op, l', r'))
  {
  }

  lemma {:induction false} PassThins(op: Op, e1: Expr, e2: Expr)
    ensures var (n1, n2) := EliminatePass(op, e1, e2); Thinned(op, e1, n1) && Thinned(op, e2, n2)
    decreases Size(e1) + Size(e2)
  {
    if IsOp(op, e1) {
      var (l, m) := EliminatePass(op, e1.left, e2);
      var (r, n) := EliminatePass(op, e1.right, m);
      PassThins(op, e1.left, e2);
      PassThins(op, e1.right, m);
      ThinnedList(op, e1.left, e1.right, l, r);
      ThinnedTwice(op, e2, m, n);
    } else if IsOp(op, e2) {
      var (m, l) := EliminatePass(op, e1, e2.left);
      var (n, r) := EliminatePass(op, m, e2.right);
      PassThins(op, e1, e2.left);
      PassThins(op, m, e2.right);
      ThinnedList(op, e2.left, e2.right, l, r);
      ThinnedTwice(op, e1, m, n);
    }
  }

  /** Putting constants in the place of members makes nothing common. */
  lemma ThinnedApart(op: Op, e1: Expr, e2: Expr, n1: Expr, n2: Expr)
    requires NothingCommon(op, e1, e2) && Thinned(op, e1, n1) && Thinned(op, e2, n2)
    ensures NothingCommon(op, n1, n2)
  {
    forall a, b | a in Members(op, n1) && b in Members(op, n2) && ExprEq(a, b)
      ensures a == b && IsYesNo(a)
    {
      if a != Sym(Neutral(op)) && b != Sym(Neutral(op)) {
        assert a in Members(op, e1) && b in Members(op, e2);
      }
    }
  }

  lemma ApartTogether(op: Op, l: Expr, r: Expr, e: Expr)
    requires NothingCommon(op, l, e) && NothingCommon(op, r, e)
    ensures NothingCommon(op, Bin(op, l, r), e)
  {
    forall a, b | a in Members(op, Bin(op, l, r)) && b in Members(op, e) && ExprEq(a, b)
      ensures a == b && IsYesNo(a)
    {
      assert a in Members(op, l) || a in Members(op, r);
    }
  }

  lemma TogetherApart(op: Op, e: Expr, l: Expr, r: Expr)
    requires NothingCommon(op, e, l) && NothingCommon(op, e, r)
    ensures NothingCommon(op, e, Bin(op, l, r))
  {
    forall a, b | a in Members(op, e) && b in Members(op, Bin(op, l, r)) && ExprEq(a, b)
      ensures a == b && IsYesNo(a)
    {
      assert b in Members(op, l) || b in Members(op, r);
    }
  }

  /** A pass finds every common member. */
  lemma {:induction false} PassComplete(op: Op, e1: Expr, e2: Expr)
    ensures var (n1, n2) := EliminatePass(op, e1, e2); NothingCommon(op, n1, n2)
    decreases Size(e1) + Size(e2)
  {
    if IsOp(op, e1) {
      var (l, m) := EliminatePass(op, e1.left, e2);
      var (r, n) := EliminatePass(op, e1.right, m);
      PassComplete(op, e1.left, e2);
      PassComplete(op, e1.right, m);
      PassThins(op, e1.right, m);
      ThinnedApart(op, l, m, l, n);
      ApartTogether(op, l, r, n);
    } else if IsOp(op, e2) {
      var (m, l) := EliminatePass(op, e1, e2.left);
      var (n, r) := EliminatePass(op, m, e2.right);
      PassComplete(op, e1, e2.left);
      PassComplete(op, m, e2.right);
      PassThins(op, m, e2.right);
      ThinnedApart(op, m, l, n, l);
      TogetherApart(op, n, l, r);
    }
  }

  // ----- expr_eq is reflexive -----

  function LeafCount(op: Op, e: Expr): (n: nat)
    ensures n > 0
  {
    if IsOp(op, e) then LeafCount(op, e.left) + LeafCount(op, e.right) else 1
  }

  function LeafAt(op: Op, e: Expr, i: nat): (r: Expr)
    requires i < LeafCount(op, e)
    ensures !IsOp(op, r)
  {
    if !IsOp(op, e) then e
    else if i < LeafCount(op, e.left) then LeafAt(op, e.left, i)
    else LeafAt(op, e.right, i - LeafCount(op, e.left))
  }

  /** What becomes of a leaf that met its equal: y and n stay. */
  function Struck(op: Op, leaf: Expr): Expr {
    if IsYesNo(leaf) then leaf else Sym(Neutral(op))
  }

  /** The list with its first `k` leaves struck out. */
  function StrikeFirst(op: Op, e: Expr, k: nat): Expr {
    if IsOp(op, e) then
      var n := LeafCount(op, e.left);
      Bin(op, StrikeFirst(op, e.left, if k < n then k else n), StrikeFirst(op, e.right, if k < n then 0 else k - n))
    else if k == 0 then e
    else Struck(op, e)
  }

  lemma {:induction false} StrikeNothing(op: Op, e: Expr)
    ensures StrikeFirst(op, e, 0) == e
  {
    if IsOp(op, e) {
      StrikeNothing(op, e.left);
      StrikeNothing(op, e.right);
    }
  }

  lemma {:induction false} StruckListFolds(op: Op, e: Expr)
    ensures IsYesNo(EliminateYN(StrikeFirst(op, e, LeafCount(op, e))))
  {
    if IsOp(op, e) {
      StruckListFolds(op, e.left);
      StruckListFolds(op, e.right);
    }
  }

  lemma {:induction false} ConstantMeetsList(op: Op, c: Expr, e: Expr)
    requires IsYesNo(c)
    ensures EliminatePass(op, c, e) == (c, e)
  {
    if IsOp(op, e) {
      ConstantMeetsList(op, c, e.left);
      ConstantMeetsList(op, c, e.right);
    }
  }

  lemma {:induction false} LeafMeetsStruckList(op: Op, x: Expr, e: Expr)
    requires !IsOp(op, x)
    ensures var t := StrikeFirst(op, e, LeafCount(op, e)); EliminatePass(op, x, t) == (x, t)
  {
    if IsOp(op, e) {
      LeafMeetsStruckList(op, x, e.left);
      LeafMeetsStruckList(op, x, e.right);
    }
  }

  lemma {:induction false} LeafMeetsItself(op: Op, e: Expr, k: nat)
    requires k < LeafCount(op, e)
    requires ExprEq(LeafAt(op, e, k), LeafAt(op, e, k))
    ensures EliminatePass(op, LeafAt(op, e, k), StrikeFirst(op, e, k))
         == (Struck(op, LeafAt(op, e, k)), StrikeFirst(op, e, k + 1))
    decreases e
  {
    if IsOp(op, e) {
      var x, n := LeafAt(op, e, k), LeafCount(op, e.left);
      if k < n {
        LeafMeetsItself(op, e.left, k);
        ConstantMeetsList(op, Struck(op, x), e.right);
        StrikeNothing(op, e.right);
      } else {
        LeafMeetsStruckList(op, x, e.left);
        LeafMeetsItself(op, e.right, k - n);
      }
    }
  }

  /** The leaves of `e1` are those of `e` from the k-th on. */
  ghost predicate LeavesFrom(op: Op, e1: Expr, e: Expr, k: nat) {
    if IsOp(op, e1) then LeavesFrom(op, e1.left, e, k) && LeavesFrom(op, e1.right, e, k + LeafCount(op, e1.left))
    else k < LeafCount(op, e) && LeafAt(op, e, k) == e1
  }

  lemma {:induction false} LeavesFromLeft(op: Op, e1: Expr, l: Expr, r: Expr, k: nat)
    requires LeavesFrom(op, e1, l, k)
    ensures LeavesFrom(op, e1, Bin(op, l, r), k)
  {
    if IsOp(op, e1) {
      LeavesFromLeft(op, e1.left, l, r, k);
      LeavesFromLeft(op, e1.right, l, r, k + LeafCount(op, e1.left));
    }
  }

  lemma {:induction false} LeavesFromRight(op: Op, e1: Expr, l: Expr, r: Expr, k: nat)
    requires LeavesFrom(op, e1, r, k)
    ensures LeavesFrom(op, e1, Bin(op, l, r), LeafCount(op, l) + k)
  {
    if IsOp(op, e1) {
      LeavesFromRight(op, e1.left, l, r, k);
      LeavesFromRight(op, e1.right, l, r, k + LeafCount(op, e1.left));
    }
  }

  lemma {:induction false} LeavesFromStart(op: Op, e: Expr)
    ensures LeavesFrom(op, e, e, 0)
  {
    if IsOp(op, e) {
      LeavesFromStart(op, e.left);
      LeavesFromStart(op, e.right);
      LeavesFromLeft(op, e.left, e.left, e.right, 0);
      LeavesFromRight(op, e.right, e.left, e.right, 0);
    }
  }

  ghost predicate LeavesReflexive(op: Op, e: Expr) {
    if IsOp(op, e) then LeavesReflexive(op, e.left) && LeavesReflexive(op, e.right)
    else ExprEq(e, e)
  }

  /** The list `e1`, whose leaves are those of `e` from the k-th on, strikes
      exactly these leaves out of `e`. */
  lemma {:induction false} ListMeetsItself(op: Op, e1: Expr, e: Expr, k: nat)
    requires LeavesFrom(op, e1, e, k)
    requires LeavesReflexive(op, e1)
    ensures EliminatePass(op, e1, StrikeFirst(op, e, k))
         == (StrikeFirst(op, e1, LeafCount(op, e1)), StrikeFirst(op, e, k + LeafCount(op, e1)))
    decreases e1
  {
    if IsOp(op, e1) {
      var n := LeafCount(op, e1.left);
      ListMeetsItself(op, e1.left, e, k);
      ListMeetsItself(op, e1.right, e, k + n);
    } else {
      LeafMeetsItself(op, e, k);
    }
  }

  lemma EqualByPass(op: Op, e1: Expr, e2: Expr, t: Expr)
    requires IsOp(op, e1) && IsOp(op, e2)
    requires EliminatePass(op, e1, e2) == (t, t) && IsYesNo(EliminateYN(t))
    ensures ExprEq(e1, e2)
  {
  }

  lemma ListStrikesItself(op: Op, e: Expr)
    requires LeavesReflexive(op, e)
    ensures var t := StrikeFirst(op, e, LeafCount(op, e)); EliminatePass(op, e, e) == (t, t)
  {
    LeavesFromStart(op, e);
    ListMeetsItself(op, e, e, 0);
    StrikeNothing(op, e);
  }

  lemma ListReflexive(op: Op, e: Expr)
    requires IsOp(op, e)
    requires LeavesReflexive(op, e)
    ensures ExprEq(e, e)
  {
    ListStrikesItself(op, e);
    StruckListFolds(op, e);
    EqualByPass(op, e, e, StrikeFirst(op, e, LeafCount(op, e)));
  }

  lemma {:induction false} ExprEqReflexive(e: Expr)
    ensures ExprEq(e, e)
    decreases Size(e), 1
  {
    if e.Not? {
      ExprEqReflexive(e.arg);
    } else if e.Bin? {
      LeavesAreReflexive(e.op, e.left);
      LeavesAreReflexive(e.op, e.right);
      ListReflexive(e.op, e);
    }
  }

  lemma {:induction false} LeavesAreReflexive(op: Op, e: Expr)
    ensures LeavesReflexive(op, e)
    decreases Size(e), 2
  {
    if IsOp(op, e) {
      LeavesAreReflexive(op, e.left);
      LeavesAreReflexive(op, e.right);
    } else {
      ExprEqReflexive(e);
    }
  }

  // ----- expr_extract_eq -----

  /** expr_extract_eq: like the elimination pass, but the common parts are
      collected in `acc`, and equal constants are taken out as well. */
  function ExtractEq(op: Op, acc: ExprPtr, e1: Expr, e2: Expr): (r: (ExprPtr, Expr, Expr))
    ensures Size(r.1) <= Size(e1) && Size(r.2) <= Size(e2)
    decreases Size(e1) + Size(e2)
  {
    if IsOp(op, e1) then
      var (x, l, m) := ExtractEq(op, acc, e1.left, e2);
      var (y, r, n) := ExtractEq(op, x, e1.right, m);
      (y, Bin(op, l, r), n)
    else if IsOp(op, e2) then
      var (x, m, l) := ExtractEq(op, acc, e1, e2.left);
      var (y, n, r) := ExtractEq(op, x, m, e2.right);
      (y, n, Bin(op, l, r))
    else if ExprEq(e1, e2) then
      (Some(if acc.None? then e1 else Bin(op, acc.value, e1)), Sym(Neutral(op)), Sym(Neutral(op)))
    else (acc, e1, e2)
  }

  /** expr_extract_eq_and / expr_extract_eq_or. */
  function Extract(op: Op, e1: Expr, e2: Expr): (ExprPtr, Expr, Expr) {
    var (c, n1, n2) := ExtractEq(op, None, e1, e2);
    if c.None? then (c, n1, n2) else (c, EliminateYN(n1), EliminateYN(n2))
  }

  ghost function PartValue(op: Op, part: ExprPtr, v: Valuation): Tri
    requires WellFormed(v)
  {
    if part.None? then v.tri(Neutral(op)) else Eval(part.value, v)
  }

  /** The value of what ExtractEq adds to its accumulator. */
  ghost function Extracted(op: Op, acc: ExprPtr, e1: Expr, e2: Expr, v: Valuation): Tri
    requires WellFormed(v)
    decreases Size(e1) + Size(e2)
  {
    if IsOp(op, e1) then
      var (x, l, m) := ExtractEq(op, acc, e1.left, e2);
      Apply(op, Extracted(op, acc, e1.left, e2, v), Extracted(op, x, e1.right, m, v))
    else if IsOp(op, e2) then
      var (x, m, l) := ExtractEq(op, acc, e1, e2.left);
      Apply(op, Extracted(op, acc, e1, e2.left, v), Extracted(op, x, m, e2.right, v))
    else if ExprEq(e1, e2) then Eval(e1, v)
    else v.tri(Neutral(op))
  }

  /** The three equations of one common part. */
  ghost predicate Factored(op: Op, acc: ExprPtr, e1: Expr, e2: Expr, v: Valuation)
    requires WellFormed(v)
  {
    var (c, n1, n2) := ExtractEq(op, acc, e1, e2);
    var part := Extracted(op, acc, e1, e2, v);
    && Eval(e1, v) == Apply(op, Eval(n1, v), part)
    && Eval(e2, v) == Apply(op, Eval(n2, v), part)
    && PartValue(op, c, v) == Apply(op, PartValue(op, acc, v), part)
  }

  lemma FirstFactored(op: Op, acc: ExprPtr, e1: Expr, e2: Expr, v: Valuation)
    requires WellFormed(v) && IsOp(op, e1)
    requires Factored(op, acc, e1.left, e2, v)
    requires var (x, _, m) := ExtractEq(op, acc, e1.left, e2); Factored(op, x, e1.right, m, v)
    ensures Factored(op, acc, e1, e2, v)
  {
    var (x, l, m) := ExtractEq(op, acc, e1.left, e2);
    var (y, r, n) := ExtractEq(op, x, e1.right, m);
    var c, d := Extracted(op, acc, e1.left, e2, v), Extracted(op, x, e1.right, m, v);
    TwoParts(op, Eval(e1.left, v), Eval(e1.right, v), Eval(e2, v), Eval(l, v), Eval(r, v), Eval(m, v), Eval(n, v), c, d,
             PartValue(op, acc, v), PartValue(op, x, v), PartValue(op, y, v));
  }

  lemma SecondFactored(op: Op, acc: ExprPtr, e1: Expr, e2: Expr, v: Valuation)
    requires WellFormed(v) && !IsOp(op, e1) && IsOp(op, e2)
    requires Factored(op, acc, e1, e2.left, v)
    requires var (x, m, _) := ExtractEq(op, acc, e1, e2.left); Factored(op, x, m, e2.right, v)
    ensures Factored(op, acc, e1, e2, v)
  {
    var (x, m, l) := ExtractEq(op, acc, e1, e2.left);
    var (y, n, r) := ExtractEq(op, x, m, e2.right);
    var c, d := Extracted(op, acc, e1, e2.left, v), Extracted(op, x, m, e2.right, v);
    TwoParts(op, Eval(e2.left, v), Eval(e2.right, v), Eval(e1, v), Eval(l, v), Eval(r, v), Eval(m, v), Eval(n, v), c, d,
             PartValue(op, acc, v), PartValue(op, x, v), PartValue(op, y, v));
  }

  lemma EqualFactored(op: Op, acc: ExprPtr, e1: Expr, e2: Expr, v: Valuation)
    requires WellFormed(v) && !IsOp(op, e1) && !IsOp(op, e2) && ExprEq(e1, e2)
    ensures Factored(op, acc, e1, e2, v)
  {
    ExprEqSound(e1, e2, v);
    NeutralValue(op, Eval(e1, v), v);
  }

  lemma OthersFactored(op: Op, acc: ExprPtr, e1: Expr, e2: Expr, v: Valuation)
    requires WellFormed(v) && !IsOp(op, e1) && !IsOp(op, e2) && !ExprEq(e1, e2)
    ensures Factored(op, acc, e1, e2, v)
  {
    assert Extracted(op, acc, e1, e2, v) == v.tri(Neutral(op)) && ExtractEq(op, acc, e1, e2) == (acc, e1, e2);
    NeutralValue(op, Eval(e1, v), v);
    NeutralValue(op, Eval(e2, v), v);
    NeutralValue(op, PartValue(op, acc, v), v);
  }

  lemma {:induction false} ExtractEqFactors(op: Op, acc: ExprPtr, e1: Expr, e2: Expr, v: Valuation)
    requires WellFormed(v)
    ensures Factored(op, acc, e1, e2, v)
    decreases Size(e1) + Size(e2)
  {
    if IsOp(op, e1) {
      var (x, _, m) := ExtractEq(op, acc, e1.left, e2);
      ExtractEqFactors(op, acc, e1.left, e2, v);
      ExtractEqFactors(op, x, e1.right, m, v);
      FirstFactored(op, acc, e1, e2, v);
    } else if IsOp(op, e2) {
      var (x, m, _) := ExtractEq(op, acc, e1, e2.left);
      ExtractEqFactors(op, acc, e1, e2.left, v);
      ExtractEqFactors(op, x, m, e2.right, v);
      SecondFactored(op, acc, e1, e2, v);
    } else if ExprEq(e1, e2) {
      EqualFactored(op, acc, e1, e2, v);
    } else {
      OthersFactored(op, acc, e1, e2, v);
    }
  }

  /** The extraction thins both lists and leaves them nothing in common. */
  ghost predicate Parted(op: Op, acc: ExprPtr, e1: Expr, e2: Expr) {
    var r := ExtractEq(op, acc, e1, e2);
    Thinned(op, e1, r.1) && Thinned(op, e2, r.2) && NothingCommon(op, r.1, r.2)
  }

  lemma FirstParted(op: Op, acc: ExprPtr, l: Expr, r: Expr, e2: Expr)
    requires Parted(op, acc, l, e2)
    requires var x := ExtractEq(op, acc, l, e2); Parted(op, x.0, r, x.2)
    ensures Parted(op, acc, Bin(op, l, r), e2)
  {
    var (x, l', m) := ExtractEq(op, acc, l, e2);
    var (_, r', n) := ExtractEq(op, x, r, m);
    ThinnedList(op, l, r, l', r');
    ThinnedTwice(op, e2, m, n);
    ThinnedApart(op, l', m, l', n);
    ApartTogether(op, l', r', n);
  }

  lemma SecondParted(op: Op, acc: ExprPtr, e1: Expr, l: Expr, r: Expr)
    requires !IsOp(op, e1) && Parted(op, acc, e1, l)
    requires var x := ExtractEq(op, acc, e1, l); Parted(op, x.0, x.1, r)
    ensures Parted(op, acc, e1, Bin(op, l, r))
  {
    var (x, m, l') := ExtractEq(op, acc, e1, l);
    var (_, n, r') := ExtractEq(op, x, m, r);
    ThinnedList(op, l, r, l', r');
    ThinnedTwice(op, e1, m, n);
    ThinnedApart(op, m, l', n, l');
    TogetherApart(op, n, l', r');
  }

  lemma LeavesParted(op: Op, acc: ExprPtr, e1: Expr, e2: Expr)
    requires !IsOp(op, e1) && !IsOp(op, e2)
    ensures Parted(op, acc, e1, e2)
  {
    var (_, n1, n2) := ExtractEq(op, acc, e1, e2);
    assert Members(op, n1) == {n1} && Members(op, n2) == {n2};
    assert (n1, n2) == if ExprEq(e1, e2) then (Sym(Neutral(op)), Sym(Neutral(op))) else (e1, e2);
  }

  lemma {:induction false} ExtractParts(op: Op, acc: ExprPtr, e1: Expr, e2: Expr)
    ensures Parted(op, acc, e1, e2)
    decreases Size(e1) + Size(e2)
  {
    if IsOp(op, e1) {
      var x := ExtractEq(op, acc, e1.left, e2);
      ExtractParts(op, acc, e1.left, e2);
      ExtractParts(op, x.0, e1.right, x.2);
      FirstParted(op, acc, e1.left, e1.right, e2);
    } else if IsOp(op, e2) {
      var x := ExtractEq(op, acc, e1, e2.left);
      ExtractParts(op, acc, e1, e2.left);
      ExtractParts(op, x.0, x.1, e2.right);
      SecondParted(op, acc, e1, e2.left, e2.right);
    } else {
      LeavesParted(op, acc, e1, e2);
    }
  }

  /** The extraction finds every common member. */
  lemma ExtractComplete(op: Op, acc: ExprPtr, e1: Expr, e2: Expr)
    ensures var (_, n1, n2) := ExtractEq(op, acc, e1, e2);
            Thinned(op, e1, n1) && Thinned(op, e2, n2) && NothingCommon(op, n1, n2)
  {
    ExtractParts(op, acc, e1, e2);
  }

  /** Extraction: one common part, put back under `op`, restores both sides. */
  lemma ExtractFactors(op: Op, e1: Expr, e2: Expr, v: Valuation)
    requires WellFormed(v)
    ensures var (c, n1, n2) := Extract(op, e1, e2);
            && Eval(e1, v) == Apply(op, Eval(n1, v), PartValue(op, c, v))
            && Eval(e2, v) == Apply(op, Eval(n2, v), PartValue(op, c, v))
  {
    var r := ExtractEq(op, None, e1, e2);
    var part := Extracted(op, None, e1, e2, v);
    ExtractEqFactors(op, None, e1, e2, v);
    NeutralValue(op, part, v);
    assert PartValue(op, r.0, v) == part;
    EliminateYNMeaning(r.1, v);
    EliminateYNMeaning(r.2, v);
  }
}
