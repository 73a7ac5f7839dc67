/** Removal of redundant members of AND/OR lists (expr_eliminate_dups and its
    two passes in expr.c).  The global trans_count is passed in and out. */
module ExprDuplicates {
  import opened Tristate
  import opened Expr
  import opened ExprEquality
  import opened ExprBags
  import opened ExprNormalForm
  import opened ExprJoin
  import opened ExprSlots

  function ForksAt(op: Op, e: Expr, p: Path): nat
    requires Within(op, e, p)
  {
    Forks(SubShape(ShapeOf(op, e), p))
  }

  /** No member below `p1` joins with another member below `p2`, and the members
      that are lists of the other operator are irredundant themselves. */
  ghost predicate Settled(op: Op, e: Expr, p1: Path, p2: Path)
    requires Within(op, e, p1) && Within(op, e, p2)
    decreases Size(e), ForksAt(op, e, p1) + ForksAt(op, e, p2)
  {
    if IsOp(op, At(op, e, p1)) then
      Descend(op, e, p1, false);
      Descend(op, e, p1, true);
      Settled(op, e, p1 + [false], p2) && Settled(op, e, p1 + [true], p2)
    else if IsOp(op, At(op, e, p2)) then
      Descend(op, e, p2, false);
      Descend(op, e, p2, true);
      Settled(op, e, p1, p2 + [false]) && Settled(op, e, p1, p2 + [true])
    else
      var m := At(op, e, p1);
      p1 != p2 ==> Join(op, m, At(op, e, p2)).None? && (m.Bin? ==> Settled(m.op, m, [], []))
  }

  /** Rewriting one member to an equivalent one. */
  lemma MemberRewritten(op: Op, e: Expr, p: Path, m: Expr)
    requires IsSlot(op, e, p) && !IsOp(op, m)
    ensures ShapeOf(op, Put(op, e, p, m)) == ShapeOf(op, e)
    ensures At(op, Put(op, e, p, m), p) == m
    ensures m == At(op, e, p) ==> Put(op, e, p, m) == e
    ensures !Folded(m) ==> !Folded(Put(op, e, p, m))
    ensures p != [] && IsYesNo(m) ==> !Folded(Put(op, e, p, m))
  {
    PutShape(op, e, p, m);
    AtPut(op, e, p, m, p);
    PutSame(op, e, p);
    if !Folded(m) || (p != [] && IsYesNo(m)) {
      UnfoldedMember(op, Put(op, e, p, m), p);
    }
  }

  lemma {:induction false} PutSame(op: Op, e: Expr, p: Path)
    requires Within(op, e, p)
    ensures Put(op, e, p, At(op, e, p)) == e
  {
    if p != [] {
      PutSame(op, if p[0] then e.right else e.left, p[1..]);
    }
  }

  lemma MemberValue(op: Op, e: Expr, p: Path, m: Expr, v: Valuation)
    requires WellFormed(v)
    requires IsSlot(op, e, p)
    ensures Eval(m, v) == Eval(At(op, e, p), v) ==> Eval(Put(op, e, p, m), v) == Eval(e, v)
    ensures Sharpens(Eval(At(op, e, p), v), Eval(m, v)) ==> Sharpens(Eval(e, v), Eval(Put(op, e, p, m), v))
  {
    SplitAt(op, e, p, v);
    SplitPut(op, e, p, m, v);
    if Sharpens(Eval(At(op, e, p), v), Eval(m, v)) {
      SharpensCongruence(op, Eval(At(op, e, p), v), Eval(m, v), Rest(op, e, p, v));
    }
  }

  /** What the list is after the joined pair is written back. */
  function JoinedPair(op: Op, e: Expr, p1: Path, p2: Path): Expr
    requires IsSlot(op, e, p1) && IsSlot(op, e, p2)
    requires Join(op, At(op, e, p1), At(op, e, p2)).Some?
  {
    AtPut(op, e, p1, Sym(Neutral(op)), p2);
    Put(op, Put(op, e, p1, Sym(Neutral(op))), p2, Join(op, At(op, e, p1), At(op, e, p2)).value)
  }

  lemma PairJoined(op: Op, e: Expr, p1: Path, p2: Path)
    requires IsSlot(op, e, p1) && IsSlot(op, e, p2) && p1 != p2
    requires Join(op, At(op, e, p1), At(op, e, p2)).Some?
    ensures var r := JoinedPair(op, e, p1, p2);
            && ShapeOf(op, r) == ShapeOf(op, e)
            && Size(r) <= Size(e)
            && !Folded(r)
            && forall v: Valuation | WellFormed(v) :: Eval(r, v) == Eval(e, v)
  {
    var neutral, t := Sym(Neutral(op)), Join(op, At(op, e, p1), At(op, e, p2)).value;
    var r := JoinedPair(op, e, p1, p2);
    JoinSmall(op, At(op, e, p1), At(op, e, p2));
    var half := Put(op, e, p1, neutral);
    PutShape(op, e, p1, neutral);
    AtPut(op, e, p1, neutral, p1);
    AtPut(op, e, p1, neutral, p2);
    PutShape(op, half, p2, t);
    AtPut(op, half, p2, t, p1);
    assert p1 != [];
    UnfoldedMember(op, r, p1);
    forall v: Valuation | WellFormed(v)
      ensures Eval(r, v) == Eval(e, v)
    {
      JoinMeaning(op, At(op, e, p1), At(op, e, p2), v);
      PutTwo(op, e, p1, neutral, p2, t, v);
    }
  }

  // ----- expr_eliminate_dups1 -----

  /** The list after the pass with the two pointers at `p1` and `p2`, and the number
      of changes. */
  function JoinMembers(op: Op, e: Expr, p1: Path, p2: Path): (r: (Expr, nat))
    requires Within(op, e, p1) && Within(op, e, p2)
    ensures ShapeOf(op, r.0) == ShapeOf(op, e) && Size(r.0) <= Size(e)
    decreases Size(e), ForksAt(op, e, p1) + ForksAt(op, e, p2), 1
  {
    if IsOp(op, At(op, e, p1)) then
      Descend(op, e, p1, false);
      Descend(op, e, p1, true);
      var (h, n) := JoinMembers(op, e, p1 + [false], p2);
      var (r, m) := JoinMembers(op, h, p1 + [true], p2);
      (r, n + m)
    else if IsOp(op, At(op, e, p2)) then
      Descend(op, e, p2, false);
      Descend(op, e, p2, true);
      var (h, n) := JoinMembers(op, e, p1, p2 + [false]);
      var (r, m) := JoinMembers(op, h, p1, p2 + [true]);
      (r, n + m)
    else if p1 == p2 then (e, 0)
    else JoinPair(op, e, p1, p2)
  }

  /** Two different members: the first one's own list, then the pair. */
  function JoinPair(op: Op, e: Expr, p1: Path, p2: Path): (r: (Expr, nat))
    requires IsSlot(op, e, p1) && IsSlot(op, e, p2) && p1 != p2
    ensures ShapeOf(op, r.0) == ShapeOf(op, e) && Size(r.0) <= Size(e)
    decreases Size(e), ForksAt(op, e, p1) + ForksAt(op, e, p2), 0
  {
    var e1 := At(op, e, p1);
    var (m, n) := if e1.Bin? then JoinMembers(e1.op, e1, [], []) else (e1, 0);
    MemberRewritten(op, e, p1, m);
    var g := Put(op, e, p1, m);
    if Join(op, At(op, g, p1), At(op, g, p2)).None? then (g, n) else
    PairJoined(op, g, p1, p2);
    (JoinedPair(op, g, p1, p2), n + 1)
  }

  /** Joining is exact, in three values. */
  lemma {:induction false} JoinMembersMeaning(op: Op, e: Expr, p1: Path, p2: Path, v: Valuation)
    requires WellFormed(v)
    requires Within(op, e, p1) && Within(op, e, p2)
    ensures Eval(JoinMembers(op, e, p1, p2).0, v) == Eval(e, v)
    decreases Size(e), ForksAt(op, e, p1) + ForksAt(op, e, p2), 1
  {
    if IsOp(op, At(op, e, p1)) {
      Descend(op, e, p1, false);
      Descend(op, e, p1, true);
      JoinMembersMeaning(op, e, p1 + [false], p2, v);
      JoinMembersMeaning(op, JoinMembers(op, e, p1 + [false], p2).0, p1 + [true], p2, v);
    } else if IsOp(op, At(op, e, p2)) {
      Descend(op, e, p2, false);
      Descend(op, e, p2, true);
      JoinMembersMeaning(op, e, p1, p2 + [false], v);
      JoinMembersMeaning(op, JoinMembers(op, e, p1, p2 + [false]).0, p1, p2 + [true], v);
    } else if p1 != p2 {
      JoinPairMeaning(op, e, p1, p2, v);
    }
  }

  lemma {:induction false} JoinPairMeaning(op: Op, e: Expr, p1: Path, p2: Path, v: Valuation)
    requires WellFormed(v)
    requires IsSlot(op, e, p1) && IsSlot(op, e, p2) && p1 != p2
    ensures Eval(JoinPair(op, e, p1, p2).0, v) == Eval(e, v)
    decreases Size(e), ForksAt(op, e, p1) + ForksAt(op, e, p2), 0
  {
    var e1 := At(op, e, p1);
    var m := if e1.Bin? then JoinMembers(e1.op, e1, [], []).0 else e1;
    assert Eval(m, v) == Eval(e1, v) by {
      if e1.Bin? {
        JoinMembersMeaning(e1.op, e1, [], [], v);
      }
    }
    MemberRewritten(op, e, p1, m);
    MemberValue(op, e, p1, m, v);
    PairMeaning(op, Put(op, e, p1, m), p1, p2, v);
  }

  /** Joining one pair, or leaving it. */
  lemma PairMeaning(op: Op, e: Expr, p1: Path, p2: Path, v: Valuation)
    requires WellFormed(v)
    requires IsSlot(op, e, p1) && IsSlot(op, e, p2) && p1 != p2
    ensures Join(op, At(op, e, p1), At(op, e, p2)).Some? ==> Eval(JoinedPair(op, e, p1, p2), v) == Eval(e, v)
  {
    if Join(op, At(op, e, p1), At(op, e, p2)).Some? {
      PairJoined(op, e, p1, p2);
    }
  }

  /** What a count says: without a change nothing was to be done, and every change
      leaves a constant behind. */
  ghost predicate Counted(e: Expr, r: Expr, n: nat, settled: bool) {
    (n == 0 ==> r == e && settled) && (n > 0 ==> !Folded(r)) && (NotsFlat(e) ==> NotsFlat(r))
  }

  lemma CountedBoth(e: Expr, f: Expr, r: Expr, n: nat, m: nat, a: bool, b: bool)
    requires Counted(e, f, n, a) && Counted(f, r, m, b)
    ensures Counted(e, r, n + m, a && b)
  {
  }

  /** Without a change nothing was joinable; every change leaves a constant behind. */
  lemma {:induction false} JoinMembersCount(op: Op, e: Expr, p1: Path, p2: Path)
    requires Within(op, e, p1) && Within(op, e, p2)
    ensures var (r, n) := JoinMembers(op, e, p1, p2);
            Counted(e, r, n, Settled(op, e, p1, p2))
    decreases Size(e), ForksAt(op, e, p1) + ForksAt(op, e, p2), 2
  {
    if IsOp(op, At(op, e, p1)) {
      JoinFirstCount(op, e, p1, p2);
    } else if IsOp(op, At(op, e, p2)) {
      JoinSecondCount(op, e, p1, p2);
    } else if p1 != p2 {
      JoinPairCount(op, e, p1, p2);
    }
  }

  lemma {:induction false} JoinFirstCount(op: Op, e: Expr, p1: Path, p2: Path)
    requires Within(op, e, p1) && Within(op, e, p2) && IsOp(op, At(op, e, p1))
    ensures var (r, n) := JoinMembers(op, e, p1, p2);
            Counted(e, r, n, Settled(op, e, p1, p2))
    decreases Size(e), ForksAt(op, e, p1) + ForksAt(op, e, p2), 1
  {
    Descend(op, e, p1, false);
    Descend(op, e, p1, true);
    var (f, n) := JoinMembers(op, e, p1 + [false], p2);
    var (r, m) := JoinMembers(op, f, p1 + [true], p2);
    JoinMembersCount(op, e, p1 + [false], p2);
    JoinMembersCount(op, f, p1 + [true], p2);
    CountedBoth(e, f, r, n, m, Settled(op, e, p1 + [false], p2), Settled(op, f, p1 + [true], p2));
  }

  lemma {:induction false} JoinSecondCount(op: Op, e: Expr, p1: Path, p2: Path)
    requires Within(op, e, p1) && Within(op, e, p2)
    requires !IsOp(op, At(op, e, p1)) && IsOp(op, At(op, e, p2))
    ensures var (r, n) := JoinMembers(op, e, p1, p2);
            Counted(e, r, n, Settled(op, e, p1, p2))
    decreases Size(e), ForksAt(op, e, p1) + ForksAt(op, e, p2), 1
  {
    Descend(op, e, p2, false);
    Descend(op, e, p2, true);
    var (f, n) := JoinMembers(op, e, p1, p2 + [false]);
    var (r, m) := JoinMembers(op, f, p1, p2 + [true]);
    JoinMembersCount(op, e, p1, p2 + [false]);
    JoinMembersCount(op, f, p1, p2 + [true]);
    CountedBoth(e, f, r, n, m, Settled(op, e, p1, p2 + [false]), Settled(op, f, p1, p2 + [true]));
  }

  lemma {:induction false} JoinPairCount(op: Op, e: Expr, p1: Path, p2: Path)
    requires IsSlot(op, e, p1) && IsSlot(op, e, p2) && p1 != p2
    ensures var (r, n) := JoinPair(op, e, p1, p2);
            Counted(e, r, n, Settled(op, e, p1, p2))
    decreases Size(e), ForksAt(op, e, p1) + ForksAt(op, e, p2), 0
  {
    var e1 := At(op, e, p1);
    var (m, n) := if e1.Bin? then JoinMembers(e1.op, e1, [], []) else (e1, 0);
    if e1.Bin? {
      JoinMembersCount(e1.op, e1, [], []);
    }
    var g := Put(op, e, p1, m);
    OwnCounted(op, e, p1, m, n, e1.Bin? ==> Settled(e1.op, e1, [], []));
    if Join(op, At(op, g, p1), At(op, g, p2)).Some? {
      PairCounted(op, g, p1, p2);
    }
  }

  lemma OwnCounted(op: Op, e: Expr, p: Path, m: Expr, n: nat, settled: bool)
    requires IsSlot(op, e, p) && !IsOp(op, m) && Counted(At(op, e, p), m, n, settled)
    ensures ShapeOf(op, Put(op, e, p, m)) == ShapeOf(op, e)
    ensures Counted(e, Put(op, e, p, m), n, settled)
  {
    MemberRewritten(op, e, p, m);
    FlatAt(op, e, p);
    FlatPut(op, e, p, m);
  }

  lemma PairCounted(op: Op, e: Expr, p1: Path, p2: Path)
    requires IsSlot(op, e, p1) && IsSlot(op, e, p2) && p1 != p2
    requires Join(op, At(op, e, p1), At(op, e, p2)).Some?
    ensures Counted(e, JoinedPair(op, e, p1, p2), 1, true)
  {
    PairJoined(op, e, p1, p2);
    PairFlat(op, e, p1, p2);
  }

  lemma PairFlat(op: Op, e: Expr, p1: Path, p2: Path)
    requires IsSlot(op, e, p1) && IsSlot(op, e, p2) && p1 != p2
    requires Join(op, At(op, e, p1), At(op, e, p2)).Some?
    ensures NotsFlat(e) ==> NotsFlat(JoinedPair(op, e, p1, p2))
  {
    if NotsFlat(e) {
      FlatAt(op, e, p1);
      JoinFlat(op, At(op, e, p1), At(op, e, p2));
      FlatPut(op, e, p1, Sym(Neutral(op)));
      AtPut(op, e, p1, Sym(Neutral(op)), p2);
      FlatPut(op, Put(op, e, p1, Sym(Neutral(op))), p2, Join(op, At(op, e, p1), At(op, e, p2)).value);
    }
  }

  lemma JoinMembersKeep(op: Op, e: Expr, p1: Path, p2: Path)
    requires Within(op, e, p1) && Within(op, e, p2)
    ensures var (r, n) := JoinMembers(op, e, p1, p2);
            Equiv(e, r) && (n == 0 ==> r == e && Settled(op, e, p1, p2)) && (n > 0 ==> !Folded(r))
  {
    JoinMembersCount(op, e, p1, p2);
    forall v: Valuation | WellFormed(v) ensures Eval(e, v) == Eval(JoinMembers(op, e, p1, p2).0, v) {
      JoinMembersMeaning(op, e, p1, p2, v);
    }
  }

  /** expr_eliminate_dups1 with both pointers into the list `e`: the value is exactly
      the same, a count without change means that nothing joins any more, and a change
      leaves a constant behind. */
  method EliminateDups1(op: Op, e: Expr, p1: Path, p2: Path, count: nat) returns (r: Expr, c: nat)
    requires Within(op, e, p1) && Within(op, e, p2)
    ensures r == JoinMembers(op, e, p1, p2).0 && c == count + JoinMembers(op, e, p1, p2).1
    ensures Equiv(e, r)
    ensures c == count ==> r == e && Settled(op, e, p1, p2)
    ensures c > count ==> !Folded(r)
    decreases Size(e), ForksAt(op, e, p1) + ForksAt(op, e, p2), 2
  {
    r, c := e, count;
    if IsOp(op, At(op, e, p1)) {
      Descend(op, e, p1, false);
      Descend(op, e, p1, true);
      r, c := EliminateDups1(op, e, p1 + [false], p2, count);
      r, c := EliminateDups1(op, r, p1 + [true], p2, c);
    } else if IsOp(op, At(op, e, p2)) {
      Descend(op, e, p2, false);
      Descend(op, e, p2, true);
      r, c := EliminateDups1(op, e, p1, p2 + [false], count);
      r, c := EliminateDups1(op, r, p1, p2 + [true], c);
    } else if p1 != p2 {
      r, c := JoinTwo(op, e, p1, p2, count);
    }
    JoinMembersKeep(op, e, p1, p2);
  }

  /** Its second half, for two members. */
  method JoinTwo(op: Op, e: Expr, p1: Path, p2: Path, count: nat) returns (r: Expr, c: nat)
    requires IsSlot(op, e, p1) && IsSlot(op, e, p2) && p1 != p2
    ensures r == JoinPair(op, e, p1, p2).0 && c == count + JoinPair(op, e, p1, p2).1
    decreases Size(e), ForksAt(op, e, p1) + ForksAt(op, e, p2), 1
  {
    r, c := JoinOwn(op, e, p1, count);
    var t := Join(op, At(op, r, p1), At(op, r, p2));
    if t.Some? {
      AtPut(op, r, p1, Sym(Neutral(op)), p2);
      r := Put(op, Put(op, r, p1, Sym(Neutral(op))), p2, t.value);
      c := c + 1;
    }
  }

  /** The first member's own list. */
  method JoinOwn(op: Op, e: Expr, p1: Path, count: nat) returns (r: Expr, c: nat)
    requires IsSlot(op, e, p1) && p1 != []
    ensures ShapeOf(op, r) == ShapeOf(op, e)
    ensures var e1 := At(op, e, p1); var (m, n) := if e1.Bin? then JoinMembers(e1.op, e1, [], []) else (e1, 0);
            r == Put(op, e, p1, m) && c == count + n
    decreases Size(e), 0, 0
  {
    r, c := e, count;
    var e1 := At(op, e, p1);
    MemberRewritten(op, e, p1, e1);
    if e1.Bin? {
      var m;
      m, c := EliminateDups1(e1.op, e1, [], [], count);
      MemberRewritten(op, e, p1, m);
      r := Put(op, e, p1, m);
    }
  }

  // ----- expr_eliminate_dups2 -----

  /** The complement of the member at `p1` is contained in the list at `p2`. */
  predicate Complemented(op: Op, e: Expr, p1: Path, p2: Path)
    requires Within(op, e, p1) && Within(op, e, p2)
  {
    Extract(op, Transform(Not(At(op, e, p1))), At(op, e, p2)).1 == Sym(Neutral(op))
  }

  /** After descending into the second list the source goes on with its root as the
      second operand, so `p2` may stay at an inner node, even one above `p1`. */
  function StrikeMembers(op: Op, e: Expr, p1: Path, p2: Path): (r: (Expr, nat))
    requires Within(op, e, p1) && Within(op, e, p2)
    ensures ShapeOf(op, r.0) == ShapeOf(op, e) && Size(r.0) <= Size(e)
    decreases Size(e), ForksAt(op, e, p1) + ForksAt(op, e, p2), 1
  {
    if IsOp(op, At(op, e, p1)) then
      Descend(op, e, p1, false);
      Descend(op, e, p1, true);
      var (h, n) := StrikeMembers(op, e, p1 + [false], p2);
      var (r, m) := StrikeMembers(op, h, p1 + [true], p2);
      (r, n + m)
    else if IsOp(op, At(op, e, p2)) then
      Descend(op, e, p2, false);
      Descend(op, e, p2, true);
      var (f, n) := StrikeMembers(op, e, p1, p2 + [false]);
      var (h, m) := StrikeMembers(op, f, p1, p2 + [true]);
      var (r, k) := StrikeMember(op, h, p1, p2);
      (r, n + m + k)
    else if p1 == p2 then (e, 0)
    else StrikeMember(op, e, p1, p2)
  }

  /** One member: its own list, then its complement. */
  function StrikeMember(op: Op, e: Expr, p1: Path, p2: Path): (r: (Expr, nat))
    requires IsSlot(op, e, p1) && Within(op, e, p2) && p1 != p2
    ensures ShapeOf(op, r.0) == ShapeOf(op, e) && Size(r.0) <= Size(e)
    decreases Size(e), ForksAt(op, e, p1) + ForksAt(op, e, p2), 0
  {
    var e1 := At(op, e, p1);
    if !e1.Bin? then (e, 0) else
    var (m, n) := StrikeMembers(e1.op, e1, [], []);
    MemberRewritten(op, e, p1, m);
    var g := Put(op, e, p1, m);
    if !Complemented(op, g, p1, p2) then (g, n) else
    MemberRewritten(op, g, p1, Sym(Absorbing(op)));
    (Put(op, g, p1, Sym(Absorbing(op))), n + 1)
  }

  /** Where the complement of the member is a list of basic members, it is found in the
      other list exactly if all of them are there, as often. */
  lemma ComplementedIff(op: Op, e: Expr, p1: Path, p2: Path)
    requires Within(op, e, p1) && Within(op, e, p2) && PlainList(op, Transform(Not(At(op, e, p1))))
    ensures Complemented(op, e, p1, p2)
       <==> Bag(op, Transform(Not(At(op, e, p1))), {}) <= Bag(op, At(op, e, p2), {})
  {
    ExtractsAllIff(op, Transform(Not(At(op, e, p1))), At(op, e, p2));
  }

  /** A member bounds the list from the absorbing side. */
  lemma MemberAbsorbed(op: Op, e: Expr, p: Path, v: Valuation)
    requires WellFormed(v)
    requires Within(op, e, p)
    ensures Apply(op, Eval(At(op, e, p), v), Eval(e, v)) == Eval(e, v)
  {
    SplitAt(op, e, p, v);
    var a, b := Eval(At(op, e, p), v), Rest(op, e, p, v);
    ApplyAssociative(op, a, a, b);
  }

  /** If the complement of the member at `p1` is contained in the list at `p2`,
      the whole list is the absorbing value or m, so it may be made absorbing. */
  lemma ComplementFound(op: Op, e: Expr, p1: Path, p2: Path, v: Valuation)
    requires WellFormed(v)
    requires IsSlot(op, e, p1) && Within(op, e, p2)
    requires Complemented(op, e, p1, p2)
    ensures Sharpens(Eval(e, v), Eval(Put(op, e, p1, Sym(Absorbing(op))), v))
  {
    var e1, e2 := At(op, e, p1), At(op, e, p2);
    TransformMeaning(Not(e1), v);
    ExtractFactors(op, Transform(Not(e1)), e2, v);
    MemberAbsorbed(op, e, p1, v);
    MemberAbsorbed(op, e, p2, v);
    SplitPut(op, e, p1, Sym(Absorbing(op)), v);
    assert Apply(op, Eval(e1, v), Eval(e, v)) == Eval(e, v);
    assert Apply(op, Eval(e2, v), Eval(e, v)) == Eval(e, v);
    assert Eval(Not(e1), v) == Complement(Eval(e1, v));
    assert Apply(op, Complement(Eval(e1, v)), Eval(e2, v)) == Eval(e2, v);
  }

  /** The rules for complements keep every y and every n, and only sharpen m. */
  lemma {:induction false} StrikeMembersMeaning(op: Op, e: Expr, p1: Path, p2: Path, v: Valuation)
    requires WellFormed(v)
    requires Within(op, e, p1) && Within(op, e, p2)
    ensures Sharpens(Eval(e, v), Eval(StrikeMembers(op, e, p1, p2).0, v))
    decreases Size(e), ForksAt(op, e, p1) + ForksAt(op, e, p2), 1
  {
    if IsOp(op, At(op, e, p1)) {
      Descend(op, e, p1, false);
      Descend(op, e, p1, true);
      StrikeMembersMeaning(op, e, p1 + [false], p2, v);
      StrikeMembersMeaning(op, StrikeMembers(op, e, p1 + [false], p2).0, p1 + [true], p2, v);
    } else if IsOp(op, At(op, e, p2)) {
      Descend(op, e, p2, false);
      Descend(op, e, p2, true);
      var f := StrikeMembers(op, e, p1, p2 + [false]).0;
      StrikeMembersMeaning(op, e, p1, p2 + [false], v);
      StrikeMembersMeaning(op, f, p1, p2 + [true], v);
      StrikeMemberMeaning(op, StrikeMembers(op, f, p1, p2 + [true]).0, p1, p2, v);
    } else if p1 != p2 {
      StrikeMemberMeaning(op, e, p1, p2, v);
    }
  }

  lemma {:induction false} StrikeMemberMeaning(op: Op, e: Expr, p1: Path, p2: Path, v: Valuation)
    requires WellFormed(v)
    requires IsSlot(op, e, p1) && Within(op, e, p2) && p1 != p2
    ensures Sharpens(Eval(e, v), Eval(StrikeMember(op, e, p1, p2).0, v))
    decreases Size(e), ForksAt(op, e, p1) + ForksAt(op, e, p2), 0
  {
    var e1 := At(op, e, p1);
    if e1.Bin? {
      var m := StrikeMembers(e1.op, e1, [], []).0;
      StrikeMembersMeaning(e1.op, e1, [], [], v);
      MemberRewritten(op, e, p1, m);
      MemberValue(op, e, p1, m, v);
      var g := Put(op, e, p1, m);
      if Complemented(op, g, p1, p2) {
        ComplementFound(op, g, p1, p2, v);
      }
    }
  }

  /** No member below `p1` that is a list has its complement in a part of the list
      below `p2`, and the same holds within these members. */
  ghost predicate Uncomplemented(op: Op, e: Expr, p1: Path, p2: Path)
    requires Within(op, e, p1) && Within(op, e, p2)
    decreases Size(e), ForksAt(op, e, p1) + ForksAt(op, e, p2)
  {
    if IsOp(op, At(op, e, p1)) then
      Descend(op, e, p1, false);
      Descend(op, e, p1, true);
      Uncomplemented(op, e, p1 + [false], p2) && Uncomplemented(op, e, p1 + [true], p2)
    else
      && (if !IsOp(op, At(op, e, p2)) then true else
            Descend(op, e, p2, false);
            Descend(op, e, p2, true);
            Uncomplemented(op, e, p1, p2 + [false]) && Uncomplemented(op, e, p1, p2 + [true]))
      && var m := At(op, e, p1);
         (p1 != p2 && m.Bin? ==> !Complemented(op, e, p1, p2) && Uncomplemented(m.op, m, [], []))
  }

  /** Without a change there is no complement; every change leaves a constant behind. */
  lemma {:induction false} StrikeMembersCount(op: Op, e: Expr, p1: Path, p2: Path)
    requires Within(op, e, p1) && Within(op, e, p2)
    ensures var (r, n) := StrikeMembers(op, e, p1, p2);
            Counted(e, r, n, Uncomplemented(op, e, p1, p2))
    decreases Size(e), ForksAt(op, e, p1) + ForksAt(op, e, p2), 2
  {
    if IsOp(op, At(op, e, p1)) {
      StrikeFirstCount(op, e, p1, p2);
    } else if IsOp(op, At(op, e, p2)) {
      StrikeSecondCount(op, e, p1, p2);
    } else if p1 != p2 {
      StrikeMemberCount(op, e, p1, p2);
    }
  }

  lemma {:induction false} StrikeFirstCount(op: Op, e: Expr, p1: Path, p2: Path)
    requires Within(op, e, p1) && Within(op, e, p2) && IsOp(op, At(op, e, p1))
    ensures var (r, n) := StrikeMembers(op, e, p1, p2);
            Counted(e, r, n, Uncomplemented(op, e, p1, p2))
    decreases Size(e), ForksAt(op, e, p1) + ForksAt(op, e, p2), 1
  {
    Descend(op, e, p1, false);
    Descend(op, e, p1, true);
    var (f, n) := StrikeMembers(op, e, p1 + [false], p2);
    var (r, m) := StrikeMembers(op, f, p1 + [true], p2);
    StrikeMembersCount(op, e, p1 + [false], p2);
    StrikeMembersCount(op, f, p1 + [true], p2);
    CountedBoth(e, f, r, n, m, Uncomplemented(op, e, p1 + [false], p2), Uncomplemented(op, f, p1 + [true], p2));
  }

  lemma {:induction false} StrikeSecondCount(op: Op, e: Expr, p1: Path, p2: Path)
    requires Within(op, e, p1) && Within(op, e, p2)
    requires !IsOp(op, At(op, e, p1)) && IsOp(op, At(op, e, p2))
    ensures var (r, n) := StrikeMembers(op, e, p1, p2);
            Counted(e, r, n, Uncomplemented(op, e, p1, p2))
    decreases Size(e), ForksAt(op, e, p1) + ForksAt(op, e, p2), 1
  {
    Descend(op, e, p2, false);
    Descend(op, e, p2, true);
    var (f, n) := StrikeMembers(op, e, p1, p2 + [false]);
    var (h, m) := StrikeMembers(op, f, p1, p2 + [true]);
    StrikeMembersCount(op, e, p1, p2 + [false]);
    StrikeMembersCount(op, f, p1, p2 + [true]);
    CountedBoth(e, f, h, n, m, Uncomplemented(op, e, p1, p2 + [false]), Uncomplemented(op, f, p1, p2 + [true]));
    StrikeMemberCount(op, h, p1, p2);
  }

  lemma {:induction false} StrikeMemberCount(op: Op, e: Expr, p1: Path, p2: Path)
    requires IsSlot(op, e, p1) && Within(op, e, p2) && p1 != p2
    ensures var (r, n) := StrikeMember(op, e, p1, p2); var m := At(op, e, p1);
            Counted(e, r, n, m.Bin? ==> !Complemented(op, e, p1, p2) && Uncomplemented(m.op, m, [], []))
    decreases Size(e), ForksAt(op, e, p1) + ForksAt(op, e, p2), 0
  {
    var e1 := At(op, e, p1);
    if e1.Bin? {
      var m := StrikeMembers(e1.op, e1, [], []).0;
      StrikeMembersCount(e1.op, e1, [], []);
      MemberRewritten(op, e, p1, m);
      FlatAt(op, e, p1);
      FlatPut(op, e, p1, m);
      var g := Put(op, e, p1, m);
      MemberRewritten(op, g, p1, Sym(Absorbing(op)));
      FlatPut(op, g, p1, Sym(Absorbing(op)));
    }
  }

  lemma StrikeMembersKeep(op: Op, e: Expr, p1: Path, p2: Path)
    requires Within(op, e, p1) && Within(op, e, p2)
    ensures var (r, n) := StrikeMembers(op, e, p1, p2);
            EquivSharper(e, r) && (n == 0 ==> r == e && Uncomplemented(op, e, p1, p2)) && (n > 0 ==> !Folded(r))
  {
    StrikeMembersCount(op, e, p1, p2);
    forall v: Valuation | WellFormed(v) ensures Sharpens(Eval(e, v), Eval(StrikeMembers(op, e, p1, p2).0, v)) {
      StrikeMembersMeaning(op, e, p1, p2, v);
    }
  }

  /** expr_eliminate_dups2 with both pointers into the list `e`: every y and n is kept
      and only an m may become definite, a count without change means that there is no
      complement, and a change leaves a constant behind. */
  method EliminateDups2(op: Op, e: Expr, p1: Path, p2: Path, count: nat) returns (r: Expr, c: nat)
    requires Within(op, e, p1) && Within(op, e, p2)
    ensures r == StrikeMembers(op, e, p1, p2).0 && c == count + StrikeMembers(op, e, p1, p2).1
    ensures EquivSharper(e, r)
    ensures c == count ==> r == e && Uncomplemented(op, e, p1, p2)
    ensures c > count ==> !Folded(r)
    decreases Size(e), ForksAt(op, e, p1) + ForksAt(op, e, p2), 1
  {
    r, c := e, count;
    if IsOp(op, At(op, e, p1)) {
      Descend(op, e, p1, false);
      Descend(op, e, p1, true);
      r, c := EliminateDups2(op, e, p1 + [false], p2, count);
      r, c := EliminateDups2(op, r, p1 + [true], p2, c);
    } else {
      if IsOp(op, At(op, e, p2)) {
        Descend(op, e, p2, false);
        Descend(op, e, p2, true);
        r, c := EliminateDups2(op, e, p1, p2 + [false], count);
        r, c := EliminateDups2(op, r, p1, p2 + [true], c);
      }
      if p1 != p2 {
        r, c := StrikeOne(op, r, p1, p2, c);
      }
    }
    assert r == StrikeMembers(op, e, p1, p2).0 && c == count + StrikeMembers(op, e, p1, p2).1;
    StrikeMembersKeep(op, e, p1, p2);
  }

  /** Its second half, for one member. */
  method StrikeOne(op: Op, e: Expr, p1: Path, p2: Path, count: nat) returns (r: Expr, c: nat)
    requires IsSlot(op, e, p1) && Within(op, e, p2) && p1 != p2
    ensures r == StrikeMember(op, e, p1, p2).0 && c == count + StrikeMember(op, e, p1, p2).1
    decreases Size(e), ForksAt(op, e, p1) + ForksAt(op, e, p2), 0
  {
    r, c := e, count;
    var e1 := At(op, r, p1);
    if e1.Bin? {
      var m;
      m, c := EliminateDups2(e1.op, e1, [], [], c);
      MemberRewritten(op, r, p1, m);
      r := Put(op, r, p1, m);
      var tmp := Extract(op, Transform(Not(At(op, r, p1))), At(op, r, p2));
      if tmp.1 == Sym(Neutral(op)) {
        r, c := Put(op, r, p1, Sym(Absorbing(op))), c + 1;
      }
    }
  }

  // ----- what is left at the end -----

  /** No two different members of the list are equal in the sense of expr_eq or
      superfluous together: no boolean beside its negation, and so on. */
  ghost predicate Irredundant(op: Op, e: Expr) {
    forall p: Path, q: Path | IsSlot(op, e, p) && IsSlot(op, e, q) && p != q ::
      && !ExprEq(At(op, e, p), At(op, e, q))
      && !Superfluous(op, At(op, e, p), At(op, e, q))
  }

  lemma {:induction false} SettledMembers(op: Op, e: Expr, p1: Path, p2: Path, a: Path, b: Path)
    requires Within(op, e, p1) && Within(op, e, p2)
    requires Settled(op, e, p1, p2)
    requires p1 <= a && p2 <= b && a != b
    requires IsSlot(op, e, a) && IsSlot(op, e, b)
    ensures Join(op, At(op, e, a), At(op, e, b)).None?
    ensures At(op, e, a).Bin? ==> Settled(At(op, e, a).op, At(op, e, a), [], [])
    decreases ForksAt(op, e, p1) + ForksAt(op, e, p2)
  {
    if IsOp(op, At(op, e, p1)) {
      assert a != p1 by { assert ShapeOf(op, At(op, e, p1)).Fork?; }
      var side := a[|p1|];
      Descend(op, e, p1, side);
      assert Settled(op, e, p1 + [side], p2) by { assert side || !side; }
      SettledMembers(op, e, p1 + [side], p2, a, b);
    } else if IsOp(op, At(op, e, p2)) {
      assert b != p2 by { assert ShapeOf(op, At(op, e, p2)).Fork?; }
      var side := b[|p2|];
      Descend(op, e, p2, side);
      assert Settled(op, e, p1, p2 + [side]) by { assert side || !side; }
      SettledMembers(op, e, p1, p2 + [side], a, b);
    } else {
      SlotIsDeepest(op, e, p1, a);
      SlotIsDeepest(op, e, p2, b);
    }
  }

  lemma {:induction false} SlotIsDeepest(op: Op, e: Expr, p: Path, a: Path)
    requires IsSlot(op, e, p) && Within(op, e, a) && p <= a
    ensures a == p
  {
    if p != [] {
      SlotIsDeepest(op, if p[0] then e.right else e.left, p[1..], a[1..]);
    }
  }

  /** No member that is a list has its complement in another part of the list. */
  ghost predicate WithoutComplements(op: Op, e: Expr) {
    forall p: Path, q: Path | IsSlot(op, e, p) && Within(op, e, q) && p != q && At(op, e, p).Bin? ::
      !Complemented(op, e, p, q)
  }

  lemma {:induction false} UncomplementedMember(op: Op, e: Expr, a: Path, p2: Path, b: Path)
    requires IsSlot(op, e, a) && Within(op, e, p2) && Within(op, e, b)
    requires Uncomplemented(op, e, a, p2)
    requires p2 <= b && a != b && At(op, e, a).Bin?
    ensures !Complemented(op, e, a, b) && Uncomplemented(At(op, e, a).op, At(op, e, a), [], [])
    decreases ForksAt(op, e, p2)
  {
    if b != p2 {
      if !IsOp(op, At(op, e, p2)) {
        SlotIsDeepest(op, e, p2, b);
      }
      var side := b[|p2|];
      Descend(op, e, p2, side);
      assert Uncomplemented(op, e, a, p2 + [side]) by { assert side || !side; }
      UncomplementedMember(op, e, a, p2 + [side], b);
    }
  }

  lemma {:induction false} UncomplementedMembers(op: Op, e: Expr, p1: Path, p2: Path, a: Path, b: Path)
    requires Within(op, e, p1) && Within(op, e, p2)
    requires Uncomplemented(op, e, p1, p2)
    requires p1 <= a && p2 <= b && a != b
    requires IsSlot(op, e, a) && Within(op, e, b) && At(op, e, a).Bin?
    ensures !Complemented(op, e, a, b) && Uncomplemented(At(op, e, a).op, At(op, e, a), [], [])
    decreases ForksAt(op, e, p1)
  {
    if IsOp(op, At(op, e, p1)) {
      assert a != p1 by { assert ShapeOf(op, At(op, e, p1)).Fork?; }
      var side := a[|p1|];
      Descend(op, e, p1, side);
      assert Uncomplemented(op, e, p1 + [side], p2) by { assert side || !side; }
      UncomplementedMembers(op, e, p1 + [side], p2, a, b);
    } else {
      SlotIsDeepest(op, e, p1, a);
      UncomplementedMember(op, e, a, p2, b);
    }
  }

  lemma UncomplementedAll(op: Op, e: Expr)
    requires Uncomplemented(op, e, [], [])
    ensures WithoutComplements(op, e)
  {
    forall p: Path, q: Path | IsSlot(op, e, p) && Within(op, e, q) && p != q && At(op, e, p).Bin?
      ensures !Complemented(op, e, p, q)
    {
      UncomplementedMembers(op, e, [], [], p, q);
    }
  }

  /** So no part of the list holds all members of the complement of another member. */
  lemma NoComplementWithin(op: Op, e: Expr, p: Path, q: Path)
    requires WithoutComplements(op, e) && IsSlot(op, e, p) && Within(op, e, q) && p != q && At(op, e, p).Bin?
    requires PlainList(op, Transform(Not(At(op, e, p))))
    ensures !(Bag(op, Transform(Not(At(op, e, p))), {}) <= Bag(op, At(op, e, q), {}))
  {
    ComplementedIff(op, e, p, q);
  }

  lemma SettledIrredundant(op: Op, e: Expr)
    requires Settled(op, e, [], [])
    ensures Irredundant(op, e)
  {
    forall p: Path, q: Path | IsSlot(op, e, p) && IsSlot(op, e, q) && p != q
      ensures !ExprEq(At(op, e, p), At(op, e, q)) && !Superfluous(op, At(op, e, p), At(op, e, q))
    {
      SettledMembers(op, e, [], [], p, q);
      JoinIff(op, At(op, e, p), At(op, e, q));
    }
  }

  // ----- the lists within the list -----

  /** No rule applies, neither to the list nor to the lists that are its members, and so
      on down to the bottom. */
  ghost predicate Tidy(e: Expr)
    decreases Size(e)
  {
    e.Bin? ==>
      && Irredundant(e.op, e) && WithoutComplements(e.op, e)
      && forall p: Path | IsSlot(e.op, e, p) && p != [] :: Tidy(At(e.op, e, p))
  }

  lemma {:induction false} FirstSlot(op: Op, e: Expr) returns (p: Path)
    ensures IsSlot(op, e, p)
  {
    if IsOp(op, e) {
      var q := FirstSlot(op, e.left);
      p := [false] + q;
      assert p[1..] == q;
    } else {
      p := [];
    }
  }

  lemma OtherSlot(op: Op, e: Expr, p: Path) returns (q: Path)
    requires IsOp(op, e) && IsSlot(op, e, p)
    ensures IsSlot(op, e, q) && q != p
  {
    var r := FirstSlot(op, if p[0] then e.left else e.right);
    q := [!p[0]] + r;
    assert q[1..] == r && q[0] != p[0];
  }

  lemma {:induction false} SettledTidy(e: Expr)
    requires e.Bin? ==> Settled(e.op, e, [], []) && Uncomplemented(e.op, e, [], [])
    ensures Tidy(e)
    decreases Size(e)
  {
    if e.Bin? {
      SettledIrredundant(e.op, e);
      UncomplementedAll(e.op, e);
      forall p: Path | IsSlot(e.op, e, p) && p != [] ensures Tidy(At(e.op, e, p)) {
        if At(e.op, e, p).Bin? {
          var q := OtherSlot(e.op, e, p);
          SettledMembers(e.op, e, [], [], p, q);
          UncomplementedMembers(e.op, e, [], [], p, q);
        }
        SettledTidy(At(e.op, e, p));
      }
    }
  }

  // ----- expr_eliminate_dups -----

  /** The result of all rounds.  Each round that changes something leaves a constant
      behind, which expr_eliminate_yn then removes: that is why the loop ends. */
  function WithoutDups(e: Expr): (r: Expr)
    ensures Size(r) <= Size(e)
    decreases Size(e)
  {
    if !e.Bin? then e else
    var (h, n) := JoinMembers(e.op, e, [], []);
    var (g, m) := StrikeMembers(e.op, h, [], []);
    if n + m == 0 then e else
    JoinMembersCount(e.op, e, [], []);
    StrikeMembersCount(e.op, h, [], []);
    EliminateYNFolds(g);
    WithoutDups(EliminateYN(g))
  }

  /** Every definite value is kept. */
  lemma {:induction false} WithoutDupsMeaning(e: Expr, v: Valuation)
    requires WellFormed(v)
    ensures Sharpens(Eval(e, v), Eval(WithoutDups(e), v))
    decreases Size(e)
  {
    if e.Bin? {
      var (h, n) := JoinMembers(e.op, e, [], []);
      var (g, m) := StrikeMembers(e.op, h, [], []);
      if n + m > 0 {
        JoinMembersMeaning(e.op, e, [], [], v);
        StrikeMembersMeaning(e.op, h, [], [], v);
        JoinMembersCount(e.op, e, [], []);
        StrikeMembersCount(e.op, h, [], []);
        EliminateYNFolds(g);
        EliminateYNMeaning(g, v);
        WithoutDupsMeaning(EliminateYN(g), v);
      }
    }
  }

  /** At the end no rule applies any more. */
  lemma {:induction false} WithoutDupsIrredundant(e: Expr)
    ensures Tidy(WithoutDups(e)) && (NotsFlat(e) ==> NotsFlat(WithoutDups(e)))
    decreases Size(e)
  {
    if e.Bin? {
      var (h, n) := JoinMembers(e.op, e, [], []);
      var (g, m) := StrikeMembers(e.op, h, [], []);
      JoinMembersCount(e.op, e, [], []);
      StrikeMembersCount(e.op, h, [], []);
      if n + m == 0 {
        SettledTidy(e);
      } else {
        EliminateYNFolds(g);
        FlatYN(g);
        WithoutDupsIrredundant(EliminateYN(g));
      }
    }
  }

  /** So a second simplification changes nothing. */
  lemma {:induction false} WithoutDupsIdempotent(e: Expr)
    ensures WithoutDups(WithoutDups(e)) == WithoutDups(e)
    decreases Size(e)
  {
    if e.Bin? {
      var (h, n) := JoinMembers(e.op, e, [], []);
      var (g, m) := StrikeMembers(e.op, h, [], []);
      if n + m > 0 {
        JoinMembersCount(e.op, e, [], []);
        StrikeMembersCount(e.op, h, [], []);
        EliminateYNFolds(g);
        WithoutDupsIdempotent(EliminateYN(g));
      }
    }
  }

  /** expr_eliminate_dups. */
  method EliminateDups(e: Expr) returns (r: Expr)
    ensures r == WithoutDups(e)
    ensures EquivSharper(e, r)
    ensures Tidy(r)
  {
    r := e;
    while true
      invariant WithoutDups(r) == WithoutDups(e)
      decreases Size(r)
    {
      var count := 0;
      ghost var r0 := r;
      if r.Bin? {
        var op := r.op;
        var h;
        h, count := EliminateDups1(op, r, [], [], 0);
        r, count := EliminateDups2(op, h, [], [], count);
      }
      if count == 0 {
        break;
      }
      EliminateYNFolds(r);
      r := EliminateYN(r);
    }
    forall v: Valuation | WellFormed(v) ensures Sharpens(Eval(e, v), Eval(r, v)) {
      WithoutDupsMeaning(e, v);
    }
    WithoutDupsIrredundant(e);
  }

  function WithoutDupsPtr(e: ExprPtr): ExprPtr {
    if e.None? then None else Some(WithoutDups(e.value))
  }

  lemma WithoutDupsPtrMeaning(e: ExprPtr, v: Valuation)
    requires WellFormed(v)
    ensures Sharpens(EvalPtr(e, v), EvalPtr(WithoutDupsPtr(e), v))
  {
    if e.Some? {
      WithoutDupsMeaning(e.value, v);
    }
  }

  // ----- a list of two members -----

  /** Where the two members are. */
  lemma TwoPlaces(op: Op, e: Expr)
    requires IsOp(op, e) && !IsOp(op, e.left) && !IsOp(op, e.right)
    ensures IsSlot(op, e, [] + [false]) && At(op, e, [] + [false]) == e.left
    ensures IsSlot(op, e, [] + [true]) && At(op, e, [] + [true]) == e.right
  {
    Descend(op, e, [], false);
    Descend(op, e, [], true);
  }

  /** Neither rule applies within the member. */
  predicate Plain(m: Expr) {
    m.Bin? ==> JoinMembers(m.op, m, [], []) == (m, 0) && StrikeMembers(m.op, m, [], []) == (m, 0)
  }

  lemma JoinSlotsKept(op: Op, e: Expr, p: Path, q: Path)
    requires IsSlot(op, e, p) && IsSlot(op, e, q) && Plain(At(op, e, p))
    requires p != q ==> Join(op, At(op, e, p), At(op, e, q)).None?
    ensures JoinMembers(op, e, p, q) == (e, 0)
  {
    PutSame(op, e, p);
  }

  lemma JoinTwoKept(op: Op, e: Expr)
    requires IsOp(op, e) && !IsOp(op, e.left) && !IsOp(op, e.right) && Plain(e.left) && Plain(e.right)
    requires Join(op, e.left, e.right).None? && Join(op, e.right, e.left).None?
    ensures JoinMembers(op, e, [], []) == (e, 0)
  {
    var l, r := [] + [false], [] + [true];
    TwoPlaces(op, e);
    JoinSlotsKept(op, e, l, l);
    JoinSlotsKept(op, e, l, r);
    JoinSlotsKept(op, e, r, l);
    JoinSlotsKept(op, e, r, r);
    assert JoinMembers(op, e, l, []) == (e, 0);
    assert JoinMembers(op, e, r, []) == (e, 0);
  }

  /** The complement of a member that is a list is not in the other expression. */
  predicate NoComplement(op: Op, m: Expr, other: Expr) {
    m.Bin? ==> Extract(op, Transform(Not(m)), other).1 != Sym(Neutral(op))
  }

  lemma StrikeSlotKept(op: Op, e: Expr, p: Path, q: Path)
    requires IsSlot(op, e, p) && Within(op, e, q) && Plain(At(op, e, p)) && p != q
    requires NoComplement(op, At(op, e, p), At(op, e, q))
    ensures StrikeMember(op, e, p, q) == (e, 0)
  {
    PutSame(op, e, p);
  }

  lemma StrikeTwoKept(op: Op, e: Expr)
    requires IsOp(op, e) && !IsOp(op, e.left) && !IsOp(op, e.right) && Plain(e.left) && Plain(e.right)
    requires NoComplement(op, e.left, e.right) && NoComplement(op, e.right, e.left)
    requires NoComplement(op, e.left, e) && NoComplement(op, e.right, e)
    ensures StrikeMembers(op, e, [], []) == (e, 0)
  {
    var l, r := [] + [false], [] + [true];
    TwoPlaces(op, e);
    StrikeSlotKept(op, e, l, r);
    StrikeSlotKept(op, e, l, []);
    StrikeSlotKept(op, e, r, l);
    StrikeSlotKept(op, e, r, []);
    assert StrikeMembers(op, e, l, []) == (e, 0);
    assert StrikeMembers(op, e, r, []) == (e, 0);
  }

  /** Two members that neither rule applies to stay. */
  lemma TwoKept(op: Op, e: Expr)
    requires IsOp(op, e) && !IsOp(op, e.left) && !IsOp(op, e.right) && Plain(e.left) && Plain(e.right)
    requires Join(op, e.left, e.right).None? && Join(op, e.right, e.left).None?
    requires NoComplement(op, e.left, e.right) && NoComplement(op, e.right, e.left)
    requires NoComplement(op, e.left, e) && NoComplement(op, e.right, e)
    ensures Plain(e) && WithoutDups(e) == e
  {
    JoinTwoKept(op, e);
    StrikeTwoKept(op, e);
  }

  lemma PutMember(op: Op, e: Expr, x: Expr)
    requires IsOp(op, e) && !IsOp(op, e.left) && !IsOp(op, e.right)
    ensures Put(op, e, [] + [false], x) == Bin(op, x, e.right)
    ensures Put(op, e, [] + [true], x) == Bin(op, e.left, x)
  {
    assert ([] + [false])[1..] == [] && ([] + [true])[1..] == [];
  }

  lemma PairOfTwo(op: Op, e: Expr, t: Expr)
    requires IsOp(op, e) && !e.left.Bin? && !e.right.Bin? && Join(op, e.left, e.right) == Some(t)
    ensures IsSlot(op, e, [] + [false]) && IsSlot(op, e, [] + [true])
    ensures JoinPair(op, e, [] + [false], [] + [true]) == (Bin(op, Sym(Neutral(op)), t), 1)
  {
    var l, r := [] + [false], [] + [true];
    TwoPlaces(op, e);
    PutSame(op, e, l);
    PutMember(op, e, Sym(Neutral(op)));
    PutMember(op, Bin(op, Sym(Neutral(op)), e.right), t);
    assert JoinedPair(op, e, l, r) == Bin(op, Sym(Neutral(op)), t);
  }

  /** Two members that are joined: the join remains, unless it joins in turn. */
  lemma TwoJoined(op: Op, e: Expr, t: Expr)
    requires IsOp(op, e) && !e.left.Bin? && !e.right.Bin? && !t.Bin?
    requires Join(op, e.left, e.right) == Some(t) && Join(op, t, Sym(Neutral(op))).None?
    ensures WithoutDups(e) == t
  {
    var joined := Bin(op, Sym(Neutral(op)), t);
    JoinTwoOnce(op, e, t);
    StrikeTwoKept(op, joined);
    assert EliminateYN(joined) == t;
  }

  lemma JoinTwoOnce(op: Op, e: Expr, t: Expr)
    requires IsOp(op, e) && !e.left.Bin? && !e.right.Bin? && !t.Bin?
    requires Join(op, e.left, e.right) == Some(t) && Join(op, t, Sym(Neutral(op))).None?
    ensures JoinMembers(op, e, [], []) == (Bin(op, Sym(Neutral(op)), t), 1)
  {
    var l, r := [] + [false], [] + [true];
    var joined := Bin(op, Sym(Neutral(op)), t);
    TwoPlaces(op, e);
    TwoPlaces(op, joined);
    JoinSlotsKept(op, e, l, l);
    PairOfTwo(op, e, t);
    JoinSlotsKept(op, joined, r, l);
    JoinSlotsKept(op, joined, r, r);
    assert JoinMembers(op, e, l, r) == (joined, 1);
    assert JoinMembers(op, e, l, []) == (joined, 1);
    assert JoinMembers(op, joined, r, []) == (joined, 0);
  }

  /** A boolean or its negation is y, in either order. */
  lemma OppositeIsYes(a: Symbol)
    requires a.Type() == Boolean
    ensures WithoutDups(Bin(OrOp, Sym(a), Not(Sym(a)))) == YES_EXPR
    ensures WithoutDups(Bin(OrOp, Not(Sym(a)), Sym(a))) == YES_EXPR
  {
    TwoJoined(OrOp, Bin(OrOp, Sym(a), Not(Sym(a))), YES_EXPR);
    TwoJoined(OrOp, Bin(OrOp, Not(Sym(a)), Sym(a)), YES_EXPR);
  }

  method EliminateDupsPtr(e: ExprPtr) returns (r: ExprPtr)
    ensures r == WithoutDupsPtr(e)
  {
    if e.None? {
      return None;
    }
    var x := EliminateDups(e.value);
    r := Some(x);
  }

  /** Without the constant m a two-valued valuation gives only definite values,
      so under it the simplification is exact. */
  lemma {:induction false} TwoValuedDefinite(e: Expr, v: Valuation)
    requires WellFormed(v) && TwoValued(v)
    requires !ContainsSymbol(e, ConstMod)
    ensures Eval(e, v) != MOD
  {
    match e
    case Not(a) => TwoValuedDefinite(a, v);
    case Bin(_, l, r) =>
      TwoValuedDefinite(l, v);
      TwoValuedDefinite(r, v);
    case _ =>
  }

  lemma SharperIsExact(e: Expr, r: Expr, v: Valuation)
    requires WellFormed(v) && TwoValued(v)
    requires !ContainsSymbol(e, ConstMod)
    requires EquivSharper(e, r)
    ensures Eval(r, v) == Eval(e, v)
  {
    TwoValuedDefinite(e, v);
    assert Sharpens(Eval(e, v), Eval(r, v));
  }
}
