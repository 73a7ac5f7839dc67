/** Printing an expression (expr_print in expr.c) and reading it back with the
    precedences of the expression grammar (zconf.y): ! over && over ||. */
module ExprPrint {
  import opened Tristate
  import opened Expr

  /** What one call of the print callback emits; a name comes with its symbol. */
  datatype Token = Open | Close | Bang | EqualSign | UnequalSign | Infix(op: Op) | Name(sym: Symbol)

  /** enum expr_type, as far as it is printed. */
  datatype Kind = KNone | KOr | KAnd | KNot | KEqual | KUnequal | KSymbol

  function KindOf(e: Expr): Kind {
    match e
    case Sym(_) => KSymbol
    case Not(_) => KNot
    case Bin(op, _, _) => OpKind(op)
    case Equal(_, _) => KEqual
    case Unequal(_, _) => KUnequal
  }

  function OpKind(op: Op): Kind {
    if op == OrOp then KOr else KAnd
  }

  /** expr_compare_type > 0: the cases of the switch fall through. */
  predicate Tighter(t1: Kind, t2: Kind) {
    t1 != t2 &&
    match t1
    case KEqual => t2 == KNot || t2 == KAnd || t2 == KOr || t2 == KNone
    case KUnequal => t2 == KNot || t2 == KAnd || t2 == KOr || t2 == KNone
    case KNot => t2 == KAnd || t2 == KOr || t2 == KNone
    case KAnd => t2 == KOr || t2 == KNone
    case KOr => t2 == KNone
    case _ => false
  }

  function Bracketed(needed: bool, s: seq<Token>): seq<Token> {
    if needed then [Open] + s + [Close] else s
  }

  /** The tokens of an expression below an expression of kind `prev`. */
  function Tokens(e: Expr, prev: Kind): seq<Token> {
    Bracketed(Tighter(prev, KindOf(e)), Bare(e))
  }

  function Bare(e: Expr): seq<Token>
    decreases e, 0
  {
    match e
    case Sym(s) => [Name(s)]
    case Not(a) => [Bang] + (var t := Bare(a); Bracketed(Tighter(KNot, KindOf(a)), t))
    case Equal(a, b) => [Name(a), EqualSign, Name(b)]
    case Unequal(a, b) => [Name(a), UnequalSign, Name(b)]
    case Bin(op, l, r) =>
      Bracketed(Tighter(OpKind(op), KindOf(l)), Bare(l)) + [Infix(op)]
      + Bracketed(Tighter(OpKind(op), KindOf(r)), Bare(r))
  }

  lemma BracketsAround(out: seq<Token>, s: seq<Token>)
    ensures out + [Open] + s + [Close] == out + Bracketed(true, s)
  {
  }

  class Printer {
    var out: seq<Token>

    constructor ()
      ensures out == []
    {
      out := [];
    }

    method Emit(t: Token)
      modifies this
      ensures out == old(out) + [t]
    {
      out := out + [t];
    }

    /** expr_print for an expression that is not NULL. */
    method Print(e: Expr, prev: Kind)
      modifies this
      ensures out == old(out) + Tokens(e, prev)
      decreases e, 1
    {
      ghost var before := out;
      if Tighter(prev, KindOf(e)) {
        Emit(Open);
      }
      PrintBare(e);
      if Tighter(prev, KindOf(e)) {
        Emit(Close);
      }
      BracketsAround(before, Bare(e));
    }

    /** The switch of expr_print. */
    method PrintBare(e: Expr)
      modifies this
      ensures out == old(out) + Bare(e)
      decreases e, 0
    {
      match e {
        case Sym(s) =>
          Emit(Name(s));
        case Not(a) =>
          Emit(Bang);
          Print(a, KNot);
        case Equal(a, b) =>
          Emit(Name(a));
          Emit(EqualSign);
          Emit(Name(b));
        case Unequal(a, b) =>
          Emit(Name(a));
          Emit(UnequalSign);
          Emit(Name(b));
        case Bin(op, l, r) =>
          Print(l, OpKind(op));
          Emit(Infix(op));
          Print(r, OpKind(op));
      }
    }

    /** expr_print from the top: NULL is printed as y. */
    method PrintPtr(e: ExprPtr)
      modifies this
      ensures out == old(out) + PtrTokens(e)
    {
      if e.None? {
        Emit(Name(ConstYes));
      } else {
        Print(e.value, KNone);
      }
    }
  }

  function PtrTokens(e: ExprPtr): seq<Token> {
    if e.None? then [Name(ConstYes)] else Tokens(e.value, KNone)
  }

  // ----- no bracket too many -----

  /** How many operands the grammar would read differently without brackets: OR lists
      directly under an AND, and AND/OR lists directly under a NOT. */
  function Nested(e: Expr): nat {
    match e
    case Not(a) => (if a.Bin? then 1 else 0) + Nested(a)
    case Bin(op, l, r) =>
      (if op == AndOp && IsOp(OrOp, l) then 1 else 0) + (if op == AndOp && IsOp(OrOp, r) then 1 else 0)
      + Nested(l) + Nested(r)
    case _ => 0
  }

  /** As many brackets of both kinds as there are such operands. */
  ghost predicate CountsBrackets(s: seq<Token>, n: nat) {
    Count(s, Open) == n && Count(s, Close) == n
  }

  function Count(s: seq<Token>, t: Token): nat {
    if s == [] then 0 else (if s[0] == t then 1 else 0) + Count(s[1..], t)
  }

  lemma {:induction false} CountConcat(s: seq<Token>, u: seq<Token>, t: Token)
    ensures Count(s + u, t) == Count(s, t) + Count(u, t)
  {
    if s == [] {
      assert s + u == u;
    } else {
      assert (s + u)[1..] == s[1..] + u;
      CountConcat(s[1..], u, t);
    }
  }

  lemma NotBrackets(a: Expr)
    requires CountsBrackets(Bare(a), Nested(a))
    ensures CountsBrackets(Bare(Not(a)), Nested(Not(a)))
  {
    var needed := Tighter(KNot, KindOf(a));
    assert needed <==> a.Bin?;
    BracketedCount(needed, Bare(a), Nested(a));
    NoBrackets([Bang]);
    ConcatCount([Bang], Bracketed(needed, Bare(a)), 0, Nested(a) + if needed then 1 else 0);
  }

  lemma BinBrackets(op: Op, l: Expr, r: Expr)
    requires CountsBrackets(Bare(l), Nested(l)) && CountsBrackets(Bare(r), Nested(r))
    ensures CountsBrackets(Bare(Bin(op, l, r)), Nested(Bin(op, l, r)))
  {
    var n, m := Tighter(OpKind(op), KindOf(l)), Tighter(OpKind(op), KindOf(r));
    var x, y := Bracketed(n, Bare(l)), Bracketed(m, Bare(r));
    assert n <==> op == AndOp && IsOp(OrOp, l);
    assert m <==> op == AndOp && IsOp(OrOp, r);
    BracketedCount(n, Bare(l), Nested(l));
    BracketedCount(m, Bare(r), Nested(r));
    NoBrackets([Infix(op)]);
    ConcatCount(x, [Infix(op)], Nested(l) + if n then 1 else 0, 0);
    ConcatCount(x + [Infix(op)], y, Nested(l) + if n then 1 else 0, Nested(r) + if m then 1 else 0);
    assert Bare(Bin(op, l, r)) == x + [Infix(op)] + y;
  }

  lemma {:induction false} BareBrackets(e: Expr)
    ensures CountsBrackets(Bare(e), Nested(e))
  {
    match e
    case Not(a) =>
      BareBrackets(a);
      NotBrackets(a);
    case Bin(op, l, r) =>
      BareBrackets(l);
      BareBrackets(r);
      BinBrackets(op, l, r);
    case Sym(s) => NoBrackets([Name(s)]);
    case Equal(a, b) => NoBrackets([Name(a), EqualSign, Name(b)]);
    case Unequal(a, b) => NoBrackets([Name(a), UnequalSign, Name(b)]);
  }

  lemma {:induction false} NoBrackets(s: seq<Token>)
    requires Open !in s && Close !in s
    ensures CountsBrackets(s, 0)
  {
    if s != [] {
      assert s[0] in s;
      NoBrackets(s[1..]);
    }
  }

  /** Exactly these are printed in brackets. */
  lemma BracketsNeeded(e: Expr)
    ensures CountsBrackets(Tokens(e, KNone), Nested(e))
  {
    BareBrackets(e);
  }

  lemma ConcatCount(s: seq<Token>, t: seq<Token>, n: nat, m: nat)
    requires CountsBrackets(s, n) && CountsBrackets(t, m)
    ensures CountsBrackets(s + t, n + m)
  {
    CountConcat(s, t, Open);
    CountConcat(s, t, Close);
  }

  lemma BracketedCount(needed: bool, s: seq<Token>, n: nat)
    requires CountsBrackets(s, n)
    ensures CountsBrackets(Bracketed(needed, s), n + if needed then 1 else 0)
  {
    assert [Open][1..] == [] && [Close][1..] == [];
    CountConcat([Open], s, Open);
    CountConcat([Open], s, Close);
    CountConcat([Open] + s, [Close], Open);
    CountConcat([Open] + s, [Close], Close);
  }

  // ----- the reader -----

  type Reading = Option<(Expr, seq<Token>)>

  /** One operand of a chain of `op`: for || a chain of &&. */
  function ReadOperand(op: Op, ts: seq<Token>): (r: Reading)
    ensures r.Some? ==> |r.value.1| < |ts|
    decreases |ts|, if op == OrOp then 4 else 2
  {
    if op == OrOp then ReadChain(AndOp, ts) else ReadUnary(ts)
  }

  /** Operands joined by `op`, to the left. */
  function ReadChain(op: Op, ts: seq<Token>): (r: Reading)
    ensures r.Some? ==> |r.value.1| < |ts|
    decreases |ts|, if op == OrOp then 5 else 3
  {
    match ReadOperand(op, ts)
    case None => None
    case Some(p) => Continue(op, p.0, p.1)
  }

  function Continue(op: Op, left: Expr, ts: seq<Token>): (r: Reading)
    ensures r.Some? ==> |r.value.1| <= |ts|
    decreases |ts|, 0
  {
    if ts == [] || ts[0] != Infix(op) then Some((left, ts)) else
    match ReadOperand(op, ts[1..])
    case None => None
    case Some(p) => Continue(op, Bin(op, left, p.0), p.1)
  }

  function ReadUnary(ts: seq<Token>): (r: Reading)
    ensures r.Some? ==> |r.value.1| < |ts|
    decreases |ts|, 1
  {
    if ts == [] then None else
    match ts[0]
    case Bang =>
      (match ReadUnary(ts[1..])
       case None => None
       case Some(p) => Some((Not(p.0), p.1)))
    case Open =>
      (match ReadChain(OrOp, ts[1..])
       case None => None
       case Some(p) => if p.1 != [] && p.1[0] == Close then Some((p.0, p.1[1..])) else None)
    case Name(a) =>
      if |ts| >= 3 && ts[1] == EqualSign && ts[2].Name? then Some((Equal(a, ts[2].sym), ts[3..]))
      else if |ts| >= 3 && ts[1] == UnequalSign && ts[2].Name? then Some((Unequal(a, ts[2].sym), ts[3..]))
      else Some((Sym(a), ts[1..]))
    case _ => None
  }

  /** A whole expression. */
  function Read(ts: seq<Token>): Option<Expr> {
    match ReadChain(OrOp, ts)
    case None => None
    case Some(p) => if p.1 == [] then Some(p.0) else None
  }

  // ----- what reading a printed expression gives -----

  /** The chain `a op b`, associated to the left. */
  function Graft(op: Op, a: Expr, b: Expr): Expr {
    if IsOp(op, b) then Bin(op, Graft(op, a, b.left), b.right) else Bin(op, a, b)
  }

  /** The expression with every chain associated to the left. */
  function LeftToRight(e: Expr): Expr {
    match e
    case Not(a) => Not(LeftToRight(a))
    case Bin(op, l, r) => Graft(op, LeftToRight(l), LeftToRight(r))
    case _ => e
  }

  lemma {:induction false} GraftAssociative(op: Op, a: Expr, b: Expr, c: Expr)
    ensures Graft(op, a, Graft(op, b, c)) == Graft(op, Graft(op, a, b), c)
  {
    if IsOp(op, c) {
      GraftAssociative(op, a, b, c.left);
    }
  }

  lemma {:induction false} GraftMeaning(op: Op, a: Expr, b: Expr, v: Valuation)
    ensures Eval(Graft(op, a, b), v) == Apply(op, Eval(a, v), Eval(b, v))
  {
    if IsOp(op, b) {
      GraftMeaning(op, a, b.left, v);
      ApplyAssociative(op, Eval(a, v), Eval(b.left, v), Eval(b.right, v));
    }
  }

  lemma {:induction false} LeftToRightMeaning(e: Expr, v: Valuation)
    ensures Eval(LeftToRight(e), v) == Eval(e, v)
  {
    match e
    case Not(a) => LeftToRightMeaning(a, v);
    case Bin(op, l, r) =>
      LeftToRightMeaning(l, v);
      LeftToRightMeaning(r, v);
      GraftMeaning(op, LeftToRight(l), LeftToRight(r), v);
    case _ =>
  }

  /** What may follow an operand of `op`: nothing that binds tighter. */
  predicate Follows(op: Op, ts: seq<Token>) {
    ts == [] || (ts[0] != EqualSign && ts[0] != UnequalSign && (op == OrOp ==> ts[0] != Infix(AndOp)))
  }

  lemma Regroup(a: seq<Token>, b: seq<Token>, c: seq<Token>)
    ensures (a + b) + c == a + (b + c)
  {
  }

  /** The tokens of a chain, from its last operand on. */
  lemma ChainTokens(op: Op, e: Expr, rest: seq<Token>)
    requires IsOp(op, e)
    ensures Tokens(e, OpKind(op)) + rest
         == Tokens(e.left, OpKind(op)) + ([Infix(op)] + Tokens(e.right, OpKind(op)) + rest)
  {
    var l, i, r := Tokens(e.left, OpKind(op)), [Infix(op)], Tokens(e.right, OpKind(op));
    Regroup(l + i, r, rest);
    Regroup(l, i, r + rest);
    Regroup(i, r, rest);
  }

  lemma {:induction false} ReadsUnary(e: Expr, rest: seq<Token>)
    requires Follows(AndOp, rest)
    ensures ReadUnary(Tokens(e, KNot) + rest) == Some((LeftToRight(e), rest))
    decreases e, if e.Bin? then 7 else 1
  {
    match e
    case Not(a) =>
      ReadsUnary(a, rest);
      assert (Tokens(e, KNot) + rest)[1..] == Tokens(a, KNot) + rest;
    case Bin(_, _, _) =>
      ReadsTop(e, [Close] + rest);
      ReadsBracketed(e, rest);
    case _ =>
      ReadsLeaf(e, rest);
  }

  lemma ReadsBracketed(e: Expr, rest: seq<Token>)
    requires e.Bin? && ReadChain(OrOp, Bare(e) + ([Close] + rest)) == Some((LeftToRight(e), [Close] + rest))
    ensures ReadUnary(Tokens(e, KNot) + rest) == Some((LeftToRight(e), rest))
  {
    var ts := Tokens(e, KNot) + rest;
    Regroup([Open], Bare(e), [Close]);
    Regroup([Open], Bare(e) + [Close], rest);
    Regroup(Bare(e), [Close], rest);
    assert ts[0] == Open && ts[1..] == Bare(e) + ([Close] + rest);
    assert ([Close] + rest)[1..] == rest;
  }

  lemma ReadsLeaf(e: Expr, rest: seq<Token>)
    requires e.Sym? || e.Equal? || e.Unequal?
    requires Follows(AndOp, rest)
    ensures ReadUnary(Tokens(e, KNot) + rest) == Some((LeftToRight(e), rest))
  {
    var ts := Tokens(e, KNot) + rest;
    if e.Sym? {
      assert ts[1..] == rest;
    } else {
      assert ts[3..] == rest;
    }
  }

  /** An operand of `op` that is not itself a chain of `op`. */
  lemma {:induction false} ReadsOperand(op: Op, e: Expr, rest: seq<Token>)
    requires Follows(op, rest) && !IsOp(op, e)
    ensures ReadOperand(op, Tokens(e, OpKind(op)) + rest) == Some((LeftToRight(e), rest))
    decreases e, if op == OrOp then 4 else if IsOp(OrOp, e) then 8 else 2
  {
    if op == AndOp {
      ReadsUnary(e, rest);
    } else {
      ReadsChain(AndOp, e, rest);
    }
  }

  lemma {:induction false} ReadsChain(op: Op, e: Expr, rest: seq<Token>)
    requires Follows(op, rest)
    ensures ReadChain(op, Tokens(e, OpKind(op)) + rest) == Continue(op, LeftToRight(e), rest)
    decreases e, if op == OrOp then 5 else if IsOp(OrOp, e) then 9 else 3
  {
    if IsOp(op, e) {
      var more := [Infix(op)] + Tokens(e.right, OpKind(op)) + rest;
      ChainTokens(op, e, rest);
      ReadsChain(op, e.left, more);
      Continues(op, LeftToRight(e.left), e.right, rest);
    } else {
      ReadsOperand(op, e, rest);
    }
  }

  lemma {:induction false} Continues(op: Op, left: Expr, e: Expr, rest: seq<Token>)
    requires Follows(op, rest)
    ensures Continue(op, left, [Infix(op)] + Tokens(e, OpKind(op)) + rest)
            == Continue(op, Graft(op, left, LeftToRight(e)), rest)
    decreases e, 10
  {
    var ts := [Infix(op)] + Tokens(e, OpKind(op)) + rest;
    if IsOp(op, e) {
      var more := [Infix(op)] + Tokens(e.right, OpKind(op)) + rest;
      ChainTokens(op, e, rest);
      Regroup([Infix(op)], Tokens(e, OpKind(op)), rest);
      Regroup([Infix(op)], Tokens(e.left, OpKind(op)), more);
      Continues(op, left, e.left, more);
      Continues(op, Graft(op, left, LeftToRight(e.left)), e.right, rest);
      GraftAssociative(op, left, LeftToRight(e.left), LeftToRight(e.right));
    } else {
      ReadsOperand(op, e, rest);
      assert ts[1..] == Tokens(e, OpKind(op)) + rest;
    }
  }

  lemma {:induction false} ReadsTop(e: Expr, rest: seq<Token>)
    requires rest == [] || rest[0] == Close
    ensures ReadChain(OrOp, Bare(e) + rest) == Some((LeftToRight(e), rest))
    decreases e, 6
  {
    ReadsChain(OrOp, e, rest);
  }

  /** Reading what was printed gives the expression up to association. */
  lemma PrintReadsBack(e: Expr)
    ensures Read(Tokens(e, KNone)) == Some(LeftToRight(e))
  {
    ReadsTop(e, []);
    assert Tokens(e, KNone) == Bare(e) + [];
  }

  /** The value survives printing and reading, NULL included. */
  lemma PrintKeepsValue(e: ExprPtr, v: Valuation)
    requires WellFormed(v)
    ensures Read(PtrTokens(e)).Some? && Eval(Read(PtrTokens(e)).value, v) == EvalPtr(e, v)
  {
    if e.Some? {
      PrintReadsBack(e.value);
      LeftToRightMeaning(e.value, v);
    } else {
      ReadsTop(YES_EXPR, []);
      assert PtrTokens(e) == Bare(YES_EXPR) + [];
    }
  }

  lemma {:induction false} GraftTokens(op: Op, a: Expr, b: Expr)
    ensures Bare(Graft(op, a, b)) == Tokens(a, OpKind(op)) + [Infix(op)] + Tokens(b, OpKind(op))
  {
    if IsOp(op, b) {
      GraftTokens(op, a, b.left);
    }
  }

  lemma {:induction false} SamePrint(e: Expr)
    ensures KindOf(LeftToRight(e)) == KindOf(e) && Bare(LeftToRight(e)) == Bare(e)
  {
    match e
    case Not(a) => SamePrint(a);
    case Bin(op, l, r) =>
      SamePrint(l);
      SamePrint(r);
      GraftTokens(op, LeftToRight(l), LeftToRight(r));
    case _ =>
  }

  /** Two expressions print alike exactly if they differ in association only. */
  lemma PrintAlike(a: Expr, b: Expr)
    ensures Tokens(a, KNone) == Tokens(b, KNone) <==> LeftToRight(a) == LeftToRight(b)
  {
    PrintReadsBack(a);
    PrintReadsBack(b);
    SamePrint(a);
    SamePrint(b);
  }
}
