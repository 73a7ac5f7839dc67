/** Dependency expressions of expr.h / expr.c, their reference semantics and
    the structural vocabulary used by the simplifier. */
module Expr {
  import opened Tristate

  datatype SymType = Unknown | Boolean | TristateType | IntType | HexType | StringType | Other

  /** A lookup of y, m or n yields the built-in constant, so no other constant
      has such a name. */
  type LiteralText = s: string | s != "y" && s != "m" && s != "n" witness ""

  /** A symbol as expressions see it: equality of values is identity of the
      underlying record.  Constants, built-in or quoted, have no declared type. */
  datatype Symbol =
    | ConstNo
    | ConstMod
    | ConstYes
    | Literal(text: LiteralText)
    | Config(name: string, declared: SymType)
  {
    function Type(): SymType {
      if Config? then declared else Unknown
    }

    predicate IsConst() {
      !Config?
    }

    predicate IsTriConst() {
      ConstNo? || ConstMod? || ConstYes?
    }

    predicate IsLogical() {
      Type() == Boolean || Type() == TristateType
    }
  }

  /** Expression nodes other than E_LIST, E_RANGE and E_NONE. */
  datatype Expr =
    | Sym(sym: Symbol)
    | Not(arg: Expr)
    | Bin(op: Op, left: Expr, right: Expr)
    | Equal(lhs: Symbol, rhs: Symbol)
    | Unequal(lhs: Symbol, rhs: Symbol)

  datatype Option<T> = None | Some(value: T)

  /** A C pointer to an expression: NULL stands for y. */
  type ExprPtr = Option<Expr>

  // ----- valuations and the reference semantics -----

  /** What the symbol evaluator supplies: a tristate and a string per symbol. */
  datatype Valuation = Valuation(tri: Symbol -> Tri, str: Symbol -> string)

  function TriString(t: Tri): string {
    if t == NO then "n" else if t == MOD then "m" else "y"
  }

  /** The guarantees of the evaluator: constants denote themselves, a boolean is
      never m, the string of a logical symbol spells its tristate, and distinct
      constants have distinct strings. */
  ghost predicate WellFormed(v: Valuation) {
    && v.tri(ConstNo) == NO && v.tri(ConstMod) == MOD && v.tri(ConstYes) == YES
    && v.str(ConstNo) == "n" && v.str(ConstMod) == "m" && v.str(ConstYes) == "y"
    && (forall s: Symbol {:trigger v.tri(s)} :: s.Type() == Boolean ==> v.tri(s) != MOD)
    && (forall s: Symbol {:trigger v.str(s)} ::
          s.IsLogical() ==> v.str(s) == TriString(v.tri(s)))
    && (forall s: Symbol, t: Symbol {:trigger v.str(s), v.str(t)} ::
          s.IsConst() && t.IsConst() && s != t ==> v.str(s) != v.str(t))
  }

  /** A valuation in which no symbol other than the constant m is m. */
  ghost predicate TwoValued(v: Valuation) {
    forall s: Symbol {:trigger v.tri(s)} :: s != ConstMod ==> v.tri(s) != MOD
  }

  /** expr_calc_value over an already evaluated symbol table. */
  ghost function Eval(e: Expr, v: Valuation): Tri {
    match e
    case Sym(s) => v.tri(s)
    case Not(a) => Complement(Eval(a, v))
    case Bin(op, l, r) => Apply(op, Eval(l, v), Eval(r, v))
    case Equal(a, b) => if v.str(a) == v.str(b) then YES else NO
    case Unequal(a, b) => if v.str(a) == v.str(b) then NO else YES
  }

  ghost function EvalPtr(e: ExprPtr, v: Valuation): Tri {
    match e
    case None => YES
    case Some(x) => Eval(x, v)
  }

  ghost predicate Equiv(a: Expr, b: Expr) {
    forall v: Valuation | WellFormed(v) :: Eval(a, v) == Eval(b, v)
  }

  ghost predicate EquivSharper(a: Expr, b: Expr) {
    forall v: Valuation | WellFormed(v) :: Sharpens(Eval(a, v), Eval(b, v))
  }

  // ----- structure -----

  const YES_EXPR: Expr := Sym(ConstYes)
  const NO_EXPR: Expr := Sym(ConstNo)

  function Neutral(op: Op): Symbol {
    if op == AndOp then ConstYes else ConstNo
  }

  function Absorbing(op: Op): Symbol {
    Neutral(Dual(op))
  }

  /** The symbols that occur, constants included. */
  function Symbols(e: Expr): set<Symbol> {
    match e
    case Sym(s) => {s}
    case Not(a) => Symbols(a)
    case Bin(_, l, r) => Symbols(l) + Symbols(r)
    case Equal(a, b) => {a, b}
    case Unequal(a, b) => {a, b}
  }

  function PtrSymbols(e: ExprPtr): set<Symbol> {
    if e.None? then {} else Symbols(e.value)
  }

  predicate IsYesNo(e: Expr) {
    e == YES_EXPR || e == NO_EXPR
  }

  predicate IsOp(op: Op, e: Expr) {
    e.Bin? && e.op == op
  }

  function Size(e: Expr): (n: nat)
    ensures n > 0
  {
    match e
    case Not(a) => 1 + Size(a)
    case Bin(_, l, r) => 1 + Size(l) + Size(r)
    case _ => 1
  }

  function AllocAnd(a: ExprPtr, b: ExprPtr): ExprPtr {
    if a.None? then b else if b.None? then a else Some(Bin(AndOp, a.value, b.value))
  }

  /** NULL is also the empty disjunction here, so NULL || e is e, not y. */
  function AllocOr(a: ExprPtr, b: ExprPtr): ExprPtr {
    if a.None? then b else if b.None? then a else Some(Bin(OrOp, a.value, b.value))
  }

  lemma AllocAndValue(a: ExprPtr, b: ExprPtr, v: Valuation)
    ensures EvalPtr(AllocAnd(a, b), v) == And(EvalPtr(a, v), EvalPtr(b, v))
  {
  }

  lemma NeutralValue(op: Op, t: Tri, v: Valuation)
    requires WellFormed(v)
    ensures Apply(op, t, v.tri(Neutral(op))) == t
    ensures Apply(op, v.tri(Neutral(op)), t) == t
  {
  }

  // ----- the assumptions on valuations can be met -----

  /** Any choice of values for the declared symbols, m only for tristates,
      extends to a valuation the simplifier may assume. */
  lemma ValuationExists(choice: Symbol -> Tri) returns (v: Valuation)
    requires forall s: Symbol {:trigger choice(s)} :: s.Type() == Boolean ==> choice(s) != MOD
    ensures WellFormed(v)
    ensures forall s: Symbol {:trigger v.tri(s)} :: s.IsLogical() ==> v.tri(s) == choice(s)
  {
    var tri: Symbol -> Tri := (s: Symbol) =>
      match s
      case ConstNo => NO
      case ConstMod => MOD
      case ConstYes => YES
      case Literal(_) => NO
      case Config(_, _) => if s.IsLogical() then choice(s) else NO;
    var str: Symbol -> string := (s: Symbol) =>
      match s
      case Literal(text) => text
      case _ => TriString(tri(s));
    v := Valuation(tri, str);
    assert "y"[0] == 'y' && "n"[0] == 'n' && "m"[0] == 'm';
  }
}
