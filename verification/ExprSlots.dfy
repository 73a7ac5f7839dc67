/** The AND/OR list below a node, as numbered places that can be overwritten.
    A C pointer `struct expr **ep` into the list is a path from its root; two
    pointers are the same exactly when the paths are. */
module ExprSlots {
  import opened Tristate
  import opened Expr
  import opened ExprEquality
  import opened ExprNormalForm

  /** true goes to the right child. */
  type Path = seq<bool>

  /** How the `op` nodes below a root are arranged, whatever the leaves hold. */
  datatype Shape = Leaf | Fork(left: Shape, right: Shape)

  function ShapeOf(op: Op, e: Expr): Shape {
    if IsOp(op, e) then Fork(ShapeOf(op, e.left), ShapeOf(op, e.right)) else Leaf
  }

  predicate InShape(s: Shape, p: Path) {
    p == [] || (s.Fork? && InShape(if p[0] then s.right else s.left, p[1..]))
  }

  function SubShape(s: Shape, p: Path): Shape
    requires InShape(s, p)
  {
    if p == [] then s else SubShape(if p[0] then s.right else s.left, p[1..])
  }

  function Forks(s: Shape): nat {
    match s
    case Leaf => 0
    case Fork(l, r) => 1 + Forks(l) + Forks(r)
  }

  predicate Within(op: Op, e: Expr, p: Path) {
    InShape(ShapeOf(op, e), p)
  }

  /** `p` leads to a member of the list. */
  predicate IsSlot(op: Op, e: Expr, p: Path) {
    Within(op, e, p) && SubShape(ShapeOf(op, e), p) == Leaf
  }

  function At(op: Op, e: Expr, p: Path): (r: Expr)
    requires Within(op, e, p)
    ensures ShapeOf(op, r) == SubShape(ShapeOf(op, e), p)
    ensures Size(r) <= Size(e)
    ensures IsOp(op, e) && p != [] ==> Size(r) < Size(e)
  {
    if p == [] then e else At(op, if p[0] then e.right else e.left, p[1..])
  }

  /** Assignment through the pointer. */
  function Put(op: Op, e: Expr, p: Path, x: Expr): (r: Expr)
    requires Within(op, e, p)
    ensures Size(r) == Size(e) - Size(At(op, e, p)) + Size(x)
  {
    if p == [] then x
    else if p[0] then Bin(op, e.left, Put(op, e.right, p[1..], x))
    else Bin(op, Put(op, e.left, p[1..], x), e.right)
  }

  lemma {:induction false} PutShape(op: Op, e: Expr, p: Path, x: Expr)
    requires IsSlot(op, e, p)
    requires !IsOp(op, x)
    ensures ShapeOf(op, Put(op, e, p, x)) == ShapeOf(op, e)
  {
    if p != [] {
      PutShape(op, if p[0] then e.right else e.left, p[1..], x);
    }
  }

  lemma {:induction false} AtPut(op: Op, e: Expr, p: Path, x: Expr, q: Path)
    requires IsSlot(op, e, p) && IsSlot(op, e, q)
    requires !IsOp(op, x)
    ensures IsSlot(op, Put(op, e, p, x), q)
    ensures At(op, Put(op, e, p, x), q) == if p == q then x else At(op, e, q)
  {
    PutShape(op, e, p, x);
    if p != [] && q != [] && p[0] == q[0] {
      AtPut(op, if p[0] then e.right else e.left, p[1..], x, q[1..]);
    }
  }

  /** The node below `p` on the given side. */
  lemma {:induction false} Descend(op: Op, e: Expr, p: Path, side: bool)
    requires Within(op, e, p)
    requires IsOp(op, At(op, e, p))
    ensures Within(op, e, p + [side])
    ensures At(op, e, p + [side]) == if side then At(op, e, p).right else At(op, e, p).left
    ensures SubShape(ShapeOf(op, e), p + [side])
         == if side then SubShape(ShapeOf(op, e), p).right else SubShape(ShapeOf(op, e), p).left
  {
    if p != [] {
      assert (p + [side])[1..] == p[1..] + [side];
      Descend(op, if p[0] then e.right else e.left, p[1..], side);
    } else {
      assert (p + [side])[1..] == [];
    }
  }

  /** The value of the list without the member at `p`. */
  ghost function Rest(op: Op, e: Expr, p: Path, v: Valuation): Tri
    requires Within(op, e, p)
    requires WellFormed(v)
  {
    if p == [] then v.tri(Neutral(op))
    else if p[0] then Apply(op, Eval(e.left, v), Rest(op, e.right, p[1..], v))
    else Apply(op, Eval(e.right, v), Rest(op, e.left, p[1..], v))
  }

  lemma {:induction false} SplitAt(op: Op, e: Expr, p: Path, v: Valuation)
    requires Within(op, e, p)
    requires WellFormed(v)
    ensures Eval(e, v) == Apply(op, Eval(At(op, e, p), v), Rest(op, e, p, v))
  {
    if p != [] {
      var x, y := if p[0] then e.right else e.left, if p[0] then e.left else e.right;
      SplitAt(op, x, p[1..], v);
      ApplyRotate(op, Eval(At(op, x, p[1..]), v), Eval(y, v), Rest(op, x, p[1..], v));
      ApplyCommutes(op, Eval(x, v), Eval(y, v));
    } else {
      NeutralValue(op, Eval(e, v), v);
    }
  }

  lemma {:induction false} SplitPut(op: Op, e: Expr, p: Path, x: Expr, v: Valuation)
    requires Within(op, e, p)
    requires WellFormed(v)
    ensures Eval(Put(op, e, p, x), v) == Apply(op, Eval(x, v), Rest(op, e, p, v))
  {
    if p != [] {
      var z, y := if p[0] then e.right else e.left, if p[0] then e.left else e.right;
      SplitPut(op, z, p[1..], x, v);
      ApplyRotate(op, Eval(x, v), Eval(y, v), Rest(op, z, p[1..], v));
      ApplyCommutes(op, Eval(Put(op, z, p[1..], x), v), Eval(y, v));
    } else {
      NeutralValue(op, Eval(x, v), v);
    }
  }

  /** The values of both subtrees of a list, its two members lying in different ones. */
  lemma PutApart(op: Op, e: Expr, f: Expr, p: Path, x: Expr, q: Path, y: Expr, v: Valuation)
    requires WellFormed(v)
    requires Within(op, e, p) && Within(op, f, q)
    requires Apply(op, Eval(x, v), Eval(y, v)) == Apply(op, Eval(At(op, e, p), v), Eval(At(op, f, q), v))
    ensures Apply(op, Eval(Put(op, e, p, x), v), Eval(Put(op, f, q, y), v)) == Apply(op, Eval(e, v), Eval(f, v))
  {
    SplitAt(op, e, p, v);
    SplitAt(op, f, q, v);
    SplitPut(op, e, p, x, v);
    SplitPut(op, f, q, y, v);
    var a, b := Rest(op, e, p, v), Rest(op, f, q, v);
    ApplyExchange(op, Eval(x, v), Eval(y, v), a, b);
    ApplyExchange(op, Eval(At(op, e, p), v), Eval(At(op, f, q), v), a, b);
  }

  /** Overwriting two members by two others with the same joint value does not
      change the value of the list. */
  lemma {:induction false} PutTwo(op: Op, e: Expr, p: Path, x: Expr, q: Path, y: Expr, v: Valuation)
    requires WellFormed(v)
    requires IsSlot(op, e, p) && IsSlot(op, e, q) && p != q
    requires !IsOp(op, x) && !IsOp(op, y)
    requires Apply(op, Eval(x, v), Eval(y, v)) == Apply(op, Eval(At(op, e, p), v), Eval(At(op, e, q), v))
    ensures IsSlot(op, Put(op, e, p, x), q)
    ensures Eval(Put(op, Put(op, e, p, x), q, y), v) == Eval(e, v)
  {
    AtPut(op, e, p, x, q);
    if p[0] == q[0] {
      PutTwo(op, if p[0] then e.right else e.left, p[1..], x, q[1..], y, v);
      PutOneSide(op, e, p, x, q, y, v);
    } else {
      PutBothSides(op, e, p, x, q, y, v);
    }
  }

  lemma PutOneSide(op: Op, e: Expr, p: Path, x: Expr, q: Path, y: Expr, v: Valuation)
    requires IsSlot(op, e, p) && IsSlot(op, e, q) && p != [] && q != [] && p[0] == q[0]
    requires IsSlot(op, Put(op, e, p, x), q)
    requires var side := if p[0] then e.right else e.left;
             && IsSlot(op, Put(op, side, p[1..], x), q[1..])
             && Eval(Put(op, Put(op, side, p[1..], x), q[1..], y), v) == Eval(side, v)
    ensures Eval(Put(op, Put(op, e, p, x), q, y), v) == Eval(e, v)
  {
  }

  lemma PutBothSides(op: Op, e: Expr, p: Path, x: Expr, q: Path, y: Expr, v: Valuation)
    requires WellFormed(v)
    requires IsSlot(op, e, p) && IsSlot(op, e, q) && p != [] && q != [] && p[0] != q[0]
    requires !IsOp(op, x) && IsSlot(op, Put(op, e, p, x), q)
    requires Apply(op, Eval(x, v), Eval(y, v)) == Apply(op, Eval(At(op, e, p), v), Eval(At(op, e, q), v))
    ensures Eval(Put(op, Put(op, e, p, x), q, y), v) == Eval(e, v)
  {
    var px, qy := p[1..], q[1..];
    if p[0] {
      PutApart(op, e.right, e.left, px, x, qy, y, v);
      ApplyCommutes(op, Eval(Put(op, e.right, px, x), v), Eval(Put(op, e.left, qy, y), v));
      ApplyCommutes(op, Eval(e.right, v), Eval(e.left, v));
    } else {
      PutApart(op, e.left, e.right, px, x, qy, y, v);
    }
  }

  /** A member that is y or n keeps the whole from being folded; so does a member
      that is itself not folded. */
  lemma {:induction false} UnfoldedMember(op: Op, e: Expr, p: Path)
    requires IsSlot(op, e, p)
    requires (p != [] && IsYesNo(At(op, e, p))) || !Folded(At(op, e, p))
    ensures !Folded(e)
  {
    if p != [] {
      var x := if p[0] then e.right else e.left;
      if p[1..] != [] || !IsYesNo(x) {
        UnfoldedMember(op, x, p[1..]);
      }
    }
  }

  lemma {:induction false} FlatAt(op: Op, e: Expr, p: Path)
    requires Within(op, e, p)
    ensures NotsFlat(e) ==> NotsFlat(At(op, e, p))
  {
    if p != [] {
      FlatAt(op, if p[0] then e.right else e.left, p[1..]);
    }
  }

  lemma {:induction false} FlatPut(op: Op, e: Expr, p: Path, x: Expr)
    requires Within(op, e, p)
    ensures NotsFlat(e) && NotsFlat(x) ==> NotsFlat(Put(op, e, p, x))
  {
    if p != [] {
      FlatPut(op, if p[0] then e.right else e.left, p[1..], x);
    }
  }

  lemma {:induction false} FlatYN(e: Expr)
    ensures NotsFlat(e) ==> NotsFlat(EliminateYN(e))
  {
    if e.Bin? {
      FlatYN(e.left);
      FlatYN(e.right);
    }
  }
}
