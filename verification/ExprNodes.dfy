/** The rewriting passes of expr.c on nodes that are overwritten in place.  Every
    pass turns the nodes of one tree, which it owns, into the tree that the function
    of the same pass computes. */
module ExprNodes {
  import opened Tristate
  import opened Expr
  import opened ExprEquality
  import opened ExprNormalForm

  /** struct expr; the two members of each union are separate fields. */
  class Node {
    var kind: NodeType
    var left: Node?
    var right: Node?
    var lsym: Symbol
    var rsym: Symbol

    constructor (kind: NodeType, left: Node?, right: Node?, lsym: Symbol, rsym: Symbol)
      ensures this.kind == kind && this.left == left && this.right == right && this.lsym == lsym && this.rsym == rsym
    {
      this.kind, this.left, this.right, this.lsym, this.rsym := kind, left, right, lsym, rsym;
    }

    /** The structure assignment *this = *o. */
    method Assign(o: Node)
      modifies this
      ensures kind == o.kind && left == o.left && right == o.right && lsym == o.lsym && rsym == o.rsym
    {
      kind, left, right, lsym, rsym := o.kind, o.left, o.right, o.lsym, o.rsym;
    }
  }

  /** Which node stands where in an expression. */
  datatype Tree =
    | SymTree(node: Node, sym: Symbol)
    | CmpTree(node: Node, equal: bool, lhs: Symbol, rhs: Symbol)
    | NotTree(node: Node, arg: Tree)
    | BinTree(node: Node, op: Op, left: Tree, right: Tree)

  ghost function ToExpr(t: Tree): Expr {
    match t
    case SymTree(_, s) => Sym(s)
    case CmpTree(_, equal, a, b) => if equal then Equal(a, b) else Unequal(a, b)
    case NotTree(_, a) => Not(ToExpr(a))
    case BinTree(_, op, l, r) => Bin(op, ToExpr(l), ToExpr(r))
  }

  ghost function Nodes(t: Tree): set<Node> {
    match t
    case SymTree(n, _) => {n}
    case CmpTree(n, _, _, _) => {n}
    case NotTree(n, a) => {n} + Nodes(a)
    case BinTree(n, _, l, r) => {n} + Nodes(l) + Nodes(r)
  }

  /** The fields of the nodes spell the expression, and no node is shared. */
  ghost predicate Linked(t: Tree)
    reads Nodes(t)
  {
    match t
    case SymTree(n, s) => n.kind == SymNode && n.lsym == s
    case CmpTree(n, equal, a, b) => n.kind == (if equal then EqualNode else UnequalNode) && n.lsym == a && n.rsym == b
    case NotTree(n, a) => n.kind == NotNode && n.left == a.node && n !in Nodes(a) && Linked(a)
    case BinTree(n, op, l, r) =>
      && n.kind == BinNode(op) && n.left == l.node && n.right == r.node
      && n !in Nodes(l) && n !in Nodes(r) && Nodes(l) !! Nodes(r) && Linked(l) && Linked(r)
  }

  /** The tree with another node at its root. */
  ghost function Reroot(t: Tree, n: Node): (r: Tree)
    ensures r.node == n && ToExpr(r) == ToExpr(t) && Nodes(r) <= Nodes(t) + {n}
  {
    t.(node := n)
  }

  lemma {:induction false} NodesAllocated(t: Tree)
    ensures t.node in Nodes(t) && forall n | n in Nodes(t) :: allocated(n)
  {
    match t
    case NotTree(_, a) => NodesAllocated(a);
    case BinTree(_, _, l, r) =>
      NodesAllocated(l);
      NodesAllocated(r);
    case _ =>
  }

  /** Another left operand for a list; the tree `tm` and other nodes have no part in it. */
  method LinkLeft(e: Node, x: Node, ghost t: Tree, ghost tx: Tree, ghost tm: Tree, ghost others: set<Node>)
    returns (ghost u: Tree)
    requires t.BinTree? && t.node == e && e.kind == BinNode(t.op) && e.right == t.right.node && e !in Nodes(t.right)
    requires Linked(t.right) && Linked(tx) && Linked(tm) && x == tx.node
    requires others + {e} + Nodes(t.right) !! Nodes(tx) && others + {e} + Nodes(t.right) !! Nodes(tm)
    requires Nodes(tx) !! Nodes(tm) && e !in others && others !! Nodes(t.right)
    modifies e
    ensures u == BinTree(e, t.op, tx, t.right) && Linked(u) && Linked(tm)
    ensures Nodes(u) !! Nodes(tm) && others !! Nodes(u)
  {
    NodesAllocated(tx);
    e.left := x;
    u := BinTree(e, t.op, tx, t.right);
  }

  method LinkRight(e: Node, x: Node, ghost t: Tree, ghost tx: Tree, ghost tm: Tree, ghost others: set<Node>)
    returns (ghost u: Tree)
    requires t.BinTree? && t.node == e && e.kind == BinNode(t.op) && e.left == t.left.node && e !in Nodes(t.left)
    requires Linked(t.left) && Linked(tx) && Linked(tm) && x == tx.node
    requires others + {e} + Nodes(t.left) !! Nodes(tx) && others + {e} + Nodes(t.left) !! Nodes(tm)
    requires Nodes(tx) !! Nodes(tm) && e !in others && others !! Nodes(t.left)
    modifies e
    ensures u == BinTree(e, t.op, t.left, tx) && Linked(u) && Linked(tm)
    ensures Nodes(u) !! Nodes(tm) && others !! Nodes(u)
  {
    NodesAllocated(tx);
    e.right := x;
    u := BinTree(e, t.op, t.left, tx);
  }

  // ----- expr_copy -----

  method Copy(e: Node, ghost t: Tree) returns (c: Node, ghost u: Tree)
    requires Linked(t) && e == t.node
    ensures Linked(u) && c == u.node && fresh(Nodes(u)) && ToExpr(u) == ToExpr(t)
    decreases t
  {
    NodesAllocated(t);
    match e.kind {
      case NotNode =>
        var a, ta := Copy(e.left, t.arg);
        NodesAllocated(ta);
        c := new Node(NotNode, a, null, e.lsym, e.rsym);
        u := NotTree(c, ta);
      case BinNode(op) =>
        var l, tl := Copy(e.left, t.left);
        NodesAllocated(tl);
        var r, tr := Copy(e.right, t.right);
        NodesAllocated(tr);
        c := new Node(e.kind, l, r, e.lsym, e.rsym);
        u := BinTree(c, op, tl, tr);
      case _ =>
        c := new Node(e.kind, e.left, e.right, e.lsym, e.rsym);
        u := Reroot(t, c);
    }
  }

  // ----- expr_eliminate_yn -----

  /** The node takes the place of one of its children. */
  method TakePlace(e: Node, o: Node, ghost t: Tree) returns (ghost u: Tree)
    requires Linked(t) && o == t.node && e !in Nodes(t)
    modifies e
    ensures Linked(u) && u == Reroot(t, e) && Nodes(u) <= Nodes(t) + {e}
  {
    NodesAllocated(t);
    e.Assign(o);
    u := Reroot(t, e);
  }

  method MakeSymbol(e: Node, s: Symbol) returns (ghost u: Tree)
    modifies e
    ensures Linked(u) && u == SymTree(e, s)
  {
    e.kind, e.lsym, e.right := SymNode, s, null;
    u := SymTree(e, s);
  }

  /** The tests for constants, both operands, once `x` and `y`, being folded already. */
  method FoldRoot(e: Node, ghost t: Tree, ghost x: Expr, ghost y: Expr) returns (ghost u: Tree)
    requires Linked(t) && e == t.node && t.BinTree?
    requires ToExpr(t.left) == EliminateYN(x) && ToExpr(t.right) == EliminateYN(y)
    modifies e
    ensures Linked(u) && e == u.node && Nodes(u) <= Nodes(t)
    ensures ToExpr(u) == EliminateYN(Bin(t.op, x, y))
  {
    NodesAllocated(t);
    u := t;
    if e.left.kind == SymNode {
      if e.left.lsym == Absorbing(e.kind.op) {
        u := MakeSymbol(e, Absorbing(e.kind.op));
        return;
      } else if e.left.lsym == Neutral(e.kind.op) {
        u := TakePlace(e, e.right, t.right);
        return;
      }
    }
    if e.right.kind == SymNode {
      if e.right.lsym == Absorbing(e.kind.op) {
        u := MakeSymbol(e, Absorbing(e.kind.op));
      } else if e.right.lsym == Neutral(e.kind.op) {
        u := TakePlace(e, e.left, t.left);
      }
    }
  }

  /** expr_eliminate_yn overwrites the nodes it is given. */
  method Fold(e: Node, ghost t: Tree) returns (ghost u: Tree)
    requires Linked(t) && e == t.node
    modifies Nodes(t)
    ensures Linked(u) && e == u.node && Nodes(u) <= Nodes(t)
    ensures ToExpr(u) == EliminateYN(ToExpr(t))
    decreases t
  {
    u := t;
    if e.kind.BinNode? {
      NodesAllocated(t);
      ghost var l := Fold(e.left, t.left);
      NodesAllocated(l);
      ghost var r := Fold(e.right, t.right);
      NodesAllocated(r);
      u := FoldRoot(e, BinTree(e, t.op, l, r), ToExpr(t.left), ToExpr(t.right));
    }
  }

  // ----- expr_trans_bool -----

  method MakeBool(e: Node, ghost t: Tree) returns (ghost u: Tree)
    requires Linked(t) && e == t.node
    modifies Nodes(t)
    ensures Linked(u) && e == u.node && Nodes(u) <= Nodes(t)
    ensures ToExpr(u) == TransBool(ToExpr(t))
    decreases t
  {
    u := t;
    NodesAllocated(t);
    match e.kind {
      case BinNode(op) =>
        ghost var l := MakeBool(e.left, t.left);
        NodesAllocated(l);
        ghost var r := MakeBool(e.right, t.right);
        u := BinTree(e, op, l, r);
      case NotNode =>
        ghost var a := MakeBool(e.left, t.arg);
        u := NotTree(e, a);
      case UnequalNode =>
        if e.lsym.Type() == TristateType && e.rsym == ConstNo {
          u := MakeSymbol(e, e.lsym);
        }
      case _ =>
    }
  }

  // ----- expr_transform -----

  /** A comparison of a boolean with a built-in constant. */
  method NormalizeComparison(e: Node, ghost t: Tree) returns (ghost u: Tree)
    requires Linked(t) && e == t.node && t.CmpTree?
    modifies e
    ensures Linked(u) && e == u.node && (forall n | n in Nodes(u) :: n == e || fresh(n))
            && ToExpr(u) == Transform(ToExpr(t))
  {
    u := t;
    if e.lsym.Type() != Boolean {
      return;
    }
    var equal := e.kind == EqualNode;
    if e.rsym == ConstMod {
      u := MakeSymbol(e, if equal then ConstNo else ConstYes);
    } else if e.rsym == (if equal then ConstYes else ConstNo) {
      u := MakeSymbol(e, e.lsym);
    } else if e.rsym == (if equal then ConstNo else ConstYes) {
      var n := new Node(SymNode, null, null, e.lsym, e.rsym);
      e.kind, e.left := NotNode, n;
      u := NotTree(e, SymTree(n, n.lsym));
    }
  }

  /** A NOT over a normal operand that is no list, and not a NOT. */
  method NormalizeNot(e: Node, a: Node, ghost ta: Tree) returns (r: Node, ghost u: Tree)
    requires Linked(ta) && a == ta.node && (ta.SymTree? || ta.CmpTree?) && e != a
    requires e.kind == NotNode && e.left == a && Transform(ToExpr(ta)) == ToExpr(ta)
    modifies a
    ensures Linked(u) && r == u.node && Nodes(u) <= {e, a} && ToExpr(u) == Transform(Not(ToExpr(ta)))
  {
    if a.kind == EqualNode || a.kind == UnequalNode {
      a.kind := if a.kind == EqualNode then UnequalNode else EqualNode;
      r, u := a, CmpTree(a, !ta.equal, ta.lhs, ta.rhs);
    } else if a.lsym == ConstYes || a.lsym == ConstMod || a.lsym == ConstNo {
      a.lsym := if a.lsym == ConstYes then ConstNo else if a.lsym == ConstNo then ConstYes else ConstMod;
      r, u := a, SymTree(a, a.lsym);
    } else {
      r, u := e, NotTree(e, ta);
    }
  }

  /** De Morgan's rules: the NOT becomes the list, the list becomes one NOT, and the
      other NOT is new. */
  method PushNot(e: Node, a: Node, op: Op, ghost ta: Tree) returns (ghost v: Tree)
    requires Linked(ta) && a == ta.node && a.kind == BinNode(op) && e !in Nodes(ta)
    requires e.kind == NotNode && e.left == a
    modifies e, a
    ensures Linked(v) && v.node == e && forall n | n in Nodes(v) :: n == e || n in Nodes(ta) || fresh(n)
    ensures ToExpr(v) == Bin(Dual(op), Not(ToExpr(ta.left)), Not(ToExpr(ta.right)))
    ensures Weight(ToExpr(v)) < 2 * Weight(ToExpr(ta))
  {
    NodesAllocated(ta);
    DeMorganLowersWeight(op, ToExpr(ta.left), ToExpr(ta.right));
    var n := new Node(NotNode, a.right, null, a.lsym, a.rsym);
    e.kind, e.right := BinNode(Dual(op)), n;
    a.kind, a.right := NotNode, null;
    v := BinTree(e, Dual(op), NotTree(a, ta.left), NotTree(n, ta.right));
  }

  /** A NOT whose operand is transformed already. */
  method NormalizeUnder(e: Node, ghost t: Tree) returns (r: Node, ghost u: Tree)
    requires Linked(t) && e == t.node && t.NotTree? && Transform(ToExpr(t.arg)) == ToExpr(t.arg)
    modifies Nodes(t)
    ensures Linked(u) && r == u.node && (forall n | n in Nodes(u) :: n in Nodes(t) || fresh(n))
            && ToExpr(u) == Transform(ToExpr(t))
    decreases Weight(ToExpr(t)), 0
  {
    NodesAllocated(t);
    var a := e.left;
    match a.kind {
      case NotNode =>
        r, u := Normalize(a.left, t.arg.arg);
      case BinNode(op) =>
        ghost var v := PushNot(e, a, op, t.arg);
        NodesAllocated(v);
        r, u := Normalize(e, v);
      case _ =>
        r, u := NormalizeNot(e, a, t.arg);
    }
  }

  /** expr_transform: nodes are overwritten, dropped, and one node is added for each
      list under a NOT. */
  method Normalize(e: Node, ghost t: Tree) returns (r: Node, ghost u: Tree)
    requires Linked(t) && e == t.node
    modifies Nodes(t)
    ensures Linked(u) && r == u.node && (forall n | n in Nodes(u) :: n in Nodes(t) || fresh(n))
            && ToExpr(u) == Transform(ToExpr(t))
    decreases Weight(ToExpr(t)), 1
  {
    r, u := e, t;
    NodesAllocated(t);
    match e.kind {
      case SymNode =>
      case EqualNode =>
        u := NormalizeComparison(e, t);
      case UnequalNode =>
        u := NormalizeComparison(e, t);
      case BinNode(op) =>
        u := NormalizeList(e, t);
      case NotNode =>
        var a, ta := Normalize(e.left, t.arg);
        NodesAllocated(ta);
        e.left := a;
        TransformIdempotent(ToExpr(t.arg));
        ghost var v := NotTree(e, ta);
        r, u := NormalizeUnder(e, v);
    }
  }

  /** Both operands of a list. */
  method NormalizeList(e: Node, ghost t: Tree) returns (ghost u: Tree)
    requires Linked(t) && e == t.node && t.BinTree?
    modifies Nodes(t)
    ensures Linked(u) && e == u.node && (forall n | n in Nodes(u) :: n in Nodes(t) || fresh(n))
            && ToExpr(u) == Transform(ToExpr(t))
    decreases Weight(ToExpr(t)), 0, 1
  {
    u := NormalizeLeft(e, t);
    NodesAllocated(u);
    u := NormalizeRight(e, u, t);
  }

  method NormalizeLeft(e: Node, ghost t: Tree) returns (ghost u: Tree)
    requires Linked(t) && e == t.node && t.BinTree?
    modifies Nodes(t)
    ensures Linked(u) && u.BinTree? && u.node == e && u.op == t.op && u.right == t.right
    ensures From(t, u) && ToExpr(u.left) == Transform(ToExpr(t.left))
    decreases Weight(ToExpr(t)), 0, 0
  {
    NodesAllocated(t);
    var left, tl := Normalize(e.left, t.left);
    NodesAllocated(tl);
    e.left := left;
    u := BinTree(e, t.op, tl, t.right);
  }

  /** The tree was `old_` before its left operand was transformed. */
  method NormalizeRight(e: Node, ghost t: Tree, ghost old_: Tree) returns (ghost u: Tree)
    requires Linked(t) && e == t.node && t.BinTree? && old_.BinTree? && t.op == old_.op && t.right == old_.right
    requires ToExpr(t.left) == Transform(ToExpr(old_.left))
    modifies Nodes(t)
    ensures Linked(u) && u.node == e && From(t, u) && ToExpr(u) == Transform(ToExpr(old_))
    decreases Weight(ToExpr(old_)), 0, 0
  {
    NodesAllocated(t);
    var right, tr := Normalize(e.right, t.right);
    NodesAllocated(tr);
    e.right := right;
    u := BinTree(e, t.op, t.left, tr);
  }

  /** `u` consists of nodes of `t` and new ones. */
  twostate predicate From(t: Tree, new u: Tree) {
    forall n | n in Nodes(u) :: n in Nodes(t) || fresh(n)
  }

  // ----- expr_eq and expr_eliminate_eq -----

  /** expr_eq: lists are compared by eliminating what their copies have in common. */
  method Same(e1: Node, e2: Node, ghost t1: Tree, ghost t2: Tree) returns (eq: bool)
    requires Linked(t1) && Linked(t2) && e1 == t1.node && e2 == t2.node
    ensures eq == ExprEq(ToExpr(t1), ToExpr(t2))
    decreases Size(ToExpr(t1)) + Size(ToExpr(t2)), 2
  {
    if e1.kind != e2.kind {
      return false;
    }
    match e1.kind {
      case SymNode =>
        return e1.lsym == e2.lsym;
      case NotNode =>
        eq := Same(e1.left, e2.left, t1.arg, t2.arg);
      case BinNode(_) =>
        NodesAllocated(t2);
        var c1, u1 := Copy(e1, t1);
        NodesAllocated(u1);
        var c2, u2 := Copy(e2, t2);
        var r1, r2, v1, v2 := Cancel(c1, c2, u1, u2);
        eq := r1.kind == SymNode && r2.kind == SymNode && r1.lsym == r2.lsym;
      case _ =>
        return e1.lsym == e2.lsym && e1.rsym == e2.rsym;
    }
  }

  /** expr_eliminate_eq. */
  method Cancel(e1: Node, e2: Node, ghost t1: Tree, ghost t2: Tree)
    returns (r1: Node, r2: Node, ghost u1: Tree, ghost u2: Tree)
    requires Linked(t1) && Linked(t2) && e1 == t1.node && e2 == t2.node && Nodes(t1) !! Nodes(t2)
    modifies Nodes(t1), Nodes(t2)
    ensures Linked(u1) && Linked(u2) && r1 == u1.node && r2 == u2.node && Nodes(u1) !! Nodes(u2)
    ensures From(t1, u1) && From(t2, u2)
    ensures (ToExpr(u1), ToExpr(u2)) == EliminateEq(ToExpr(t1), ToExpr(t2))
    decreases Size(ToExpr(t1)) + Size(ToExpr(t2)), 1, 1
  {
    r1, r2, u1, u2 := CancelPasses(e1, e2, t1, t2);
    NodesAllocated(u1);
    NodesAllocated(u2);
    u1, u2 := FoldBoth(r1, r2, u1, u2);
  }

  /** Both expressions before constants are folded. */
  ghost function Passes(e1: Expr, e2: Expr): (Expr, Expr) {
    var (a, b) := if e1.Bin? then EliminatePass(e1.op, e1, e2) else (e1, e2);
    if TypeOf(a) != TypeOf(b) && b.Bin? then EliminatePass(b.op, a, b) else (a, b)
  }

  method CancelPasses(e1: Node, e2: Node, ghost t1: Tree, ghost t2: Tree)
    returns (r1: Node, r2: Node, ghost u1: Tree, ghost u2: Tree)
    requires Linked(t1) && Linked(t2) && e1 == t1.node && e2 == t2.node && Nodes(t1) !! Nodes(t2)
    modifies Nodes(t1), Nodes(t2)
    ensures Linked(u1) && Linked(u2) && r1 == u1.node && r2 == u2.node && Nodes(u1) !! Nodes(u2)
    ensures From(t1, u1) && From(t2, u2)
    ensures (ToExpr(u1), ToExpr(u2)) == Passes(ToExpr(t1), ToExpr(t2))
    decreases Size(ToExpr(t1)) + Size(ToExpr(t2)), 1, 0
  {
    r1, r2, u1, u2 := e1, e2, t1, t2;
    NodesAllocated(t1);
    NodesAllocated(t2);
    if e1.kind.BinNode? {
      r1, r2, u1, u2 := CancelPass(e1.kind.op, e1, e2, t1, t2, {});
      NodesAllocated(u1);
      NodesAllocated(u2);
    }
    if r1.kind != r2.kind && r2.kind.BinNode? {
      r1, r2, u1, u2 := CancelPass(r2.kind.op, r1, r2, u1, u2, {});
    }
  }

  method FoldBoth(e1: Node, e2: Node, ghost t1: Tree, ghost t2: Tree) returns (ghost u1: Tree, ghost u2: Tree)
    requires Linked(t1) && Linked(t2) && e1 == t1.node && e2 == t2.node && Nodes(t1) !! Nodes(t2)
    modifies Nodes(t1), Nodes(t2)
    ensures Linked(u1) && Linked(u2) && e1 == u1.node && e2 == u2.node
    ensures Nodes(u1) <= Nodes(t1) && Nodes(u2) <= Nodes(t2)
    ensures ToExpr(u1) == EliminateYN(ToExpr(t1)) && ToExpr(u2) == EliminateYN(ToExpr(t2))
  {
    NodesAllocated(t1);
    NodesAllocated(t2);
    u1 := Fold(e1, t1);
    NodesAllocated(u1);
    u2 := Fold(e2, t2);
  }

  /** __expr_eliminate_eq. */
  method CancelPass(op: Op, e1: Node, e2: Node, ghost t1: Tree, ghost t2: Tree, ghost others: set<Node>)
    returns (r1: Node, r2: Node, ghost u1: Tree, ghost u2: Tree)
    requires Linked(t1) && Linked(t2) && e1 == t1.node && e2 == t2.node && Nodes(t1) !! Nodes(t2)
    requires others !! Nodes(t1) && others !! Nodes(t2)
    modifies Nodes(t1), Nodes(t2)
    ensures Linked(u1) && Linked(u2) && r1 == u1.node && r2 == u2.node && Nodes(u1) !! Nodes(u2)
    ensures From(t1, u1) && From(t2, u2) && others !! Nodes(u1) && others !! Nodes(u2)
    ensures (ToExpr(u1), ToExpr(u2)) == EliminatePass(op, ToExpr(t1), ToExpr(t2))
    decreases Size(ToExpr(t1)) + Size(ToExpr(t2)), if IsOp(op, ToExpr(t1)) || IsOp(op, ToExpr(t2)) then 0 else 3, 2
  {
    if e1.kind == BinNode(op) {
      r1, r2, u1, u2 := CancelFirst(op, e1, e2, t1, t2, others);
    } else if e2.kind == BinNode(op) {
      r1, r2, u1, u2 := CancelSecond(op, e1, e2, t1, t2, others);
    } else {
      r1, r2, u1, u2 := CancelLeaves(op, e1, e2, t1, t2, others);
    }
  }

  lemma PassOfFirst(op: Op, l: Expr, r: Expr, e2: Expr)
    ensures var (l', m) := EliminatePass(op, l, e2);
            var (r', n) := EliminatePass(op, r, m);
            EliminatePass(op, Bin(op, l, r), e2) == (Bin(op, l', r'), n)
  {
  }

  lemma PassOfSecond(op: Op, e1: Expr, l: Expr, r: Expr)
    requires !IsOp(op, e1)
    ensures var (m, l') := EliminatePass(op, e1, l);
            var (n, r') := EliminatePass(op, m, r);
            EliminatePass(op, e1, Bin(op, l, r)) == (n, Bin(op, l', r'))
  {
  }

  /** The left operand of the first expression, a list of the operator. */
  method CancelFirstLeft(op: Op, e1: Node, e2: Node, ghost t1: Tree, ghost t2: Tree, ghost others: set<Node>)
    returns (m: Node, ghost u: Tree, ghost tm: Tree)
    requires Linked(t1) && Linked(t2) && e1 == t1.node && e2 == t2.node && Nodes(t1) !! Nodes(t2)
    requires others !! Nodes(t1) && others !! Nodes(t2)
    requires e1.kind == BinNode(op)
    modifies Nodes(t1), Nodes(t2)
    ensures Linked(u) && Linked(tm) && u.BinTree? && u.node == e1 && u.op == op && u.right == t1.right
    ensures m == tm.node && Nodes(u) !! Nodes(tm) && From(t1, u) && From(t2, tm)
    ensures others !! Nodes(u) && others !! Nodes(tm)
    ensures (ToExpr(u.left), ToExpr(tm)) == EliminatePass(op, ToExpr(t1.left), ToExpr(t2))
    decreases Size(ToExpr(t1)) + Size(ToExpr(t2)), 0, 0
  {
    NodesAllocated(t1);
    NodesAllocated(t2);
    var x;
    ghost var tx;
    x, m, tx, tm := CancelPass(op, e1.left, e2, t1.left, t2, others + {e1} + Nodes(t1.right));
    NodesAllocated(tx);
    NodesAllocated(tm);
    u := LinkLeft(e1, x, t1, tx, tm, others);
  }

  /** Its right operand. */
  method CancelFirstRight(op: Op, e1: Node, e2: Node, ghost t1: Tree, ghost t2: Tree, ghost others: set<Node>)
    returns (m: Node, ghost u: Tree, ghost tm: Tree)
    requires Linked(t1) && Linked(t2) && e1 == t1.node && e2 == t2.node && Nodes(t1) !! Nodes(t2)
    requires others !! Nodes(t1) && others !! Nodes(t2)
    requires e1.kind == BinNode(op)
    modifies Nodes(t1), Nodes(t2)
    ensures Linked(u) && Linked(tm) && u.BinTree? && u.node == e1 && u.op == op && u.left == t1.left
    ensures m == tm.node && Nodes(u) !! Nodes(tm) && From(t1, u) && From(t2, tm)
    ensures others !! Nodes(u) && others !! Nodes(tm)
    ensures (ToExpr(u.right), ToExpr(tm)) == EliminatePass(op, ToExpr(t1.right), ToExpr(t2))
    decreases Size(ToExpr(t1)) + Size(ToExpr(t2)), 0, 0
  {
    NodesAllocated(t1);
    NodesAllocated(t2);
    var x;
    ghost var tx;
    x, m, tx, tm := CancelPass(op, e1.right, e2, t1.right, t2, others + {e1} + Nodes(t1.left));
    NodesAllocated(tx);
    NodesAllocated(tm);
    u := LinkRight(e1, x, t1, tx, tm, others);
  }

  method CancelFirst(op: Op, e1: Node, e2: Node, ghost t1: Tree, ghost t2: Tree, ghost others: set<Node>)
    returns (r1: Node, r2: Node, ghost u1: Tree, ghost u2: Tree)
    requires Linked(t1) && Linked(t2) && e1 == t1.node && e2 == t2.node && Nodes(t1) !! Nodes(t2)
    requires others !! Nodes(t1) && others !! Nodes(t2)
    requires e1.kind == BinNode(op)
    modifies Nodes(t1), Nodes(t2)
    ensures Linked(u1) && Linked(u2) && r1 == u1.node && r2 == u2.node && Nodes(u1) !! Nodes(u2)
    ensures From(t1, u1) && From(t2, u2) && others !! Nodes(u1) && others !! Nodes(u2)
    ensures (ToExpr(u1), ToExpr(u2)) == EliminatePass(op, ToExpr(t1), ToExpr(t2))
    decreases Size(ToExpr(t1)) + Size(ToExpr(t2)), 0, 1
  {
    PassOfFirst(op, ToExpr(t1.left), ToExpr(t1.right), ToExpr(t2));
    var m, u, tm := CancelFirstLeft(op, e1, e2, t1, t2, others);
    NodesAllocated(u);
    NodesAllocated(tm);
    r1 := e1;
    r2, u1, u2 := CancelFirstRight(op, e1, m, u, tm, others);
  }

  /** The left operand of the second expression, a list of the operator. */
  method CancelSecondLeft(op: Op, e1: Node, e2: Node, ghost t1: Tree, ghost t2: Tree, ghost others: set<Node>)
    returns (m: Node, ghost u: Tree, ghost tm: Tree)
    requires Linked(t1) && Linked(t2) && e1 == t1.node && e2 == t2.node && Nodes(t1) !! Nodes(t2)
    requires others !! Nodes(t1) && others !! Nodes(t2)
    requires e2.kind == BinNode(op)
    modifies Nodes(t1), Nodes(t2)
    ensures Linked(u) && Linked(tm) && u.BinTree? && u.node == e2 && u.op == op && u.right == t2.right
    ensures m == tm.node && Nodes(u) !! Nodes(tm) && From(t2, u) && From(t1, tm)
    ensures others !! Nodes(u) && others !! Nodes(tm)
    ensures (ToExpr(tm), ToExpr(u.left)) == EliminatePass(op, ToExpr(t1), ToExpr(t2.left))
    decreases Size(ToExpr(t1)) + Size(ToExpr(t2)), 0, 0
  {
    NodesAllocated(t1);
    NodesAllocated(t2);
    var x;
    ghost var tx;
    m, x, tm, tx := CancelPass(op, e1, e2.left, t1, t2.left, others + {e2} + Nodes(t2.right));
    NodesAllocated(tx);
    NodesAllocated(tm);
    u := LinkLeft(e2, x, t2, tx, tm, others);
  }

  /** Its right operand. */
  method CancelSecondRight(op: Op, e1: Node, e2: Node, ghost t1: Tree, ghost t2: Tree, ghost others: set<Node>)
    returns (m: Node, ghost u: Tree, ghost tm: Tree)
    requires Linked(t1) && Linked(t2) && e1 == t1.node && e2 == t2.node && Nodes(t1) !! Nodes(t2)
    requires others !! Nodes(t1) && others !! Nodes(t2)
    requires e2.kind == BinNode(op)
    modifies Nodes(t1), Nodes(t2)
    ensures Linked(u) && Linked(tm) && u.BinTree? && u.node == e2 && u.op == op && u.left == t2.left
    ensures m == tm.node && Nodes(u) !! Nodes(tm) && From(t2, u) && From(t1, tm)
    ensures others !! Nodes(u) && others !! Nodes(tm)
    ensures (ToExpr(tm), ToExpr(u.right)) == EliminatePass(op, ToExpr(t1), ToExpr(t2.right))
    decreases Size(ToExpr(t1)) + Size(ToExpr(t2)), 0, 0
  {
    NodesAllocated(t1);
    NodesAllocated(t2);
    var x;
    ghost var tx;
    m, x, tm, tx := CancelPass(op, e1, e2.right, t1, t2.right, others + {e2} + Nodes(t2.left));
    NodesAllocated(tx);
    NodesAllocated(tm);
    u := LinkRight(e2, x, t2, tx, tm, others);
  }

  method CancelSecond(op: Op, e1: Node, e2: Node, ghost t1: Tree, ghost t2: Tree, ghost others: set<Node>)
    returns (r1: Node, r2: Node, ghost u1: Tree, ghost u2: Tree)
    requires Linked(t1) && Linked(t2) && e1 == t1.node && e2 == t2.node && Nodes(t1) !! Nodes(t2)
    requires others !! Nodes(t1) && others !! Nodes(t2)
    requires e1.kind != BinNode(op) && e2.kind == BinNode(op)
    modifies Nodes(t1), Nodes(t2)
    ensures Linked(u1) && Linked(u2) && r1 == u1.node && r2 == u2.node && Nodes(u1) !! Nodes(u2)
    ensures From(t1, u1) && From(t2, u2) && others !! Nodes(u1) && others !! Nodes(u2)
    ensures (ToExpr(u1), ToExpr(u2)) == EliminatePass(op, ToExpr(t1), ToExpr(t2))
    decreases Size(ToExpr(t1)) + Size(ToExpr(t2)), 0, 1
  {
    PassOfSecond(op, ToExpr(t1), ToExpr(t2.left), ToExpr(t2.right));
    var m, u, tm := CancelSecondLeft(op, e1, e2, t1, t2, others);
    NodesAllocated(u);
    NodesAllocated(tm);
    r2 := e2;
    r1, u2, u1 := CancelSecondRight(op, m, e2, tm, u, others);
  }

  /** Two members that are no lists of the operator. */
  method CancelLeaves(op: Op, e1: Node, e2: Node, ghost t1: Tree, ghost t2: Tree, ghost others: set<Node>)
    returns (r1: Node, r2: Node, ghost u1: Tree, ghost u2: Tree)
    requires Linked(t1) && Linked(t2) && e1 == t1.node && e2 == t2.node && Nodes(t1) !! Nodes(t2)
    requires others !! Nodes(t1) && others !! Nodes(t2)
    requires !IsOp(op, ToExpr(t1)) && !IsOp(op, ToExpr(t2))
    ensures Linked(u1) && Linked(u2) && r1 == u1.node && r2 == u2.node && Nodes(u1) !! Nodes(u2)
    ensures From(t1, u1) && From(t2, u2) && others !! Nodes(u1) && others !! Nodes(u2)
    ensures (ToExpr(u1), ToExpr(u2)) == EliminatePass(op, ToExpr(t1), ToExpr(t2))
    decreases Size(ToExpr(t1)) + Size(ToExpr(t2)), 3, 0
  {
    r1, r2, u1, u2 := e1, e2, t1, t2;
    if e1.kind == SymNode && e2.kind == SymNode && e1.lsym == e2.lsym && (e1.lsym == ConstYes || e1.lsym == ConstNo) {
      return;
    }
    NodesAllocated(t1);
    NodesAllocated(t2);
    var eq := Same(e1, e2, t1, t2);
    if eq {
      r1 := new Node(SymNode, null, null, Neutral(op), Neutral(op));
      r2 := new Node(SymNode, null, null, Neutral(op), Neutral(op));
      u1, u2 := SymTree(r1, Neutral(op)), SymTree(r2, Neutral(op));
    }
  }
}
