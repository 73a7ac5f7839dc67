/** The three-valued logic of expr.h: n < m < y, with minimum, maximum and
    complement as conjunction, disjunction and negation. */
module Tristate {

  type Tri = t: int | 0 <= t <= 2

  const NO: Tri := 0
  const MOD: Tri := 1
  const YES: Tri := 2

  function And(a: Tri, b: Tri): Tri {
    if a < b then a else b
  }

  function Or(a: Tri, b: Tri): Tri {
    if a > b then a else b
  }

  function Complement(a: Tri): Tri {
    2 - a
  }

  /** The two binary connectives share one code path in the source, which passes
      the node type around as a parameter. */
  datatype Op = AndOp | OrOp

  function Dual(op: Op): Op {
    if op == AndOp then OrOp else AndOp
  }

  function Apply(op: Op, a: Tri, b: Tri): Tri {
    if op == AndOp then And(a, b) else Or(a, b)
  }

  /** `new` keeps every definite value of `old`; only m may become definite. */
  predicate Sharpens(old_: Tri, new_: Tri) {
    old_ == new_ || old_ == MOD
  }

  lemma ApplyExchange(op: Op, a: Tri, b: Tri, c: Tri, d: Tri)
    ensures Apply(op, Apply(op, a, c), Apply(op, b, d)) == Apply(op, Apply(op, a, b), Apply(op, c, d))
  {
  }

  lemma ApplyAssociative(op: Op, a: Tri, b: Tri, c: Tri)
    ensures Apply(op, Apply(op, a, b), c) == Apply(op, a, Apply(op, b, c))
  {
  }

  lemma ApplyCommutes(op: Op, a: Tri, b: Tri)
    ensures Apply(op, a, b) == Apply(op, b, a)
  {
  }

  lemma SharpensCongruence(op: Op, a: Tri, b: Tri, x: Tri)
    requires Sharpens(a, b)
    ensures Sharpens(Apply(op, a, x), Apply(op, b, x))
    ensures Sharpens(Apply(op, x, a), Apply(op, x, b))
  {
  }

  /** Two parts taken out one after the other are one part taken out at once: `c`
      out of `l1` and `e2`, then `d` out of `r1` and what is left of `e2`. */
  lemma TwoParts(op: Op, l1: Tri, r1: Tri, e2: Tri, l: Tri, r: Tri, m: Tri, n: Tri, c: Tri, d: Tri, acc: Tri, x: Tri,
                 y: Tri)
    requires l1 == Apply(op, l, c) && e2 == Apply(op, m, c) && x == Apply(op, acc, c)
    requires r1 == Apply(op, r, d) && m == Apply(op, n, d) && y == Apply(op, x, d)
    ensures Apply(op, l1, r1) == Apply(op, Apply(op, l, r), Apply(op, c, d))
    ensures e2 == Apply(op, n, Apply(op, c, d)) && y == Apply(op, acc, Apply(op, c, d))
  {
    ApplyExchange(op, l, r, c, d);
    ApplyAssociative(op, n, d, c);
    ApplyCommutes(op, c, d);
    ApplyAssociative(op, acc, c, d);
  }

  /** A common context whose hole is y on one side transfers n to the other. */
  lemma ContextOfYes(op1: Op, c: Tri, op2: Op, d: Tri, x: Tri)
    requires Apply(op1, Apply(op2, YES, d), c) == NO
    ensures Apply(op1, Apply(op2, x, d), c) == NO
  {
  }

  lemma ApplyRotate(op: Op, a: Tri, b: Tri, c: Tri)
    ensures Apply(op, a, Apply(op, b, c)) == Apply(op, b, Apply(op, a, c))
  {
  }
}
