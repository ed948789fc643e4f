/** Addresses inside an OR or AND list.

    expr_eliminate_dups1 and _dups2 are called with two pointers into the same tree, often with
    the same one twice, and write through both.  A path from the root of the list plays the
    part of such a pointer: two pointers are equal exactly when their paths are. */
module KconfigPath {
  import opened KconfigExpr

  datatype Side = L | R

  type Path = seq<Side>

  function Child(e: Expr, s: Side): Expr
    requires e.IsBinary()
  {
    if s.L? then e.lhs else e.rhs
  }

  /** Every node of e above the one at p is an op node. */
  predicate InList(op: Op, e: Expr, p: Path) {
    p == [] || (IsOp(op, e) && InList(op, Child(e, p[0]), p[1..]))
  }

  /** *ep */
  function At(op: Op, e: Expr, p: Path): Expr
    requires InList(op, e, p)
  {
    if p == [] then e else At(op, Child(e, p[0]), p[1..])
  }

  /** *ep = x */
  function Put(op: Op, e: Expr, p: Path, x: Expr): Expr
    requires InList(op, e, p)
  {
    if p == [] then x
    else if p[0].L? then Make(op, Put(op, e.lhs, p[1..], x), e.rhs)
    else Make(op, e.lhs, Put(op, e.rhs, p[1..], x))
  }

  /** The op nodes of a list, with its terms forgotten. */
  datatype Shape = Term | Fork(l: Shape, r: Shape)

  function ShapeOf(op: Op, e: Expr): Shape {
    if IsOp(op, e) then Fork(ShapeOf(op, e.lhs), ShapeOf(op, e.rhs)) else Term
  }

  function Nodes(s: Shape): (n: nat)
    ensures n >= 1
  {
    match s case Term => 1 case Fork(l, r) => 1 + Nodes(l) + Nodes(r)
  }

  /** Rewriting a term keeps every other address valid and every other term in place. */
  lemma {:induction false} PutTerm(op: Op, e: Expr, p: Path, x: Expr)
    requires InList(op, e, p) && ShapeOf(op, x) == ShapeOf(op, At(op, e, p))
    ensures ShapeOf(op, Put(op, e, p, x)) == ShapeOf(op, e)
    ensures InList(op, Put(op, e, p, x), p) && At(op, Put(op, e, p, x), p) == x
    ensures Size(Put(op, e, p, x)) + Size(At(op, e, p)) == Size(e) + Size(x)
    ensures p != [] ==> IsOp(op, e) && Size(At(op, e, p)) < Size(e)
  {
    if p != [] {
      PutTerm(op, Child(e, p[0]), p[1..], x);
    }
  }

  lemma {:induction false} PutElsewhere(op: Op, e: Expr, p: Path, x: Expr, q: Path)
    requires InList(op, e, p) && InList(op, e, q) && p != q
    requires !IsOp(op, At(op, e, p)) && !IsOp(op, At(op, e, q)) && !IsOp(op, x)
    ensures InList(op, Put(op, e, p, x), q) && At(op, Put(op, e, p, x), q) == At(op, e, q)
  {
    if p != [] && q != [] && p[0] == q[0] {
      PutElsewhere(op, Child(e, p[0]), p[1..], x, q[1..]);
    }
  }

  lemma {:induction false} SameShapeAt(op: Op, a: Expr, b: Expr, p: Path)
    requires ShapeOf(op, a) == ShapeOf(op, b) && InList(op, a, p)
    ensures InList(op, b, p) && ShapeOf(op, At(op, a, p)) == ShapeOf(op, At(op, b, p))
  {
    if p != [] {
      SameShapeAt(op, Child(a, p[0]), Child(b, p[0]), p[1..]);
    }
  }

  lemma {:induction false} Extend(op: Op, e: Expr, p: Path, s: Side)
    requires InList(op, e, p) && IsOp(op, At(op, e, p))
    ensures InList(op, e, p + [s]) && At(op, e, p + [s]) == Child(At(op, e, p), s)
  {
    if p == [] {
      assert [s][1..] == [];
    } else {
      assert (p + [s])[1..] == p[1..] + [s];
      Extend(op, Child(e, p[0]), p[1..], s);
    }
  }

  /** The value of a list without the part at p. */
  function Others(op: Op, e: Expr, p: Path, v: Valuation): Tristate
    requires InList(op, e, p)
  {
    if p == [] then UnitValue(op)
    else if p[0].L? then Join(op, Others(op, e.lhs, p[1..], v), Eval(e.rhs, v))
    else Join(op, Eval(e.lhs, v), Others(op, e.rhs, p[1..], v))
  }

  lemma {:induction false} EvalAt(op: Op, e: Expr, p: Path, v: Valuation)
    requires InList(op, e, p)
    ensures Eval(e, v) == Join(op, Eval(At(op, e, p), v), Others(op, e, p, v))
  {
    if p != [] {
      EvalAt(op, Child(e, p[0]), p[1..], v);
    }
  }

  /** One operator above a term: its other operand joins the others. */
  lemma OthersStep(op: Op, e: Expr, p: Path, v: Valuation, x: Tristate)
    requires InList(op, e, p) && p != []
    requires Eval(Child(e, p[0]), v) == Join(op, x, Others(op, Child(e, p[0]), p[1..], v))
    ensures Eval(e, v) == Join(op, x, Others(op, e, p, v))
  {
  }

  lemma {:induction false} OthersPut(op: Op, e: Expr, p: Path, x: Expr, v: Valuation)
    requires InList(op, e, p)
    ensures InList(op, Put(op, e, p, x), p)
    ensures Others(op, Put(op, e, p, x), p, v) == Others(op, e, p, v)
    ensures Eval(Put(op, e, p, x), v) == Join(op, Eval(x, v), Others(op, e, p, v))
  {
    if p != [] {
      OthersPut(op, Child(e, p[0]), p[1..], x, v);
      OthersStep(op, Put(op, e, p, x), p, v, Eval(x, v));
    }
  }

  /** Replacing two terms by the neutral constant and their join keeps the value of the list. */
  lemma MergeTerms(op: Op, e: Expr, p: Path, q: Path, t: Expr, v: Valuation)
    requires InList(op, e, p) && InList(op, e, q) && p != q
    requires !IsOp(op, At(op, e, p)) && !IsOp(op, At(op, e, q))
    requires Eval(t, v) == Join(op, Eval(At(op, e, p), v), Eval(At(op, e, q), v))
    requires v.Valid()
    ensures InList(op, Put(op, e, p, Unit(op)), q)
    ensures Eval(Put(op, Put(op, e, p, Unit(op)), q, t), v) == Eval(e, v)
  {
    var e1 := Put(op, e, p, Unit(op));
    PutElsewhere(op, e, p, Unit(op), q);
    EvalAt(op, e, p, v);
    OthersPut(op, e, p, Unit(op), v);
    EvalAt(op, e1, q, v);
    OthersPut(op, e1, q, t, v);
  }
}
