/** expr_eq answers true for every expression compared with a copy of itself. */
module KconfigEqReflexive {
  import opened KconfigExpr
  import opened KconfigEq

  predicate IsYn(e: Expr) { e.Symbol? && e.sym.IsYesOrNo() }

  /** e with every term that is not y or n replaced by the neutral constant. */
  function Blank(op: Op, e: Expr): Expr {
    if IsOp(op, e) then Make(op, Blank(op, e.lhs), Blank(op, e.rhs))
    else if IsYn(e) then e
    else Unit(op)
  }

  predicate AllYn(op: Op, e: Expr) {
    if IsOp(op, e) then AllYn(op, e.lhs) && AllYn(op, e.rhs) else IsYn(e)
  }

  lemma {:induction false} BlankAllYn(op: Op, e: Expr)
    ensures AllYn(op, Blank(op, e))
    ensures IsYn(EliminateYn(Blank(op, e)))
  {
    if IsOp(op, e) {
      BlankAllYn(op, e.lhs);
      BlankAllYn(op, e.rhs);
    }
  }

  /** A y or n is never eliminated against anything, on either side. */
  lemma {:induction false} YnStays(op: Op, x: Expr, f: Expr)
    requires IsYn(x) || (AllYn(op, f) && !IsOp(op, x))
    ensures EliminatePass(op, x, f) == (x, f)
    decreases f
  {
    if IsOp(op, f) {
      YnStays(op, x, f.lhs);
      YnStays(op, x, f.rhs);
    }
  }

  /** f contains x, everything to the left of that occurrence is y or n, and g is f with the
      occurrence blanked. */
  predicate Blanked(op: Op, x: Expr, f: Expr, g: Expr) {
    || (f == x && g == Blank(op, x))
    || (IsOp(op, f) && IsOp(op, g) && f.rhs == g.rhs && Blanked(op, x, f.lhs, g.lhs))
    || (IsOp(op, f) && IsOp(op, g) && f.lhs == g.lhs && AllYn(op, f.lhs) && Blanked(op, x, f.rhs, g.rhs))
  }

  /** Blanking an operator node is blanking its left operand and then its right one. */
  lemma {:induction false} BlankedByHalves(op: Op, x: Expr, f: Expr, g: Expr) returns (h: Expr)
    requires IsOp(op, x) && Blanked(op, x, f, g)
    ensures Blanked(op, x.lhs, f, h) && Blanked(op, x.rhs, h, g)
    decreases f
  {
    if f == x && g == Blank(op, x) {
      h := Make(op, Blank(op, x.lhs), x.rhs);
      BlankAllYn(op, x.lhs);
      assert Blanked(op, x.lhs, f.lhs, h.lhs);
      assert Blanked(op, x.rhs, h.rhs, g.rhs);
    } else if f.rhs == g.rhs && Blanked(op, x, f.lhs, g.lhs) {
      var h' := BlankedByHalves(op, x, f.lhs, g.lhs);
      h := Make(op, h', f.rhs);
    } else {
      var h' := BlankedByHalves(op, x, f.rhs, g.rhs);
      h := Make(op, f.lhs, h');
    }
  }

  /** Eliminating x against a tree that contains x blanks both. */
  lemma {:induction false} PassBlanks(op: Op, x: Expr, f: Expr, g: Expr)
    requires Blanked(op, x, f, g)
    ensures EliminatePass(op, x, f) == (Blank(op, x), g)
    decreases Size(x), if IsOp(op, x) then 0 else 2, Size(f)
  {
    if IsOp(op, x) {
      var h := BlankedByHalves(op, x, f, g);
      PassBlanks(op, x.lhs, f, h);
      PassBlanks(op, x.rhs, h, g);
    } else if f == x && g == Blank(op, x) {
      ExprEqReflexive(x);
    } else if f.rhs == g.rhs && Blanked(op, x, f.lhs, g.lhs) {
      PassBlanks(op, x, f.lhs, g.lhs);
      YnStays(op, Blank(op, x), f.rhs);
    } else {
      YnStays(op, x, f.lhs);
      PassBlanks(op, x, f.rhs, g.rhs);
    }
  }

  lemma {:induction false} ExprEqReflexive(e: Expr)
    ensures ExprEq(e, e)
    decreases Size(e), 1
  {
    if e.Not? {
      ExprEqReflexive(e.arg);
    } else if e.IsBinary() {
      var op := OpOf(e);
      PassBlanks(op, e, e, Blank(op, e));
      BlankAllYn(op, e);
    }
  }
}
