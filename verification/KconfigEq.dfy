/** expr_eq, expr_eliminate_eq and expr_extract_eq: what two expressions have in common.

    The two trees never share nodes here (expr_eq copies its arguments), so each pass is a
    function from two trees to two trees, and what it adds to trans_count is another. */
module KconfigEq {
  import opened KconfigExpr

  /** __expr_eliminate_eq: replace every pair of equal terms by the neutral constant, in both trees. */
  function EliminatePass(op: Op, e1: Expr, e2: Expr): (r: (Expr, Expr))
    ensures Size(r.0) <= Size(e1) && Size(r.1) <= Size(e2)
    ensures IsOp(op, r.0) == IsOp(op, e1) && IsOp(op, r.1) == IsOp(op, e2)
    ensures !IsOp(op, e1) ==> r.0 == e1 || r.0 == Unit(op)
    ensures !IsOp(op, e2) ==> r.1 == e2 || r.1 == Unit(op)
    decreases Size(e1) + Size(e2), if IsOp(op, e1) || IsOp(op, e2) then 0 else 4
  {
    if IsOp(op, e1) then
      var p := EliminatePass(op, e1.lhs, e2);
      var q := EliminatePass(op, e1.rhs, p.1);
      (Make(op, p.0, q.0), q.1)
    else if IsOp(op, e2) then
      var p := EliminatePass(op, e1, e2.lhs);
      var q := EliminatePass(op, p.0, e2.rhs);
      (q.0, Make(op, p.1, q.1))
    else if e1.Symbol? && e2.Symbol? && e1.sym == e2.sym && e1.sym.IsYesOrNo() then (e1, e2)
    else if !ExprEq(e1, e2) then (e1, e2)
    else (Unit(op), Unit(op))
  }

  /** expr_eliminate_eq up to its two calls of expr_eliminate_yn. */
  function EliminateCommon(e1: Expr, e2: Expr): (r: (Expr, Expr))
    decreases Size(e1) + Size(e2), 1
  {
    var p := if e1.IsBinary() then EliminatePass(OpOf(e1), e1, e2) else (e1, e2);
    if p.1.IsBinary() && !(p.0.IsBinary() && OpOf(p.0) == OpOf(p.1))
    then EliminatePass(OpOf(p.1), p.0, p.1)
    else p
  }

  /** expr_eliminate_eq */
  function EliminateEq(e1: Expr, e2: Expr): (r: (Expr, Expr))
    decreases Size(e1) + Size(e2), 2
  {
    var p := EliminateCommon(e1, e2);
    (EliminateYn(p.0), EliminateYn(p.1))
  }

  /** expr_eq */
  predicate ExprEq(e1: Expr, e2: Expr)
    decreases Size(e1) + Size(e2), 3
  {
    match (e1, e2)
    case (Equal(_, _), Equal(_, _)) => e1.left == e2.left && e1.right == e2.right
    case (Unequal(_, _), Unequal(_, _)) => e1.left == e2.left && e1.right == e2.right
    case (Symbol(s), Symbol(t)) => s == t
    case (Not(a), Not(b)) => ExprEq(a, b)
    case (And(_, _), And(_, _)) =>
      var r := EliminateEq(e1, e2);
      r.0.Symbol? && r.1.Symbol? && r.0.sym == r.1.sym
    case (Or(_, _), Or(_, _)) =>
      var r := EliminateEq(e1, e2);
      r.0.Symbol? && r.1.Symbol? && r.0.sym == r.1.sym
    case _ => false
  }

  // ---------------------------------------------------------------- soundness

  /** A pass splits one and the same value c off both trees. */
  ghost predicate Splits(op: Op, c: Tristate, before: (Expr, Expr), after: (Expr, Expr), v: Valuation) {
    && Eval(before.0, v) == Join(op, c, Eval(after.0, v))
    && Eval(before.1, v) == Join(op, c, Eval(after.1, v))
  }

  lemma JoinSplits(op: Op, c: Tristate, d: Tristate, a: Tristate, b: Tristate, e: Tristate)
    ensures Join(op, Join(op, c, a), Join(op, d, b)) == Join(op, Join(op, c, d), Join(op, a, b))
    ensures Join(op, c, Join(op, d, e)) == Join(op, Join(op, c, d), e)
    ensures Join(op, a, b) == Join(op, b, a) && Join(op, UnitValue(op), e) == e
    ensures Join(op, e, UnitValue(op)) == e
  {
  }

  lemma {:induction false} PassSplits(op: Op, e1: Expr, e2: Expr, v: Valuation) returns (c: Tristate)
    requires v.Valid()
    ensures Splits(op, c, (e1, e2), EliminatePass(op, e1, e2), v)
    decreases Size(e1) + Size(e2), if IsOp(op, e1) || IsOp(op, e2) then 0 else 4
  {
    if IsOp(op, e1) {
      c := LeftSplits(op, e1, e2, v);
    } else if IsOp(op, e2) {
      c := RightSplits(op, e1, e2, v);
    } else if EliminatePass(op, e1, e2) == (e1, e2) {
      c := UnitValue(op);
    } else {
      ExprEqSound(e1, e2, v);
      c := Eval(e1, v);
    }
  }

  lemma {:induction false} LeftSplits(op: Op, e1: Expr, e2: Expr, v: Valuation) returns (c: Tristate)
    requires v.Valid() && IsOp(op, e1)
    ensures Splits(op, c, (e1, e2), EliminatePass(op, e1, e2), v)
    decreases Size(e1) + Size(e2), 0, 0
  {
    var p := EliminatePass(op, e1.lhs, e2);
    var q := EliminatePass(op, e1.rhs, p.1);
    var c1 := PassSplits(op, e1.lhs, e2, v);
    var c2 := PassSplits(op, e1.rhs, p.1, v);
    c := Join(op, c1, c2);
    JoinSplits(op, c1, c2, Eval(p.0, v), Eval(q.0, v), Eval(q.1, v));
  }

  lemma {:induction false} RightSplits(op: Op, e1: Expr, e2: Expr, v: Valuation) returns (c: Tristate)
    requires v.Valid() && !IsOp(op, e1) && IsOp(op, e2)
    ensures Splits(op, c, (e1, e2), EliminatePass(op, e1, e2), v)
    decreases Size(e1) + Size(e2), 0, 0
  {
    var p := EliminatePass(op, e1, e2.lhs);
    var q := EliminatePass(op, p.0, e2.rhs);
    var c1 := PassSplits(op, e1, e2.lhs, v);
    var c2 := PassSplits(op, p.0, e2.rhs, v);
    c := Join(op, c1, c2);
    JoinSplits(op, c1, c2, Eval(p.1, v), Eval(q.1, v), Eval(q.0, v));
  }

  /** expr_eliminate_eq keeps the order of the two values visible: if the second tree becomes y
      (or the first becomes n), the first value was never above the second. */
  lemma {:induction false} CommonImplies(e1: Expr, e2: Expr, v: Valuation)
    requires v.Valid()
    ensures var r := EliminateCommon(e1, e2);
      && (Eval(r.0, v) == Eval(r.1, v) ==> Eval(e1, v) == Eval(e2, v))
      && (Eval(r.0, v) <= Eval(r.1, v) ==> Eval(e1, v) <= Eval(e2, v))
    decreases Size(e1) + Size(e2), 1
  {
    var p := if e1.IsBinary() then EliminatePass(OpOf(e1), e1, e2) else (e1, e2);
    if e1.IsBinary() {
      var _ := PassSplits(OpOf(e1), e1, e2, v);
    }
    if p.1.IsBinary() && !(p.0.IsBinary() && OpOf(p.0) == OpOf(p.1)) {
      var _ := PassSplits(OpOf(p.1), p.0, p.1, v);
    }
  }

  /** expr_eq answers true only for expressions with the same value under every valuation. */
  lemma {:induction false} ExprEqSound(e1: Expr, e2: Expr, v: Valuation)
    requires v.Valid() && ExprEq(e1, e2)
    ensures Eval(e1, v) == Eval(e2, v)
    decreases Size(e1) + Size(e2), 3
  {
    match (e1, e2)
    case (Not(a), Not(b)) => ExprEqSound(a, b, v);
    case (And(_, _), And(_, _)) => EqByElimination(e1, e2, v);
    case (Or(_, _), Or(_, _)) => EqByElimination(e1, e2, v);
    case _ =>
  }

  lemma EqByElimination(e1: Expr, e2: Expr, v: Valuation)
    requires v.Valid()
    requires var r := EliminateEq(e1, e2); r.0.Symbol? && r.1.Symbol? && r.0.sym == r.1.sym
    ensures Eval(e1, v) == Eval(e2, v)
    decreases Size(e1) + Size(e2), 2
  {
    var p := EliminateCommon(e1, e2);
    EliminateYnCorrect(p.0);
    EliminateYnCorrect(p.1);
    CommonImplies(e1, e2, v);
  }

  /** The menu test: when the copy of the base condition is reduced to y, the entry's condition
      is never above the base condition, whichever of the two passes ran. */
  lemma MenuTestSound(dep: Expr, base: Expr)
    requires EliminateEq(dep, base).1.IsYes()
    ensures forall v: Valuation | v.Valid() :: Eval(dep, v) <= Eval(base, v)
  {
    var p := EliminateCommon(dep, base);
    EliminateYnCorrect(p.1);
    forall v: Valuation | v.Valid()
      ensures Eval(dep, v) <= Eval(base, v)
    {
      CommonImplies(dep, base, v);
    }
  }

  // ---------------------------------------------------------------- the counter

  /** What __expr_eliminate_eq adds to trans_count. */
  function PassCount(op: Op, e1: Expr, e2: Expr): nat
    decreases Size(e1) + Size(e2)
  {
    if IsOp(op, e1) then
      PassCount(op, e1.lhs, e2) + PassCount(op, e1.rhs, EliminatePass(op, e1.lhs, e2).1)
    else if IsOp(op, e2) then
      PassCount(op, e1, e2.lhs) + PassCount(op, EliminatePass(op, e1, e2.lhs).0, e2.rhs)
    else if e1.Symbol? && e2.Symbol? && e1.sym == e2.sym && e1.sym.IsYesOrNo() then 0
    else if ExprEq(e1, e2) then 1 else 0
  }

  /** What expr_eliminate_eq adds to it. */
  function CommonCount(e1: Expr, e2: Expr): nat {
    var p := if e1.IsBinary() then EliminatePass(OpOf(e1), e1, e2) else (e1, e2);
    (if e1.IsBinary() then PassCount(OpOf(e1), e1, e2) else 0) +
    (if p.1.IsBinary() && !(p.0.IsBinary() && OpOf(p.0) == OpOf(p.1)) then PassCount(OpOf(p.1), p.0, p.1) else 0)
  }

  /** How many terms of the op list e are the neutral constant. */
  function UnitTerms(op: Op, e: Expr): nat {
    if op.OrOp? && e.Or? then UnitTerms(op, e.lhs) + UnitTerms(op, e.rhs)
    else if op.AndOp? && e.And? then UnitTerms(op, e.lhs) + UnitTerms(op, e.rhs)
    else if e == Unit(op) then 1 else 0
  }

  /** Every count is one term of each side that became the neutral constant, and a pass that counts
      nothing changes nothing. */
  predicate CountedUnits(op: Op, before: (Expr, Expr), n: nat, after: (Expr, Expr)) {
    && UnitTerms(op, after.0) == UnitTerms(op, before.0) + n
    && UnitTerms(op, after.1) == UnitTerms(op, before.1) + n
    && (n == 0 ==> after == before)
  }

  lemma {:induction false} PassCounted(op: Op, e1: Expr, e2: Expr)
    ensures CountedUnits(op, (e1, e2), PassCount(op, e1, e2), EliminatePass(op, e1, e2))
    decreases Size(e1) + Size(e2)
  {
    if IsOp(op, e1) {
      PassCounted(op, e1.lhs, e2);
      PassCounted(op, e1.rhs, EliminatePass(op, e1.lhs, e2).1);
    } else if IsOp(op, e2) {
      PassCounted(op, e1, e2.lhs);
      PassCounted(op, EliminatePass(op, e1, e2.lhs).0, e2.rhs);
    } else {
      TermCounted(op, e1, e2);
    }
  }

  /** Two terms are blanked exactly when they are equal and not both y or both n. */
  predicate Cancels(e1: Expr, e2: Expr) {
    ExprEq(e1, e2) && !(e1.Symbol? && e2.Symbol? && e1.sym == e2.sym && e1.sym.IsYesOrNo())
  }

  lemma TermsPass(op: Op, e1: Expr, e2: Expr)
    requires !IsOp(op, e1) && !IsOp(op, e2)
    ensures EliminatePass(op, e1, e2) == if Cancels(e1, e2) then (Unit(op), Unit(op)) else (e1, e2)
    ensures PassCount(op, e1, e2) == if Cancels(e1, e2) then 1 else 0
  {
  }

  lemma TermCounted(op: Op, e1: Expr, e2: Expr)
    requires !IsOp(op, e1) && !IsOp(op, e2)
    ensures CountedUnits(op, (e1, e2), PassCount(op, e1, e2), EliminatePass(op, e1, e2))
  {
  }

  // ---------------------------------------------------------------- completeness

  /** t is a term of the op list e. */
  predicate HasTerm(op: Op, e: Expr, t: Expr) {
    if IsOp(op, e) then HasTerm(op, e.lhs, t) || HasTerm(op, e.rhs, t) else e == t
  }

  /** No term of a equals a term of b, the constants y and n aside. */
  ghost predicate NothingShared(op: Op, a: Expr, b: Expr) {
    forall s, t | HasTerm(op, a, s) && HasTerm(op, b, t) && ExprEq(s, t) :: s.Symbol? && s.sym.IsYesOrNo()
  }

  /** Every term after a pass was there before or is the neutral constant. */
  lemma {:induction false} PassTerms(op: Op, e1: Expr, e2: Expr)
    ensures var r := EliminatePass(op, e1, e2);
      && (forall t | HasTerm(op, r.0, t) :: HasTerm(op, e1, t) || t == Unit(op))
      && (forall t | HasTerm(op, r.1, t) :: HasTerm(op, e2, t) || t == Unit(op))
    decreases Size(e1) + Size(e2)
  {
    if IsOp(op, e1) {
      PassTerms(op, e1.lhs, e2);
      PassTerms(op, e1.rhs, EliminatePass(op, e1.lhs, e2).1);
    } else if IsOp(op, e2) {
      PassTerms(op, e1, e2.lhs);
      PassTerms(op, EliminatePass(op, e1, e2.lhs).0, e2.rhs);
    }
  }

  lemma NothingNewShared(op: Op, a: Expr, b: Expr, b': Expr)
    requires NothingShared(op, a, b) && forall t | HasTerm(op, b', t) :: HasTerm(op, b, t) || t == Unit(op)
    ensures NothingShared(op, a, b')
  {
    forall s, t | HasTerm(op, a, s) && HasTerm(op, b', t) && ExprEq(s, t)
      ensures s.Symbol? && s.sym.IsYesOrNo()
    {
      assert HasTerm(op, b, t) || t == Unit(op);
    }
  }

  lemma NothingNewSharedLeft(op: Op, a: Expr, b: Expr, a': Expr)
    requires NothingShared(op, a, b) && forall t | HasTerm(op, a', t) :: HasTerm(op, a, t) || t == Unit(op)
    ensures NothingShared(op, a', b)
  {
    forall s, t | HasTerm(op, a', s) && HasTerm(op, b, t) && ExprEq(s, t)
      ensures s.Symbol? && s.sym.IsYesOrNo()
    {
      assert HasTerm(op, a, s) || s == Unit(op);
    }
  }

  /** A pass is exhaustive: afterwards the two trees share no term. */
  lemma {:induction false} PassExhaustive(op: Op, e1: Expr, e2: Expr)
    ensures var r := EliminatePass(op, e1, e2); NothingShared(op, r.0, r.1)
    decreases Size(e1) + Size(e2)
  {
    if IsOp(op, e1) {
      var p := EliminatePass(op, e1.lhs, e2);
      var q := EliminatePass(op, e1.rhs, p.1);
      PassExhaustive(op, e1.lhs, e2);
      PassExhaustive(op, e1.rhs, p.1);
      assert NothingShared(op, p.0, q.1) by {
        PassTerms(op, e1.rhs, p.1);
        NothingNewShared(op, p.0, p.1, q.1);
      }
    } else if IsOp(op, e2) {
      var p := EliminatePass(op, e1, e2.lhs);
      var q := EliminatePass(op, p.0, e2.rhs);
      PassExhaustive(op, e1, e2.lhs);
      PassExhaustive(op, p.0, e2.rhs);
      assert NothingShared(op, q.0, p.1) by {
        PassTerms(op, p.0, e2.rhs);
        NothingNewSharedLeft(op, p.0, p.1, q.0);
      }
    }
  }
}
