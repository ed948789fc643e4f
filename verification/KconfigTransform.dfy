/** expr_transform: negations pushed inward, tests of boolean symbols against n, m, y rewritten. */
module KconfigTransform {
  import opened KconfigExpr

  /** The termination measure.  De Morgan turns one NOT into two, but each of them is above a
      smaller operand, so doubling the weight under a NOT makes the rewrite a decrease. */
  function Weight(e: Expr): (n: nat)
    ensures n >= 1
  {
    match e
    case Symbol(_) => 1
    case Equal(_, _) => 2
    case Unequal(_, _) => 2
    case Not(a) => 2 * Weight(a)
    case And(a, b) => 1 + Weight(a) + Weight(b)
    case Or(a, b) => 1 + Weight(a) + Weight(b)
  }

  lemma DeMorganLighter(x: Expr, y: Expr)
    ensures Weight(Or(Not(x), Not(y))) == Weight(And(Not(x), Not(y))) < Weight(Not(Or(x, y)))
    ensures Weight(Not(Or(x, y))) == Weight(Not(And(x, y))) == 2 * Weight(Or(x, y)) == 2 * Weight(And(x, y))
  {
    assert Weight(Not(x)) == 2 * Weight(x) && Weight(Not(y)) == 2 * Weight(y);
  }

  /** expr_transform */
  function Transform(e: Expr): (r: Expr)
    ensures Weight(r) <= Weight(e)
    decreases Weight(e), 1
  {
    match e
    case Symbol(_) => e
    case Equal(s, c) =>
      if !s.OfKind(Boolean) then e
      else if c.SymbolNo? then Not(Symbol(s))
      else if c.SymbolMod? then Symbol(SymbolNo)
      else if c.SymbolYes? then Symbol(s)
      else e
    case Unequal(s, c) =>
      if !s.OfKind(Boolean) then e
      else if c.SymbolNo? then Symbol(s)
      else if c.SymbolMod? then Symbol(SymbolYes)
      else if c.SymbolYes? then Not(Symbol(s))
      else e
    case And(a, b) => And(Transform(a), Transform(b))
    case Or(a, b) => Or(Transform(a), Transform(b))
    case Not(a) => Negated(Transform(a))
  }

  /** What becomes of a NOT above an operand that has been transformed. */
  function Negated(t: Expr): (r: Expr)
    ensures Weight(r) <= 2 * Weight(t)
    decreases 2 * Weight(t), 0
  {
    match t
    case Not(x) => Transform(x)
    case Equal(s, c) => Unequal(s, c)
    case Unequal(s, c) => Equal(s, c)
    case Or(x, y) => DeMorganLighter(x, y); Transform(And(Not(x), Not(y)))
    case And(x, y) => DeMorganLighter(x, y); Transform(Or(Not(x), Not(y)))
    case Symbol(s) =>
      if s.SymbolYes? then Symbol(SymbolNo)
      else if s.SymbolMod? then Symbol(SymbolMod)
      else if s.SymbolNo? then Symbol(SymbolYes)
      else Not(Symbol(s))
  }

  lemma LeafExact(e: Expr, v: Valuation)
    requires v.Valid() && !e.IsBinary() && !e.Not?
    ensures Eval(Transform(e), v) == Eval(e, v)
  {
  }

  /** expr_transform keeps the exact tristate value. */
  lemma {:induction false} TransformExact(e: Expr, v: Valuation)
    requires v.Valid()
    ensures Eval(Transform(e), v) == Eval(e, v)
    decreases Weight(e)
  {
    match e
    case And(a, b) => TransformExact(a, v); TransformExact(b, v);
    case Or(a, b) => TransformExact(a, v); TransformExact(b, v);
    case Not(a) =>
      TransformExact(a, v);
      NegationExact(Transform(a), v);
      match Transform(a) {
        case Not(x) => TransformExact(x, v);
        case Or(x, y) => DeMorganLighter(x, y); TransformExact(And(Not(x), Not(y)), v);
        case And(x, y) => DeMorganLighter(x, y); TransformExact(Or(Not(x), Not(y)), v);
        case _ =>
      }
    case _ => LeafExact(e, v);
  }

  /** What each way of removing a NOT means for the value. */
  lemma NegationExact(t: Expr, v: Valuation)
    requires v.Valid()
    ensures t.Not? ==> Eval(Not(t), v) == Eval(t.arg, v)
    ensures t.Or? ==> Eval(Not(t), v) == Eval(And(Not(t.lhs), Not(t.rhs)), v)
    ensures t.And? ==> Eval(Not(t), v) == Eval(Or(Not(t.lhs), Not(t.rhs)), v)
    ensures t.Equal? ==> Eval(Not(t), v) == Eval(Unequal(t.left, t.right), v)
    ensures t.Unequal? ==> Eval(Not(t), v) == Eval(Equal(t.left, t.right), v)
    ensures t.Symbol? && t.sym.IsBuiltIn() ==> Eval(Not(t), v) == 2 - v.tri(t.sym)
  {
    if t.Or? {
      assert Eval(And(Not(t.lhs), Not(t.rhs)), v) == AndValue(2 - Eval(t.lhs, v), 2 - Eval(t.rhs, v));
    } else if t.And? {
      assert Eval(Or(Not(t.lhs), Not(t.rhs)), v) == OrValue(2 - Eval(t.lhs, v), 2 - Eval(t.rhs, v));
    }
  }

  /** A boolean symbol tested against n, m or y. */
  predicate BooleanTest(e: Expr) {
    e.IsComparison() && e.left.OfKind(Boolean) && (e.right.SymbolNo? || e.right.SymbolMod? || e.right.SymbolYes?)
  }

  /** Negation only directly on a symbol other than y, m, n; no boolean symbol tested against these. */
  predicate Normal(e: Expr) {
    match e
    case Symbol(_) => true
    case Not(a) => a.Symbol? && !a.sym.IsBuiltIn()
    case And(a, b) => Normal(a) && Normal(b)
    case Or(a, b) => Normal(a) && Normal(b)
    case _ => !BooleanTest(e)
  }

  /** expr_transform reaches the normal form, and leaves exactly the normal forms alone. */
  lemma {:induction false} TransformNormal(e: Expr)
    ensures Normal(Transform(e))
    ensures Normal(e) <==> Transform(e) == e
    decreases Weight(e)
  {
    match e
    case And(a, b) => TransformNormal(a); TransformNormal(b);
    case Or(a, b) => TransformNormal(a); TransformNormal(b);
    case Not(a) =>
      TransformNormal(a);
      match Transform(a) {
        case Not(x) => TransformNormal(x);
        case Or(x, y) => DeMorganLighter(x, y); TransformNormal(And(Not(x), Not(y)));
        case And(x, y) => DeMorganLighter(x, y); TransformNormal(Or(Not(x), Not(y)));
        case _ =>
      }
    case Symbol(s) =>
    case Equal(s, c) =>
    case Unequal(s, c) =>
  }
}
