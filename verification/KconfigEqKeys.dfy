/** What expr_eq compares: without y and n among the operands, the terms of each list in any order. */
module KconfigEqKeys {
  import opened KconfigExpr
  import opened KconfigEq
  import opened KconfigEqReflexive
  import opened KconfigTransform
  import opened KconfigEqOrder

  /** An expression without the order and the nesting of its lists. */
  datatype Key = Leaf(leaf: Expr) | Negation(arg: Key) | List(op: Op, items: multiset<Key>)

  function KeyOf(e: Expr): Key
    decreases e, 1
  {
    match e
    case Not(a) => Negation(KeyOf(a))
    case And(_, _) => List(AndOp, Items(AndOp, e))
    case Or(_, _) => List(OrOp, Items(OrOp, e))
    case _ => Leaf(e)
  }

  /** The keys of the terms of an op list. */
  function Items(op: Op, e: Expr): multiset<Key>
    decreases e, if IsOp(op, e) then 0 else 2
  {
    if op.OrOp? && e.Or? then Items(op, e.lhs) + Items(op, e.rhs)
    else if op.AndOp? && e.And? then Items(op, e.lhs) + Items(op, e.rhs)
    else multiset{KeyOf(e)}
  }

  /** No operand of an AND or OR is y or n. */
  predicate Plain(e: Expr) {
    match e
    case Not(a) => Plain(a)
    case And(a, b) => Plain(a) && Plain(b) && !IsYn(a) && !IsYn(b)
    case Or(a, b) => Plain(a) && Plain(b) && !IsYn(a) && !IsYn(b)
    case _ => true
  }

  lemma {:induction false} PlainYnFree(e: Expr)
    requires Plain(e)
    ensures YnFree(e)
  {
    if e.IsBinary() {
      PlainYnFree(e.lhs);
      PlainYnFree(e.rhs);
    }
  }

  /** What is left by expr_transform and expr_eliminate_yn is such an expression. */
  lemma {:induction false} NormalPlain(e: Expr)
    requires Normal(e)
    ensures Plain(e) <==> YnFree(e)
  {
    if e.IsBinary() {
      NormalPlain(e.lhs);
      NormalPlain(e.rhs);
    }
  }

  lemma {:induction false} PlainTerm(op: Op, e: Expr, t: Expr)
    requires Plain(e) && !IsYn(e) && HasTerm(op, e, t)
    ensures Plain(t) && !IsYn(t) && YnFree(t) && (IsOp(op, e) ==> Size(t) < Size(e))
  {
    if IsOp(op, e) {
      if HasTerm(op, e.lhs, t) {
        PlainTerm(op, e.lhs, t);
      } else {
        PlainTerm(op, e.rhs, t);
      }
    } else {
      PlainYnFree(e);
    }
  }

  lemma PlainTerms(op: Op, e: Expr)
    requires Plain(e) && !IsYn(e)
    ensures TermsYnFree(op, e)
  {
    forall t | HasTerm(op, e, t)
      ensures YnFree(t)
    {
      PlainTerm(op, e, t);
    }
  }

  lemma {:induction false} ItemsAreKeys(op: Op, e: Expr)
    requires Plain(e) && !IsYn(e)
    ensures Keys(op, e, KeyOf) == Items(op, e) && !HasAbsorbing(op, e)
  {
    if IsOp(op, e) {
      ItemsAreKeys(op, e.lhs);
      ItemsAreKeys(op, e.rhs);
    }
  }

  /** expr_eq answers true exactly for expressions that differ in the order and nesting of the terms of
      their lists only, at any depth. */
  lemma {:induction false} KeyExact(e1: Expr, e2: Expr)
    requires Plain(e1) && Plain(e2)
    ensures ExprEq(e1, e2) <==> KeyOf(e1) == KeyOf(e2)
    decreases Size(e1) + Size(e2), 1
  {
    match (e1, e2)
    case (Not(a), Not(b)) => KeyExact(a, b);
    case (And(_, _), And(_, _)) => ListKeyExact(AndOp, e1, e2);
    case (Or(_, _), Or(_, _)) => ListKeyExact(OrOp, e1, e2);
    case _ =>
  }

  lemma {:induction false} ListKeyExact(op: Op, e1: Expr, e2: Expr)
    requires IsOp(op, e1) && IsOp(op, e2) && Plain(e1) && Plain(e2)
    ensures ExprEq(e1, e2) <==> Items(op, e1) == Items(op, e2)
    decreases Size(e1) + Size(e2), 0
  {
    forall s, t | HasTerm(op, e1, s) && HasTerm(op, e2, t)
      ensures ExprEq(s, t) <==> KeyOf(s) == KeyOf(t)
    {
      PlainTerm(op, e1, s);
      PlainTerm(op, e2, t);
      KeyExact(s, t);
    }
    PlainTerms(op, e1);
    PlainTerms(op, e2);
    ListExact(op, e1, e2, KeyOf);
    ItemsAreKeys(op, e1);
    ItemsAreKeys(op, e2);
  }

  lemma PlainFits(op: Op, e1: Expr, e2: Expr)
    requires Plain(e1) && Plain(e2) && !IsYn(e1) && !IsYn(e2)
    ensures Fits(op, e1, e2, KeyOf)
  {
    forall s, t | HasTerm(op, e1, s) && HasTerm(op, e2, t)
      ensures ExprEq(s, t) <==> KeyOf(s) == KeyOf(t)
    {
      PlainTerm(op, e1, s);
      PlainTerm(op, e2, t);
      KeyExact(s, t);
    }
  }

  /** So it is transitive there, and the order does not matter. */
  lemma PlainTransitive(e1: Expr, e2: Expr, e3: Expr)
    requires Plain(e1) && Plain(e2) && Plain(e3) && ExprEq(e1, e2) && ExprEq(e2, e3)
    ensures ExprEq(e1, e3)
  {
    KeyExact(e1, e2);
    KeyExact(e2, e3);
    KeyExact(e1, e3);
  }

  lemma PlainSwapped(op: Op, a: Expr, b: Expr)
    requires Plain(Make(op, a, b))
    ensures ExprEq(Make(op, a, b), Make(op, b, a))
  {
    KeyExact(Make(op, a, b), Make(op, b, a));
  }
}
