/** What expr_eliminate_eq leaves of two expressions, and when the test of menu.c answers yes. */
module KconfigEqCommon {
  import opened KconfigExpr
  import opened KconfigEq
  import opened KconfigEqReflexive
  import opened KconfigEqOrder
  import opened KconfigEqKeys

  /** Neither is y or n or has such an operand. */
  predicate BothPlain(e1: Expr, e2: Expr) { Plain(e1) && Plain(e2) && !IsYn(e1) && !IsYn(e2) }

  lemma PlainKeys(op: Op, e1: Expr, e2: Expr)
    requires BothPlain(e1, e2)
    ensures var r := EliminatePass(op, e1, e2);
      && Keys(op, r.0, KeyOf) == Items(op, e1) - Items(op, e2)
      && Keys(op, r.1, KeyOf) == Items(op, e2) - Items(op, e1)
  {
    PlainFits(op, e1, e2);
    ItemsAreKeys(op, e1);
    ItemsAreKeys(op, e2);
    PassKeys(op, e1, e2, KeyOf);
  }

  lemma LeftOpen(op: Op, e1: Expr, e2: Expr)
    requires Plain(e1) && !IsYn(e1)
    ensures var first := EliminatePass(op, e1, e2).0;
      TermsYnFree(op, first) && !HasAbsorbing(op, first)
  {
    PassTerms(op, e1, e2);
    PlainTerms(op, e1);
    ItemsAreKeys(op, e1);
    AbsorbingStays(op, e1, e2);
  }

  lemma NothingLeft<K>(a: multiset<K>, b: multiset<K>)
    ensures a - b == multiset{} <==> a <= b
  {
    if a - b == multiset{} {
      forall k | k in a
        ensures a[k] <= b[k]
      {
        assert k !in a - b;
      }
    }
  }

  /** Nothing is left of e1 exactly when its terms are among those of e2, as often. */
  lemma PlainPass(op: Op, e1: Expr, e2: Expr)
    requires BothPlain(e1, e2)
    ensures EliminateYn(EliminatePass(op, e1, e2).0) == Unit(op) <==> Items(op, e1) <= Items(op, e2)
  {
    LeftOpen(op, e1, e2);
    PlainKeys(op, e1, e2);
    YnOfList(op, EliminatePass(op, e1, e2).0, KeyOf);
    NothingLeft(Items(op, e1), Items(op, e2));
  }

  /** Of two lists of one operator, or a list and a single test, the terms they share are taken out. */
  lemma CommonTaken(op: Op, e1: Expr, e2: Expr)
    requires BothPlain(e1, e2) && (IsOp(op, e1) || IsOp(op, e2))
    requires (IsOp(op, e1) || !e1.IsBinary()) && (IsOp(op, e2) || !e2.IsBinary())
    ensures EliminateCommon(e1, e2) == EliminatePass(op, e1, e2)
    ensures var r := EliminateCommon(e1, e2);
      && Keys(op, r.0, KeyOf) == Items(op, e1) - Items(op, e2)
      && Keys(op, r.1, KeyOf) == Items(op, e2) - Items(op, e1)
  {
    PlainKeys(op, e1, e2);
    CommonIsPass(op, e1, e2);
  }

  lemma CommonIsPass(op: Op, e1: Expr, e2: Expr)
    requires IsOp(op, e1) || IsOp(op, e2)
    requires (IsOp(op, e1) || !e1.IsBinary()) && (IsOp(op, e2) || !e2.IsBinary())
    ensures EliminateCommon(e1, e2) == EliminatePass(op, e1, e2)
  {
    if IsOp(op, e1) {
      assert OpOf(e1) == op;
    } else {
      assert OpOf(e2) == op;
    }
  }

  function Other(op: Op): Op { if op.OrOp? then AndOp else OrOp }

  /** A list met as one term of a list of the other operator is taken out whole or not at all. */
  lemma WholeTaken(op: Op, e1: Expr, e2: Expr)
    requires BothPlain(e1, e2) && !IsOp(op, e2)
    ensures var r := EliminatePass(op, e1, e2);
      && Keys(op, r.0, KeyOf) == Items(op, e1) - multiset{KeyOf(e2)}
      && r.1 == (if KeyOf(e2) in Items(op, e1) then Unit(op) else e2)
      && (KeyOf(e2) !in Items(op, e1) ==> r.0 == e1)
  {
    var r := EliminatePass(op, e1, e2);
    PlainKeys(op, e1, e2);
    ItemsOfTerm(op, e2);
    TermKey(op, e2, KeyOf);
    TermKey(op, Unit(op), KeyOf);
    if KeyOf(e2) !in Items(op, e1) {
      assert KeyOf(e2) in Keys(op, r.1, KeyOf);
      PassCounted(op, e1, e2);
    }
  }

  lemma ItemsOfTerm(op: Op, e: Expr)
    requires !IsOp(op, e)
    ensures Items(op, e) == multiset{KeyOf(e)}
  {
  }

  // ---------------------------------------------------------------- the test of menu.c

  /** What is left of a list is y or n only if nothing is. */
  lemma ReducedAway(op: Op, e1: Expr, e2: Expr)
    requires BothPlain(e1, e2)
    ensures var r := EliminateYn(EliminatePass(op, e1, e2).1);
      (r == Unit(op) <==> Items(op, e2) <= Items(op, e1)) && r != Absorbing(op)
  {
    PassSwaps(op, e1, e2);
    PlainPass(op, e2, e1);
    LeftOpen(op, e2, e1);
    YnOfList(op, EliminatePass(op, e2, e1).0, KeyOf);
  }

  lemma {:induction false} ManyItems(op: Op, e: Expr)
    ensures |Items(op, e)| >= if IsOp(op, e) then 2 else 1
  {
    if IsOp(op, e) {
      ManyItems(op, e.lhs);
      ManyItems(op, e.rhs);
    }
  }

  lemma SmallerCount<K>(a: multiset<K>, b: multiset<K>)
    requires a <= b
    ensures |a| <= |b|
  {
    assert b == a + (b - a);
  }

  /** A list of two terms or more is not taken out of a single term. */
  lemma NotReduced(op: Op, e1: Expr, e2: Expr)
    requires BothPlain(e1, e2) && !IsOp(op, e1) && IsOp(op, e2)
    ensures !IsYn(EliminateYn(EliminatePass(op, e1, e2).1))
  {
    ReducedAway(op, e1, e2);
    NotAmong(op, e1, e2);
    YnValues(op, EliminateYn(EliminatePass(op, e1, e2).1));
  }

  lemma NotAmong(op: Op, e1: Expr, e2: Expr)
    requires !IsOp(op, e1) && IsOp(op, e2)
    ensures !(Items(op, e2) <= Items(op, e1))
  {
    ItemsOfTerm(op, e1);
    ManyItems(op, e2);
    assert |Items(op, e1)| == 1;
    if Items(op, e2) <= Items(op, e1) {
      SmallerCount(Items(op, e2), Items(op, e1));
    }
  }

  lemma YnValues(op: Op, r: Expr)
    ensures IsYn(r) <==> r == Unit(op) || r == Absorbing(op)
  {
  }

  /** The base condition is reduced to y exactly when the entry's condition is an AND and has all terms of
      the base condition, as often; the second pass of expr_eliminate_eq never makes a difference. */
  lemma MenuTestExact(dep: Expr, base: Expr)
    requires BothPlain(dep, base)
    ensures EliminateEq(dep, base).1.IsYes() <==> dep.And? && Items(AndOp, base) <= Items(AndOp, dep)
  {
    if dep.And? && !base.Or? {
      CommonIsPass(AndOp, dep, base);
      ReducedAway(AndOp, dep, base);
    } else if dep.And? {
      CrossTest(AndOp, dep, base);
    } else if dep.Or? && base.And? {
      CrossTest(OrOp, dep, base);
    } else if dep.Or? || base.Or? {
      CommonIsPass(OrOp, dep, base);
      ReducedAway(OrOp, dep, base);
    } else if base.And? {
      CommonIsPass(AndOp, dep, base);
      NotReduced(AndOp, dep, base);
    }
  }

  /** The test on lists of different operators. */
  lemma CrossTest(op: Op, dep: Expr, base: Expr)
    requires BothPlain(dep, base) && IsOp(op, dep) && IsOp(Other(op), base)
    ensures EliminateEq(dep, base).1.IsYes() <==> op.AndOp? && Items(AndOp, base) <= Items(AndOp, dep)
  {
    WholeTaken(op, dep, base);
    CrossPasses(op, dep, base);
    NotReduced(Other(op), dep, base);
    assert op.AndOp? ==> Items(AndOp, base) == multiset{KeyOf(base)} by {
      if op.AndOp? {
        ItemsOfTerm(AndOp, base);
      }
    }
  }

  /** The second pass runs unless the first one takes the base condition out. */
  lemma CrossPasses(op: Op, dep: Expr, base: Expr)
    requires IsOp(op, dep) && IsOp(Other(op), base)
    requires var r := EliminatePass(op, dep, base); r.1 == Unit(op) || r == (dep, base)
    ensures EliminateCommon(dep, base) ==
      if EliminatePass(op, dep, base).1 == Unit(op) then EliminatePass(op, dep, base)
      else EliminatePass(Other(op), dep, base)
  {
    assert OpOf(dep) == op && OpOf(base) == Other(op);
  }
}
