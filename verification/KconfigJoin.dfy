/** expr_join_or and expr_join_and: merging two terms of an OR or AND list into one. */
module KconfigJoin {
  import opened KconfigExpr
  import opened KconfigEq
  import opened KconfigEqReflexive

  /** The symbol a simple term is about; expr_join_* look through a NOT of a comparison only
      on their first argument. */
  function SubjectOf(e: Expr, throughComparison: bool): Option<Symbol> {
    match e
    case Symbol(s) => Some(s)
    case Equal(l, _) => Some(l)
    case Unequal(l, _) => Some(l)
    case Not(a) =>
      if a.Symbol? then Some(a.sym)
      else if throughComparison && a.IsComparison() then Some(a.left)
      else None
    case _ => None
  }

  /** The guards shared by both joins: two simple terms about one boolean or tristate symbol. */
  function CommonSubject(e1: Expr, e2: Expr): Option<Symbol> {
    var s1 := SubjectOf(e1, true);
    var s2 := SubjectOf(e2, false);
    if s1.Some? && s1 == s2 && (s1.value.OfKind(Boolean) || s1.value.OfKind(Tri)) then s1 else None
  }

  /** The two comparisons have the constants a and b on their right, in either order. */
  predicate RightsAre(e1: Expr, e2: Expr, a: Symbol, b: Symbol)
    requires e1.IsComparison() && e2.IsComparison()
  {
    (e1.right == a && e2.right == b) || (e1.right == b && e2.right == a)
  }

  /** expr_join_or */
  function JoinOr(e1: Expr, e2: Expr): Option<Expr> {
    if ExprEq(e1, e2) then Some(e1)
    else
      match CommonSubject(e1, e2)
      case None => None
      case Some(s) =>
        if s.OfKind(Tri) && e1.Equal? && e2.Equal? && RightsAre(e1, e2, SymbolYes, SymbolMod) then
          Some(Unequal(s, SymbolNo))
        else if s.OfKind(Tri) && e1.Equal? && e2.Equal? && RightsAre(e1, e2, SymbolYes, SymbolNo) then
          Some(Unequal(s, SymbolMod))
        else if s.OfKind(Tri) && e1.Equal? && e2.Equal? && RightsAre(e1, e2, SymbolMod, SymbolNo) then
          Some(Unequal(s, SymbolYes))
        else if s.OfKind(Boolean)
             && ((e1.Not? && e1.arg.Symbol? && e2.Symbol?) || (e2.Not? && e2.arg.Symbol? && e1.Symbol?)) then
          Some(Symbol(SymbolYes))
        else None
  }

  /** (a = b) && (a != c) with constants b and c. */
  function JoinEqualUnequal(s: Symbol, b: Symbol, c: Symbol): Option<Expr> {
    if c.IsConst() && b.IsConst() then Some(if b != c then Equal(s, b) else Symbol(SymbolNo)) else None
  }

  /** One term is the bare symbol, the other compares it (with ==, or with !=) to c. */
  predicate SymbolAnd(e1: Expr, e2: Expr, equal: bool, c: Symbol) {
    || (e1.Symbol? && e2.IsComparison() && e2.Equal? == equal && e2.right == c)
    || (e2.Symbol? && e1.IsComparison() && e1.Equal? == equal && e1.right == c)
  }

  /** expr_join_and */
  function JoinAnd(e1: Expr, e2: Expr): Option<Expr> {
    if ExprEq(e1, e2) then Some(e1)
    else
      match CommonSubject(e1, e2)
      case None => None
      case Some(s) =>
        if SymbolAnd(e1, e2, true, SymbolYes) then Some(Equal(s, SymbolYes))
        else if SymbolAnd(e1, e2, false, SymbolNo) then Some(Symbol(s))
        else if SymbolAnd(e1, e2, false, SymbolMod) then Some(Equal(s, SymbolYes))
        else if !s.OfKind(Tri) then None
        else if e1.Equal? && e2.Unequal? && JoinEqualUnequal(s, e1.right, e2.right).Some? then
          JoinEqualUnequal(s, e1.right, e2.right)
        else if e1.Unequal? && e2.Equal? && JoinEqualUnequal(s, e2.right, e1.right).Some? then
          JoinEqualUnequal(s, e2.right, e1.right)
        else if e1.Unequal? && e2.Unequal? && RightsAre(e1, e2, SymbolYes, SymbolNo) then
          Some(Equal(s, SymbolMod))
        else if e1.Unequal? && e2.Unequal? && RightsAre(e1, e2, SymbolYes, SymbolMod) then
          Some(Equal(s, SymbolNo))
        else if e1.Unequal? && e2.Unequal? && RightsAre(e1, e2, SymbolMod, SymbolNo) then
          Some(Equal(s, SymbolYes))
        else None
  }

  function JoinTerms(op: Op, e1: Expr, e2: Expr): Option<Expr> {
    if op.OrOp? then JoinOr(e1, e2) else JoinAnd(e1, e2)
  }

  /** Both joins are exact for all three values, and the merged term is a term again, small
      enough to pay for the constant that replaces the first one. */
  lemma JoinExact(op: Op, e1: Expr, e2: Expr)
    requires JoinTerms(op, e1, e2).Some?
    ensures forall v: Valuation | v.Valid() ::
              Eval(JoinTerms(op, e1, e2).value, v) == Join(op, Eval(e1, v), Eval(e2, v))
    ensures Size(JoinTerms(op, e1, e2).value) + 1 <= Size(e1) + Size(e2)
    ensures !IsOp(op, e1) ==> !IsOp(op, JoinTerms(op, e1, e2).value)
  {
    forall v: Valuation | v.Valid()
      ensures Eval(JoinTerms(op, e1, e2).value, v) == Join(op, Eval(e1, v), Eval(e2, v))
    {
      if ExprEq(e1, e2) {
        ExprEqSound(e1, e2, v);
      } else if op.OrOp? {
        JoinOrExact(e1, e2, v);
      } else {
        JoinAndExact(e1, e2, v);
      }
    }
  }

  lemma JoinOrExact(e1: Expr, e2: Expr, v: Valuation)
    requires v.Valid() && !ExprEq(e1, e2) && JoinOr(e1, e2).Some?
    ensures Eval(JoinOr(e1, e2).value, v) == OrValue(Eval(e1, v), Eval(e2, v))
  {
    var s := CommonSubject(e1, e2).value;
    assert v.tri(s) == NO || v.tri(s) == MOD || v.tri(s) == YES;
  }

  lemma JoinAndExact(e1: Expr, e2: Expr, v: Valuation)
    requires v.Valid() && !ExprEq(e1, e2) && JoinAnd(e1, e2).Some?
    ensures Eval(JoinAnd(e1, e2).value, v) == AndValue(Eval(e1, v), Eval(e2, v))
  {
    var s := CommonSubject(e1, e2).value;
    assert v.tri(s) == NO || v.tri(s) == MOD || v.tri(s) == YES;
    if e1.IsComparison() && e2.IsComparison() && e1.right.IsConst() && e2.right.IsConst() && e1.right != e2.right {
      ConstantsDiffer(v, e1.right, e2.right);
    }
  }

  /** Which pairs merge at all: equal terms always do, in both lists. */
  lemma EqualTermsJoin(op: Op, e: Expr)
    ensures JoinTerms(op, e, e) == Some(e)
  {
    ExprEqReflexive(e);
  }

  /** A symbol compared with y, m or n. */
  predicate Tests(e: Expr, s: Symbol) { e.IsComparison() && e.left == s && e.right.IsBuiltIn() }

  /** Two such tests of one tristate symbol: in an OR list two equalities always merge, in an AND list any
      two of which one is an inequality, and otherwise only the same ones do. */
  lemma TestsMerge(s: Symbol, e1: Expr, e2: Expr)
    requires s.OfKind(Tri) && Tests(e1, s) && Tests(e2, s)
    ensures JoinOr(e1, e2).Some? <==> e1 == e2 || (e1.Equal? && e2.Equal?)
    ensures JoinAnd(e1, e2).Some? <==> e1 == e2 || e1.Unequal? || e2.Unequal?
  {
  }

  /** A symbol and a test of it merge in an AND list exactly when it is tested for y, or for not being n
      or m; they never merge in an OR list. */
  lemma SymbolMerges(s: Symbol, e: Expr)
    requires (s.OfKind(Tri) || s.OfKind(Boolean)) && Tests(e, s)
    ensures JoinAnd(Symbol(s), e).Some? <==> (e.Equal? <==> e.right.SymbolYes?)
    ensures JoinAnd(e, Symbol(s)).Some? <==> (e.Equal? <==> e.right.SymbolYes?)
    ensures JoinOr(Symbol(s), e).None? && JoinOr(e, Symbol(s)).None?
  {
  }

  /** A symbol and its negation merge exactly in an OR list, if the symbol is boolean. */
  lemma NegationMerges(s: Symbol)
    ensures JoinOr(Symbol(s), Not(Symbol(s))).Some? <==> s.OfKind(Boolean)
    ensures JoinOr(Not(Symbol(s)), Symbol(s)).Some? <==> s.OfKind(Boolean)
    ensures JoinAnd(Symbol(s), Not(Symbol(s))).None? && JoinAnd(Not(Symbol(s)), Symbol(s)).None?
  {
  }
}
