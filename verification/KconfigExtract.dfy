/** expr_extract_eq: move what two lists share into a third expression. */
module KconfigExtract {
  import opened KconfigExpr
  import opened KconfigEq

  /** *ep, e1 and e2 of expr_extract_eq; the collected expression starts as NULL. */
  datatype Extracted = Extracted(common: Option<Expr>, first: Expr, second: Expr)

  /** expr_extract_eq.  Unlike __expr_eliminate_eq it does collect equal y or n constants. */
  function ExtractPass(op: Op, s: Extracted): (r: Extracted)
    ensures Size(r.first) <= Size(s.first) && Size(r.second) <= Size(s.second)
    decreases Size(s.first) + Size(s.second)
  {
    if IsOp(op, s.first) then
      var p := ExtractPass(op, s.(first := s.first.lhs));
      var q := ExtractPass(op, p.(first := s.first.rhs));
      q.(first := Make(op, p.first, q.first))
    else if IsOp(op, s.second) then
      var p := ExtractPass(op, s.(second := s.second.lhs));
      var q := ExtractPass(op, p.(second := s.second.rhs));
      q.(second := Make(op, p.second, q.second))
    else if ExprEq(s.first, s.second) then
      var c := if s.common.Some? then Make(op, s.common.value, s.first) else s.first;
      Extracted(Some(c), Unit(op), Unit(op))
    else s
  }

  /** expr_extract_eq_and and expr_extract_eq_or */
  function ExtractEq(op: Op, e1: Expr, e2: Expr): Extracted {
    var r := ExtractPass(op, Extracted(None, e1, e2));
    if r.common.Some? then Extracted(r.common, EliminateYn(r.first), EliminateYn(r.second)) else r
  }

  /** The value of the collected expression; nothing collected is the neutral value. */
  function CommonValue(op: Op, c: Option<Expr>, v: Valuation): Tristate {
    if c.Some? then Eval(c.value, v) else UnitValue(op)
  }

  /** From s to r the same value d went from both trees into the collected expression. */
  ghost predicate Moved(op: Op, d: Tristate, s: Extracted, r: Extracted, v: Valuation) {
    && CommonValue(op, r.common, v) == Join(op, CommonValue(op, s.common, v), d)
    && Splits(op, d, (s.first, s.second), (r.first, r.second), v)
  }

  lemma {:induction false} PassMoves(op: Op, s: Extracted, v: Valuation) returns (d: Tristate)
    requires v.Valid()
    ensures Moved(op, d, s, ExtractPass(op, s), v)
    decreases Size(s.first) + Size(s.second), 1
  {
    if IsOp(op, s.first) || IsOp(op, s.second) {
      d := HalvesMove(op, s, v);
    } else if ExprEq(s.first, s.second) {
      ExprEqSound(s.first, s.second, v);
      d := Eval(s.first, v);
    } else {
      d := UnitValue(op);
    }
  }

  lemma {:induction false} HalvesMove(op: Op, s: Extracted, v: Valuation) returns (d: Tristate)
    requires v.Valid() && (IsOp(op, s.first) || IsOp(op, s.second))
    ensures Moved(op, d, s, ExtractPass(op, s), v)
    decreases Size(s.first) + Size(s.second), 0
  {
    var c := CommonValue(op, s.common, v);
    if IsOp(op, s.first) {
      var p := ExtractPass(op, s.(first := s.first.lhs));
      var q := ExtractPass(op, p.(first := s.first.rhs));
      var d1 := PassMoves(op, s.(first := s.first.lhs), v);
      var d2 := PassMoves(op, p.(first := s.first.rhs), v);
      d := Join(op, d1, d2);
      JoinSplits(op, d1, d2, Eval(p.first, v), Eval(q.first, v), Eval(q.second, v));
      JoinSplits(op, c, d1, c, c, d2);
    } else {
      var p := ExtractPass(op, s.(second := s.second.lhs));
      var q := ExtractPass(op, p.(second := s.second.rhs));
      var d1 := PassMoves(op, s.(second := s.second.lhs), v);
      var d2 := PassMoves(op, p.(second := s.second.rhs), v);
      d := Join(op, d1, d2);
      JoinSplits(op, d1, d2, Eval(p.second, v), Eval(q.second, v), Eval(q.first, v));
      JoinSplits(op, c, d1, c, c, d2);
    }
  }

  /** Extraction is exact: each original is the join of the collected part and its own rest. */
  lemma ExtractExact(op: Op, e1: Expr, e2: Expr)
    ensures var r := ExtractEq(op, e1, e2);
      forall v: Valuation | v.Valid() ::
        && Eval(e1, v) == Join(op, CommonValue(op, r.common, v), Eval(r.first, v))
        && Eval(e2, v) == Join(op, CommonValue(op, r.common, v), Eval(r.second, v))
  {
    var s := Extracted(None, e1, e2);
    var r := ExtractPass(op, s);
    EliminateYnCorrect(r.first);
    EliminateYnCorrect(r.second);
    forall v: Valuation | v.Valid()
      ensures Eval(e1, v) == Join(op, CommonValue(op, r.common, v), Eval(r.first, v))
      ensures Eval(e2, v) == Join(op, CommonValue(op, r.common, v), Eval(r.second, v))
    {
      var d := PassMoves(op, s, v);
      JoinSplits(op, d, d, d, d, d);
    }
  }
}
