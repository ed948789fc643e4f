/** What expr_eliminate_dups guarantees: the value, termination, and that nothing is left to merge. */
module KconfigDupsProof {
  import opened KconfigExpr
  import opened KconfigEq
  import opened KconfigJoin
  import opened KconfigTransform
  import opened KconfigExtract
  import opened KconfigPath
  import opened KconfigDups

  // ---------------------------------------------------------------- meaning

  /** expr_eliminate_dups1 is exact for all three values. */
  lemma {:induction false} Dups1Exact(op: Op, root: Expr, p1: Path, p2: Path, v: Valuation)
    requires Addresses(op, root, p1, p2) && v.Valid()
    ensures Eval(Dups1(op, root, p1, p2).tree, v) == Eval(root, v)
    decreases Size(root), Nodes(ShapeOf(op, At(op, root, p1))), Nodes(ShapeOf(op, At(op, root, p2)))
  {
    if IsOp(op, At(op, root, p1)) {
      Extend(op, root, p1, L); Extend(op, root, p1, R);
      var a := Dups1(op, root, p1 + [L], p2);
      Dups1Exact(op, root, p1 + [L], p2, v);
      StillAddresses(op, root, a.tree, p1 + [R], p2);
      Dups1Exact(op, a.tree, p1 + [R], p2, v);
    } else if IsOp(op, At(op, root, p2)) {
      Extend(op, root, p2, L); Extend(op, root, p2, R);
      var a := Dups1(op, root, p1, p2 + [L]);
      Dups1Exact(op, root, p1, p2 + [L], v);
      StillAddresses(op, root, a.tree, p1, p2 + [R]);
      Dups1Exact(op, a.tree, p1, p2 + [R], v);
    } else if p1 != p2 {
      Dups1TermExact(op, root, p1, p2, v);
    }
  }

  lemma {:induction false} Dups1TermExact(op: Op, root: Expr, p1: Path, p2: Path, v: Valuation)
    requires Addresses(op, root, p1, p2) && v.Valid() && p1 != p2
    requires !IsOp(op, At(op, root, p1)) && !IsOp(op, At(op, root, p2))
    ensures Eval(Dups1(op, root, p1, p2).tree, v) == Eval(root, v)
    decreases Size(root), 0, 0
  {
    var e1 := At(op, root, p1);
    var a := Dups1Inner(op, root, p1);
    PutTerm(op, root, p1, a.tree);
    if e1.IsBinary() {
      Dups1Exact(OpOf(e1), e1, [], [], v);
    }
    var root1 := Put(op, root, p1, a.tree);
    PutElsewhere(op, root, p1, a.tree, p2);
    EvalAt(op, root, p1, v);
    OthersPut(op, root, p1, a.tree, v);
    var t := JoinTerms(op, At(op, root1, p1), At(op, root1, p2));
    if t.Some? {
      JoinExact(op, At(op, root1, p1), At(op, root1, p2));
      MergeTerms(op, root1, p1, p2, t.value, v);
    }
  }

  /** The value is kept wherever it was n or y; only an m may be lost. */
  ghost predicate KeptUnlessMod(before: Expr, after: Expr, v: Valuation) {
    Eval(before, v) == MOD || Eval(after, v) == Eval(before, v)
  }

  lemma KeptInside(op: Op, e: Expr, p: Path, x: Expr, v: Valuation)
    requires InList(op, e, p) && KeptUnlessMod(At(op, e, p), x, v)
    ensures KeptUnlessMod(e, Put(op, e, p, x), v)
  {
    EvalAt(op, e, p, v);
    OthersPut(op, e, p, x, v);
  }

  /** When the guard fires the list is at most m (at least m in an OR list), and the rewrite
      keeps its value exactly when that value is not m. */
  lemma ContradictionStep(op: Op, root: Expr, p1: Path, p2: Path, v: Valuation)
    requires Addresses(op, root, p1, p2) && !IsOp(op, At(op, root, p1)) && v.Valid()
    requires Contradicts(op, At(op, root, p1), At(op, root, p2))
    ensures Eval(Contradiction(op, root, p1, p2).tree, v) == Eval(Absorbing(op), v)
    ensures Eval(Contradiction(op, root, p1, p2).tree, v) == Eval(root, v) <==> Eval(root, v) != MOD
  {
    var e1, e2 := At(op, root, p1), At(op, root, p2);
    var r := ExtractEq(op, Transform(Not(e1)), e2);
    TransformExact(Not(e1), v);
    ExtractExact(op, Transform(Not(e1)), e2);
    EvalAt(op, root, p1, v);
    EvalAt(op, root, p2, v);
    OthersPut(op, root, p1, Absorbing(op), v);
    assert Eval(r.first, v) == UnitValue(op);
  }

  lemma {:induction false} Dups2Keeps(op: Op, root: Expr, p1: Path, p2: Path, v: Valuation)
    requires Addresses(op, root, p1, p2) && v.Valid()
    ensures KeptUnlessMod(root, Dups2(op, root, p1, p2).tree, v)
    decreases Size(root), Nodes(ShapeOf(op, At(op, root, p1))), Nodes(ShapeOf(op, At(op, root, p2)))
  {
    if IsOp(op, At(op, root, p1)) {
      Extend(op, root, p1, L); Extend(op, root, p1, R);
      var a := Dups2(op, root, p1 + [L], p2);
      Dups2Keeps(op, root, p1 + [L], p2, v);
      StillAddresses(op, root, a.tree, p1 + [R], p2);
      Dups2Keeps(op, a.tree, p1 + [R], p2, v);
    } else if IsOp(op, At(op, root, p2)) {
      Extend(op, root, p2, L); Extend(op, root, p2, R);
      var a := Dups2(op, root, p1, p2 + [L]);
      Dups2Keeps(op, root, p1, p2 + [L], v);
      StillAddresses(op, root, a.tree, p1, p2 + [R]);
      var b := Dups2(op, a.tree, p1, p2 + [R]);
      Dups2Keeps(op, a.tree, p1, p2 + [R], v);
      StillAddresses(op, root, b.tree, p1, p2);
      Dups2TermKeeps(op, b.tree, p1, p2, v);
    } else {
      Dups2TermKeeps(op, root, p1, p2, v);
    }
  }

  lemma {:induction false} Dups2TermKeeps(op: Op, root: Expr, p1: Path, p2: Path, v: Valuation)
    requires Addresses(op, root, p1, p2) && v.Valid() && !IsOp(op, At(op, root, p1))
    ensures KeptUnlessMod(root, Dups2Term(op, root, p1, p2).tree, v)
    decreases Size(root), 0, 0
  {
    var e1 := At(op, root, p1);
    PutTerm(op, root, p1, e1);
    if p1 != p2 && e1.IsBinary() {
      var a := Dups2(OpOf(e1), e1, [], []);
      Dups2Keeps(OpOf(e1), e1, [], [], v);
      KeptInside(op, root, p1, a.tree, v);
      PutTerm(op, root, p1, a.tree);
      var root1 := Put(op, root, p1, a.tree);
      SameShapeAt(op, root, root1, p2);
      if Contradicts(op, At(op, root1, p1), At(op, root1, p2)) {
        ContradictionStep(op, root1, p1, p2, v);
      }
    }
  }

  // ---------------------------------------------------------------- progress

  /** A rewrite that counted nothing changed nothing; one that counted left a y or n operand
      for expr_eliminate_yn to remove. */
  predicate Counted(before: Expr, r: Rewrite) {
    if r.count == 0 then r.tree == before else !YnFree(r.tree)
  }

  lemma {:induction false} PutYn(op: Op, e: Expr, p: Path, x: Expr)
    requires InList(op, e, p) && p != [] && (x.IsYes() || x.IsNo() || !YnFree(x))
    ensures !YnFree(Put(op, e, p, x))
  {
    if |p| > 1 {
      PutYn(op, Child(e, p[0]), p[1..], x);
    }
  }

  lemma {:induction false} PutSame(op: Op, e: Expr, p: Path)
    requires InList(op, e, p)
    ensures Put(op, e, p, At(op, e, p)) == e
  {
    if p != [] {
      PutSame(op, Child(e, p[0]), p[1..]);
    }
  }

  /** Writing the merged term to p2 leaves the constant at p1. */
  lemma MergeLeavesYn(op: Op, root: Expr, p1: Path, p2: Path)
    requires Addresses(op, root, p1, p2) && p1 != p2
    requires !IsOp(op, At(op, root, p1)) && !IsOp(op, At(op, root, p2))
    ensures Counted(root, MergePair(op, root, p1, p2))
  {
    var t := JoinTerms(op, At(op, root, p1), At(op, root, p2));
    if t.Some? {
      JoinExact(op, At(op, root, p1), At(op, root, p2));
      var root1 := Put(op, root, p1, Unit(op));
      PutTerm(op, root, p1, Unit(op));
      PutElsewhere(op, root, p1, Unit(op), p2);
      PutElsewhere(op, root1, p2, t.value, p1);
      var root2 := Put(op, root1, p2, t.value);
      PutTerm(op, root1, p2, t.value);
      PutSame(op, root2, p1);
      PutYn(op, root2, p1, Unit(op));
    }
  }

  lemma {:induction false} Dups1Counted(op: Op, root: Expr, p1: Path, p2: Path)
    requires Addresses(op, root, p1, p2)
    ensures Counted(root, Dups1(op, root, p1, p2))
    decreases Size(root), Nodes(ShapeOf(op, At(op, root, p1))), Nodes(ShapeOf(op, At(op, root, p2)))
  {
    if IsOp(op, At(op, root, p1)) {
      Extend(op, root, p1, L); Extend(op, root, p1, R);
      var a := Dups1(op, root, p1 + [L], p2);
      Dups1Counted(op, root, p1 + [L], p2);
      StillAddresses(op, root, a.tree, p1 + [R], p2);
      Dups1Counted(op, a.tree, p1 + [R], p2);
    } else if IsOp(op, At(op, root, p2)) {
      Extend(op, root, p2, L); Extend(op, root, p2, R);
      var a := Dups1(op, root, p1, p2 + [L]);
      Dups1Counted(op, root, p1, p2 + [L]);
      StillAddresses(op, root, a.tree, p1, p2 + [R]);
      Dups1Counted(op, a.tree, p1, p2 + [R]);
    } else if p1 != p2 {
      var e1 := At(op, root, p1);
      var a := Dups1Inner(op, root, p1);
      PutTerm(op, root, p1, a.tree);
      if e1.IsBinary() {
        Dups1Counted(OpOf(e1), e1, [], []);
      }
      PutSame(op, root, p1);
      if a.count > 0 {
        PutYn(op, root, p1, a.tree);
      }
      PutElsewhere(op, root, p1, a.tree, p2);
      MergeLeavesYn(op, Put(op, root, p1, a.tree), p1, p2);
    }
  }

  lemma {:induction false} Dups2Counted(op: Op, root: Expr, p1: Path, p2: Path)
    requires Addresses(op, root, p1, p2)
    ensures Counted(root, Dups2(op, root, p1, p2))
    decreases Size(root), Nodes(ShapeOf(op, At(op, root, p1))), Nodes(ShapeOf(op, At(op, root, p2)))
  {
    if IsOp(op, At(op, root, p1)) {
      Extend(op, root, p1, L); Extend(op, root, p1, R);
      var a := Dups2(op, root, p1 + [L], p2);
      Dups2Counted(op, root, p1 + [L], p2);
      StillAddresses(op, root, a.tree, p1 + [R], p2);
      Dups2Counted(op, a.tree, p1 + [R], p2);
    } else if IsOp(op, At(op, root, p2)) {
      Extend(op, root, p2, L); Extend(op, root, p2, R);
      var a := Dups2(op, root, p1, p2 + [L]);
      Dups2Counted(op, root, p1, p2 + [L]);
      StillAddresses(op, root, a.tree, p1, p2 + [R]);
      var b := Dups2(op, a.tree, p1, p2 + [R]);
      Dups2Counted(op, a.tree, p1, p2 + [R]);
      StillAddresses(op, root, b.tree, p1, p2);
      Dups2TermCounted(op, b.tree, p1, p2);
    } else {
      Dups2TermCounted(op, root, p1, p2);
    }
  }

  lemma {:induction false} Dups2TermCounted(op: Op, root: Expr, p1: Path, p2: Path)
    requires Addresses(op, root, p1, p2) && !IsOp(op, At(op, root, p1))
    ensures Counted(root, Dups2Term(op, root, p1, p2))
    decreases Size(root), 0, 0
  {
    var e1 := At(op, root, p1);
    PutTerm(op, root, p1, e1);
    if p1 != p2 && e1.IsBinary() {
      var a := Dups2(OpOf(e1), e1, [], []);
      Dups2Counted(OpOf(e1), e1, [], []);
      PutTerm(op, root, p1, a.tree);
      PutSame(op, root, p1);
      if a.count > 0 {
        PutYn(op, root, p1, a.tree);
      }
      var root1 := Put(op, root, p1, a.tree);
      SameShapeAt(op, root, root1, p2);
      PutYn(op, root1, p1, Absorbing(op));
    }
  }

  /** A round keeps n and y values; if it counted a change, expr_eliminate_yn then strictly
      shrinks the tree, and if it did not, it changed nothing. */
  lemma RoundCorrect(e: Expr)
    ensures forall v: Valuation | v.Valid() :: KeptUnlessMod(e, EliminateYn(Round(e).tree), v)
    ensures Round(e).count > 0 ==> Size(EliminateYn(Round(e).tree)) < Size(e)
    ensures Round(e).count == 0 ==> Round(e).tree == e
  {
    EliminateYnCorrect(Round(e).tree);
    if e.IsBinary() {
      var op := OpOf(e);
      var a := Dups1(op, e, [], []);
      Dups1Counted(op, e, [], []);
      Dups2Counted(op, a.tree, [], []);
      forall v: Valuation | v.Valid()
        ensures KeptUnlessMod(e, EliminateYn(Round(e).tree), v)
      {
        Dups1Exact(op, e, [], [], v);
        Dups2Keeps(op, a.tree, [], [], v);
      }
    }
  }

  // ---------------------------------------------------------------- nothing left

  ghost predicate TermAt(op: Op, e: Expr, p: Path) {
    InList(op, e, p) && !IsOp(op, At(op, e, p))
  }

  /** No two terms of the list e can be joined. */
  ghost predicate NoJoin(op: Op, e: Expr) {
    forall p, q | TermAt(op, e, p) && TermAt(op, e, q) && p != q ::
      JoinTerms(op, At(op, e, p), At(op, e, q)).None?
  }

  /** No list at or below e, seen from inside an op list, has two terms that can be joined. */
  ghost predicate Merged(op: Op, e: Expr)
    decreases e
  {
    if IsOp(op, e) then Merged(op, e.lhs) && Merged(op, e.rhs)
    else e.IsBinary() ==> NoJoin(OpOf(e), e) && Merged(OpOf(e), e.lhs) && Merged(OpOf(e), e.rhs)
  }

  ghost predicate FullyMerged(e: Expr) {
    e.IsBinary() ==> NoJoin(OpOf(e), e) && Merged(OpOf(e), e)
  }

  /** A call that counts nothing has tried every pair below its two addresses and found no join,
      and the same holds for the list inside each term. */
  lemma {:induction false} Dups1Idle(op: Op, root: Expr, p1: Path, p2: Path, q1: Path, q2: Path)
    requires Addresses(op, root, p1, p2) && Dups1(op, root, p1, p2).count == 0
    requires p1 <= q1 && TermAt(op, root, q1) && p2 <= q2 && TermAt(op, root, q2) && q1 != q2
    ensures JoinTerms(op, At(op, root, q1), At(op, root, q2)).None?
    ensures var t := At(op, root, q1); t.IsBinary() ==> Dups1(OpOf(t), t, [], []).count == 0
    decreases Nodes(ShapeOf(op, At(op, root, p1))), Nodes(ShapeOf(op, At(op, root, p2)))
  {
    if IsOp(op, At(op, root, p1)) {
      Extend(op, root, p1, L); Extend(op, root, p1, R);
      Dups1Counted(op, root, p1 + [L], p2);
      Below(op, root, p1, q1);
      if q1[|p1|].L? {
        Dups1Idle(op, root, p1 + [L], p2, q1, q2);
      } else {
        Dups1Idle(op, root, p1 + [R], p2, q1, q2);
      }
    } else if IsOp(op, At(op, root, p2)) {
      Extend(op, root, p2, L); Extend(op, root, p2, R);
      Dups1Counted(op, root, p1, p2 + [L]);
      Below(op, root, p2, q2);
      if q2[|p2|].L? {
        Dups1Idle(op, root, p1, p2 + [L], q1, q2);
      } else {
        Dups1Idle(op, root, p1, p2 + [R], q1, q2);
      }
    } else {
      Below(op, root, p1, q1);
      Below(op, root, p2, q2);
      TermsIdle(op, root, p1, p2);
    }
  }

  lemma TermsIdle(op: Op, root: Expr, p1: Path, p2: Path)
    requires Addresses(op, root, p1, p2) && Dups1(op, root, p1, p2).count == 0
    requires TermAt(op, root, p1) && TermAt(op, root, p2) && p1 != p2
    ensures JoinTerms(op, At(op, root, p1), At(op, root, p2)).None?
    ensures var t := At(op, root, p1); t.IsBinary() ==> Dups1(OpOf(t), t, [], []).count == 0
  {
    var e1 := At(op, root, p1);
    if e1.IsBinary() {
      Dups1Counted(OpOf(e1), e1, [], []);
    }
    PutSame(op, root, p1);
  }

  /** An address below an op node goes through one of its children; below a term there is none. */
  lemma {:induction false} Below(op: Op, root: Expr, p: Path, q: Path)
    requires InList(op, root, p) && TermAt(op, root, q) && p <= q
    ensures if IsOp(op, At(op, root, p)) then |p| < |q| && p + [q[|p|]] <= q else p == q
  {
    if p != [] {
      Below(op, Child(root, p[0]), p[1..], q[1..]);
    }
  }

  function FirstTerm(op: Op, e: Expr): (p: Path)
    ensures InList(op, e, p) && !IsOp(op, At(op, e, p))
  {
    if IsOp(op, e) then [L] + FirstTerm(op, e.lhs) else []
  }

  lemma {:induction false} IdleMerged(op: Op, root: Expr, p: Path)
    requires IsOp(op, root) && Dups1(op, root, [], []).count == 0 && InList(op, root, p)
    ensures NoJoin(op, root) && Merged(op, At(op, root, p))
    decreases Size(root), Size(At(op, root, p))
  {
    forall q1, q2 | TermAt(op, root, q1) && TermAt(op, root, q2) && q1 != q2
      ensures JoinTerms(op, At(op, root, q1), At(op, root, q2)).None?
    {
      Dups1Idle(op, root, [], [], q1, q2);
    }
    var t := At(op, root, p);
    PutTerm(op, root, p, t);
    if IsOp(op, t) {
      Extend(op, root, p, L); Extend(op, root, p, R);
      IdleMerged(op, root, p + [L]);
      IdleMerged(op, root, p + [R]);
    } else if t.IsBinary() {
      var other := if p[0].L? then [R] + FirstTerm(op, root.rhs) else [L] + FirstTerm(op, root.lhs);
      Dups1Idle(op, root, [], [], p, other);
      IdleMerged(OpOf(t), t, []);
    }
  }

  /** A round that counts nothing finds a tree whose lists are fully merged. */
  lemma RoundIdle(e: Expr)
    requires Round(e).count == 0
    ensures FullyMerged(e)
  {
    if e.IsBinary() {
      IdleMerged(OpOf(e), e, []);
    }
  }

  lemma {:induction false} MergedAt(op: Op, e: Expr, p: Path)
    requires Merged(op, e) && InList(op, e, p)
    ensures Merged(op, At(op, e, p))
  {
    if p != [] {
      MergedAt(op, Child(e, p[0]), p[1..]);
    }
  }

  /** The converse: on a fully merged list expr_eliminate_dups1 does nothing. */
  lemma {:induction false} MergedIdle(op: Op, root: Expr, p1: Path, p2: Path)
    requires Addresses(op, root, p1, p2) && NoJoin(op, root) && Merged(op, root)
    ensures Dups1(op, root, p1, p2) == Rewrite(root, 0)
    decreases Size(root), Nodes(ShapeOf(op, At(op, root, p1))), Nodes(ShapeOf(op, At(op, root, p2)))
  {
    if IsOp(op, At(op, root, p1)) {
      Extend(op, root, p1, L); Extend(op, root, p1, R);
      MergedIdle(op, root, p1 + [L], p2);
      MergedIdle(op, root, p1 + [R], p2);
    } else if IsOp(op, At(op, root, p2)) {
      Extend(op, root, p2, L); Extend(op, root, p2, R);
      MergedIdle(op, root, p1, p2 + [L]);
      MergedIdle(op, root, p1, p2 + [R]);
    } else if p1 != p2 {
      var e1 := At(op, root, p1);
      MergedAt(op, root, p1);
      PutTerm(op, root, p1, e1);
      PutSame(op, root, p1);
      if e1.IsBinary() {
        MergedIdle(OpOf(e1), e1, [], []);
      }
      assert TermAt(op, root, p1) && TermAt(op, root, p2);
    }
  }

  // ---------------------------------------------------------------- the loop

  /** expr_eliminate_dups as a whole: rounds, with expr_eliminate_yn after each that counted. */
  function Settled(e: Expr): Expr
    decreases Size(e)
  {
    RoundCorrect(e);
    if Round(e).count == 0 then e else Settled(EliminateYn(Round(e).tree))
  }

  /** What the whole loop guarantees. */
  lemma {:induction false} SettledCorrect(e: Expr)
    ensures forall v: Valuation | v.Valid() :: KeptUnlessMod(e, Settled(e), v)
    ensures Round(Settled(e)).count == 0 && FullyMerged(Settled(e))
    ensures if Round(e).count == 0 then Settled(e) == e else Size(Settled(e)) < Size(e)
    decreases Size(e)
  {
    RoundCorrect(e);
    if Round(e).count == 0 {
      RoundIdle(e);
    } else {
      var e' := EliminateYn(Round(e).tree);
      SettledCorrect(e');
      forall v: Valuation | v.Valid()
        ensures KeptUnlessMod(e, Settled(e), v)
      {
        assert KeptUnlessMod(e, e', v) && KeptUnlessMod(e', Settled(e'), v);
      }
    }
  }

  /** No turn of the loop finds a contradiction: expr_eliminate_dups2 never counts. */
  predicate NoContradiction(e: Expr)
    decreases Size(e)
  {
    RoundCorrect(e);
    (e.IsBinary() ==> Dups2(OpOf(e), Dups1(OpOf(e), e, [], []).tree, [], []).count == 0)
    && (Round(e).count == 0 || NoContradiction(EliminateYn(Round(e).tree)))
  }

  /** Every contradiction that expr_eliminate_dups2 finds is in a list whose value is not m. */
  ghost predicate Harmless(op: Op, root: Expr, p1: Path, p2: Path, v: Valuation)
    requires Addresses(op, root, p1, p2)
    decreases Size(root), Nodes(ShapeOf(op, At(op, root, p1))), Nodes(ShapeOf(op, At(op, root, p2)))
  {
    if IsOp(op, At(op, root, p1)) then
      Extend(op, root, p1, L); Extend(op, root, p1, R);
      var a := Dups2(op, root, p1 + [L], p2);
      StillAddresses(op, root, a.tree, p1 + [R], p2);
      Harmless(op, root, p1 + [L], p2, v) && Harmless(op, a.tree, p1 + [R], p2, v)
    else if IsOp(op, At(op, root, p2)) then
      Extend(op, root, p2, L); Extend(op, root, p2, R);
      var a := Dups2(op, root, p1, p2 + [L]);
      StillAddresses(op, root, a.tree, p1, p2 + [R]);
      var b := Dups2(op, a.tree, p1, p2 + [R]);
      StillAddresses(op, root, b.tree, p1, p2);
      && Harmless(op, root, p1, p2 + [L], v) && Harmless(op, a.tree, p1, p2 + [R], v)
      && HarmlessTerm(op, b.tree, p1, p2, v)
    else HarmlessTerm(op, root, p1, p2, v)
  }

  ghost predicate HarmlessTerm(op: Op, root: Expr, p1: Path, p2: Path, v: Valuation)
    requires Addresses(op, root, p1, p2) && !IsOp(op, At(op, root, p1))
    decreases Size(root), 0, 0
  {
    var e1 := At(op, root, p1);
    if p1 == p2 || !e1.IsBinary() then true
    else
      PutTerm(op, root, p1, e1);
      var a := Dups2(OpOf(e1), e1, [], []);
      PutTerm(op, root, p1, a.tree);
      var root1 := Put(op, root, p1, a.tree);
      SameShapeAt(op, root, root1, p2);
      && Harmless(OpOf(e1), e1, [], [], v)
      && (Contradicts(op, At(op, root1, p1), At(op, root1, p2)) ==> Eval(root1, v) != MOD)
  }

  /** Then it keeps all three values. */
  lemma {:induction false} Dups2Exact(op: Op, root: Expr, p1: Path, p2: Path, v: Valuation)
    requires Addresses(op, root, p1, p2) && v.Valid() && Harmless(op, root, p1, p2, v)
    ensures Eval(Dups2(op, root, p1, p2).tree, v) == Eval(root, v)
    decreases Size(root), Nodes(ShapeOf(op, At(op, root, p1))), Nodes(ShapeOf(op, At(op, root, p2)))
  {
    if IsOp(op, At(op, root, p1)) {
      Extend(op, root, p1, L); Extend(op, root, p1, R);
      var a := Dups2(op, root, p1 + [L], p2);
      Dups2Exact(op, root, p1 + [L], p2, v);
      StillAddresses(op, root, a.tree, p1 + [R], p2);
      Dups2Exact(op, a.tree, p1 + [R], p2, v);
    } else if IsOp(op, At(op, root, p2)) {
      Extend(op, root, p2, L); Extend(op, root, p2, R);
      var a := Dups2(op, root, p1, p2 + [L]);
      Dups2Exact(op, root, p1, p2 + [L], v);
      StillAddresses(op, root, a.tree, p1, p2 + [R]);
      var b := Dups2(op, a.tree, p1, p2 + [R]);
      Dups2Exact(op, a.tree, p1, p2 + [R], v);
      StillAddresses(op, root, b.tree, p1, p2);
      Dups2TermExact(op, b.tree, p1, p2, v);
    } else {
      Dups2TermExact(op, root, p1, p2, v);
    }
  }

  lemma {:induction false} Dups2TermExact(op: Op, root: Expr, p1: Path, p2: Path, v: Valuation)
    requires Addresses(op, root, p1, p2) && v.Valid() && !IsOp(op, At(op, root, p1))
    requires HarmlessTerm(op, root, p1, p2, v)
    ensures Eval(Dups2Term(op, root, p1, p2).tree, v) == Eval(root, v)
    decreases Size(root), 0, 0
  {
    var e1 := At(op, root, p1);
    PutTerm(op, root, p1, e1);
    if p1 != p2 && e1.IsBinary() {
      var a := Dups2(OpOf(e1), e1, [], []);
      Dups2Exact(OpOf(e1), e1, [], [], v);
      EvalAt(op, root, p1, v);
      OthersPut(op, root, p1, a.tree, v);
      PutTerm(op, root, p1, a.tree);
      var root1 := Put(op, root, p1, a.tree);
      SameShapeAt(op, root, root1, p2);
      if Contradicts(op, At(op, root1, p1), At(op, root1, p2)) {
        ContradictionStep(op, root1, p1, p2, v);
      }
    }
  }

  /** A call that counts nothing is harmless everywhere. */
  lemma {:induction false} IdleHarmless(op: Op, root: Expr, p1: Path, p2: Path, v: Valuation)
    requires Addresses(op, root, p1, p2) && Dups2(op, root, p1, p2).count == 0
    ensures Harmless(op, root, p1, p2, v)
    decreases Size(root), Nodes(ShapeOf(op, At(op, root, p1))), Nodes(ShapeOf(op, At(op, root, p2)))
  {
    if IsOp(op, At(op, root, p1)) {
      Extend(op, root, p1, L); Extend(op, root, p1, R);
      var a := Dups2(op, root, p1 + [L], p2);
      StillAddresses(op, root, a.tree, p1 + [R], p2);
      IdleHarmless(op, root, p1 + [L], p2, v);
      IdleHarmless(op, a.tree, p1 + [R], p2, v);
    } else if IsOp(op, At(op, root, p2)) {
      Extend(op, root, p2, L); Extend(op, root, p2, R);
      var a := Dups2(op, root, p1, p2 + [L]);
      StillAddresses(op, root, a.tree, p1, p2 + [R]);
      var b := Dups2(op, a.tree, p1, p2 + [R]);
      StillAddresses(op, root, b.tree, p1, p2);
      IdleHarmless(op, root, p1, p2 + [L], v);
      IdleHarmless(op, a.tree, p1, p2 + [R], v);
      IdleHarmlessTerm(op, b.tree, p1, p2, v);
    } else {
      IdleHarmlessTerm(op, root, p1, p2, v);
    }
  }

  lemma {:induction false} IdleHarmlessTerm(op: Op, root: Expr, p1: Path, p2: Path, v: Valuation)
    requires Addresses(op, root, p1, p2) && !IsOp(op, At(op, root, p1)) && Dups2Term(op, root, p1, p2).count == 0
    ensures HarmlessTerm(op, root, p1, p2, v)
    decreases Size(root), 0, 0
  {
    var e1 := At(op, root, p1);
    PutTerm(op, root, p1, e1);
    if p1 != p2 && e1.IsBinary() {
      IdleHarmless(OpOf(e1), e1, [], [], v);
    }
  }

  /** In no turn of the loop a contradiction is found in a list that is m. */
  ghost predicate LoopHarmless(e: Expr, v: Valuation)
    decreases Size(e)
  {
    RoundCorrect(e);
    && (e.IsBinary() ==> Harmless(OpOf(e), Dups1(OpOf(e), e, [], []).tree, [], [], v))
    && (Round(e).count == 0 || LoopHarmless(EliminateYn(Round(e).tree), v))
  }

  /** Then the loop is exact for all three values: only contradictions in lists that are m cost an m. */
  lemma {:induction false} SettledExact(e: Expr, v: Valuation)
    requires v.Valid() && LoopHarmless(e, v)
    ensures Eval(Settled(e), v) == Eval(e, v)
    decreases Size(e)
  {
    RoundCorrect(e);
    if Round(e).count > 0 {
      var a := Dups1(OpOf(e), e, [], []);
      Dups1Exact(OpOf(e), e, [], [], v);
      Dups2Exact(OpOf(e), a.tree, [], [], v);
      EliminateYnCorrect(Round(e).tree);
      SettledExact(EliminateYn(Round(e).tree), v);
    }
  }

  /** In particular where expr_eliminate_dups2 counts in no turn. */
  lemma {:induction false} QuietHarmless(e: Expr, v: Valuation)
    requires NoContradiction(e)
    ensures LoopHarmless(e, v)
    decreases Size(e)
  {
    RoundCorrect(e);
    if e.IsBinary() {
      IdleHarmless(OpOf(e), Dups1(OpOf(e), e, [], []).tree, [], [], v);
      if Round(e).count > 0 {
        QuietHarmless(EliminateYn(Round(e).tree), v);
      }
    }
  }

  // ---------------------------------------------------------------- the lost m

  lemma ShortPaths(s: Side)
    ensures [] + [s] == [s] && [s][1..] == []
  {
  }

  /** (FOO || n) && !FOO, a list with one contradiction. */
  function Clash(foo: Symbol): Expr {
    And(Or(Symbol(foo), Symbol(SymbolNo)), Not(Symbol(foo)))
  }

  lemma TermsOfPair(op: Op, a: Expr, b: Expr, p: Path)
    requires !IsOp(op, a) && !IsOp(op, b) && TermAt(op, Make(op, a, b), p)
    ensures (p == [L] && At(op, Make(op, a, b), p) == a) || (p == [R] && At(op, Make(op, a, b), p) == b)
  {
    assert p == [p[0]] + p[1..];
    assert InList(op, Child(Make(op, a, b), p[0]), p[1..]);
    assert p[1..] == [];
  }

  lemma PairMerged(op: Op, a: Expr, b: Expr)
    requires !IsOp(op, a) && !IsOp(op, b)
    requires JoinTerms(op, a, b).None? && JoinTerms(op, b, a).None?
    ensures NoJoin(op, Make(op, a, b))
  {
    var e := Make(op, a, b);
    forall p, q | TermAt(op, e, p) && TermAt(op, e, q) && p != q
      ensures JoinTerms(op, At(op, e, p), At(op, e, q)).None?
    {
      TermsOfPair(op, a, b, p);
      TermsOfPair(op, a, b, q);
    }
  }

  /** expr_eliminate_dups2 on a list of two terms, one row of calls: the term at s against both
      terms and then against the whole list. */
  lemma PairRow(op: Op, e: Expr, s: Side) returns (x: Rewrite, y: Rewrite, z: Rewrite)
    requires IsOp(op, e) && !IsOp(op, e.lhs) && !IsOp(op, e.rhs)
    ensures InList(op, e, [s]) && InList(op, e, [L]) && InList(op, e, [R])
    ensures At(op, e, [L]) == e.lhs && At(op, e, [R]) == e.rhs
    ensures x == Dups2Term(op, e, [s], [L])
    ensures IsOp(op, x.tree) && !IsOp(op, x.tree.lhs) && !IsOp(op, x.tree.rhs)
    ensures InList(op, x.tree, [s]) && InList(op, x.tree, [R]) && !IsOp(op, At(op, x.tree, [s]))
    ensures y == Dups2Term(op, x.tree, [s], [R])
    ensures IsOp(op, y.tree) && !IsOp(op, y.tree.lhs) && !IsOp(op, y.tree.rhs)
    ensures InList(op, y.tree, [s]) && !IsOp(op, At(op, y.tree, [s]))
    ensures z == Dups2Term(op, y.tree, [s], [])
    ensures Dups2(op, e, [s], []) == Rewrite(z.tree, x.count + y.count + z.count)
  {
    ShortPaths(L);
    ShortPaths(R);
    assert At(op, e, [L]) == e.lhs && At(op, e, [R]) == e.rhs;
    x := Dups2Term(op, e, [s], [L]);
    assert x == Dups2(op, e, [s], [L]);
    StillAddresses(op, e, x.tree, [s], [R]);
    y := Dups2Term(op, x.tree, [s], [R]);
    assert y == Dups2(op, x.tree, [s], [R]);
    StillAddresses(op, e, y.tree, [s], []);
    z := Dups2Term(op, y.tree, [s], []);
  }

  /** A list of two terms that are not lists themselves is left alone. */
  lemma PlainPair(op: Op, e: Expr)
    requires IsOp(op, e) && !e.lhs.IsBinary() && !e.rhs.IsBinary()
    ensures InList(op, e, [R]) && Dups2(op, e, [R], []) == Rewrite(e, 0)
    ensures Dups2(op, e, [], []) == Rewrite(e, 0)
  {
    var x, y, z := PairRow(op, e, L);
    x, y, z := PairRow(op, e, R);
    ShortPaths(L);
    ShortPaths(R);
  }

  /** What expr_eliminate_dups makes of the clash is n, and where foo is m an m is lost. */
  lemma ModIsLost(foo: Symbol)
    requires foo.OfKind(Tri)
    ensures Settled(Clash(foo)) == Symbol(SymbolNo)
    ensures exists v: Valuation :: v.Valid() && v.tri(foo) == MOD
    ensures forall v: Valuation | v.Valid() ::
              Eval(Settled(Clash(foo)), v) == Eval(Clash(foo), v) <==> v.tri(foo) != MOD
  {
    SomeConfiguration(foo);
    ClashTurn(foo);
    assert Round(Symbol(SymbolNo)).count == 0;
    assert Settled(Symbol(SymbolNo)) == Symbol(SymbolNo);
    forall v: Valuation | v.Valid()
      ensures Eval(Clash(foo), v) == if v.tri(foo) == MOD then MOD else NO
    {
      assert Eval(Clash(foo).lhs, v) == OrValue(v.tri(foo), NO) == v.tri(foo);
      assert Eval(Clash(foo).rhs, v) == NotValue(Eval(Symbol(foo), v)) == 2 - v.tri(foo);
    }
  }

  /** One turn of the loop on it. */
  lemma ClashTurn(foo: Symbol)
    requires foo.OfKind(Tri)
    ensures Round(Clash(foo)).count > 0 && EliminateYn(Round(Clash(foo)).tree) == Symbol(SymbolNo)
  {
    var e := Clash(foo);
    assert Dups1(AndOp, e, [], []) == Rewrite(e, 0) by {
      PairMerged(OrOp, e.lhs.lhs, e.lhs.rhs);
      PairMerged(AndOp, e.lhs, e.rhs);
      MergedIdle(AndOp, e, [], []);
    }
    var y := And(Symbol(SymbolNo), e.rhs);
    assert Dups2(AndOp, e, [], []) == Rewrite(y, 1) by {
      PlainPair(OrOp, e.lhs);
      ClashFires(foo);
      FiringRow(AndOp, e);
      PlainPair(AndOp, y);
      ShortPaths(L);
      ShortPaths(R);
    }
  }

  /** The row of a term whose own list is at rest and contradicts the other term. */
  lemma FiringRow(op: Op, e: Expr)
    requires IsOp(op, e) && !IsOp(op, e.lhs) && !IsOp(op, e.rhs) && e.lhs.IsBinary()
    requires Dups2(OpOf(e.lhs), e.lhs, [], []) == Rewrite(e.lhs, 0)
    requires Contradicts(op, e.lhs, e.rhs)
    ensures InList(op, e, [L])
    ensures Dups2(op, e, [L], []) == Rewrite(Make(op, Absorbing(op), e.rhs), 1)
  {
    var x, y, z := PairRow(op, e, L);
    ShortPaths(L);
    PutSame(op, e, [L]);
    assert At(op, e, [L]) == e.lhs;
    assert x == Rewrite(e, 0);
    assert Put(op, e, [L], e.lhs) == e;
    assert y == Contradiction(op, e, [L], [R]);
    assert Put(op, e, [L], Absorbing(op)) == Make(op, Absorbing(op), e.rhs);
    assert y == Rewrite(Make(op, Absorbing(op), e.rhs), 1);
    assert At(op, y.tree, [L]) == Absorbing(op);
    assert z == Rewrite(y.tree, 0);
  }

  lemma ClashFires(foo: Symbol)
    requires foo.OfKind(Tri)
    ensures Contradicts(AndOp, Clash(foo).lhs, Clash(foo).rhs)
  {
    var f, y := Not(Symbol(foo)), Symbol(SymbolYes);
    var t := And(f, y);
    assert Transform(Not(Clash(foo).lhs)) == t by {
      assert Transform(Clash(foo).lhs) == Clash(foo).lhs;
      assert Transform(Symbol(foo)) == Symbol(foo) && Transform(Symbol(SymbolNo)) == Symbol(SymbolNo);
      assert Transform(f) == f;
      assert Transform(Not(Symbol(SymbolNo))) == Negated(Symbol(SymbolNo)) == y;
      assert Transform(And(f, Not(Symbol(SymbolNo)))) == t;
    }
    assert ExprEq(f, f) && ExprEq(y, y);
    var p := ExtractPass(AndOp, Extracted(None, f, f));
    assert p == Extracted(Some(f), y, y);
    var q := ExtractPass(AndOp, p.(first := y));
    assert q == Extracted(Some(And(f, y)), y, y);
    assert ExtractPass(AndOp, Extracted(None, t, f)).first == And(y, y);
  }
}
