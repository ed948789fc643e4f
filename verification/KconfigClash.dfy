/** expr_eliminate_dups2: when a list is found to contradict itself, and what an idle round rules out. */
module KconfigClash {
  import opened KconfigExpr
  import opened KconfigEq
  import opened KconfigEqReflexive
  import opened KconfigEqKeys
  import opened KconfigEqCommon
  import opened KconfigTransform
  import opened KconfigExtract
  import opened KconfigPath
  import opened KconfigDups
  import opened KconfigDupsProof

  // ---------------------------------------------------------------- what expr_extract_eq takes out

  /** No term of e decides the list. */
  ghost predicate Open(op: Op, e: Expr) { !HasTerm(op, e, Absorbing(op)) }

  /** On such lists it leaves what __expr_eliminate_eq leaves. */
  lemma {:induction false} ExtractIsPass(op: Op, s: Extracted)
    requires Open(op, s.first) && Open(op, s.second)
    ensures var r := ExtractPass(op, s);
      (r.first, r.second) == EliminatePass(op, s.first, s.second) && (r.common.None? ==> r == s)
    decreases Size(s.first) + Size(s.second)
  {
    if IsOp(op, s.first) {
      var a := s.(first := s.first.lhs);
      PassTerms(op, a.first, a.second);
      ExtractIsPass(op, a);
      ExtractIsPass(op, ExtractPass(op, a).(first := s.first.rhs));
    } else if IsOp(op, s.second) {
      var a := s.(second := s.second.lhs);
      PassTerms(op, a.first, a.second);
      ExtractIsPass(op, a);
      ExtractIsPass(op, ExtractPass(op, a).(second := s.second.rhs));
    } else {
      TermsPass(op, s.first, s.second);
    }
  }

  lemma PlainOpen(op: Op, e: Expr)
    requires Plain(e) && !IsYn(e)
    ensures Open(op, e)
  {
    if HasTerm(op, e, Absorbing(op)) {
      PlainTerm(op, e, Absorbing(op));
    }
  }

  /** Everything in e1 is taken out exactly when its terms are among those of e2, as often. */
  lemma ExtractAll(op: Op, e1: Expr, e2: Expr)
    requires Plain(e1) && Plain(e2) && !IsYn(e1) && !IsYn(e2)
    ensures ExtractEq(op, e1, e2).first == Unit(op) <==> Items(op, e1) <= Items(op, e2)
  {
    PlainOpen(op, e1);
    PlainOpen(op, e2);
    ExtractIsPass(op, Extracted(None, e1, e2));
    PlainPass(op, e1, e2);
    PlainYnFree(e1);
    EliminateYnCorrect(e1);
  }

  // ---------------------------------------------------------------- when a list contradicts itself

  /** A negation in normal form has no constant operands either. */
  lemma {:induction false} NegationPlain(e: Expr)
    requires Normal(e) && Plain(e) && !IsYn(e)
    ensures Plain(Transform(Not(e))) && !IsYn(Transform(Not(e)))
  {
    TransformNormal(e);
    match e
    case And(a, b) =>
      assert Transform(Not(e)) == Negated(e) == Transform(Or(Not(a), Not(b)));
      NegationPlain(a);
      NegationPlain(b);
    case Or(a, b) =>
      assert Transform(Not(e)) == Negated(e) == Transform(And(Not(a), Not(b)));
      NegationPlain(a);
      NegationPlain(b);
    case _ =>
  }

  /** The guard fires exactly when all terms of the negation of e1 are among those of e2, as often. */
  lemma ContradictsExact(op: Op, e1: Expr, e2: Expr)
    requires Normal(e1) && Plain(e1) && Plain(e2) && !IsYn(e1) && !IsYn(e2)
    ensures Contradicts(op, e1, e2) <==> Items(op, Transform(Not(e1))) <= Items(op, e2)
  {
    NegationPlain(e1);
    ExtractAll(op, Transform(Not(e1)), e2);
  }

  // ---------------------------------------------------------------- what an idle round has tried

  lemma {:induction false} FurtherBelow(op: Op, root: Expr, p: Path, q: Path)
    requires InList(op, root, p) && InList(op, root, q) && p <= q && p != q
    ensures IsOp(op, At(op, root, p)) && p + [q[|p|]] <= q
  {
    if p != [] {
      FurtherBelow(op, Child(root, p[0]), p[1..], q[1..]);
    }
  }

  /** Then its calls on the halves count nothing either, and find the same tree. */
  lemma FirstIdle(op: Op, root: Expr, p1: Path, p2: Path, s: Side)
    requires Addresses(op, root, p1, p2) && Dups2(op, root, p1, p2).count == 0 && IsOp(op, At(op, root, p1))
    ensures var p := p1 + [s];
      InList(op, root, p) && Dups2(op, root, p, p2).count == 0 &&
      Nodes(ShapeOf(op, At(op, root, p))) < Nodes(ShapeOf(op, At(op, root, p1)))
  {
    Extend(op, root, p1, L); Extend(op, root, p1, R);
    Dups2Counted(op, root, p1 + [L], p2);
  }

  lemma SecondIdle(op: Op, root: Expr, p1: Path, p2: Path, s: Side)
    requires Addresses(op, root, p1, p2) && Dups2(op, root, p1, p2).count == 0
    requires !IsOp(op, At(op, root, p1)) && IsOp(op, At(op, root, p2))
    ensures var p := p2 + [s];
      InList(op, root, p) && Dups2(op, root, p1, p).count == 0 &&
      Nodes(ShapeOf(op, At(op, root, p))) < Nodes(ShapeOf(op, At(op, root, p2)))
  {
    Extend(op, root, p2, L); Extend(op, root, p2, R);
    Dups2Counted(op, root, p1, p2 + [L]);
  }

  /** A call that counts nothing has tried every list term below its first address against everything
      at or below its second one, and the same holds for the list inside each such term. */
  lemma {:induction false} Dups2Idle(op: Op, root: Expr, p1: Path, p2: Path, q1: Path, q2: Path)
    requires Addresses(op, root, p1, p2) && Dups2(op, root, p1, p2).count == 0
    requires p1 <= q1 && TermAt(op, root, q1) && p2 <= q2 && InList(op, root, q2) && q1 != q2
    requires At(op, root, q1).IsBinary()
    ensures !Contradicts(op, At(op, root, q1), At(op, root, q2))
    ensures var t := At(op, root, q1); Dups2(OpOf(t), t, [], []).count == 0
    decreases Nodes(ShapeOf(op, At(op, root, p1))), Nodes(ShapeOf(op, At(op, root, p2)))
  {
    if p1 != q1 {
      FurtherBelow(op, root, p1, q1);
      FirstIdle(op, root, p1, p2, q1[|p1|]);
      Dups2Idle(op, root, p1 + [q1[|p1|]], p2, q1, q2);
    } else if p2 != q2 {
      FurtherBelow(op, root, p2, q2);
      SecondIdle(op, root, p1, p2, q2[|p2|]);
      Dups2Idle(op, root, p1, p2 + [q2[|p2|]], q1, q2);
    } else {
      LastTried(op, root, p1, p2);
    }
  }

  lemma LastTried(op: Op, root: Expr, p1: Path, p2: Path)
    requires Addresses(op, root, p1, p2) && Dups2(op, root, p1, p2).count == 0 && p1 != p2
    requires TermAt(op, root, p1) && At(op, root, p1).IsBinary()
    ensures !Contradicts(op, At(op, root, p1), At(op, root, p2))
    ensures var t := At(op, root, p1); Dups2(OpOf(t), t, [], []).count == 0
  {
    if IsOp(op, At(op, root, p2)) {
      Extend(op, root, p2, L); Extend(op, root, p2, R);
      Dups2Counted(op, root, p1, p2 + [L]);
      Dups2Counted(op, root, p1, p2 + [R]);
    }
    assert Dups2Term(op, root, p1, p2).count == 0;
    TermTried(op, root, p1, p2);
  }

  lemma TermTried(op: Op, root: Expr, p1: Path, p2: Path)
    requires Addresses(op, root, p1, p2) && p1 != p2 && !IsOp(op, At(op, root, p1)) && At(op, root, p1).IsBinary()
    requires Dups2Term(op, root, p1, p2).count == 0
    ensures !Contradicts(op, At(op, root, p1), At(op, root, p2))
    ensures var t := At(op, root, p1); Dups2(OpOf(t), t, [], []).count == 0
  {
    var e1 := At(op, root, p1);
    PutTerm(op, root, p1, e1);
    PutSame(op, root, p1);
    Dups2Counted(OpOf(e1), e1, [], []);
  }

  /** No list term of the list e contradicts another part of e, or e itself. */
  ghost predicate NoContradictionIn(op: Op, e: Expr) {
    forall p, q | TermAt(op, e, p) && At(op, e, p).IsBinary() && InList(op, e, q) && p != q ::
      !Contradicts(op, At(op, e, p), At(op, e, q))
  }

  /** The same for every list at or below e, seen from inside an op list. */
  ghost predicate Consistent(op: Op, e: Expr)
    decreases e
  {
    if IsOp(op, e) then Consistent(op, e.lhs) && Consistent(op, e.rhs)
    else e.IsBinary() ==> NoContradictionIn(OpOf(e), e) && Consistent(OpOf(e), e.lhs) && Consistent(OpOf(e), e.rhs)
  }

  ghost predicate FullyConsistent(e: Expr) {
    e.IsBinary() ==> NoContradictionIn(OpOf(e), e) && Consistent(OpOf(e), e)
  }

  lemma {:induction false} IdleConsistent(op: Op, root: Expr, p: Path)
    requires IsOp(op, root) && Dups2(op, root, [], []).count == 0 && InList(op, root, p)
    ensures NoContradictionIn(op, root) && Consistent(op, At(op, root, p))
    decreases Size(root), Size(At(op, root, p))
  {
    forall q1, q2 | TermAt(op, root, q1) && At(op, root, q1).IsBinary() && InList(op, root, q2) && q1 != q2
      ensures !Contradicts(op, At(op, root, q1), At(op, root, q2))
    {
      Dups2Idle(op, root, [], [], q1, q2);
    }
    var t := At(op, root, p);
    PutTerm(op, root, p, t);
    if IsOp(op, t) {
      Extend(op, root, p, L); Extend(op, root, p, R);
      IdleConsistent(op, root, p + [L]);
      IdleConsistent(op, root, p + [R]);
    } else if t.IsBinary() {
      Dups2Idle(op, root, [], [], p, []);
      IdleConsistent(OpOf(t), t, []);
    }
  }

  /** A round that counts nothing finds a tree whose lists are free of contradictions, so the loop of
      expr_eliminate_dups ends with such a tree. */
  lemma RoundConsistent(e: Expr)
    requires Round(e).count == 0
    ensures FullyConsistent(e)
  {
    RoundCorrect(e);
    if e.IsBinary() {
      Dups1Counted(OpOf(e), e, [], []);
      IdleConsistent(OpOf(e), e, []);
    }
  }

  lemma SettledConsistent(e: Expr)
    ensures FullyConsistent(Settled(e))
  {
    SettledCorrect(e);
    RoundConsistent(Settled(e));
  }
}
