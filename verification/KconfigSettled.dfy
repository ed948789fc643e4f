/** What is left when expr_eliminate_dups is done, in the terms of the lists. */
module KconfigSettled {
  import opened KconfigExpr
  import opened KconfigEqReflexive
  import opened KconfigEqKeys
  import opened KconfigTransform
  import opened KconfigJoin
  import opened KconfigPath
  import opened KconfigDups
  import opened KconfigDupsProof
  import opened KconfigClash

  // ---------------------------------------------------------------- the normal form is kept

  lemma NormalJoin(op: Op, e1: Expr, e2: Expr)
    requires Normal(e1) && Normal(e2) && JoinTerms(op, e1, e2).Some?
    ensures Normal(JoinTerms(op, e1, e2).value)
  {
  }

  lemma {:induction false} NormalAt(op: Op, e: Expr, p: Path)
    requires Normal(e) && InList(op, e, p)
    ensures Normal(At(op, e, p))
  {
    if p != [] {
      NormalAt(op, Child(e, p[0]), p[1..]);
    }
  }

  lemma {:induction false} NormalPut(op: Op, e: Expr, p: Path, x: Expr)
    requires Normal(e) && Normal(x) && InList(op, e, p)
    ensures Normal(Put(op, e, p, x))
  {
    if p != [] {
      NormalPut(op, Child(e, p[0]), p[1..], x);
    }
  }

  lemma {:induction false} NormalEliminateYn(e: Expr)
    requires Normal(e)
    ensures Normal(EliminateYn(e))
  {
    if e.IsBinary() {
      NormalEliminateYn(e.lhs);
      NormalEliminateYn(e.rhs);
    }
  }

  lemma {:induction false} Dups1Normal(op: Op, root: Expr, p1: Path, p2: Path)
    requires Addresses(op, root, p1, p2) && Normal(root)
    ensures Normal(Dups1(op, root, p1, p2).tree)
    decreases Size(root), Nodes(ShapeOf(op, At(op, root, p1))), Nodes(ShapeOf(op, At(op, root, p2)))
  {
    if IsOp(op, At(op, root, p1)) {
      Extend(op, root, p1, L); Extend(op, root, p1, R);
      var a := Dups1(op, root, p1 + [L], p2);
      Dups1Normal(op, root, p1 + [L], p2);
      StillAddresses(op, root, a.tree, p1 + [R], p2);
      Dups1Normal(op, a.tree, p1 + [R], p2);
    } else if IsOp(op, At(op, root, p2)) {
      Extend(op, root, p2, L); Extend(op, root, p2, R);
      var a := Dups1(op, root, p1, p2 + [L]);
      Dups1Normal(op, root, p1, p2 + [L]);
      StillAddresses(op, root, a.tree, p1, p2 + [R]);
      Dups1Normal(op, a.tree, p1, p2 + [R]);
    } else if p1 != p2 {
      var e1 := At(op, root, p1);
      NormalAt(op, root, p1);
      PutTerm(op, root, p1, e1);
      if e1.IsBinary() {
        Dups1Normal(OpOf(e1), e1, [], []);
      }
      var a := Dups1Inner(op, root, p1);
      NormalPut(op, root, p1, a.tree);
      PutTerm(op, root, p1, a.tree);
      PutElsewhere(op, root, p1, a.tree, p2);
      MergeNormal(op, Put(op, root, p1, a.tree), p1, p2);
    }
  }

  lemma MergeNormal(op: Op, root: Expr, p1: Path, p2: Path)
    requires Addresses(op, root, p1, p2) && p1 != p2 && Normal(root)
    requires !IsOp(op, At(op, root, p1)) && !IsOp(op, At(op, root, p2))
    ensures Normal(MergePair(op, root, p1, p2).tree)
  {
    var t := JoinTerms(op, At(op, root, p1), At(op, root, p2));
    if t.Some? {
      NormalAt(op, root, p1);
      NormalAt(op, root, p2);
      NormalJoin(op, At(op, root, p1), At(op, root, p2));
      NormalPut(op, root, p1, Unit(op));
      PutElsewhere(op, root, p1, Unit(op), p2);
      NormalPut(op, Put(op, root, p1, Unit(op)), p2, t.value);
    }
  }

  lemma {:induction false} Dups2Normal(op: Op, root: Expr, p1: Path, p2: Path)
    requires Addresses(op, root, p1, p2) && Normal(root)
    ensures Normal(Dups2(op, root, p1, p2).tree)
    decreases Size(root), Nodes(ShapeOf(op, At(op, root, p1))), Nodes(ShapeOf(op, At(op, root, p2)))
  {
    if IsOp(op, At(op, root, p1)) {
      Extend(op, root, p1, L); Extend(op, root, p1, R);
      var a := Dups2(op, root, p1 + [L], p2);
      Dups2Normal(op, root, p1 + [L], p2);
      StillAddresses(op, root, a.tree, p1 + [R], p2);
      Dups2Normal(op, a.tree, p1 + [R], p2);
    } else if IsOp(op, At(op, root, p2)) {
      Extend(op, root, p2, L); Extend(op, root, p2, R);
      var a := Dups2(op, root, p1, p2 + [L]);
      Dups2Normal(op, root, p1, p2 + [L]);
      StillAddresses(op, root, a.tree, p1, p2 + [R]);
      var b := Dups2(op, a.tree, p1, p2 + [R]);
      Dups2Normal(op, a.tree, p1, p2 + [R]);
      StillAddresses(op, root, b.tree, p1, p2);
      Dups2TermNormal(op, b.tree, p1, p2);
    } else {
      Dups2TermNormal(op, root, p1, p2);
    }
  }

  lemma {:induction false} Dups2TermNormal(op: Op, root: Expr, p1: Path, p2: Path)
    requires Addresses(op, root, p1, p2) && !IsOp(op, At(op, root, p1)) && Normal(root)
    ensures Normal(Dups2Term(op, root, p1, p2).tree)
    decreases Size(root), 0, 0
  {
    var e1 := At(op, root, p1);
    PutTerm(op, root, p1, e1);
    if p1 != p2 && e1.IsBinary() {
      NormalAt(op, root, p1);
      Dups2Normal(OpOf(e1), e1, [], []);
      var a := Dups2(OpOf(e1), e1, [], []);
      NormalPut(op, root, p1, a.tree);
      PutTerm(op, root, p1, a.tree);
      var root1 := Put(op, root, p1, a.tree);
      SameShapeAt(op, root, root1, p2);
      NormalPut(op, root1, p1, Absorbing(op));
    }
  }

  /** The normal form is kept by every turn of the loop.  Constant operands of e are only gone if a turn
      counts something, since expr_eliminate_yn is not called otherwise. */
  lemma {:induction false} SettledNormal(e: Expr)
    requires Normal(e)
    ensures Normal(Settled(e)) && (YnFree(Settled(e)) <==> YnFree(e) || Round(e).count > 0)
    decreases Size(e)
  {
    RoundCorrect(e);
    if Round(e).count > 0 {
      var op := OpOf(e);
      var a := Dups1(op, e, [], []);
      Dups1Normal(op, e, [], []);
      Dups2Normal(op, a.tree, [], []);
      NormalEliminateYn(Round(e).tree);
      EliminateYnCorrect(Round(e).tree);
      SettledNormal(EliminateYn(Round(e).tree));
    }
  }

  // ---------------------------------------------------------------- no term twice, no clash

  /** No two terms of the list e are the same up to the order inside them, and no list term meets all
      terms of its negation. */
  ghost predicate Irredundant(op: Op, e: Expr) {
    && (forall p, q | TermAt(op, e, p) && TermAt(op, e, q) && p != q :: KeyOf(At(op, e, p)) != KeyOf(At(op, e, q)))
    && (forall p | TermAt(op, e, p) && At(op, e, p).IsBinary() ::
          !(Items(op, Transform(Not(At(op, e, p)))) <= Items(op, e)))
  }

  /** The same for every list at or below e, seen from inside an op list. */
  ghost predicate IrredundantBelow(op: Op, e: Expr)
    decreases e
  {
    if IsOp(op, e) then IrredundantBelow(op, e.lhs) && IrredundantBelow(op, e.rhs)
    else e.IsBinary() ==>
      Irredundant(OpOf(e), e) && IrredundantBelow(OpOf(e), e.lhs) && IrredundantBelow(OpOf(e), e.rhs)
  }

  ghost predicate FullyIrredundant(e: Expr) {
    e.IsBinary() ==> Irredundant(OpOf(e), e) && IrredundantBelow(OpOf(e), e)
  }

  lemma {:induction false} PlainAt(op: Op, e: Expr, p: Path)
    requires Plain(e) && !IsYn(e) && InList(op, e, p)
    ensures Plain(At(op, e, p)) && !IsYn(At(op, e, p))
  {
    if p != [] {
      PlainAt(op, Child(e, p[0]), p[1..]);
    }
  }

  lemma ListIrredundant(op: Op, e: Expr)
    requires Normal(e) && Plain(e) && IsOp(op, e) && NoJoin(op, e) && NoContradictionIn(op, e)
    ensures Irredundant(op, e)
  {
    forall p, q | TermAt(op, e, p) && TermAt(op, e, q) && p != q
      ensures KeyOf(At(op, e, p)) != KeyOf(At(op, e, q))
    {
      PlainAt(op, e, p);
      PlainAt(op, e, q);
      KeyExact(At(op, e, p), At(op, e, q));
    }
    forall p | TermAt(op, e, p) && At(op, e, p).IsBinary()
      ensures !(Items(op, Transform(Not(At(op, e, p)))) <= Items(op, e))
    {
      NormalAt(op, e, p);
      PlainAt(op, e, p);
      ContradictsExact(op, At(op, e, p), e);
      assert InList(op, e, []) && At(op, e, []) == e;
    }
  }

  lemma {:induction false} BelowIrredundant(op: Op, e: Expr)
    requires Normal(e) && Plain(e) && !IsYn(e) && Merged(op, e) && Consistent(op, e)
    ensures IrredundantBelow(op, e)
    decreases e
  {
    if IsOp(op, e) {
      BelowIrredundant(op, e.lhs);
      BelowIrredundant(op, e.rhs);
    } else if e.IsBinary() {
      ListIrredundant(OpOf(e), e);
      BelowIrredundant(OpOf(e), e.lhs);
      BelowIrredundant(OpOf(e), e.rhs);
    }
  }

  /** expr_eliminate_dups leaves no list, at any depth, with a term twice or with a list term and all
      terms of its negation. */
  lemma SettledIrredundant(e: Expr)
    requires Normal(e) && (YnFree(e) || Round(e).count > 0)
    ensures FullyIrredundant(Settled(e))
  {
    var s := Settled(e);
    SettledNormal(e);
    SettledCorrect(e);
    SettledConsistent(e);
    NormalPlain(s);
    if s.IsBinary() {
      ListIrredundant(OpOf(s), s);
      BelowIrredundant(OpOf(s), s);
    }
  }
}
