/** The rewriters that write through two pointers and share the static counter trans_count, statement
    by statement: expr_eliminate_eq, expr_eq and expr_eliminate_dups. */
module KconfigRewriter {
  import opened KconfigExpr
  import opened KconfigEq
  import opened KconfigJoin
  import opened KconfigTransform
  import opened KconfigExtract
  import opened KconfigNode
  import opened KconfigPath
  import opened KconfigDups
  import opened KconfigDupsProof

  /** Two trees without common nodes. */
  ghost predicate Apart(a: Node, b: Node)
    reads a, a.repr, b, b.repr
  {
    a.Valid() && b.Valid() && a.repr !! b.repr
  }

  ghost predicate AllApart(a: Node, b: Node, c: Node)
    reads a, a.repr, b, b.repr, c, c.repr
  {
    a.Valid() && b.Valid() && c.Valid() && a.repr !! b.repr && a.repr !! c.repr && b.repr !! c.repr
  }

  /** What a pass makes of two trees, and what it counts. */
  predicate Passed(op: Op, e1: Expr, e2: Expr, r1: Expr, r2: Expr, count: int) {
    (r1, r2) == EliminatePass(op, e1, e2) && count == PassCount(op, e1, e2)
  }

  lemma FirstSplits(op: Op, a: Expr, b: Expr, x: Expr)
    ensures var p := EliminatePass(op, a, x);
      var q := EliminatePass(op, b, p.1);
      Passed(op, Make(op, a, b), x, Make(op, p.0, q.0), q.1, PassCount(op, a, x) + PassCount(op, b, p.1))
  {
    var e, p := Make(op, a, b), EliminatePass(op, a, x);
    assert PassCount(op, e, x) == PassCount(op, e.lhs, x) + PassCount(op, e.rhs, p.1);
  }

  lemma SecondSplits(op: Op, x: Expr, a: Expr, b: Expr)
    requires !IsOp(op, x)
    ensures var p := EliminatePass(op, x, a);
      var q := EliminatePass(op, p.0, b);
      Passed(op, x, Make(op, a, b), q.0, Make(op, p.1, q.1), PassCount(op, x, a) + PassCount(op, p.0, b))
  {
    var e, p := Make(op, a, b), EliminatePass(op, x, a);
    assert PassCount(op, x, e) == PassCount(op, x, e.lhs) + PassCount(op, p.0, e.rhs);
  }

  method SameSymbol(a: Node, b: Node) returns (same: bool)
    requires a.Valid() && b.Valid()
    ensures same == (a.Value().Symbol? && b.Value().Symbol? && a.Value().sym == b.Value().sym)
  {
    same := a.kind.SymbolNode? && b.kind.SymbolNode? && a.sym == b.sym;
  }

  /** The static trans_count, and the functions that count in it.  expr_eliminate_eq works on the nodes
      of two trees; the two pointers of the duplicate elimination lead into one tree, which goes in
      and comes back. */
  class Rewriter {
    var transCount: nat

    /** __expr_eliminate_eq on two trees without common nodes */
    method EliminateEqPass(op: Op, e1: Node, e2: Node) returns (r1: Node, r2: Node)
      requires e1.Valid() && e2.Valid() && e1.repr !! e2.repr
      modifies this, e1.repr, e2.repr
      ensures Apart(r1, r2) && fresh(r1.repr - old(e1.repr)) && fresh(r2.repr - old(e2.repr))
      ensures (r1.Value(), r2.Value()) == EliminatePass(op, old(e1.Value()), old(e2.Value()))
      ensures transCount == old(transCount) + PassCount(op, old(e1.Value()), old(e2.Value()))
      decreases Size(e1.Value()) + Size(e2.Value()),
                if IsOp(op, e1.Value()) || IsOp(op, e2.Value()) then 0 else 4
    {
      r1, r2 := e1, e2;
      if e1.kind == KindOf(op) {
        r2 := SplitFirst(op, e1, e2);
      } else if e2.kind == KindOf(op) {
        r1 := SplitSecond(op, e1, e2);
      } else {
        r1, r2 := EliminateTerms(op, e1, e2);
      }
    }

    /** Its two terms: equal ones become the neutral constant. */
    method EliminateTerms(op: Op, e1: Node, e2: Node) returns (r1: Node, r2: Node)
      requires Apart(e1, e2) && !IsOp(op, e1.Value()) && !IsOp(op, e2.Value())
      modifies this
      ensures Apart(r1, r2) && fresh(r1.repr - e1.repr) && fresh(r2.repr - e2.repr)
      ensures Passed(op, old(e1.Value()), old(e2.Value()), r1.Value(), r2.Value(), transCount - old(transCount))
      decreases Size(e1.Value()) + Size(e2.Value()), 4, 1
    {
      TermsPass(op, e1.Value(), e2.Value());
      r1, r2 := e1, e2;
      var blank := EqualTerms(e1, e2);
      if blank {
        transCount := transCount + 1;
        r1 := new Node.AllocSymbol(Unit(op).sym);
        r2 := new Node.AllocSymbol(Unit(op).sym);
      }
    }

    /** The test before that: y and n are never taken for a pair. */
    method EqualTerms(e1: Node, e2: Node) returns (blank: bool)
      requires e1.Valid() && e2.Valid()
      modifies this
      ensures blank == Cancels(old(e1.Value()), old(e2.Value())) && transCount == old(transCount)
      decreases Size(e1.Value()) + Size(e2.Value()), 4, 0
    {
      if e1.kind.SymbolNode? && e2.kind.SymbolNode? && e1.sym == e2.sym && e1.sym.IsYesOrNo() {
        return false;
      }
      blank := Equal(e1, e2);
    }

    /** A pass does not touch a third tree. */
    method PassBeside(op: Op, e1: Node, e2: Node, ghost other: Node) returns (r1: Node, r2: Node)
      requires AllApart(e1, e2, other)
      modifies this, e1.repr, e2.repr
      ensures AllApart(r1, r2, other) && fresh(r1.repr - old(e1.repr)) && fresh(r2.repr - old(e2.repr))
      ensures Passed(op, old(e1.Value()), old(e2.Value()), r1.Value(), r2.Value(), transCount - old(transCount))
      ensures other.Value() == old(other.Value()) && other.repr == old(other.repr)
      decreases Size(e1.Value()) + Size(e2.Value()), 5
    {
      r1, r2 := EliminateEqPass(op, e1, e2);
      assert other.Valid() && other.Value() == old(other.Value());
    }

    /** Its recursion on the operands of the first tree. */
    method SplitFirst(op: Op, e1: Node, e2: Node) returns (r2: Node)
      requires e1.Valid() && e2.Valid() && e1.repr !! e2.repr && e1.kind == KindOf(op)
      modifies this, e1.repr, e2.repr
      ensures Apart(e1, r2) && fresh(e1.repr - old(e1.repr)) && fresh(r2.repr - old(e2.repr))
      ensures Passed(op, old(e1.Value()), old(e2.Value()), e1.Value(), r2.Value(), transCount - old(transCount))
      decreases Size(e1.Value()) + Size(e2.Value()), 0, 0
    {
      var l, r;
      assert e1.Value() == Make(op, e1.left.Value(), e1.right.Value());
      l, r, r2 := PassFirst(op, e1.left, e1.right, e2);
      e1.RelinkBeside(l, r, r2);
    }

    method PassFirst(op: Op, a: Node, b: Node, e2: Node) returns (l: Node, r: Node, r2: Node)
      requires AllApart(a, b, e2)
      modifies this, a.repr, b.repr, e2.repr
      ensures AllApart(l, r, r2)
      ensures fresh(l.repr - old(a.repr)) && fresh(r.repr - old(b.repr)) && fresh(r2.repr - old(e2.repr))
      ensures Passed(op, Make(op, old(a.Value()), old(b.Value())), old(e2.Value()),
                     Make(op, l.Value(), r.Value()), r2.Value(), transCount - old(transCount))
      decreases Size(a.Value()) + Size(b.Value()) + Size(e2.Value()), 0, 0
    {
      FirstSplits(op, a.Value(), b.Value(), e2.Value());
      l, r2 := PassBeside(op, a, e2, b);
      r, r2 := PassBeside(op, b, r2, l);
    }

    /** Its recursion on the operands of the second tree. */
    method SplitSecond(op: Op, e1: Node, e2: Node) returns (r1: Node)
      requires e1.Valid() && e2.Valid() && e1.repr !! e2.repr && e1.kind != KindOf(op) && e2.kind == KindOf(op)
      modifies this, e1.repr, e2.repr
      ensures Apart(r1, e2) && fresh(r1.repr - old(e1.repr)) && fresh(e2.repr - old(e2.repr))
      ensures Passed(op, old(e1.Value()), old(e2.Value()), r1.Value(), e2.Value(), transCount - old(transCount))
      decreases Size(e1.Value()) + Size(e2.Value()), 0, 0
    {
      var l, r;
      assert e2.Value() == Make(op, e2.left.Value(), e2.right.Value());
      r1, l, r := PassSecond(op, e1, e2.left, e2.right);
      e2.RelinkBeside(l, r, r1);
    }

    method PassSecond(op: Op, e1: Node, a: Node, b: Node) returns (r1: Node, l: Node, r: Node)
      requires AllApart(e1, a, b) && !IsOp(op, e1.Value())
      modifies this, e1.repr, a.repr, b.repr
      ensures AllApart(r1, l, r)
      ensures fresh(r1.repr - old(e1.repr)) && fresh(l.repr - old(a.repr)) && fresh(r.repr - old(b.repr))
      ensures Passed(op, old(e1.Value()), Make(op, old(a.Value()), old(b.Value())),
                     r1.Value(), Make(op, l.Value(), r.Value()), transCount - old(transCount))
      decreases Size(e1.Value()) + Size(a.Value()) + Size(b.Value()), 0, 0
    {
      SecondSplits(op, e1.Value(), a.Value(), b.Value());
      r1, l := PassBeside(op, e1, a, b);
      r1, r := PassBeside(op, r1, b, l);
    }

    /** expr_eliminate_eq */
    method EliminateBoth(e1: Node, e2: Node) returns (r1: Node, r2: Node)
      requires e1.Valid() && e2.Valid() && e1.repr !! e2.repr
      modifies this, e1.repr, e2.repr
      ensures Apart(r1, r2)
      ensures (r1.Value(), r2.Value()) == EliminateEq(old(e1.Value()), old(e2.Value()))
      ensures transCount == old(transCount) + CommonCount(old(e1.Value()), old(e2.Value()))
      decreases Size(e1.Value()) + Size(e2.Value()), 1, 2
    {
      r1, r2 := EliminatePasses(e1, e2);
      r1.EliminateYn();
      r2.EliminateYn();
    }

    /** Its two passes: the second one when the types still differ. */
    method EliminatePasses(e1: Node, e2: Node) returns (r1: Node, r2: Node)
      requires e1.Valid() && e2.Valid() && e1.repr !! e2.repr
      modifies this, e1.repr, e2.repr
      ensures Apart(r1, r2) && fresh(r1.repr - old(e1.repr)) && fresh(r2.repr - old(e2.repr))
      ensures (r1.Value(), r2.Value()) == EliminateCommon(old(e1.Value()), old(e2.Value()))
      ensures transCount == old(transCount) + CommonCount(old(e1.Value()), old(e2.Value()))
      decreases Size(e1.Value()) + Size(e2.Value()), 1, 1
    {
      if e1.kind.AndNode? || e1.kind.OrNode? {
        r1, r2 := EliminateEqPass(e1.ListOp(), e1, e2);
        r1, r2 := EliminateOther(r1, r2);
      } else {
        r1, r2 := EliminateOther(e1, e2);
      }
    }

    method EliminateOther(e1: Node, e2: Node) returns (r1: Node, r2: Node)
      requires e1.Valid() && e2.Valid() && e1.repr !! e2.repr
      modifies this, e1.repr, e2.repr
      ensures Apart(r1, r2) && fresh(r1.repr - old(e1.repr)) && fresh(r2.repr - old(e2.repr))
      ensures var p := (old(e1.Value()), old(e2.Value()));
        (r1.Value(), r2.Value()) ==
        if p.1.IsBinary() && !(p.0.IsBinary() && OpOf(p.0) == OpOf(p.1)) then EliminatePass(OpOf(p.1), p.0, p.1) else p
      ensures var p := (old(e1.Value()), old(e2.Value()));
        transCount == old(transCount) +
        if p.1.IsBinary() && !(p.0.IsBinary() && OpOf(p.0) == OpOf(p.1)) then PassCount(OpOf(p.1), p.0, p.1) else 0
      decreases Size(e1.Value()) + Size(e2.Value()), 1, 0
    {
      r1, r2 := e1, e2;
      if e1.kind != e2.kind && (e2.kind.AndNode? || e2.kind.OrNode?) {
        r1, r2 := EliminateEqPass(e2.ListOp(), e1, e2);
      }
    }

    /** expr_eq */
    method Equal(e1: Node, e2: Node) returns (res: bool)
      requires e1.Valid() && e2.Valid()
      modifies this
      ensures res == ExprEq(old(e1.Value()), old(e2.Value())) && transCount == old(transCount)
      decreases Size(e1.Value()) + Size(e2.Value()), 3
    {
      if e1.kind != e2.kind {
        return false;
      }
      if e1.kind.EqualNode? || e1.kind.UnequalNode? {
        return e1.sym == e2.sym && e1.sym2 == e2.sym2;
      }
      if e1.kind.SymbolNode? {
        return e1.sym == e2.sym;
      }
      if e1.kind.NotNode? {
        res := Equal(e1.left, e2.left);
      } else {
        res := EqualLists(e1, e2);
      }
    }

    /** expr_eq on two lists: its eliminations are on copies, and are not counted. */
    method EqualLists(e1: Node, e2: Node) returns (res: bool)
      requires e1.Valid() && e2.Valid()
      modifies this
      ensures transCount == old(transCount)
      ensures var r := EliminateEq(old(e1.Value()), old(e2.Value()));
        res == (r.0.Symbol? && r.1.Symbol? && r.0.sym == r.1.sym)
      decreases Size(e1.Value()) + Size(e2.Value()), 2, 1
    {
      var oldCount := transCount;
      var c1, c2 := EliminateCopies(e1, e2);
      res := SameSymbol(c1, c2);
      transCount := oldCount;
    }

    method EliminateCopies(e1: Node, e2: Node) returns (c1: Node, c2: Node)
      requires e1.Valid() && e2.Valid()
      modifies this
      ensures c1.Valid() && c2.Valid()
      ensures (c1.Value(), c2.Value()) == EliminateEq(old(e1.Value()), old(e2.Value()))
      decreases Size(e1.Value()) + Size(e2.Value()), 2, 0
    {
      c1 := Copy(e1);
      c2 := Copy(e2);
      assert c1.Value() == e1.Value();
      c1, c2 := EliminateBoth(c1, c2);
    }

    /** expr_eliminate_dups1 */
    method EliminateDups1(op: Op, root: Expr, p1: Path, p2: Path) returns (tree: Expr)
      requires Addresses(op, root, p1, p2)
      modifies this
      ensures tree == Dups1(op, root, p1, p2).tree
      ensures transCount == old(transCount) + Dups1(op, root, p1, p2).count
      decreases Size(root), Nodes(ShapeOf(op, At(op, root, p1))), Nodes(ShapeOf(op, At(op, root, p2)))
    {
      tree := root;
      if IsOp(op, At(op, tree, p1)) {
        Extend(op, root, p1, L); Extend(op, root, p1, R);
        tree := EliminateDups1(op, tree, p1 + [L], p2);
        StillAddresses(op, root, tree, p1 + [R], p2);
        tree := EliminateDups1(op, tree, p1 + [R], p2);
        return;
      }
      if IsOp(op, At(op, tree, p2)) {
        Extend(op, root, p2, L); Extend(op, root, p2, R);
        tree := EliminateDups1(op, tree, p1, p2 + [L]);
        StillAddresses(op, root, tree, p1, p2 + [R]);
        tree := EliminateDups1(op, tree, p1, p2 + [R]);
        return;
      }
      if p1 == p2 {
        return;
      }
      PutTerm(op, root, p1, Dups1Inner(op, root, p1).tree);
      tree := Inner1(op, tree, p1);
      PutElsewhere(op, root, p1, Dups1Inner(op, root, p1).tree, p2);
      tree := Merge(op, tree, p1, p2);
    }

    /** Its switch on the type of the first term. */
    method Inner1(op: Op, root: Expr, p1: Path) returns (tree: Expr)
      requires IsOp(op, root) && InList(op, root, p1) && !IsOp(op, At(op, root, p1))
      modifies this
      ensures ShapeOf(op, tree) == ShapeOf(op, root) && InList(op, tree, p1) && IsOp(op, tree)
      ensures tree == Put(op, root, p1, Dups1Inner(op, root, p1).tree)
      ensures transCount == old(transCount) + Dups1Inner(op, root, p1).count
      decreases Size(root), 0, 0
    {
      var e1 := At(op, root, p1);
      PutTerm(op, root, p1, e1);
      if e1.IsBinary() {
        e1 := EliminateDups1(OpOf(e1), e1, [], []);
      }
      PutTerm(op, root, p1, e1);
      tree := Put(op, root, p1, e1);
    }

    /** Its switch on the type of the list. */
    method Merge(op: Op, root: Expr, p1: Path, p2: Path) returns (tree: Expr)
      requires Addresses(op, root, p1, p2) && p1 != p2
      requires !IsOp(op, At(op, root, p1)) && !IsOp(op, At(op, root, p2))
      modifies this
      ensures tree == MergePair(op, root, p1, p2).tree
      ensures transCount == old(transCount) + MergePair(op, root, p1, p2).count
    {
      tree := root;
      var e1, e2 := At(op, root, p1), At(op, root, p2);
      var tmp := if op.OrOp? then JoinOr(e1, e2) else JoinAnd(e1, e2);
      if tmp.Some? {
        tree := Put(op, tree, p1, Unit(op));
        PutElsewhere(op, root, p1, Unit(op), p2);
        tree := Put(op, tree, p2, tmp.value);
        transCount := transCount + 1;
      }
    }

    /** expr_eliminate_dups2: the second split does not return. */
    method EliminateDups2(op: Op, root: Expr, p1: Path, p2: Path) returns (tree: Expr)
      requires Addresses(op, root, p1, p2)
      modifies this
      ensures tree == Dups2(op, root, p1, p2).tree
      ensures transCount == old(transCount) + Dups2(op, root, p1, p2).count
      decreases Size(root), Nodes(ShapeOf(op, At(op, root, p1))), Nodes(ShapeOf(op, At(op, root, p2)))
    {
      tree := root;
      if IsOp(op, At(op, tree, p1)) {
        Extend(op, root, p1, L); Extend(op, root, p1, R);
        tree := EliminateDups2(op, tree, p1 + [L], p2);
        StillAddresses(op, root, tree, p1 + [R], p2);
        tree := EliminateDups2(op, tree, p1 + [R], p2);
        return;
      }
      if IsOp(op, At(op, tree, p2)) {
        Extend(op, root, p2, L); Extend(op, root, p2, R);
        tree := EliminateDups2(op, tree, p1, p2 + [L]);
        StillAddresses(op, root, tree, p1, p2 + [R]);
        tree := EliminateDups2(op, tree, p1, p2 + [R]);
        StillAddresses(op, root, tree, p1, p2);
      }
      tree := Term2(op, tree, p1, p2);
    }

    /** The rest of it, on a first term. */
    method Term2(op: Op, root: Expr, p1: Path, p2: Path) returns (tree: Expr)
      requires Addresses(op, root, p1, p2) && !IsOp(op, At(op, root, p1))
      modifies this
      ensures tree == Dups2Term(op, root, p1, p2).tree
      ensures transCount == old(transCount) + Dups2Term(op, root, p1, p2).count
      decreases Size(root), 0, 0
    {
      tree := root;
      var e1 := At(op, root, p1);
      if p1 == p2 || !e1.IsBinary() {
        return;
      }
      PutTerm(op, root, p1, e1);
      e1 := EliminateDups2(OpOf(e1), e1, [], []);
      PutTerm(op, root, p1, e1);
      tree := Put(op, root, p1, e1);
      SameShapeAt(op, root, tree, p2);
      var tmp1 := Transform(Not(e1));
      var tmp2 := At(op, tree, p2);
      var extracted := ExtractEq(op, tmp1, tmp2);
      if (op.AndOp? && extracted.first.IsYes()) || (op.OrOp? && extracted.first.IsNo()) {
        tree := Put(op, tree, p1, if op.AndOp? then Symbol(SymbolNo) else Symbol(SymbolYes));
        transCount := transCount + 1;
      }
    }

    /** expr_eliminate_dups */
    method EliminateDups(org: Option<Expr>) returns (r: Option<Expr>)
      modifies this
      ensures transCount == old(transCount)
      ensures r == if org.None? then None else Some(Settled(org.value))
      ensures org.Some? ==>
        && (forall v: Valuation | v.Valid() :: KeptUnlessMod(org.value, r.value, v))
        && (forall v: Valuation | v.Valid() && NoMod(org.value, v) :: Eval(r.value, v) == Eval(org.value, v))
        && Round(r.value).count == 0 && FullyMerged(r.value)
        && (if Round(org.value).count == 0 then r == org else Size(r.value) < Size(org.value))
    {
      if org.None? {
        return None;
      }
      var oldcount := transCount;
      var e := org.value;
      while true
        invariant Settled(e) == Settled(org.value)
        decreases Size(e)
      {
        RoundCorrect(e);
        ghost var before := e;
        transCount := 0;
        if e.IsBinary() {
          var op := OpOf(e);
          e := EliminateDups1(op, e, [], []);
          e := EliminateDups2(op, e, [], []);
        }
        assert Rewrite(e, transCount) == Round(before);
        if transCount == 0 {
          break;
        }
        e := EliminateYn(e);
      }
      transCount := oldcount;
      SettledCorrect(org.value);
      forall v: Valuation | v.Valid() && NoMod(org.value, v)
        ensures Eval(e, v) == Eval(org.value, v)
      {
        NoModEval(org.value, v);
      }
      r := Some(e);
    }
  }
}
