/** expr_eliminate_dups: merge duplicate terms of OR and AND lists until nothing changes.

    Both helpers work in place on one tree: r.tree is the tree after the writes and r.count is
    what was added to trans_count. */
module KconfigDups {
  import opened KconfigExpr
  import opened KconfigJoin
  import opened KconfigTransform
  import opened KconfigExtract
  import opened KconfigPath

  datatype Rewrite = Rewrite(tree: Expr, count: nat)

  /** The type and the two pointers given to expr_eliminate_dups1 and _dups2: addresses in one list. */
  predicate Addresses(op: Op, root: Expr, p1: Path, p2: Path) {
    IsOp(op, root) && InList(op, root, p1) && InList(op, root, p2)
  }

  lemma StillAddresses(op: Op, root: Expr, after: Expr, p1: Path, p2: Path)
    requires Addresses(op, root, p1, p2) && ShapeOf(op, after) == ShapeOf(op, root)
    ensures Addresses(op, after, p1, p2)
    ensures ShapeOf(op, At(op, after, p1)) == ShapeOf(op, At(op, root, p1))
    ensures ShapeOf(op, At(op, after, p2)) == ShapeOf(op, At(op, root, p2))
  {
    SameShapeAt(op, root, after, p1);
    SameShapeAt(op, root, after, p2);
  }

  /** expr_eliminate_dups1 */
  function Dups1(op: Op, root: Expr, p1: Path, p2: Path): (r: Rewrite)
    requires Addresses(op, root, p1, p2)
    ensures ShapeOf(op, r.tree) == ShapeOf(op, root) && Size(r.tree) <= Size(root)
    decreases Size(root), Nodes(ShapeOf(op, At(op, root, p1))), Nodes(ShapeOf(op, At(op, root, p2)))
  {
    if IsOp(op, At(op, root, p1)) then
      Extend(op, root, p1, L); Extend(op, root, p1, R);
      var a := Dups1(op, root, p1 + [L], p2);
      StillAddresses(op, root, a.tree, p1 + [R], p2);
      var b := Dups1(op, a.tree, p1 + [R], p2);
      Rewrite(b.tree, a.count + b.count)
    else if IsOp(op, At(op, root, p2)) then
      Extend(op, root, p2, L); Extend(op, root, p2, R);
      var a := Dups1(op, root, p1, p2 + [L]);
      StillAddresses(op, root, a.tree, p1, p2 + [R]);
      var b := Dups1(op, a.tree, p1, p2 + [R]);
      Rewrite(b.tree, a.count + b.count)
    else if p1 == p2 then Rewrite(root, 0)
    else
      var a := Dups1Inner(op, root, p1);
      PutTerm(op, root, p1, a.tree);
      var root1 := Put(op, root, p1, a.tree);
      PutElsewhere(op, root, p1, a.tree, p2);
      var b := MergePair(op, root1, p1, p2);
      Rewrite(b.tree, a.count + b.count)
  }

  /** The term at p1 after its own list, if it is one, has been rewritten. */
  function Dups1Inner(op: Op, root: Expr, p1: Path): (r: Rewrite)
    requires IsOp(op, root) && InList(op, root, p1) && !IsOp(op, At(op, root, p1))
    ensures !IsOp(op, r.tree) && Size(r.tree) <= Size(At(op, root, p1))
    decreases Size(root), 0, 0
  {
    var e1 := At(op, root, p1);
    PutTerm(op, root, p1, e1);
    if e1.IsBinary() then Dups1(OpOf(e1), e1, [], []) else Rewrite(e1, 0)
  }

  /** The join at the end of expr_eliminate_dups1. */
  function MergePair(op: Op, root: Expr, p1: Path, p2: Path): (r: Rewrite)
    requires Addresses(op, root, p1, p2) && p1 != p2
    requires !IsOp(op, At(op, root, p1)) && !IsOp(op, At(op, root, p2))
    ensures ShapeOf(op, r.tree) == ShapeOf(op, root) && Size(r.tree) <= Size(root)
  {
    var t := JoinTerms(op, At(op, root, p1), At(op, root, p2));
    if t.None? then Rewrite(root, 0)
    else
      JoinExact(op, At(op, root, p1), At(op, root, p2));
      var root1 := Put(op, root, p1, Unit(op));
      PutTerm(op, root, p1, Unit(op));
      PutElsewhere(op, root, p1, Unit(op), p2);
      PutTerm(op, root1, p2, t.value);
      Rewrite(Put(op, root1, p2, t.value), 1)
  }

  /** expr_eliminate_dups2.  There is no return after the second address has been split, so a
      term is also tried against every whole sublist, the one that contains it included. */
  function Dups2(op: Op, root: Expr, p1: Path, p2: Path): (r: Rewrite)
    requires Addresses(op, root, p1, p2)
    ensures ShapeOf(op, r.tree) == ShapeOf(op, root) && Size(r.tree) <= Size(root)
    decreases Size(root), Nodes(ShapeOf(op, At(op, root, p1))), Nodes(ShapeOf(op, At(op, root, p2)))
  {
    if IsOp(op, At(op, root, p1)) then
      Extend(op, root, p1, L); Extend(op, root, p1, R);
      var a := Dups2(op, root, p1 + [L], p2);
      StillAddresses(op, root, a.tree, p1 + [R], p2);
      var b := Dups2(op, a.tree, p1 + [R], p2);
      Rewrite(b.tree, a.count + b.count)
    else if IsOp(op, At(op, root, p2)) then
      Extend(op, root, p2, L); Extend(op, root, p2, R);
      var a := Dups2(op, root, p1, p2 + [L]);
      StillAddresses(op, root, a.tree, p1, p2 + [R]);
      var b := Dups2(op, a.tree, p1, p2 + [R]);
      StillAddresses(op, root, b.tree, p1, p2);
      var c := Dups2Term(op, b.tree, p1, p2);
      Rewrite(c.tree, a.count + b.count + c.count)
    else
      Dups2Term(op, root, p1, p2)
  }

  /** The part of expr_eliminate_dups2 after the two splits. */
  function Dups2Term(op: Op, root: Expr, p1: Path, p2: Path): (r: Rewrite)
    requires Addresses(op, root, p1, p2) && !IsOp(op, At(op, root, p1))
    ensures ShapeOf(op, r.tree) == ShapeOf(op, root) && Size(r.tree) <= Size(root)
    decreases Size(root), 0, 0
  {
    var e1 := At(op, root, p1);
    if p1 == p2 || !e1.IsBinary() then Rewrite(root, 0)
    else
      PutTerm(op, root, p1, e1);
      var a := Dups2(OpOf(e1), e1, [], []);
      PutTerm(op, root, p1, a.tree);
      var root1 := Put(op, root, p1, a.tree);
      SameShapeAt(op, root, root1, p2);
      var b := Contradiction(op, root1, p1, p2);
      Rewrite(b.tree, a.count + b.count)
  }

  /** (FOO || BAR) && (!FOO && !BAR) -> n, and its dual.  The guard: all of !e1 is among the
      terms of e2. */
  predicate Contradicts(op: Op, e1: Expr, e2: Expr) {
    var rest := ExtractEq(op, Transform(Not(e1)), e2).first;
    if op.AndOp? then rest.IsYes() else rest.IsNo()
  }

  function Contradiction(op: Op, root: Expr, p1: Path, p2: Path): (r: Rewrite)
    requires Addresses(op, root, p1, p2) && !IsOp(op, At(op, root, p1))
    ensures ShapeOf(op, r.tree) == ShapeOf(op, root) && Size(r.tree) <= Size(root)
  {
    PutTerm(op, root, p1, Absorbing(op));
    if Contradicts(op, At(op, root, p1), At(op, root, p2))
    then Rewrite(Put(op, root, p1, Absorbing(op)), 1)
    else Rewrite(root, 0)
  }

  /** One turn of the loop in expr_eliminate_dups, before expr_eliminate_yn. */
  function Round(e: Expr): (r: Rewrite)
    ensures Size(r.tree) <= Size(e)
  {
    if e.IsBinary() then
      var a := Dups1(OpOf(e), e, [], []);
      var b := Dups2(OpOf(e), a.tree, [], []);
      Rewrite(b.tree, a.count + b.count)
    else Rewrite(e, 0)
  }
}
