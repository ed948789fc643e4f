/** expr_eliminate_yn and expr_transform on the nodes themselves: both overwrite and reuse nodes. */
module KconfigNode {
  import opened KconfigExpr
  import opened KconfigTransform

  datatype Kind = SymbolNode | EqualNode | UnequalNode | NotNode | AndNode | OrNode

  function KindOf(op: Op): Kind { if op.OrOp? then OrNode else AndNode }

  /** struct expr.  left.sym and right.sym are sym and sym2, left.expr and right.expr are left and right. */
  class Node {
    var kind: Kind
    var sym: Symbol
    var sym2: Symbol
    var left: Node?
    var right: Node?
    /** The nodes of the tree below this one, itself included. */
    ghost var repr: set<Node>

    ghost predicate HasLeft()
      reads this
    {
      kind.NotNode? || kind.AndNode? || kind.OrNode?
    }

    ghost predicate HasRight()
      reads this
    {
      kind.AndNode? || kind.OrNode?
    }

    /** A tree: no node is reached twice. */
    ghost predicate Valid()
      reads this, repr
      decreases repr
    {
      && this in repr
      && (HasLeft() ==> left != null && left in repr && left.repr <= repr - {this} && left.Valid())
      && (HasRight() ==> right != null && right in repr && right.repr <= repr - {this} && right.Valid()
                         && left.repr !! right.repr)
    }

    ghost function Value(): Expr
      requires Valid()
      reads this, repr
      decreases repr
    {
      match kind
      case SymbolNode => Symbol(sym)
      case EqualNode => Equal(sym, sym2)
      case UnequalNode => Unequal(sym, sym2)
      case NotNode => Not(left.Value())
      case AndNode => And(left.Value(), right.Value())
      case OrNode => Or(left.Value(), right.Value())
    }

    /** expr_alloc_symbol */
    constructor AllocSymbol(s: Symbol)
      ensures Valid() && fresh(repr) && Value() == Symbol(s)
    {
      kind, sym, sym2, left, right := SymbolNode, s, s, null, null;
      repr := {this};
    }

    /** expr_alloc_one, for E_NOT */
    constructor AllocNot(e: Node)
      requires e.Valid()
      ensures Valid() && kind == NotNode && left == e && repr == {this} + e.repr && fresh(this)
      ensures Value() == Not(e.Value())
    {
      kind, left, right := NotNode, e, null;
      sym, sym2 := SymbolNo, SymbolNo;
      repr := {this} + e.repr;
    }

    /** expr_alloc_two */
    constructor AllocTwo(op: Op, a: Node, b: Node)
      requires a.Valid() && b.Valid() && a.repr !! b.repr
      ensures Valid() && kind == KindOf(op) && left == a && right == b && repr == {this} + a.repr + b.repr
      ensures fresh(this) && Value() == Make(op, a.Value(), b.Value())
    {
      kind, left, right := KindOf(op), a, b;
      sym, sym2 := SymbolNo, SymbolNo;
      repr := {this} + a.repr + b.repr;
    }

    /** expr_alloc_comp */
    constructor AllocComp(equal: bool, s: Symbol, t: Symbol)
      ensures Valid() && fresh(repr) && Value() == if equal then Equal(s, t) else Unequal(s, t)
    {
      kind, sym, sym2, left, right := if equal then EqualNode else UnequalNode, s, t, null, null;
      repr := {this};
    }

    /** The type of a list node. */
    function ListOp(): Op
      requires kind.AndNode? || kind.OrNode?
      reads this
    {
      if kind.OrNode? then OrOp else AndOp
    }

    /** New operands for an AND or OR. */
    method Relink(l: Node, r: Node)
      requires l.Valid() && r.Valid() && l.repr !! r.repr && this !in l.repr && this !in r.repr
      requires kind.AndNode? || kind.OrNode?
      modifies this
      ensures Valid() && repr == {this} + l.repr + r.repr && kind == old(kind)
      ensures left == l && right == r
      ensures left.Value() == old(l.Value()) && right.Value() == old(r.Value())
      ensures l.repr == old(l.repr) && r.repr == old(r.repr)
    {
      left, right := l, r;
      repr := {this} + l.repr + r.repr;
      assert l.Valid() && r.Valid();
    }

    /** The same beside another tree, which is not touched. */
    method RelinkBeside(l: Node, r: Node, ghost other: Node)
      requires l.Valid() && r.Valid() && l.repr !! r.repr && this !in l.repr && this !in r.repr
      requires other.Valid() && this !in other.repr && other.repr !! l.repr && other.repr !! r.repr
      requires kind.AndNode? || kind.OrNode?
      modifies this
      ensures Valid() && repr == {this} + l.repr + r.repr && repr !! other.repr && kind == old(kind)
      ensures Value() == Make(ListOp(), old(l.Value()), old(r.Value()))
      ensures other.Valid() && other.Value() == old(other.Value()) && other.repr == old(other.repr)
    {
      Relink(l, r);
      assert other.Valid();
    }

    /** The node becomes a constant. */
    method BecomeSymbol(s: Symbol)
      modifies this
      ensures Valid() && Value() == Symbol(s) && repr == {this}
    {
      kind, sym, right := SymbolNode, s, null;
      repr := {this};
    }

    /** *e = *tmp: the node takes over the contents of its child. */
    method TakeOver(child: Node)
      requires child.Valid() && this !in child.repr
      modifies this
      ensures Valid() && Value() == old(child.Value()) && repr == {this} + child.repr
    {
      kind, sym, sym2, left, right := child.kind, child.sym, child.sym2, child.left, child.right;
      repr := {this} + child.repr;
      assert child.Valid();
    }

    /** expr_eliminate_yn */
    method EliminateYn()
      requires Valid()
      modifies repr
      ensures Valid() && repr <= old(repr) && Value() == KconfigExpr.EliminateYn(old(Value()))
      decreases repr, 1
    {
      if kind.AndNode? || kind.OrNode? {
        EliminateBelow();
        DropConstant();
      }
    }

    method EliminateBelow()
      requires Valid() && (kind.AndNode? || kind.OrNode?)
      modifies repr
      ensures Valid() && repr <= old(repr) && kind == old(kind)
      ensures left.Value() == KconfigExpr.EliminateYn(old(left.Value()))
      ensures right.Value() == KconfigExpr.EliminateYn(old(right.Value()))
      decreases repr, 0
    {
      left.EliminateYn();
      right.EliminateYn();
      repr := {this} + left.repr + right.repr;
    }

    /** Its tests on the two operands. */
    method DropConstant()
      requires Valid() && (kind.AndNode? || kind.OrNode?)
      modifies this
      ensures Valid() && repr <= old(repr)
      ensures Value() == KconfigExpr.DropConstant(old(ListOp()), old(left.Value()), old(right.Value()))
    {
      var absorbing := if kind.AndNode? then SymbolNo else SymbolYes;
      var neutral := if kind.AndNode? then SymbolYes else SymbolNo;
      if left.kind.SymbolNode? {
        if left.sym == absorbing {
          BecomeSymbol(absorbing);
          return;
        } else if left.sym == neutral {
          TakeOver(right);
          return;
        }
      }
      if right.kind.SymbolNode? {
        if right.sym == absorbing {
          BecomeSymbol(absorbing);
          return;
        } else if right.sym == neutral {
          TakeOver(left);
          return;
        }
      }
    }

    /** The first switch of expr_transform, for a NOT. */
    method TransformOperand()
      requires Valid() && kind.NotNode?
      modifies repr
      ensures Valid() && fresh(repr - old(repr)) && kind == old(kind)
      ensures left.Value() == Transform(old(left.Value()))
      decreases Weight(Value()), 0
    {
      left := TransformNode(left);
      repr := {this} + left.repr;
    }

    /** The same for an AND or OR. */
    method TransformOperands()
      requires Valid() && (kind.AndNode? || kind.OrNode?)
      modifies repr
      ensures Valid() && fresh(repr - old(repr)) && kind == old(kind)
      ensures left.Value() == Transform(old(left.Value())) && right.Value() == Transform(old(right.Value()))
      decreases Weight(Value()), 0
    {
      var l, r := TransformBoth(left, right);
      Relink(l, r);
    }

    /** The cases of its second switch for a comparison. */
    method TransformComparison()
      requires Valid() && (kind.EqualNode? || kind.UnequalNode?)
      modifies this
      ensures Valid() && fresh(repr - old(repr)) && Value() == Transform(old(Value()))
    {
      if !sym.OfKind(Boolean) {
        return;
      }
      if sym2.SymbolMod? {
        BecomeSymbol(if kind.EqualNode? then SymbolNo else SymbolYes);
      } else if sym2.SymbolNo? || sym2.SymbolYes? {
        if kind.EqualNode? == sym2.SymbolNo? {
          left := new Node.AllocSymbol(sym);
          kind, right := NotNode, null;
          repr := {this} + left.repr;
        } else {
          BecomeSymbol(sym);
        }
      }
    }

    /** An AND or OR becomes the NOT of its first operand; the NOT of its second one is new. */
    method SplitOff() returns (second: Node)
      requires Valid() && (kind.AndNode? || kind.OrNode?)
      modifies this
      ensures Valid() && kind.NotNode? && repr <= old(repr) && Value() == Not(old(left.Value()))
      ensures second.Valid() && fresh(second.repr - old(repr)) && second.Value() == Not(old(right.Value()))
      ensures repr !! second.repr
    {
      second := new Node.AllocNot(right);
      kind := NotNode;
      right := null;
      repr := {this} + left.repr;
    }

    /** !(a || b) -> !a && !b, and its dual: the node below becomes the first of the two NOTs. */
    method DeMorgan()
      requires Valid() && kind.NotNode? && (left.kind.AndNode? || left.kind.OrNode?)
      modifies repr
      ensures Valid() && fresh(repr - old(repr))
      ensures var t := old(left.Value());
        Value() == if t.Or? then And(Not(t.lhs), Not(t.rhs)) else Or(Not(t.lhs), Not(t.rhs))
    {
      kind := if left.kind.OrNode? then AndNode else OrNode;
      right := left.SplitOff();
      repr := {this} + left.repr + right.repr;
    }
  }

  /** expr_copy */
  method Copy(e: Node) returns (c: Node)
    requires e.Valid()
    ensures c.Valid() && fresh(c.repr) && c.Value() == e.Value()
    decreases e.repr
  {
    if e.kind.SymbolNode? {
      c := new Node.AllocSymbol(e.sym);
    } else if e.kind.EqualNode? || e.kind.UnequalNode? {
      c := new Node.AllocComp(e.kind.EqualNode?, e.sym, e.sym2);
    } else if e.kind.NotNode? {
      var below := Copy(e.left);
      c := new Node.AllocNot(below);
    } else {
      var l := Copy(e.left);
      var r := Copy(e.right);
      c := new Node.AllocTwo(if e.kind.OrNode? then OrOp else AndOp, l, r);
    }
  }

  /** expr_transform; the node it returns need not be the one it was given. */
  method TransformNode(e: Node) returns (r: Node)
    requires e.Valid()
    modifies e.repr
    ensures r.Valid() && fresh(r.repr - old(e.repr)) && r.Value() == Transform(old(e.Value()))
    decreases Weight(e.Value()), 1
  {
    r := e;
    if e.kind.SymbolNode? {
      return;
    }
    if e.kind.EqualNode? || e.kind.UnequalNode? {
      e.TransformComparison();
      return;
    }
    if e.kind.NotNode? {
      e.TransformOperand();
      r := PushNot(e);
    } else {
      e.TransformOperands();
    }
  }

  lemma DoubleNot(x: Expr)
    ensures Weight(x) < Weight(Not(Not(x)))
  {
    assert Weight(Not(Not(x))) == 2 * Weight(Not(x));
  }

  method TransformBoth(a: Node, b: Node) returns (l: Node, r: Node)
    requires a.Valid() && b.Valid() && a.repr !! b.repr
    modifies a.repr, b.repr
    ensures l.Valid() && fresh(l.repr - old(a.repr)) && l.Value() == Transform(old(a.Value()))
    ensures r.Valid() && fresh(r.repr - old(b.repr)) && r.Value() == Transform(old(b.Value()))
    ensures l.repr !! r.repr
    decreases Weight(a.Value()) + Weight(b.Value()), 2
  {
    l := TransformNode(a);
    assert b.Valid() && b.Value() == old(b.Value());
    r := TransformNode(b);
  }

  /** The cases of its second switch for a NOT. */
  method PushNot(e: Node) returns (r: Node)
    requires e.Valid() && e.kind.NotNode?
    modifies e.repr
    ensures r.Valid() && fresh(r.repr - old(e.repr)) && r.Value() == Negated(old(e.left.Value()))
    decreases Weight(e.Value()), 0
  {
    var tmp := e.left;
    match tmp.kind
    case NotNode =>
      DoubleNot(tmp.left.Value());
      assert e.Value() == Not(tmp.Value()) && tmp.Value() == Not(tmp.left.Value());
      r := TransformNode(tmp.left);
    case EqualNode =>
      r := tmp;
      r.kind := UnequalNode;
    case UnequalNode =>
      r := tmp;
      r.kind := EqualNode;
    case OrNode =>
      DeMorganLighter(tmp.left.Value(), tmp.right.Value());
      e.DeMorgan();
      r := TransformNode(e);
    case AndNode =>
      DeMorganLighter(tmp.left.Value(), tmp.right.Value());
      e.DeMorgan();
      r := TransformNode(e);
    case SymbolNode =>
      r := e;
      if tmp.sym.SymbolYes? {
        r := tmp;
        r.sym := SymbolNo;
      } else if tmp.sym.SymbolMod? {
        r := tmp;
        r.sym := SymbolMod;
      } else if tmp.sym.SymbolNo? {
        r := tmp;
        r.sym := SymbolYes;
      }
  }
}
