/** expr_eq and the order of the terms: it is symmetric, and lists with the same terms are equal
    in any order and any nesting wherever it is transitive on these terms. */
module KconfigEqOrder {
  import opened KconfigExpr
  import opened KconfigEq
  import opened KconfigEqReflexive

  // ---------------------------------------------------------------- symmetry

  /** A pass over two halves of the second tree, as over two halves of the first. */
  lemma {:induction false} RightHalves(op: Op, e1: Expr, e2: Expr)
    requires IsOp(op, e2)
    ensures var p := EliminatePass(op, e1, e2.lhs);
      var q := EliminatePass(op, p.0, e2.rhs);
      EliminatePass(op, e1, e2) == (q.0, Make(op, p.1, q.1))
    decreases Size(e1)
  {
    if IsOp(op, e1) {
      var p := EliminatePass(op, e1.lhs, e2);
      RightHalves(op, e1.lhs, e2);
      RightHalves(op, e1.rhs, p.1);
    }
  }

  /** The two trees change places. */
  lemma {:induction false} PassSwaps(op: Op, e1: Expr, e2: Expr)
    ensures var r := EliminatePass(op, e1, e2); EliminatePass(op, e2, e1) == (r.1, r.0)
    decreases Size(e1) + Size(e2), if IsOp(op, e1) || IsOp(op, e2) then 0 else 4
  {
    if IsOp(op, e1) {
      RightHalves(op, e2, e1);
      PassSwaps(op, e1.lhs, e2);
      PassSwaps(op, e1.rhs, EliminatePass(op, e1.lhs, e2).1);
    } else if IsOp(op, e2) {
      PassSwaps(op, e1, e2.lhs);
      PassSwaps(op, EliminatePass(op, e1, e2.lhs).0, e2.rhs);
    } else {
      ExprEqSymmetric(e1, e2);
    }
  }

  /** expr_eq does not depend on which expression comes first. */
  lemma {:induction false} ExprEqSymmetric(e1: Expr, e2: Expr)
    ensures ExprEq(e1, e2) == ExprEq(e2, e1)
    decreases Size(e1) + Size(e2), 3
  {
    match (e1, e2)
    case (Not(a), Not(b)) => ExprEqSymmetric(a, b);
    case (And(_, _), And(_, _)) => PassSwaps(AndOp, e1, e2); ListsEq(AndOp, e1, e2); ListsEq(AndOp, e2, e1);
    case (Or(_, _), Or(_, _)) => PassSwaps(OrOp, e1, e2); ListsEq(OrOp, e1, e2); ListsEq(OrOp, e2, e1);
    case _ =>
  }

  // ---------------------------------------------------------------- terms

  /** The lists e1 and e2 of one operator. */
  lemma ListsEq(op: Op, e1: Expr, e2: Expr)
    requires IsOp(op, e1) && IsOp(op, e2)
    ensures var r := EliminatePass(op, e1, e2);
      ExprEq(e1, e2) <==> EliminateYn(r.0).Symbol? && EliminateYn(r.1) == EliminateYn(r.0)
  {
    assert EliminateCommon(e1, e2) == EliminatePass(op, e1, e2);
  }

  /** The keys of the terms of the op list e, constants y and n aside. */
  ghost function Keys<K(!new)>(op: Op, e: Expr, key: Expr -> K): multiset<K> {
    if IsOp(op, e) then Keys(op, e.lhs, key) + Keys(op, e.rhs, key)
    else if IsYn(e) then multiset{}
    else multiset{key(e)}
  }

  /** Equal terms are those of the same key. */
  ghost predicate Fits<K(!new)>(op: Op, e1: Expr, e2: Expr, key: Expr -> K) {
    forall s, t | HasTerm(op, e1, s) && HasTerm(op, e2, t) && !IsYn(s) && !IsYn(t) :: ExprEq(s, t) <==> key(s) == key(t)
  }

  lemma FitsAfter<K(!new)>(op: Op, e1: Expr, e2: Expr, d1: Expr, d2: Expr, key: Expr -> K)
    requires Fits(op, e1, e2, key)
    requires forall t | HasTerm(op, d1, t) :: HasTerm(op, e1, t) || t == Unit(op)
    requires forall t | HasTerm(op, d2, t) :: HasTerm(op, e2, t) || t == Unit(op)
    ensures Fits(op, d1, d2, key)
  {
    forall s, t | HasTerm(op, d1, s) && HasTerm(op, d2, t) && !IsYn(s) && !IsYn(t)
      ensures ExprEq(s, t) <==> key(s) == key(t)
    {
      assert HasTerm(op, e1, s) && HasTerm(op, e2, t);
    }
  }

  lemma DiffSum<K(!new)>(l: multiset<K>, r: multiset<K>, m: multiset<K>)
    ensures (l - m) + (r - (m - l)) == (l + r) - m
    ensures (m - l) - r == m - (l + r)
  {
  }

  /** The keys the two trees share are cancelled, as often as they share them. */
  ghost predicate KeysCancel<K(!new)>(op: Op, before: (Expr, Expr), after: (Expr, Expr), key: Expr -> K) {
    && Keys(op, after.0, key) == Keys(op, before.0, key) - Keys(op, before.1, key)
    && Keys(op, after.1, key) == Keys(op, before.1, key) - Keys(op, before.0, key)
  }

  lemma {:induction false} PassKeys<K(!new)>(op: Op, e1: Expr, e2: Expr, key: Expr -> K)
    requires Fits(op, e1, e2, key)
    ensures KeysCancel(op, (e1, e2), EliminatePass(op, e1, e2), key)
    decreases Size(e1) + Size(e2), 1
  {
    if IsOp(op, e1) {
      LeftKeys(op, e1, e2, key);
    } else if IsOp(op, e2) {
      RightKeys(op, e1, e2, key);
    } else {
      TermKeys(op, e1, e2, key);
    }
  }

  lemma TermKeys<K(!new)>(op: Op, e1: Expr, e2: Expr, key: Expr -> K)
    requires !IsOp(op, e1) && !IsOp(op, e2) && Fits(op, e1, e2, key)
    ensures KeysCancel(op, (e1, e2), EliminatePass(op, e1, e2), key)
  {
    TermsPass(op, e1, e2);
    TermCancels(op, e1, e2, key);
    TermKey(op, e1, key);
    TermKey(op, e2, key);
    TermKey(op, Unit(op), key);
  }

  lemma TermKey<K(!new)>(op: Op, e: Expr, key: Expr -> K)
    requires !IsOp(op, e)
    ensures Keys(op, e, key) == if IsYn(e) then multiset{} else multiset{key(e)}
  {
  }

  lemma TermCancels<K(!new)>(op: Op, e1: Expr, e2: Expr, key: Expr -> K)
    requires !IsOp(op, e1) && !IsOp(op, e2) && Fits(op, e1, e2, key)
    ensures Cancels(e1, e2) <==> !IsYn(e1) && !IsYn(e2) && key(e1) == key(e2)
  {
    assert HasTerm(op, e1, e1) && HasTerm(op, e2, e2);
    if IsYn(e1) || IsYn(e2) {
      YnEq(e1, e2);
    }
  }

  lemma {:induction false} LeftKeys<K(!new)>(op: Op, e1: Expr, e2: Expr, key: Expr -> K)
    requires IsOp(op, e1) && Fits(op, e1, e2, key)
    ensures KeysCancel(op, (e1, e2), EliminatePass(op, e1, e2), key)
    decreases Size(e1) + Size(e2), 0
  {
    var p := EliminatePass(op, e1.lhs, e2);
    FitsAfter(op, e1, e2, e1.lhs, e2, key);
    PassKeys(op, e1.lhs, e2, key);
    PassTerms(op, e1.lhs, e2);
    FitsAfter(op, e1, e2, e1.rhs, p.1, key);
    PassKeys(op, e1.rhs, p.1, key);
    DiffSum(Keys(op, e1.lhs, key), Keys(op, e1.rhs, key), Keys(op, e2, key));
  }

  lemma {:induction false} RightKeys<K(!new)>(op: Op, e1: Expr, e2: Expr, key: Expr -> K)
    requires !IsOp(op, e1) && IsOp(op, e2) && Fits(op, e1, e2, key)
    ensures KeysCancel(op, (e1, e2), EliminatePass(op, e1, e2), key)
    decreases Size(e1) + Size(e2), 0
  {
    var p := EliminatePass(op, e1, e2.lhs);
    FitsAfter(op, e1, e2, e1, e2.lhs, key);
    PassKeys(op, e1, e2.lhs, key);
    PassTerms(op, e1, e2.lhs);
    FitsAfter(op, e1, e2, p.0, e2.rhs, key);
    PassKeys(op, p.0, e2.rhs, key);
    DiffSum(Keys(op, e2.lhs, key), Keys(op, e2.rhs, key), Keys(op, e1, key));
  }

  /** y and n equal only themselves. */
  lemma YnEq(e1: Expr, e2: Expr)
    requires IsYn(e1) || IsYn(e2)
    ensures ExprEq(e1, e2) <==> e1 == e2
  {
  }

  // ---------------------------------------------------------------- lists with the same terms

  predicate HasAbsorbing(op: Op, e: Expr) {
    if IsOp(op, e) then HasAbsorbing(op, e.lhs) || HasAbsorbing(op, e.rhs) else e == Absorbing(op)
  }

  /** y and n are left alone by a pass, so what decides a list stays. */
  lemma {:induction false} AbsorbingStays(op: Op, e1: Expr, e2: Expr)
    ensures var r := EliminatePass(op, e1, e2);
      HasAbsorbing(op, r.0) == HasAbsorbing(op, e1) && HasAbsorbing(op, r.1) == HasAbsorbing(op, e2)
    decreases Size(e1) + Size(e2)
  {
    if IsOp(op, e1) {
      AbsorbingStays(op, e1.lhs, e2);
      AbsorbingStays(op, e1.rhs, EliminatePass(op, e1.lhs, e2).1);
    } else if IsOp(op, e2) {
      AbsorbingStays(op, e1, e2.lhs);
      AbsorbingStays(op, EliminatePass(op, e1, e2.lhs).0, e2.rhs);
    } else {
      TermsPass(op, e1, e2);
    }
  }

  /** A list of y and n only is reduced to the one that decides it, or to the neutral one. */
  lemma {:induction false} NoKeys<K(!new)>(op: Op, e: Expr, key: Expr -> K)
    requires Keys(op, e, key) == multiset{}
    ensures EliminateYn(e) == if HasAbsorbing(op, e) then Absorbing(op) else Unit(op)
  {
    if IsOp(op, e) {
      assert Keys(op, e.lhs, key) <= Keys(op, e, key) && Keys(op, e.rhs, key) <= Keys(op, e, key);
      NoKeys(op, e.lhs, key);
      NoKeys(op, e.rhs, key);
    }
  }

  /** Two lists of one operator whose terms have the same keys are equal. */
  lemma SameKeys<K(!new)>(op: Op, e1: Expr, e2: Expr, key: Expr -> K)
    requires IsOp(op, e1) && IsOp(op, e2) && Fits(op, e1, e2, key)
    requires Keys(op, e1, key) == Keys(op, e2, key) && HasAbsorbing(op, e1) == HasAbsorbing(op, e2)
    ensures ExprEq(e1, e2)
  {
    var r := EliminatePass(op, e1, e2);
    ListsEq(op, e1, e2);
    PassKeys(op, e1, e2, key);
    AbsorbingStays(op, e1, e2);
    NoKeys(op, r.0, key);
    NoKeys(op, r.1, key);
  }

  ghost predicate TermsYnFree(op: Op, e: Expr) { forall t | HasTerm(op, e, t) :: YnFree(t) }

  /** What a list is reduced to whose terms have the keys k and no constant operands of their own. */
  ghost predicate ReducedTo<K(!new)>(op: Op, absorbing: bool, k: multiset<K>, r: Expr, key: Expr -> K) {
    if absorbing then r == Absorbing(op)
    else if k == multiset{} then r == Unit(op)
    else !IsYn(r) && (r.Symbol? ==> k == multiset{key(r)})
  }

  lemma {:induction false} YnOfList<K(!new)>(op: Op, e: Expr, key: Expr -> K)
    requires TermsYnFree(op, e)
    ensures ReducedTo(op, HasAbsorbing(op, e), Keys(op, e, key), EliminateYn(e), key)
  {
    if IsOp(op, e) {
      HalvesYnFree(op, e);
      YnOfList(op, e.lhs, key);
      YnOfList(op, e.rhs, key);
      YnOfPair(op, e.lhs, e.rhs, key);
    } else {
      YnOfTerm(op, e, key);
    }
  }

  lemma YnOfPair<K(!new)>(op: Op, a: Expr, b: Expr, key: Expr -> K)
    requires ReducedTo(op, HasAbsorbing(op, a), Keys(op, a, key), EliminateYn(a), key)
    requires ReducedTo(op, HasAbsorbing(op, b), Keys(op, b, key), EliminateYn(b), key)
    ensures var e := Make(op, a, b); ReducedTo(op, HasAbsorbing(op, e), Keys(op, e, key), EliminateYn(e), key)
  {
    var e := Make(op, a, b);
    assert e.lhs == a && e.rhs == b && IsOp(op, e);
    assert EliminateYn(e) == DropConstant(op, EliminateYn(a), EliminateYn(b));
    ReducedJoin(op, HasAbsorbing(op, a), Keys(op, a, key), EliminateYn(a),
                HasAbsorbing(op, b), Keys(op, b, key), EliminateYn(b), key);
  }

  lemma HalvesYnFree(op: Op, e: Expr)
    requires IsOp(op, e) && TermsYnFree(op, e)
    ensures TermsYnFree(op, e.lhs) && TermsYnFree(op, e.rhs)
  {
    assert forall t | HasTerm(op, e.lhs, t) :: HasTerm(op, e, t);
    assert forall t | HasTerm(op, e.rhs, t) :: HasTerm(op, e, t);
  }

  lemma YnOfTerm<K(!new)>(op: Op, e: Expr, key: Expr -> K)
    requires !IsOp(op, e) && TermsYnFree(op, e)
    ensures ReducedTo(op, HasAbsorbing(op, e), Keys(op, e, key), EliminateYn(e), key)
  {
    assert HasTerm(op, e, e);
    EliminateYnCorrect(e);
    TermKey(op, e, key);
  }

  lemma DropConstantCases(op: Op, l: Expr, r: Expr)
    ensures DropConstant(op, l, r) ==
      if l == Absorbing(op) || r == Unit(op) then l
      else if l == Unit(op) || r == Absorbing(op) then r
      else Make(op, l, r)
    ensures IsYn(l) <==> l == Unit(op) || l == Absorbing(op)
    ensures IsYn(r) <==> r == Unit(op) || r == Absorbing(op)
  {
  }

  lemma ReducedJoin<K(!new)>(op: Op, a1: bool, k1: multiset<K>, r1: Expr,
                             a2: bool, k2: multiset<K>, r2: Expr, key: Expr -> K)
    requires ReducedTo(op, a1, k1, r1, key) && ReducedTo(op, a2, k2, r2, key)
    ensures ReducedTo(op, a1 || a2, k1 + k2, DropConstant(op, r1, r2), key)
  {
    DropConstantCases(op, r1, r2);
    assert k1 == multiset{} ==> k1 + k2 == k2;
    assert k2 == multiset{} ==> k1 + k2 == k1;
  }

  /** Such lists are equal exactly when a constant decides both, or it decides neither and their terms
      have the same keys. */
  lemma ListExact<K(!new)>(op: Op, e1: Expr, e2: Expr, key: Expr -> K)
    requires IsOp(op, e1) && IsOp(op, e2) && Fits(op, e1, e2, key)
    requires TermsYnFree(op, e1) && TermsYnFree(op, e2)
    ensures ExprEq(e1, e2) <==>
      HasAbsorbing(op, e1) == HasAbsorbing(op, e2) && (HasAbsorbing(op, e1) || Keys(op, e1, key) == Keys(op, e2, key))
  {
    var r := EliminatePass(op, e1, e2);
    ListsEq(op, e1, e2);
    PassKeys(op, e1, e2, key);
    AbsorbingStays(op, e1, e2);
    PassTerms(op, e1, e2);
    YnOfList(op, r.0, key);
    YnOfList(op, r.1, key);
  }

  // ---------------------------------------------------------------- rearranged lists

  /** The terms in order of appearance. */
  function Terms(op: Op, e: Expr): seq<Expr> {
    if IsOp(op, e) then Terms(op, e.lhs) + Terms(op, e.rhs) else [e]
  }

  lemma {:induction false} TermsHas(op: Op, e: Expr, t: Expr)
    ensures t in Terms(op, e) <==> HasTerm(op, e, t)
  {
    if IsOp(op, e) {
      TermsHas(op, e.lhs, t);
      TermsHas(op, e.rhs, t);
    }
  }

  lemma {:induction false} AbsorbingTerm(op: Op, e: Expr)
    ensures HasAbsorbing(op, e) <==> Absorbing(op) in multiset(Terms(op, e))
  {
    if IsOp(op, e) {
      AbsorbingTerm(op, e.lhs);
      AbsorbingTerm(op, e.rhs);
    }
  }

  ghost function ListKeys<K(!new)>(s: seq<Expr>, key: Expr -> K): multiset<K> {
    if s == [] then multiset{}
    else (if IsYn(s[0]) then multiset{} else multiset{key(s[0])}) + ListKeys(s[1..], key)
  }

  lemma {:induction false} ListKeysJoin<K(!new)>(s: seq<Expr>, t: seq<Expr>, key: Expr -> K)
    ensures ListKeys(s + t, key) == ListKeys(s, key) + ListKeys(t, key)
  {
    if s == [] {
      assert s + t == t;
    } else {
      assert (s + t)[1..] == s[1..] + t;
      ListKeysJoin(s[1..], t, key);
    }
  }

  lemma {:induction false} KeysInOrder<K(!new)>(op: Op, e: Expr, key: Expr -> K)
    ensures Keys(op, e, key) == ListKeys(Terms(op, e), key)
  {
    if IsOp(op, e) {
      KeysInOrder(op, e.lhs, key);
      KeysInOrder(op, e.rhs, key);
      ListKeysJoin(Terms(op, e.lhs), Terms(op, e.rhs), key);
    } else {
      assert [e][1..] == [];
    }
  }

  lemma {:induction false} ListKeysPermuted<K(!new)>(s: seq<Expr>, t: seq<Expr>, key: Expr -> K)
    requires multiset(s) == multiset(t)
    ensures ListKeys(s, key) == ListKeys(t, key)
  {
    if s != [] {
      assert s[0] in multiset(t);
      var i :| 0 <= i < |t| && t[i] == s[0];
      SameTakenOut(s, t, i);
      ListKeysPermuted(s[1..], t[..i] + t[i + 1..], key);
      KeysTakenOut(t, i, key);
    } else {
      assert |multiset(t)| == 0;
    }
  }

  lemma TakenOut<T>(t: seq<T>, i: nat)
    requires i < |t|
    ensures multiset(t[..i] + t[i + 1..]) + multiset{t[i]} == multiset(t)
  {
    assert t == (t[..i] + [t[i]]) + t[i + 1..];
    assert multiset(t) == multiset(t[..i]) + multiset([t[i]]) + multiset(t[i + 1..]);
  }

  lemma SameTakenOut<T>(s: seq<T>, t: seq<T>, i: nat)
    requires multiset(s) == multiset(t) && s != [] && i < |t| && t[i] == s[0]
    ensures multiset(s[1..]) == multiset(t[..i] + t[i + 1..])
  {
    TakenOut(t, i);
    TakenOut(s, 0);
    assert s[..0] + s[1..] == s[1..];
    SameRest(multiset(s[1..]), multiset(t[..i] + t[i + 1..]), multiset{s[0]});
  }

  lemma SameRest<T>(a: multiset<T>, b: multiset<T>, x: multiset<T>)
    requires a + x == b + x
    ensures a == b
  {
    assert a == (a + x) - x && b == (b + x) - x;
  }

  lemma KeysTakenOut<K(!new)>(t: seq<Expr>, i: nat, key: Expr -> K)
    requires i < |t|
    ensures ListKeys(t, key) == ListKeys([t[i]], key) + ListKeys(t[..i] + t[i + 1..], key)
  {
    assert t == t[..i] + ([t[i]] + t[i + 1..]);
    KeyMoved(t[..i], [t[i]], t[i + 1..], key);
  }

  lemma KeyMoved<K(!new)>(a: seq<Expr>, x: seq<Expr>, b: seq<Expr>, key: Expr -> K)
    ensures ListKeys(a + (x + b), key) == ListKeys(x, key) + ListKeys(a + b, key)
  {
    ListKeysJoin(a, x + b, key);
    ListKeysJoin(x, b, key);
    ListKeysJoin(a, b, key);
  }

  /** expr_eq is transitive on the terms of e. */
  ghost predicate Transitive(op: Op, e: Expr) {
    forall s, t, u | HasTerm(op, e, s) && HasTerm(op, e, t) && HasTerm(op, e, u) && ExprEq(s, t) && ExprEq(t, u) ::
      ExprEq(s, u)
  }

  /** The terms of e that equal t. */
  ghost function EqualTo(op: Op, e: Expr, t: Expr): iset<Expr> { iset s | HasTerm(op, e, s) && ExprEq(s, t) }

  /** Two lists of one operator that have the same terms are equal, in whatever order and nesting they
      have them, if expr_eq is transitive on these terms. */
  lemma Rearranged(op: Op, e1: Expr, e2: Expr)
    requires IsOp(op, e1) && IsOp(op, e2) && multiset(Terms(op, e1)) == multiset(Terms(op, e2))
    requires Transitive(op, e1)
    ensures ExprEq(e1, e2)
  {
    var key := t => EqualTo(op, e1, t);
    ClassesFit(op, e1, e2, key);
    assert Keys(op, e1, key) == Keys(op, e2, key) by {
      KeysInOrder(op, e1, key);
      KeysInOrder(op, e2, key);
      ListKeysPermuted(Terms(op, e1), Terms(op, e2), key);
    }
    AbsorbingTerm(op, e1);
    AbsorbingTerm(op, e2);
    SameKeys(op, e1, e2, key);
  }

  lemma ClassesFit(op: Op, e1: Expr, e2: Expr, key: Expr -> iset<Expr>)
    requires multiset(Terms(op, e1)) == multiset(Terms(op, e2)) && Transitive(op, e1)
    requires forall t :: key(t) == EqualTo(op, e1, t)
    ensures Fits(op, e1, e2, key)
  {
    forall s, t | HasTerm(op, e1, s) && HasTerm(op, e2, t)
      ensures ExprEq(s, t) <==> key(s) == key(t)
    {
      TermsHas(op, e2, t);
      assert t in multiset(Terms(op, e2));
      TermsHas(op, e1, t);
      ClassExact(op, e1, s, t);
    }
  }

  lemma ClassExact(op: Op, e: Expr, s: Expr, t: Expr)
    requires Transitive(op, e) && HasTerm(op, e, s) && HasTerm(op, e, t)
    ensures ExprEq(s, t) <==> EqualTo(op, e, s) == EqualTo(op, e, t)
  {
    ExprEqReflexive(s);
    ExprEqSymmetric(s, t);
    assert s in EqualTo(op, e, s);
  }

  /** Two terms are equal in either order, whatever they are. */
  lemma TwoTerms(op: Op, a: Expr, b: Expr)
    requires !IsOp(op, a) && !IsOp(op, b)
    ensures ExprEq(Make(op, a, b), Make(op, b, a))
  {
    TermsOfTwo(op, a, b);
    TermsOfTwo(op, b, a);
    TwoTransitive(op, a, b);
    Rearranged(op, Make(op, a, b), Make(op, b, a));
  }

  lemma TermsOfTwo(op: Op, a: Expr, b: Expr)
    requires !IsOp(op, a) && !IsOp(op, b)
    ensures Terms(op, Make(op, a, b)) == [a, b]
    ensures forall t :: HasTerm(op, Make(op, a, b), t) <==> t == a || t == b
  {
    assert Make(op, a, b).lhs == a && Make(op, a, b).rhs == b;
  }

  lemma TwoTransitive(op: Op, a: Expr, b: Expr)
    requires !IsOp(op, a) && !IsOp(op, b)
    ensures Transitive(op, Make(op, a, b))
  {
    TermsOfTwo(op, a, b);
    ExprEqReflexive(a);
    ExprEqReflexive(b);
  }

  // ---------------------------------------------------------------- three terms

  /** A term goes through the halves of a list in turn; x and y are what is left of them. */
  lemma ThroughHalves(op: Op, t: Expr, l: Expr, r: Expr, x: (Expr, Expr), y: (Expr, Expr))
    requires !IsOp(op, t) && x == EliminatePass(op, t, l) && y == EliminatePass(op, x.0, r)
    ensures EliminatePass(op, t, Make(op, l, r)) == (y.0, Make(op, x.1, y.1))
  {
    assert l == Make(op, l, r).lhs && r == Make(op, l, r).rhs;
  }

  /** What a term and another one leave of each other. */
  function Against(op: Op, t: Expr, a: Expr): (Expr, Expr) { if Cancels(t, a) then (Unit(op), Unit(op)) else (t, a) }

  lemma UnitAgainst(op: Op, a: Expr)
    ensures Against(op, Unit(op), a) == (Unit(op), a)
  {
  }

  /** A term is cancelled against the first of two that it equals. */
  lemma FirstOfTwo(op: Op, t: Expr, a: Expr, b: Expr)
    requires !IsOp(op, t) && !IsOp(op, a) && !IsOp(op, b)
    ensures var x := Against(op, t, a);
      var y := Against(op, x.0, b);
      EliminatePass(op, t, Make(op, a, b)) == (y.0, Make(op, x.1, y.1))
  {
    var x := Against(op, t, a);
    TermsPass(op, t, a);
    TermsPass(op, x.0, b);
    ThroughHalves(op, t, a, b, x, Against(op, x.0, b));
  }

  function Three(op: Op, a: Expr, b: Expr, c: Expr): Expr { Make(op, Make(op, a, b), c) }

  /** The same for three. */
  lemma FirstOfThree(op: Op, t: Expr, a: Expr, b: Expr, c: Expr)
    requires !IsOp(op, t) && !IsOp(op, a) && !IsOp(op, b) && !IsOp(op, c)
    ensures var x := Against(op, t, a);
      var y := Against(op, x.0, b);
      var z := Against(op, y.0, c);
      EliminatePass(op, t, Three(op, a, b, c)) == (z.0, Three(op, x.1, y.1, z.1))
  {
    var x := Against(op, t, a);
    var y := Against(op, x.0, b);
    FirstOfTwo(op, t, a, b);
    TermsPass(op, y.0, c);
    ThroughHalves(op, t, Make(op, a, b), c, (y.0, Make(op, x.1, y.1)), Against(op, y.0, c));
  }

  /** The halves of the first list take their turns with the second tree. */
  lemma HalvesInTurn(op: Op, a: Expr, b: Expr, e: Expr, x: (Expr, Expr), y: (Expr, Expr))
    requires x == EliminatePass(op, a, e) && y == EliminatePass(op, b, x.1)
    ensures EliminatePass(op, Make(op, a, b), e) == (Make(op, x.0, y.0), y.1)
  {
    assert a == Make(op, a, b).lhs && b == Make(op, a, b).rhs;
  }

  lemma InTurn(op: Op, a: Expr, b: Expr, c: Expr, e: Expr, x: (Expr, Expr), y: (Expr, Expr), z: (Expr, Expr))
    requires x == EliminatePass(op, a, e) && y == EliminatePass(op, b, x.1) && z == EliminatePass(op, c, y.1)
    ensures EliminatePass(op, Three(op, a, b, c), e) == (Three(op, x.0, y.0, z.0), z.1)
  {
    HalvesInTurn(op, a, b, e, x, y);
    HalvesInTurn(op, Make(op, a, b), c, e, (Make(op, x.0, y.0), y.1), z);
  }

  lemma NotUnit(op: Op, e: Expr)
    requires !IsYn(e)
    ensures !Cancels(e, Unit(op)) && Cancels(e, e)
  {
    YnEq(e, Unit(op));
    ExprEqReflexive(e);
  }

  /** What a pass leaves of q, p, r and r, q, p. */
  lemma ThreePass(op: Op, p: Expr, q: Expr, r: Expr)
    requires !IsOp(op, p) && !IsOp(op, q) && !IsOp(op, r) && !IsYn(p) && !IsYn(q) && !IsYn(r)
    ensures var u := Unit(op);
      var left := ExprEq(p, q) && ExprEq(q, r) && !ExprEq(p, r);
      EliminatePass(op, Three(op, q, p, r), Three(op, r, q, p)) ==
      (Three(op, u, u, if left then r else u), Three(op, u, u, if left then p else u))
  {
    ExprEqSymmetric(p, r);
    ExprEqSymmetric(q, r);
    if ExprEq(q, r) {
      TakesOther(op, p, q, r);
    } else {
      TakesItself(op, p, q, r);
    }
  }

  lemma TakesOther(op: Op, p: Expr, q: Expr, r: Expr)
    requires !IsOp(op, p) && !IsOp(op, q) && !IsOp(op, r) && !IsYn(p) && !IsYn(q) && !IsYn(r)
    requires Cancels(q, r) && Cancels(r, q)
    ensures var u := Unit(op);
      var left := Cancels(p, q) && !Cancels(r, p);
      EliminatePass(op, Three(op, q, p, r), Three(op, r, q, p)) ==
      (Three(op, u, u, if left then r else u), Three(op, u, u, if left then p else u))
  {
    var u := Unit(op);
    NotUnit(op, p);
    NotUnit(op, r);
    UnitAgainst(op, q);
    UnitAgainst(op, p);
    UnitAgainst(op, u);
    FirstOfThree(op, q, r, q, p);
    FirstOfThree(op, p, u, q, p);
    var y := if Cancels(p, q) then Three(op, u, u, p) else Three(op, u, q, u);
    FirstOfThree(op, r, u, u, p);
    FirstOfThree(op, r, u, q, u);
    InTurn(op, q, p, r, Three(op, r, q, p), (u, Three(op, u, q, p)), (u, y), EliminatePass(op, r, y));
  }

  lemma TakesItself(op: Op, p: Expr, q: Expr, r: Expr)
    requires !IsOp(op, p) && !IsOp(op, q) && !IsOp(op, r) && !IsYn(p) && !IsYn(q) && !IsYn(r)
    requires !Cancels(q, r) && Cancels(p, r) == Cancels(r, p)
    ensures var u := Unit(op);
      EliminatePass(op, Three(op, q, p, r), Three(op, r, q, p)) == (Three(op, u, u, u), Three(op, u, u, u))
  {
    var u := Unit(op);
    NotUnit(op, p);
    NotUnit(op, q);
    NotUnit(op, r);
    UnitAgainst(op, p);
    UnitAgainst(op, u);
    FirstOfThree(op, q, r, q, p);
    FirstOfThree(op, p, r, u, p);
    var y := if Cancels(p, r) then Three(op, u, u, p) else Three(op, r, u, u);
    FirstOfThree(op, r, u, u, p);
    FirstOfThree(op, r, r, u, u);
    InTurn(op, q, p, r, Three(op, r, q, p), (u, Three(op, r, u, p)), (u, y), (u, Three(op, u, u, u)));
  }

  lemma UnitsDropped(op: Op, e: Expr)
    ensures EliminateYn(Three(op, Unit(op), Unit(op), e)) == EliminateYn(e)
  {
    assert EliminateYn(Unit(op)) == Unit(op) == EliminateYn(Make(op, Unit(op), Unit(op)));
  }

  /** Three terms and the same three in another order: they are not equal exactly where q equals both
      others but these do not equal each other, unless both are reduced to one symbol. */
  lemma ThreeTerms(op: Op, p: Expr, q: Expr, r: Expr)
    requires !IsOp(op, p) && !IsOp(op, q) && !IsOp(op, r) && !IsYn(p) && !IsYn(q) && !IsYn(r)
    ensures ExprEq(Three(op, q, p, r), Three(op, r, q, p)) <==>
      !(ExprEq(p, q) && ExprEq(q, r)) || ExprEq(p, r) || (EliminateYn(p).Symbol? && EliminateYn(p) == EliminateYn(r))
  {
    ThreePass(op, p, q, r);
    ListsEq(op, Three(op, q, p, r), Three(op, r, q, p));
    UnitsDropped(op, p);
    UnitsDropped(op, r);
    UnitsDropped(op, Unit(op));
  }

  // ---------------------------------------------------------------- where it is not transitive

  /** A pass over two pairs of terms, of which the outer ones do not cancel. */
  lemma TwoPass(op: Op, a: Expr, b: Expr, c: Expr, d: Expr)
    requires !IsOp(op, a) && !IsOp(op, b) && !IsOp(op, c) && !IsOp(op, d) && !Cancels(a, d) && !Cancels(b, c)
    ensures var u := Unit(op);
      var l, r := Cancels(a, c), Cancels(b, d);
      EliminatePass(op, Make(op, a, b), Make(op, c, d)) ==
      (Make(op, if l then u else a, if r then u else b), Make(op, if l then u else c, if r then u else d))
  {
    var u := Unit(op);
    var c' := if Cancels(a, c) then u else c;
    assert !Cancels(b, c');
    UnitAgainst(op, d);
    FirstOfTwo(op, a, c, d);
    FirstOfTwo(op, b, c', d);
    HalvesInTurn(op, a, b, Make(op, c, d), (if Cancels(a, c) then u else a, Make(op, c', d)),
                 EliminatePass(op, b, Make(op, c', d)));
  }

  /** A && y */
  function WithYes(a: Symbol): Expr { And(Symbol(a), Symbol(SymbolYes)) }

  lemma WithYesDiffer(a: Symbol, b: Symbol)
    requires !a.IsYesOrNo() && !b.IsYesOrNo() && a != b
    ensures !ExprEq(WithYes(a), WithYes(b)) && ExprEq(WithYes(b), WithYes(b))
    ensures EliminateYn(WithYes(a)) == Symbol(a)
  {
    TwoPass(AndOp, Symbol(a), Symbol(SymbolYes), Symbol(b), Symbol(SymbolYes));
    ListsEq(AndOp, WithYes(a), WithYes(b));
    ExprEqReflexive(WithYes(b));
  }

  lemma FirstMixed(a: Symbol, b: Symbol)
    requires !a.IsYesOrNo() && !b.IsYesOrNo() && a != b
    ensures ExprEq(Or(WithYes(a), WithYes(b)), Or(Symbol(a), WithYes(b)))
  {
    var n := Symbol(SymbolNo);
    assert !ExprEq(WithYes(a), WithYes(b)) && ExprEq(WithYes(b), WithYes(b)) by {
      WithYesDiffer(a, b);
    }
    TwoPass(OrOp, WithYes(a), WithYes(b), Symbol(a), WithYes(b));
    ListsEq(OrOp, Or(WithYes(a), WithYes(b)), Or(Symbol(a), WithYes(b)));
    assert EliminateYn(Or(WithYes(a), n)) == Symbol(a) == EliminateYn(Or(Symbol(a), n)) by {
      WithYesDiffer(a, b);
    }
  }

  lemma BothMixed(a: Symbol, b: Symbol)
    requires !a.IsYesOrNo() && !b.IsYesOrNo() && a != b
    ensures ExprEq(Or(Symbol(a), WithYes(b)), Or(Symbol(a), Symbol(b)))
  {
    var n := Symbol(SymbolNo);
    TwoPass(OrOp, Symbol(a), WithYes(b), Symbol(a), Symbol(b));
    ListsEq(OrOp, Or(Symbol(a), WithYes(b)), Or(Symbol(a), Symbol(b)));
    assert EliminateYn(Or(n, WithYes(b))) == Symbol(b) == EliminateYn(Or(n, Symbol(b))) by {
      WithYesDiffer(b, a);
    }
  }

  /** (A && y) || (B && y) equals A || (B && y), which equals A || B, but these two are not equal. */
  lemma NotTransitive(a: Symbol, b: Symbol)
    requires !a.IsYesOrNo() && !b.IsYesOrNo() && a != b
    ensures var p, q, r := Or(WithYes(a), WithYes(b)), Or(Symbol(a), WithYes(b)), Or(Symbol(a), Symbol(b));
      ExprEq(p, q) && ExprEq(q, r) && !ExprEq(p, r) && EliminateYn(p) == r
  {
    var p, r := Or(WithYes(a), WithYes(b)), Or(Symbol(a), Symbol(b));
    FirstMixed(a, b);
    BothMixed(a, b);
    WithYesDiffer(a, b);
    WithYesDiffer(b, a);
    TwoPass(OrOp, WithYes(a), WithYes(b), Symbol(a), Symbol(b));
    ListsEq(OrOp, p, r);
  }

  /** So the order of three such terms matters. */
  lemma OrderMatters(a: Symbol, b: Symbol)
    requires !a.IsYesOrNo() && !b.IsYesOrNo() && a != b
    ensures var p, q, r := Or(WithYes(a), WithYes(b)), Or(Symbol(a), WithYes(b)), Or(Symbol(a), Symbol(b));
      !ExprEq(And(And(q, p), r), And(And(r, q), p))
  {
    var p, q, r := Or(WithYes(a), WithYes(b)), Or(Symbol(a), WithYes(b)), Or(Symbol(a), Symbol(b));
    NotTransitive(a, b);
    ThreeTerms(AndOp, p, q, r);
    assert Three(AndOp, q, p, r) == And(And(q, p), r) && Three(AndOp, r, q, p) == And(And(r, q), p);
  }
}
