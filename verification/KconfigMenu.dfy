/** The test in menu_finalize that makes an entry a child of the one above it. */
module KconfigMenu {
  import opened KconfigExpr
  import opened KconfigEq
  import opened KconfigTransform
  import opened KconfigJoin
  import opened KconfigDupsProof
  import opened KconfigRewriter
  import opened KconfigEqReflexive
  import opened KconfigEqKeys
  import opened KconfigEqCommon
  import opened KconfigSettled
  import KconfigPrint

  /** expr_trans_compare on a non-NULL expression; equal tells E_EQUAL from E_UNEQUAL. */
  function TransCompare(e: Expr, equal: bool, c: Symbol): Expr
    requires c.SymbolYes? || c.SymbolMod? || c.SymbolNo?
  {
    match e
    case And(a, b) =>
      var l, r := TransCompare(a, true, c), TransCompare(b, true, c);
      var j := if c.SymbolYes? then And(l, r) else if c.SymbolNo? then Or(l, r) else e;
      if equal then j else Not(j)
    case Or(a, b) =>
      var l, r := TransCompare(a, true, c), TransCompare(b, true, c);
      var j := if c.SymbolYes? then Or(l, r) else if c.SymbolNo? then And(l, r) else e;
      if equal then j else Not(j)
    case Not(a) => TransCompare(a, !equal, c)
    case Symbol(s) => if equal then Equal(s, c) else Unequal(s, c)
    case _ =>
      if c.SymbolMod? then Symbol(if equal then SymbolNo else SymbolYes)
      else if equal == c.SymbolYes? then e
      else Not(e)
  }

  /** expr_trans_compare; NULL stands for y. */
  function TransCompareOpt(e: Option<Expr>, equal: bool, c: Symbol): Expr
    requires c.SymbolYes? || c.SymbolMod? || c.SymbolNo?
  {
    if e.Some? then TransCompare(e.value, equal, c)
    else if equal then Symbol(c) else Not(Symbol(c))
  }

  function EvalOpt(e: Option<Expr>, v: Valuation): Tristate {
    if e.Some? then Eval(e.value, v) else YES
  }

  /** The value of "x = c", or of "x != c", for a tristate x. */
  function Compared(x: Tristate, equal: bool, c: Tristate): Tristate {
    if (x == c) == equal then YES else NO
  }

  /** What expr_trans_compare reads in a symbol: it is what it is compared to, or the opposite.  A
      symbol that is m reads as n against y, and as y against n. */
  function ReadSymbol(s: Symbol, c: Symbol, v: Valuation): Tristate
    requires c.IsYesOrNo()
  {
    if (v.str(s) == v.str(c)) == c.SymbolYes? then YES else NO
  }

  /** The value of e with its symbols so read. */
  function EvalRead(e: Expr, c: Symbol, v: Valuation): Tristate
    requires c.IsYesOrNo()
  {
    match e
    case Symbol(s) => ReadSymbol(s, c, v)
    case Not(a) => NotValue(EvalRead(a, c, v))
    case And(a, b) => AndValue(EvalRead(a, c, v), EvalRead(b, c, v))
    case Or(a, b) => OrValue(EvalRead(a, c, v), EvalRead(b, c, v))
    case _ => Eval(e, v)
  }

  function EvalReadOpt(e: Option<Expr>, c: Symbol, v: Valuation): Tristate
    requires c.IsYesOrNo()
  {
    if e.Some? then EvalRead(e.value, c, v) else YES
  }

  /** expr_trans_compare compares the value that it reads, on every expression. */
  lemma {:induction false} TransCompareReads(e: Expr, equal: bool, c: Symbol, v: Valuation)
    requires v.Valid() && c.IsYesOrNo()
    ensures EvalRead(e, c, v) != MOD
    ensures Eval(TransCompare(e, equal, c), v) == Compared(EvalRead(e, c, v), equal, v.tri(c))
  {
    match e
    case And(a, b) => TransCompareReads(a, true, c, v); TransCompareReads(b, true, c, v);
    case Or(a, b) => TransCompareReads(a, true, c, v); TransCompareReads(b, true, c, v);
    case Not(a) => TransCompareReads(a, !equal, c, v);
    case _ =>
  }

  /** Every symbol tested for its own value is boolean, tristate or one of y, m, n. */
  predicate PlainSymbols(e: Expr) {
    match e
    case Symbol(s) => s.IsBuiltIn() || s.OfKind(Boolean) || s.OfKind(Tri)
    case Not(a) => PlainSymbols(a)
    case And(a, b) => PlainSymbols(a) && PlainSymbols(b)
    case Or(a, b) => PlainSymbols(a) && PlainSymbols(b)
    case _ => true
  }

  predicate PlainSymbolsOpt(e: Option<Expr>) { e.Some? ==> PlainSymbols(e.value) }

  /** A decided value is read as it is, however the m symbols are read. */
  lemma {:induction false} DecidedIsRead(e: Expr, c: Symbol, v: Valuation)
    requires v.Valid() && c.IsYesOrNo() && PlainSymbols(e)
    ensures Eval(e, v) != MOD ==> EvalRead(e, c, v) == Eval(e, v)
  {
    match e
    case And(a, b) => DecidedIsRead(a, c, v); DecidedIsRead(b, c, v);
    case Or(a, b) => DecidedIsRead(a, c, v); DecidedIsRead(b, c, v);
    case Not(a) => DecidedIsRead(a, c, v);
    case Symbol(s) => assert v.str(s) == TristateName(v.tri(s));
    case _ =>
  }

  /** Against y or n, expr_trans_compare is right exactly when the value is decided or an m is not
      read as the value it is compared to. */
  lemma TransCompareExact(e: Expr, equal: bool, c: Symbol, v: Valuation)
    requires v.Valid() && c.IsYesOrNo() && PlainSymbols(e)
    ensures Eval(TransCompare(e, equal, c), v) == Compared(Eval(e, v), equal, v.tri(c))
            <==> Eval(e, v) != MOD || EvalRead(e, c, v) != v.tri(c)
  {
    TransCompareReads(e, equal, c, v);
    DecidedIsRead(e, c, v);
  }

  /** What is below the leading negations, and whether their number is even. */
  function Core(e: Expr): (Expr, bool) {
    match e
    case Not(a) => var c := Core(a); (c.0, !c.1)
    case _ => (e, true)
  }

  /** Against m, the third constant, it is right on a single test exactly below an even number of
      negations, and on an AND or OR, which it leaves as it is, exactly when the value is n. */
  lemma {:induction false} TransCompareMiddle(e: Expr, equal: bool, v: Valuation)
    requires v.Valid() && PlainSymbols(e)
    ensures Eval(TransCompare(e, equal, SymbolMod), v) == Compared(Eval(e, v), equal, MOD)
            <==> if Core(e).0.IsBinary() then Eval(e, v) == NO else Core(e).1
  {
    CoreCompared(e, equal, v);
    match Core(e).0
    case Symbol(s) => assert v.str(s) == TristateName(v.tri(s));
    case _ =>
  }

  lemma {:induction false} CoreCompared(e: Expr, equal: bool, v: Valuation)
    requires PlainSymbols(e)
    ensures var c := Core(e);
      && PlainSymbols(c.0) && !c.0.Not? && Eval(e, v) == (if c.1 then Eval(c.0, v) else NotValue(Eval(c.0, v)))
      && TransCompare(e, equal, SymbolMod) == TransCompare(c.0, equal == c.1, SymbolMod)
  {
    if e.Not? {
      CoreCompared(e.arg, !equal, v);
    }
  }

  /** Every tristate symbol tested for its own value is below an even number of negations (an odd
      one, unless positive). */
  predicate Polar(e: Expr, positive: bool) {
    match e
    case Symbol(s) => positive || !(s.OfKind(Tri) || s.SymbolMod?)
    case Not(a) => Polar(a, !positive)
    case And(a, b) => Polar(a, positive) && Polar(b, positive)
    case Or(a, b) => Polar(a, positive) && Polar(b, positive)
    case _ => true
  }

  predicate PolarOpt(e: Option<Expr>) { e.Some? ==> Polar(e.value, true) }

  /** Without negated tristate symbols, what is not n is not read as n. */
  lemma {:induction false} PolarRead(e: Expr, positive: bool, v: Valuation)
    requires v.Valid() && PlainSymbols(e) && Polar(e, positive)
    ensures if positive then EvalRead(e, SymbolNo, v) >= Eval(e, v) else EvalRead(e, SymbolNo, v) <= Eval(e, v)
  {
    match e
    case And(a, b) => PolarRead(a, positive, v); PolarRead(b, positive, v);
    case Or(a, b) => PolarRead(a, positive, v); PolarRead(b, positive, v);
    case Not(a) => PolarRead(a, !positive, v);
    case Symbol(s) => assert v.str(s) == TristateName(v.tri(s));
    case _ =>
  }

  /** What menu_finalize does with a condition before it compares two of them. */
  function Prepared(e: Option<Expr>): Expr {
    Settled(Transform(TransCompareOpt(e, false, SymbolNo)))
  }

  /** A prepared condition is y or n, and is n exactly where the condition is read as n. */
  lemma PreparedReads(e: Option<Expr>, v: Valuation)
    requires v.Valid()
    ensures Eval(Prepared(e), v) == EvalReadOpt(e, SymbolNo, v) != MOD
  {
    var c := TransCompareOpt(e, false, SymbolNo);
    if e.Some? {
      TransCompareReads(e.value, false, SymbolNo, v);
    }
    TransformExact(c, v);
    SettledCorrect(Transform(c));
    assert KeptUnlessMod(Transform(c), Prepared(e), v);
  }

  method Prepare(rw: Rewriter, e: Option<Expr>) returns (r: Expr)
    modifies rw
    ensures rw.transCount == old(rw.transCount)
    ensures r == Prepared(e)
  {
    var c := TransCompareOpt(e, false, SymbolNo);
    var d := rw.EliminateDups(Some(Transform(c)));
    r := d.value;
  }

  /** The test of menu.c whether the condition dep implies the condition base. */
  predicate Implied(base: Option<Expr>, dep: Option<Expr>) {
    EliminateEq(Prepared(dep), Prepared(base)).1.IsYes()
  }

  /** A child's condition is read as n wherever its parent is hidden.  So it is only shown without
      its parent where it is m and read as n, which takes a negated tristate symbol. */
  lemma ImpliedSound(base: Option<Expr>, dep: Option<Expr>, v: Valuation)
    requires v.Valid() && Implied(base, dep)
    ensures EvalReadOpt(base, SymbolNo, v) == NO ==> EvalReadOpt(dep, SymbolNo, v) == NO
    ensures PlainSymbolsOpt(base) && EvalOpt(base, v) == NO ==>
      && EvalReadOpt(dep, SymbolNo, v) == NO
      && (PlainSymbolsOpt(dep) ==> EvalOpt(dep, v) != YES)
      && (PlainSymbolsOpt(dep) && PolarOpt(dep) ==> EvalOpt(dep, v) == NO)
  {
    MenuTestSound(Prepared(dep), Prepared(base));
    PreparedReads(base, v);
    PreparedReads(dep, v);
    if base.Some? && PlainSymbols(base.value) {
      DecidedIsRead(base.value, SymbolNo, v);
    }
    if dep.Some? && PlainSymbols(dep.value) {
      DecidedIsRead(dep.value, SymbolNo, v);
      if Polar(dep.value, true) {
        PolarRead(dep.value, true, v);
      }
    }
  }

  lemma PreparedNormal(e: Option<Expr>)
    ensures Normal(Prepared(e))
  {
    var c := TransCompareOpt(e, false, SymbolNo);
    TransformNormal(c);
    SettledNormal(Transform(c));
  }

  /** When the test answers yes: the entry's prepared condition is an AND that has all terms of the
      parent's, in any order. */
  lemma ImpliedExact(base: Option<Expr>, dep: Option<Expr>)
    requires YnFree(Prepared(base)) && YnFree(Prepared(dep)) && !IsYn(Prepared(base)) && !IsYn(Prepared(dep))
    ensures Implied(base, dep) <==>
      Prepared(dep).And? && Items(AndOp, Prepared(base)) <= Items(AndOp, Prepared(dep))
  {
    PreparedNormal(base);
    PreparedNormal(dep);
    NormalPlain(Prepared(base));
    NormalPlain(Prepared(dep));
    MenuTestExact(Prepared(dep), Prepared(base));
  }

  /** expr_eliminate_eq compares nothing unless one side is an AND or OR, so of two lone terms the
      entry's never implies the parent's, even when they are equal. */
  lemma LoneTermsNotCompared(base: Option<Expr>, dep: Option<Expr>)
    requires !Prepared(base).IsBinary() && !Prepared(dep).IsBinary()
    ensures Implied(base, dep) <==> Prepared(base).IsYes()
  {
    var d, b := Prepared(dep), Prepared(base);
    assert EliminateCommon(d, b) == (d, b);
    assert EliminateEq(d, b).1 == EliminateYn(b) == b;
  }

  // ---------------------------------------------------------------- the whole decision

  /** expr_contains_symbol */
  predicate ContainsSymbol(e: Expr, s: Symbol) {
    match e
    case And(a, b) => ContainsSymbol(a, s) || ContainsSymbol(b, s)
    case Or(a, b) => ContainsSymbol(a, s) || ContainsSymbol(b, s)
    case Not(a) => ContainsSymbol(a, s)
    case Symbol(t) => t == s
    case _ => e.left == s || e.right == s
  }

  /** It finds the symbols that are printed. */
  lemma {:induction false} ContainsExact(e: Expr, s: Symbol, prev: KconfigPrint.NodeType)
    ensures ContainsSymbol(e, s) <==> KconfigPrint.Word(s) in KconfigPrint.Print(e, prev)
    decreases e
  {
    match e
    case Not(a) => ContainsExact(a, s, KconfigPrint.NotType);
    case And(a, b) => ContainsExact(a, s, KconfigPrint.AndType); ContainsExact(b, s, KconfigPrint.AndType);
    case Or(a, b) => ContainsExact(a, s, KconfigPrint.OrType); ContainsExact(b, s, KconfigPrint.OrType);
    case _ =>
  }

  /** Where it finds none, the value does not depend on the symbol. */
  lemma {:induction false} ContainsAll(e: Expr, s: Symbol, v: Valuation, w: Valuation)
    requires !ContainsSymbol(e, s) && forall t: Symbol | t != s :: v.tri(t) == w.tri(t) && v.str(t) == w.str(t)
    ensures Eval(e, v) == Eval(e, w)
  {
    match e
    case Not(a) => ContainsAll(a, s, v, w);
    case And(a, b) => ContainsAll(a, s, v, w); ContainsAll(b, s, v, w);
    case Or(a, b) => ContainsAll(a, s, v, w); ContainsAll(b, s, v, w);
    case _ =>
  }

  /** expr_depends_symbol: it does not look below an OR or a NOT. */
  predicate DependsSymbol(e: Expr, s: Symbol) {
    match e
    case And(a, b) => DependsSymbol(a, s) || DependsSymbol(b, s)
    case Symbol(t) => t == s
    case Equal(l, r) => l == s && (r.SymbolYes? || r.SymbolMod?)
    case Unequal(l, r) => l == s && r.SymbolNo?
    case _ => false
  }

  predicate ContainsOpt(e: Option<Expr>, s: Symbol) { e.Some? && ContainsSymbol(e.value, s) }

  predicate DependsOpt(e: Option<Expr>, s: Symbol) { e.Some? && DependsSymbol(e.value, s) }

  /** menu.c: an entry with condition dep becomes a child of the one of symbol s, whose prompt has the
      condition base. */
  predicate BecomesChild(s: Symbol, base: Option<Expr>, dep: Option<Expr>) {
    ContainsOpt(dep, s) && (DependsOpt(dep, s) || Implied(base, dep))
  }

  /** The second guard needs no test of the conditions: the entry is hidden where the symbol is n. */
  lemma {:induction false} DependsSound(e: Expr, s: Symbol, v: Valuation)
    requires v.Valid() && DependsSymbol(e, s) && (s.OfKind(Boolean) || s.OfKind(Tri))
    ensures v.tri(s) == NO ==> Eval(e, v) == NO
    ensures ContainsSymbol(e, s)
  {
    assert v.str(s) == TristateName(v.tri(s));
    if e.And? {
      if DependsSymbol(e.lhs, s) {
        DependsSound(e.lhs, s, v);
      } else {
        DependsSound(e.rhs, s, v);
      }
    }
  }

  /** A test of s alone. */
  predicate TestOf(e: Expr, s: Symbol) { e == Symbol(s) || Tests(e, s) }

  /** The test is n wherever s is. */
  ghost predicate NoWith(e: Expr, s: Symbol) {
    forall v: Valuation | v.Valid() && v.tri(s) == NO :: Eval(e, v) == NO
  }

  lemma {:induction false} TestDepends(e: Expr, s: Symbol)
    requires TestOf(e, s) && (s.OfKind(Boolean) || s.OfKind(Tri))
    ensures DependsSymbol(e, s) <==> NoWith(e, s)
  {
    EveryConfiguration((_: Symbol) => NO, (_: Symbol) => "");
    var w := Configured((_: Symbol) => NO, (_: Symbol) => "");
    assert w.Valid() && w.tri(s) == NO;
    forall v: Valuation | v.Valid() && v.tri(s) == NO
      ensures DependsSymbol(e, s) <==> Eval(e, v) == NO
    {
      assert v.str(s) == TristateName(NO) == "n";
    }
  }

  /** expr_depends_symbol finds exactly the symbols of which one of the conditions joined by && is such
      a test. */
  lemma {:induction false} DependsExact(e: Expr, s: Symbol)
    requires s.OfKind(Boolean) || s.OfKind(Tri)
    ensures DependsSymbol(e, s) <==> exists t | HasTerm(AndOp, e, t) :: TestOf(t, s) && NoWith(t, s)
  {
    if e.And? {
      DependsExact(e.lhs, s);
      DependsExact(e.rhs, s);
    } else {
      assert HasTerm(AndOp, e, e);
      if TestOf(e, s) {
        TestDepends(e, s);
      }
    }
  }

  /** So a child is read as n wherever its parent is, or is hidden where the parent's symbol is n. */
  lemma ChildSound(s: Symbol, base: Option<Expr>, dep: Option<Expr>, v: Valuation)
    requires v.Valid() && BecomesChild(s, base, dep) && (s.OfKind(Boolean) || s.OfKind(Tri))
    ensures || (v.tri(s) == NO ==> EvalOpt(dep, v) == NO)
            || (EvalReadOpt(base, SymbolNo, v) == NO ==> EvalReadOpt(dep, SymbolNo, v) == NO)
  {
    if DependsOpt(dep, s) {
      DependsSound(dep.value, s, v);
    } else {
      ImpliedSound(base, dep, v);
    }
  }

  /** A pair of tests that the preparation does not touch. */
  lemma PairSettled(foo: Symbol, bar: Symbol)
    requires foo.OfKind(Tri) && bar.OfKind(Tri) && foo != bar
    ensures var e := And(Equal(foo, SymbolNo), Equal(bar, SymbolNo)); Settled(e) == e
  {
    var a, b := Equal(foo, SymbolNo), Equal(bar, SymbolNo);
    PairMerged(AndOp, a, b);
    MergedIdle(AndOp, And(a, b), [], []);
    PlainPair(AndOp, And(a, b));
  }

  /** A negated tristate symbol makes a child that may be shown without its parent: !foo && !bar comes
      after bar, whose prompt depends on foo = n.  It passes both guards and the test, and it is
      shown although the parent is hidden exactly where foo is m and bar is not y. */
  lemma ChildWithoutParent(foo: Symbol, bar: Symbol)
    requires foo.OfKind(Tri) && bar.OfKind(Tri) && foo != bar
    ensures var base, dep := Equal(foo, SymbolNo), And(Not(Symbol(foo)), Not(Symbol(bar)));
      && ContainsSymbol(dep, bar) && !DependsSymbol(dep, bar) && !ContainsSymbol(base, bar)
      && BecomesChild(bar, Some(base), Some(dep))
      && (exists v: Valuation :: v.Valid() && v.tri(foo) == v.tri(bar) == MOD)
      && (forall v: Valuation | v.Valid() ::
            Eval(dep, v) != NO && Eval(base, v) == NO <==> v.tri(foo) == MOD && v.tri(bar) != YES)
  {
    var dep := And(Not(Symbol(foo)), Not(Symbol(bar)));
    ClashImplied(foo, bar);
    NotBelowNot(Symbol(foo), bar);
    NotBelowNot(Symbol(bar), bar);
    assert ContainsSymbol(dep.rhs, bar);
    EveryConfiguration((_: Symbol) => MOD, (_: Symbol) => "");
    var w := Configured((_: Symbol) => MOD, (_: Symbol) => "");
    assert w.tri(foo) == w.tri(bar) == MOD;
    forall v: Valuation | v.Valid()
      ensures Eval(dep, v) != NO && Eval(Equal(foo, SymbolNo), v) == NO <==> v.tri(foo) == MOD && v.tri(bar) != YES
    {
      ClashShown(foo, bar, v);
    }
  }

  lemma NotBelowNot(e: Expr, s: Symbol)
    ensures !DependsSymbol(Not(e), s)
  {
    var n := Not(e);
    assert !n.And? && !n.Symbol? && !n.IsComparison();
  }

  lemma ClashShown(foo: Symbol, bar: Symbol, v: Valuation)
    requires v.Valid() && foo.OfKind(Tri)
    ensures Eval(And(Not(Symbol(foo)), Not(Symbol(bar))), v) != NO && Eval(Equal(foo, SymbolNo), v) == NO
            <==> v.tri(foo) == MOD && v.tri(bar) != YES
  {
    var dep := And(Not(Symbol(foo)), Not(Symbol(bar)));
    assert v.str(foo) == TristateName(v.tri(foo)) && v.str(SymbolNo) == TristateName(NO);
    assert Eval(dep.lhs, v) == 2 - v.tri(foo) && Eval(dep.rhs, v) == 2 - v.tri(bar);
  }

  lemma ClashImplied(foo: Symbol, bar: Symbol)
    requires foo.OfKind(Tri) && bar.OfKind(Tri) && foo != bar
    ensures Implied(Some(Equal(foo, SymbolNo)), Some(And(Not(Symbol(foo)), Not(Symbol(bar)))))
  {
    var base := Equal(foo, SymbolNo);
    var tests := And(base, Equal(bar, SymbolNo));
    ClashPrepared(foo, bar);
    assert EliminatePass(AndOp, tests, base).1 == Symbol(SymbolYes) by {
      assert ExprEq(base, base) && !ExprEq(tests.rhs, Symbol(SymbolYes));
      assert EliminatePass(AndOp, tests.lhs, base) == (Symbol(SymbolYes), Symbol(SymbolYes));
      assert EliminatePass(AndOp, tests.rhs, Symbol(SymbolYes)).1 == Symbol(SymbolYes);
    }
  }

  lemma ClashPrepared(foo: Symbol, bar: Symbol)
    requires foo.OfKind(Tri) && bar.OfKind(Tri) && foo != bar
    ensures var base, dep := Equal(foo, SymbolNo), And(Not(Symbol(foo)), Not(Symbol(bar)));
      Prepared(Some(base)) == base && Prepared(Some(dep)) == And(base, Equal(bar, SymbolNo))
  {
    var base, dep := Equal(foo, SymbolNo), And(Not(Symbol(foo)), Not(Symbol(bar)));
    var tests := And(base, Equal(bar, SymbolNo));
    var negated := Or(Unequal(foo, SymbolNo), Unequal(bar, SymbolNo));
    assert Transform(Not(negated)) == tests by {
      assert Transform(negated) == negated;
      assert Transform(Not(negated.lhs)) == tests.lhs && Transform(Not(negated.rhs)) == tests.rhs by {
        assert Transform(negated.lhs) == negated.lhs && Transform(negated.rhs) == negated.rhs;
      }
      assert Transform(And(Not(negated.lhs), Not(negated.rhs))) == tests;
    }
    assert TransCompare(dep, false, SymbolNo) == Not(negated) by {
      assert TransCompare(dep.lhs, true, SymbolNo) == TransCompare(Symbol(foo), false, SymbolNo) == negated.lhs;
      assert TransCompare(dep.rhs, true, SymbolNo) == TransCompare(Symbol(bar), false, SymbolNo) == negated.rhs;
    }
    PairSettled(foo, bar);
  }

  /** One turn of the loop of menu_finalize over the entries behind the one of symbol s: whether the
      entry with condition dep becomes its child; basedep is the prepared condition of s. */
  method EntryDependsOn(rw: Rewriter, s: Symbol, ghost base: Option<Expr>, basedep: Expr, dep: Option<Expr>)
    returns (child: bool)
    requires basedep == Prepared(base)
    modifies rw
    ensures rw.transCount == old(rw.transCount) && child == BecomesChild(s, base, dep)
    ensures child && !DependsOpt(dep, s) ==> forall v: Valuation | v.Valid() ::
              EvalReadOpt(base, SymbolNo, v) == NO ==> EvalReadOpt(dep, SymbolNo, v) == NO
  {
    if dep.None? || !ContainsSymbol(dep.value, s) {
      return false;
    }
    if DependsSymbol(dep.value, s) {
      return true;
    }
    var d := Prepare(rw, dep);
    var r := EliminateEq(d, basedep);
    child := r.1.IsYes();
    if child {
      forall v: Valuation | v.Valid()
        ensures EvalReadOpt(base, SymbolNo, v) == NO ==> EvalReadOpt(dep, SymbolNo, v) == NO
      {
        ImpliedSound(base, dep, v);
      }
    }
  }
}
