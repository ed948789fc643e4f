/** expr_print, and the expression grammar of zconf.y that reads its output back. */
module KconfigPrint {
  import opened KconfigExpr

  /** What expr_print hands to its callback: a symbol with its name, or a fixed string. */
  datatype Token = Word(sym: Symbol) | Open | Close | Bang | Eq | Ne | OrOr | AndAnd

  /** enum expr_type, without the two types that are not modelled. */
  datatype NodeType = NoneType | OrType | AndType | NotType | EqualType | UnequalType | SymbolType

  function TypeOf(e: Expr): NodeType {
    match e
    case Symbol(_) => SymbolType
    case Equal(_, _) => EqualType
    case Unequal(_, _) => UnequalType
    case Not(_) => NotType
    case And(_, _) => AndType
    case Or(_, _) => OrType
  }

  /** expr_compare_type; each case of the switch falls through to the ones below it. */
  function CompareType(t1: NodeType, t2: NodeType): int {
    var comparison := t1.EqualType? || t1.UnequalType?;
    if t1 == t2 then 0
    else if comparison && t2.NotType? then 1
    else if (comparison || t1.NotType?) && t2.AndType? then 1
    else if (comparison || t1.NotType? || t1.AndType?) && t2.OrType? then 1
    else if (comparison || t1.NotType? || t1.AndType? || t1.OrType?) && t2.NoneType? then 1
    else -1
  }

  /** expr_print */
  function Print(e: Expr, prev: NodeType): seq<Token> {
    var body :=
      match e
      case Symbol(s) => [Word(s)]
      case Not(a) => [Bang] + Print(a, NotType)
      case Equal(l, r) => [Word(l), Eq, Word(r)]
      case Unequal(l, r) => [Word(l), Ne, Word(r)]
      case Or(a, b) => Print(a, OrType) + [OrOr] + Print(b, OrType)
      case And(a, b) => Print(a, AndType) + [AndAnd] + Print(b, AndType);
    if CompareType(prev, TypeOf(e)) > 0 then [Open] + body + [Close] else body
  }

  // ---------------------------------------------------------------- the grammar

  predicate StartsWith(ts: seq<Token>, t: Token) { |ts| > 0 && ts[0] == t }

  /** ts reads as e where an OR may stand: %left T_OR binds weakest. */
  ghost predicate IsOr(ts: seq<Token>, e: Expr)
    decreases |ts|, 2
  {
    || IsAnd(ts, e)
    || (e.Or? && exists i | 0 <= i < |ts| :: ts[i] == OrOr && IsOr(ts[..i], e.lhs) && IsAnd(ts[i + 1..], e.rhs))
  }

  /** The same for an AND; %left T_AND binds tighter. */
  ghost predicate IsAnd(ts: seq<Token>, e: Expr)
    decreases |ts|, 1
  {
    || IsUnary(ts, e)
    || (e.And? && exists i | 0 <= i < |ts| :: ts[i] == AndAnd && IsAnd(ts[..i], e.lhs) && IsUnary(ts[i + 1..], e.rhs))
  }

  /** T_NOT expr | T_OPEN_PAREN expr T_CLOSE_PAREN | symbol | symbol = symbol | symbol != symbol */
  ghost predicate IsUnary(ts: seq<Token>, e: Expr)
    decreases |ts|, 0
  {
    || (StartsWith(ts, Bang) && e.Not? && IsUnary(ts[1..], e.arg))
    || (|ts| >= 2 && ts[0] == Open && ts[|ts| - 1] == Close && IsOr(ts[1..|ts| - 1], e))
    || IsTerm(ts, e)
  }

  predicate IsTerm(ts: seq<Token>, e: Expr) {
    match e
    case Symbol(s) => ts == [Word(s)]
    case Equal(l, r) => ts == [Word(l), Eq, Word(r)]
    case Unequal(l, r) => ts == [Word(l), Ne, Word(r)]
    case _ => false
  }

  lemma OrGrows(l: seq<Token>, a: Expr, r: seq<Token>, b: Expr)
    requires IsOr(l, a) && IsAnd(r, b)
    ensures IsOr(l + [OrOr] + r, Or(a, b))
  {
    var ts := l + [OrOr] + r;
    assert ts[|l|] == OrOr && ts[..|l|] == l && ts[|l| + 1..] == r;
  }

  lemma AndGrows(l: seq<Token>, a: Expr, r: seq<Token>, b: Expr)
    requires IsAnd(l, a) && IsUnary(r, b)
    ensures IsAnd(l + [AndAnd] + r, And(a, b))
  {
    var ts := l + [AndAnd] + r;
    assert ts[|l|] == AndAnd && ts[..|l|] == l && ts[|l| + 1..] == r;
  }

  lemma ParenGrows(inner: seq<Token>, e: Expr)
    requires IsOr(inner, e)
    ensures IsUnary([Open] + inner + [Close], e)
  {
    var ts := [Open] + inner + [Close];
    assert ts[1..|ts| - 1] == inner;
  }

  lemma NotGrows(inner: seq<Token>, e: Expr)
    requires IsUnary(inner, e)
    ensures IsUnary([Bang] + inner, Not(e))
  {
    assert ([Bang] + inner)[1..] == inner;
  }

  // ---------------------------------------------------------------- a reader

  datatype Parsed = Fail | Got(e: Expr, rest: seq<Token>)

  /** expr T_OR expr, nested to the left */
  function ReadOr(ts: seq<Token>): (r: Parsed)
    ensures r.Got? ==> |r.rest| < |ts|
    decreases |ts|, 2
  {
    var a := ReadAnd(ts);
    if a.Fail? then Fail else ReadOrMore(a.e, a.rest)
  }

  function ReadOrMore(k: Expr, ts: seq<Token>): (r: Parsed)
    ensures r.Got? ==> |r.rest| <= |ts|
    decreases |ts|, 3
  {
    if !StartsWith(ts, OrOr) then Got(k, ts)
    else
      var b := ReadAnd(ts[1..]);
      if b.Fail? then Fail else ReadOrMore(Or(k, b.e), b.rest)
  }

  /** expr T_AND expr, nested to the left */
  function ReadAnd(ts: seq<Token>): (r: Parsed)
    ensures r.Got? ==> |r.rest| < |ts|
    decreases |ts|, 1
  {
    var a := ReadUnary(ts);
    if a.Fail? then Fail else ReadAndMore(a.e, a.rest)
  }

  function ReadAndMore(k: Expr, ts: seq<Token>): (r: Parsed)
    ensures r.Got? ==> |r.rest| <= |ts|
    decreases |ts|, 3
  {
    if !StartsWith(ts, AndAnd) then Got(k, ts)
    else
      var b := ReadUnary(ts[1..]);
      if b.Fail? then Fail else ReadAndMore(And(k, b.e), b.rest)
  }

  function ReadUnary(ts: seq<Token>): (r: Parsed)
    ensures r.Got? ==> |r.rest| < |ts|
    decreases |ts|, 0
  {
    if StartsWith(ts, Bang) then
      var a := ReadUnary(ts[1..]);
      if a.Fail? then Fail else Got(Not(a.e), a.rest)
    else if StartsWith(ts, Open) then
      var a := ReadOr(ts[1..]);
      if a.Fail? || !StartsWith(a.rest, Close) then Fail else Got(a.e, a.rest[1..])
    else if ts == [] || !ts[0].Word? then Fail
    else if |ts| >= 3 && ts[1].Eq? && ts[2].Word? then Got(Equal(ts[0].sym, ts[2].sym), ts[3..])
    else if |ts| >= 3 && ts[1].Ne? && ts[2].Word? then Got(Unequal(ts[0].sym, ts[2].sym), ts[3..])
    else Got(Symbol(ts[0].sym), ts[1..])
  }

  // ---------------------------------------------------------------- it reads the grammar

  lemma Attach(q: seq<Token>, t: Token, w: seq<Token>, rest: seq<Token>, ts: seq<Token>)
    requires StartsWith(ts, t) && ts[1..] == w + rest
    ensures q + ts == (q + [t] + w) + rest
  {
    assert ts == [t] + ts[1..];
  }

  lemma AttachNot(q: seq<Token>, rest: seq<Token>, ts: seq<Token>)
    requires StartsWith(ts, Bang) && ts[1..] == q + rest
    ensures ts == ([Bang] + q) + rest
  {
    assert ts == [Bang] + ts[1..];
  }

  lemma AttachParens(q: seq<Token>, tail: seq<Token>, ts: seq<Token>)
    requires StartsWith(ts, Open) && ts[1..] == q + tail && StartsWith(tail, Close)
    ensures ts == ([Open] + q + [Close]) + tail[1..]
  {
    assert ts == [Open] + ts[1..] && tail == [Close] + tail[1..];
  }

  lemma Cut(ts: seq<Token>, i: nat, rest: seq<Token>)
    requires i < |ts|
    ensures ts[..i] + ([ts[i]] + (ts[i + 1..] + rest)) == ts + rest
  {
  }

  lemma {:induction false} OrSound(ts: seq<Token>) returns (p: seq<Token>)
    requires ReadOr(ts).Got?
    ensures ts == p + ReadOr(ts).rest && IsOr(p, ReadOr(ts).e)
    decreases |ts|, 2
  {
    var a := ReadAnd(ts);
    var q := AndSound(ts);
    p := OrMoreSound(q, a.e, a.rest);
  }

  lemma {:induction false} OrMoreSound(q: seq<Token>, k: Expr, ts: seq<Token>) returns (p: seq<Token>)
    requires IsOr(q, k) && ReadOrMore(k, ts).Got?
    ensures q + ts == p + ReadOrMore(k, ts).rest && IsOr(p, ReadOrMore(k, ts).e)
    decreases |ts|, 3
  {
    if !StartsWith(ts, OrOr) {
      p := q;
    } else {
      var b := ReadAnd(ts[1..]);
      var w := AndSound(ts[1..]);
      OrGrows(q, k, w, b.e);
      Attach(q, OrOr, w, b.rest, ts);
      p := OrMoreSound(q + [OrOr] + w, Or(k, b.e), b.rest);
    }
  }

  lemma {:induction false} AndSound(ts: seq<Token>) returns (p: seq<Token>)
    requires ReadAnd(ts).Got?
    ensures ts == p + ReadAnd(ts).rest && IsAnd(p, ReadAnd(ts).e)
    decreases |ts|, 1
  {
    var a := ReadUnary(ts);
    var q := UnarySound(ts);
    p := AndMoreSound(q, a.e, a.rest);
  }

  lemma {:induction false} AndMoreSound(q: seq<Token>, k: Expr, ts: seq<Token>) returns (p: seq<Token>)
    requires IsAnd(q, k) && ReadAndMore(k, ts).Got?
    ensures q + ts == p + ReadAndMore(k, ts).rest && IsAnd(p, ReadAndMore(k, ts).e)
    decreases |ts|, 3
  {
    if !StartsWith(ts, AndAnd) {
      p := q;
    } else {
      var b := ReadUnary(ts[1..]);
      var w := UnarySound(ts[1..]);
      AndGrows(q, k, w, b.e);
      Attach(q, AndAnd, w, b.rest, ts);
      p := AndMoreSound(q + [AndAnd] + w, And(k, b.e), b.rest);
    }
  }

  lemma {:induction false} UnarySound(ts: seq<Token>) returns (p: seq<Token>)
    requires ReadUnary(ts).Got?
    ensures ts == p + ReadUnary(ts).rest && IsUnary(p, ReadUnary(ts).e)
    decreases |ts|, 0
  {
    if StartsWith(ts, Bang) {
      var q := UnarySound(ts[1..]);
      p := [Bang] + q;
      NotGrows(q, ReadUnary(ts[1..]).e);
      AttachNot(q, ReadUnary(ts[1..]).rest, ts);
    } else if StartsWith(ts, Open) {
      var a := ReadOr(ts[1..]);
      var q := OrSound(ts[1..]);
      p := [Open] + q + [Close];
      ParenGrows(q, a.e);
      AttachParens(q, a.rest, ts);
    } else {
      p := TermSound(ts);
    }
  }

  lemma TermSound(ts: seq<Token>) returns (p: seq<Token>)
    requires ReadUnary(ts).Got? && !StartsWith(ts, Bang) && !StartsWith(ts, Open)
    ensures ts == p + ReadUnary(ts).rest && IsTerm(p, ReadUnary(ts).e)
  {
    p := ts[..|ts| - |ReadUnary(ts).rest|];
  }

  /** No comparison goes on. */
  predicate Ends(ts: seq<Token>) { !StartsWith(ts, Eq) && !StartsWith(ts, Ne) }

  lemma {:induction false} OrComplete(ts: seq<Token>, e: Expr, rest: seq<Token>)
    requires IsOr(ts, e) && Ends(rest) && !StartsWith(rest, AndAnd)
    ensures ReadOr(ts + rest) == ReadOrMore(e, rest)
    decreases |ts|, 2
  {
    if IsAnd(ts, e) {
      AndComplete(ts, e, rest);
    } else {
      var i :| 0 <= i < |ts| && ts[i] == OrOr && IsOr(ts[..i], e.lhs) && IsAnd(ts[i + 1..], e.rhs);
      var l, r := ts[..i], ts[i + 1..];
      OrComplete(l, e.lhs, [OrOr] + (r + rest));
      AndComplete(r, e.rhs, rest);
      OrMoreStep(e.lhs, r + rest, e.rhs, rest);
      Cut(ts, i, rest);
    }
  }

  lemma OrMoreStep(k: Expr, more: seq<Token>, e: Expr, rest: seq<Token>)
    requires ReadAnd(more) == Got(e, rest)
    ensures ReadOrMore(k, [OrOr] + more) == ReadOrMore(Or(k, e), rest)
  {
    assert ([OrOr] + more)[1..] == more;
  }

  lemma {:induction false} AndComplete(ts: seq<Token>, e: Expr, rest: seq<Token>)
    requires IsAnd(ts, e) && Ends(rest)
    ensures ReadAnd(ts + rest) == ReadAndMore(e, rest)
    decreases |ts|, 1
  {
    if IsUnary(ts, e) {
      UnaryComplete(ts, e, rest);
    } else {
      var i :| 0 <= i < |ts| && ts[i] == AndAnd && IsAnd(ts[..i], e.lhs) && IsUnary(ts[i + 1..], e.rhs);
      var l, r := ts[..i], ts[i + 1..];
      AndComplete(l, e.lhs, [AndAnd] + (r + rest));
      UnaryComplete(r, e.rhs, rest);
      AndMoreStep(e.lhs, r + rest, e.rhs, rest);
      Cut(ts, i, rest);
    }
  }

  lemma AndMoreStep(k: Expr, more: seq<Token>, e: Expr, rest: seq<Token>)
    requires ReadUnary(more) == Got(e, rest)
    ensures ReadAndMore(k, [AndAnd] + more) == ReadAndMore(And(k, e), rest)
  {
    assert ([AndAnd] + more)[1..] == more;
  }

  lemma {:induction false} UnaryComplete(ts: seq<Token>, e: Expr, rest: seq<Token>)
    requires IsUnary(ts, e) && Ends(rest)
    ensures ReadUnary(ts + rest) == Got(e, rest)
    decreases |ts|, 0
  {
    if StartsWith(ts, Bang) {
      UnaryComplete(ts[1..], e.arg, rest);
      NotStep(ts, e.arg, rest);
    } else if StartsWith(ts, Open) {
      OrComplete(ts[1..|ts| - 1], e, [Close] + rest);
      ParenStep(ts, e, rest);
    } else {
      TermComplete(ts, e, rest);
    }
  }

  lemma NotStep(ts: seq<Token>, e: Expr, rest: seq<Token>)
    requires StartsWith(ts, Bang) && ReadUnary(ts[1..] + rest) == Got(e, rest)
    ensures ReadUnary(ts + rest) == Got(Not(e), rest)
  {
    assert (ts + rest)[1..] == ts[1..] + rest;
  }

  lemma ParenStep(ts: seq<Token>, e: Expr, rest: seq<Token>)
    requires |ts| >= 2 && ts[0] == Open && ts[|ts| - 1] == Close
    requires ReadOr(ts[1..|ts| - 1] + ([Close] + rest)) == Got(e, [Close] + rest)
    ensures ReadUnary(ts + rest) == Got(e, rest)
  {
    assert (ts + rest)[1..] == ts[1..|ts| - 1] + ([Close] + rest) && ([Close] + rest)[1..] == rest;
  }

  lemma TermComplete(ts: seq<Token>, e: Expr, rest: seq<Token>)
    requires IsTerm(ts, e) && Ends(rest)
    ensures ReadUnary(ts + rest) == Got(e, rest)
  {
    assert (ts + rest)[|ts|..] == rest;
  }

  /** The reader accepts exactly the texts of the grammar, each as its one expression. */
  lemma ReadExact(ts: seq<Token>, e: Expr)
    ensures ReadOr(ts) == Got(e, []) <==> IsOr(ts, e)
  {
    if ReadOr(ts) == Got(e, []) {
      var p := OrSound(ts);
      assert p == ts;
    }
    if IsOr(ts, e) {
      OrComplete(ts, e, []);
      assert ts + [] == ts;
    }
  }

  /** Hence the declared precedences leave no ambiguity. */
  lemma GrammarUnambiguous(ts: seq<Token>, e1: Expr, e2: Expr)
    requires IsOr(ts, e1) && IsOr(ts, e2)
    ensures e1 == e2
  {
    ReadExact(ts, e1);
    ReadExact(ts, e2);
  }

  // ---------------------------------------------------------------- up to associativity

  /** The expression with every OR and AND list nested to the left. */
  function Canon(e: Expr): Expr
    decreases Size(e), 1
  {
    match e
    case Not(a) => Not(Canon(a))
    case And(a, b) => Chain(AndOp, Canon(a), b)
    case Or(a, b) => Chain(OrOp, Canon(a), b)
    case _ => e
  }

  /** The list k followed by the list e. */
  function Chain(op: Op, k: Expr, e: Expr): Expr
    decreases Size(e), 2
  {
    if IsOp(op, e) then Chain(op, Chain(op, k, e.lhs), e.rhs) else Make(op, k, Canon(e))
  }

  lemma {:induction false} CanonEval(e: Expr, v: Valuation)
    ensures Eval(Canon(e), v) == Eval(e, v)
    decreases Size(e), 1
  {
    match e
    case Not(a) => CanonEval(a, v);
    case And(a, b) => CanonEval(a, v); ChainEval(AndOp, Canon(a), b, v);
    case Or(a, b) => CanonEval(a, v); ChainEval(OrOp, Canon(a), b, v);
    case _ =>
  }

  lemma {:induction false} ChainEval(op: Op, k: Expr, e: Expr, v: Valuation)
    ensures Eval(Chain(op, k, e), v) == Join(op, Eval(k, v), Eval(e, v))
    decreases Size(e), 2
  {
    if IsOp(op, e) {
      ChainEval(op, k, e.lhs, v);
      ChainEval(op, Chain(op, k, e.lhs), e.rhs, v);
    } else {
      CanonEval(e, v);
    }
  }

  /** Printing does not see how a list is nested. */
  lemma {:induction false} CanonPrint(e: Expr, prev: NodeType)
    ensures Print(Canon(e), prev) == Print(e, prev) && TypeOf(Canon(e)) == TypeOf(e)
    decreases Size(e), 1
  {
    match e
    case Not(a) => CanonPrint(a, NotType);
    case And(a, b) => CanonPrint(a, AndType); ChainPrint(AndOp, Canon(a), b);
    case Or(a, b) => CanonPrint(a, OrType); ChainPrint(OrOp, Canon(a), b);
    case _ =>
  }

  function OpType(op: Op): NodeType { if op.OrOp? then OrType else AndType }

  function OpToken(op: Op): Token { if op.OrOp? then OrOr else AndAnd }

  lemma Regroup(a: seq<Token>, t: seq<Token>, b: seq<Token>, c: seq<Token>)
    ensures a + t + (b + t + c) == (a + t + b) + t + c
  {
  }

  lemma PrintMake(op: Op, a: Expr, b: Expr)
    ensures IsOp(op, Make(op, a, b))
    ensures Print(Make(op, a, b), OpType(op)) == Print(a, OpType(op)) + [OpToken(op)] + Print(b, OpType(op))
  {
    if op.OrOp? {
      assert Make(op, a, b) == Or(a, b);
    } else {
      assert Make(op, a, b) == And(a, b);
    }
  }

  lemma {:induction false} ChainPrint(op: Op, k: Expr, e: Expr)
    ensures IsOp(op, Chain(op, k, e))
    ensures Print(Chain(op, k, e), OpType(op)) == Print(k, OpType(op)) + [OpToken(op)] + Print(e, OpType(op))
    decreases Size(e), 2
  {
    if IsOp(op, e) {
      ChainPrint(op, k, e.lhs);
      ChainPrint(op, Chain(op, k, e.lhs), e.rhs);
      PrintMake(op, e.lhs, e.rhs);
      Regroup(Print(k, OpType(op)), [OpToken(op)], Print(e.lhs, OpType(op)), Print(e.rhs, OpType(op)));
    } else {
      CanonPrint(e, OpType(op));
      PrintMake(op, k, Canon(e));
    }
  }

  // ---------------------------------------------------------------- print, then read

  /** Below a NOT both lists are in parentheses; everywhere else only an OR below an AND is. */
  lemma PrintContexts(e: Expr)
    ensures !e.And? ==> Print(e, AndType) == Print(e, NotType)
    ensures !e.Or? ==> Print(e, OrType) == Print(e, AndType)
    ensures e.IsBinary() ==> Print(e, NotType) == [Open] + Print(e, OrType) + [Close]
  {
  }

  lemma {:induction false} PrintedUnary(e: Expr)
    ensures IsUnary(Print(e, NotType), Canon(e))
    decreases Size(e), if e.IsBinary() then 5 else 0
  {
    if e.IsBinary() {
      PrintedOr(e);
      PrintContexts(e);
      ParenGrows(Print(e, OrType), Canon(e));
    } else if e.Not? {
      PrintedUnary(e.arg);
      NotGrows(Print(e.arg, NotType), Canon(e.arg));
    }
  }

  lemma {:induction false} PrintedAnd(e: Expr)
    ensures IsAnd(Print(e, AndType), Canon(e))
    decreases Size(e), if e.Or? then 6 else 1
  {
    if e.And? {
      PrintedAnd(e.lhs);
      PrintedAndList(Print(e.lhs, AndType), Canon(e.lhs), e.rhs);
    } else {
      PrintedUnary(e);
      PrintContexts(e);
    }
  }

  lemma {:induction false} PrintedAndList(front: seq<Token>, k: Expr, e: Expr)
    requires IsAnd(front, k)
    ensures IsAnd(front + [AndAnd] + Print(e, AndType), Chain(AndOp, k, e))
    decreases Size(e), 7
  {
    if e.And? {
      PrintedAndList(front, k, e.lhs);
      PrintedAndList(front + [AndAnd] + Print(e.lhs, AndType), Chain(AndOp, k, e.lhs), e.rhs);
      Regroup(front, [AndAnd], Print(e.lhs, AndType), Print(e.rhs, AndType));
    } else {
      PrintedUnary(e);
      PrintContexts(e);
      AndGrows(front, k, Print(e, AndType), Canon(e));
    }
  }

  lemma {:induction false} PrintedOr(e: Expr)
    ensures IsOr(Print(e, OrType), Canon(e))
    decreases Size(e), 2
  {
    if e.Or? {
      PrintedOr(e.lhs);
      PrintedOrList(Print(e.lhs, OrType), Canon(e.lhs), e.rhs);
    } else {
      PrintedAnd(e);
      PrintContexts(e);
    }
  }

  lemma {:induction false} PrintedOrList(front: seq<Token>, k: Expr, e: Expr)
    requires IsOr(front, k)
    ensures IsOr(front + [OrOr] + Print(e, OrType), Chain(OrOp, k, e))
    decreases Size(e), 8
  {
    if e.Or? {
      PrintedOrList(front, k, e.lhs);
      PrintedOrList(front + [OrOr] + Print(e.lhs, OrType), Chain(OrOp, k, e.lhs), e.rhs);
      Regroup(front, [OrOr], Print(e.lhs, OrType), Print(e.rhs, OrType));
    } else {
      PrintedAnd(e);
      PrintContexts(e);
      OrGrows(front, k, Print(e, OrType), Canon(e));
    }
  }

  /** What is printed is a text of the grammar, and reads as the expression up to nesting. */
  lemma PrintReadsBack(e: Expr)
    ensures IsOr(Print(e, NoneType), Canon(e))
    ensures ReadOr(Print(e, NoneType)) == Got(Canon(e), [])
  {
    PrintedOr(e);
    assert Print(e, NoneType) == Print(e, OrType);
    ReadExact(Print(e, NoneType), Canon(e));
  }

  /** expr_print loses associativity and nothing else: two expressions print alike exactly when
      they are equal up to it, and then they have the same value everywhere. */
  lemma PrintUnambiguous(e1: Expr, e2: Expr)
    ensures Print(e1, NoneType) == Print(e2, NoneType) <==> Canon(e1) == Canon(e2)
    ensures Print(e1, NoneType) == Print(e2, NoneType) ==> forall v: Valuation :: Eval(e1, v) == Eval(e2, v)
  {
    PrintReadsBack(e1);
    PrintReadsBack(e2);
    CanonPrint(e1, NoneType);
    CanonPrint(e2, NoneType);
    forall v: Valuation
      ensures Eval(Canon(e1), v) == Eval(e1, v) && Eval(Canon(e2), v) == Eval(e2, v)
    {
      CanonEval(e1, v);
      CanonEval(e2, v);
    }
  }

  // ---------------------------------------------------------------- no parentheses too many

  /** The number of opening parentheses. */
  function Opens(ts: seq<Token>): nat {
    if ts == [] then 0 else (if ts[0].Open? then 1 else 0) + Opens(ts[1..])
  }

  lemma {:induction false} OpensJoin(a: seq<Token>, b: seq<Token>)
    ensures Opens(a + b) == Opens(a) + Opens(b)
  {
    if a == [] {
      assert a + b == b;
    } else {
      assert (a + b)[1..] == a[1..] + b;
      OpensJoin(a[1..], b);
    }
  }

  lemma OpensOne(t: Token)
    ensures Opens([t]) == if t.Open? then 1 else 0
  {
  }

  /** How tight the grammar binds: OR, AND, and what can stand below a NOT. */
  function Level(e: Expr): nat {
    if e.Or? then 1 else if e.And? then 2 else 3
  }

  /** The operands in e that bind looser than the operator above them, e itself below an operator of this
      level included. */
  function Looser(e: Expr, level: nat): nat {
    (if Level(e) < level then 1 else 0) +
    match e
    case Not(a) => Looser(a, 3)
    case And(a, b) => Looser(a, 2) + Looser(b, 2)
    case Or(a, b) => Looser(a, 1) + Looser(b, 1)
    case _ => 0
  }

  /** The level below which an operand of this type gets no parentheses. */
  function LevelBelow(prev: NodeType): nat
    requires prev.NoneType? || prev.OrType? || prev.AndType? || prev.NotType?
  {
    match prev
    case NotType => 3
    case AndType => 2
    case _ => 1
  }

  lemma OpensBetween(a: seq<Token>, t: Token, b: seq<Token>)
    ensures Opens(a + [t] + b) == Opens(a) + Opens(b) + if t.Open? then 1 else 0
  {
    OpensJoin(a + [t], b);
    OpensJoin(a, [t]);
    OpensOne(t);
  }

  lemma OpensParens(body: seq<Token>)
    ensures Opens([Open] + body + [Close]) == Opens(body) + 1
  {
    OpensJoin([Open] + body, [Close]);
    OpensJoin([Open], body);
    OpensOne(Open);
    OpensOne(Close);
  }

  lemma OpensBang(ts: seq<Token>)
    ensures Opens([Bang] + ts) == Opens(ts)
  {
    OpensJoin([Bang], ts);
    OpensOne(Bang);
  }

  lemma PrintWrapped(e: Expr, prev: NodeType)
    ensures var body := Print(e, TypeOf(e));
      Print(e, prev) == if CompareType(prev, TypeOf(e)) > 0 then [Open] + body + [Close] else body
  {
  }

  lemma ParensByLevel(e: Expr, prev: NodeType)
    requires prev.NoneType? || prev.OrType? || prev.AndType? || prev.NotType?
    ensures CompareType(prev, TypeOf(e)) > 0 <==> Level(e) < LevelBelow(prev)
  {
  }

  /** expr_print writes one pair of parentheses for each of these. */
  lemma {:induction false} PrintOpens(e: Expr, prev: NodeType)
    requires prev.NoneType? || prev.OrType? || prev.AndType? || prev.NotType?
    ensures Opens(Print(e, prev)) == Looser(e, LevelBelow(prev))
    decreases e, 2
  {
    BodyOpens(e);
    PrintWrapped(e, prev);
    ParensByLevel(e, prev);
    LooserTop(e, LevelBelow(prev));
    OpensParens(Print(e, TypeOf(e)));
  }

  lemma LooserTop(e: Expr, level: nat)
    ensures Looser(e, level) == Looser(e, 0) + if Level(e) < level then 1 else 0
  {
  }

  lemma {:induction false} BodyOpens(e: Expr)
    ensures Opens(Print(e, TypeOf(e))) == Looser(e, 0)
    decreases e, 1
  {
    if e.Not? {
      PrintOpens(e.arg, NotType);
      NotOpens(e.arg);
    } else if e.And? {
      AndBody(e, Looser(e.lhs, 2), Looser(e.rhs, 2));
    } else if e.Or? {
      OrBody(e, Looser(e.lhs, 1), Looser(e.rhs, 1));
    } else {
      TestOpens(e);
    }
  }

  lemma {:induction false} AndBody(e: Expr, l: nat, r: nat)
    requires e.And? && l == Looser(e.lhs, 2) && r == Looser(e.rhs, 2)
    ensures Opens(Print(e, AndType)) == l + r
    decreases e, 0
  {
    ListOpens(e, AndType, AndAnd);
    PrintOpens(e.lhs, AndType);
    PrintOpens(e.rhs, AndType);
  }

  lemma {:induction false} OrBody(e: Expr, l: nat, r: nat)
    requires e.Or? && l == Looser(e.lhs, 1) && r == Looser(e.rhs, 1)
    ensures Opens(Print(e, OrType)) == l + r
    decreases e, 0
  {
    ListOpens(e, OrType, OrOr);
    PrintOpens(e.lhs, OrType);
    PrintOpens(e.rhs, OrType);
  }

  lemma NotOpens(a: Expr)
    ensures Opens(Print(Not(a), NotType)) == Opens(Print(a, NotType))
  {
    OpensBang(Print(a, NotType));
  }

  lemma ListOpens(e: Expr, t: NodeType, between: Token)
    requires (e.And? && t.AndType? && between.AndAnd?) || (e.Or? && t.OrType? && between.OrOr?)
    ensures Opens(Print(e, t)) == Opens(Print(e.lhs, t)) + Opens(Print(e.rhs, t))
  {
    OpensBetween(Print(e.lhs, t), between, Print(e.rhs, t));
  }

  lemma TestOpens(e: Expr)
    requires !e.IsBinary() && !e.Not?
    ensures Opens(Print(e, TypeOf(e))) == 0
  {
    if e.Symbol? {
      OpensOne(Word(e.sym));
    } else {
      OpensOne(Word(e.left));
      OpensOne(Word(e.right));
      OpensBetween([Word(e.left)], if e.Equal? then Eq else Ne, [Word(e.right)]);
    }
  }

  lemma LooserGrows(e: Expr, low: nat, high: nat)
    requires low <= high
    ensures Looser(e, low) <= Looser(e, high) <= Looser(e, low) + 1
  {
  }

  lemma OpensAround(ts: seq<Token>, i: nat)
    requires i < |ts|
    ensures Opens(ts) == Opens(ts[..i]) + Opens(ts[i + 1..]) + if ts[i].Open? then 1 else 0
  {
    assert ts == ts[..i] + [ts[i]] + ts[i + 1..];
    OpensBetween(ts[..i], ts[i], ts[i + 1..]);
  }

  /** No text of e has fewer. */
  lemma {:induction false} OrOpens(ts: seq<Token>, e: Expr)
    requires IsOr(ts, e)
    ensures Opens(ts) >= Looser(e, 1)
    decreases |ts|, 2
  {
    if IsAnd(ts, e) {
      AndOpens(ts, e);
      LooserGrows(e, 1, 2);
    } else {
      var i :| 0 <= i < |ts| && ts[i] == OrOr && IsOr(ts[..i], e.lhs) && IsAnd(ts[i + 1..], e.rhs);
      OrOpens(ts[..i], e.lhs);
      AndOpens(ts[i + 1..], e.rhs);
      OpensAround(ts, i);
      LooserGrows(e.rhs, 1, 2);
    }
  }

  lemma {:induction false} AndOpens(ts: seq<Token>, e: Expr)
    requires IsAnd(ts, e)
    ensures Opens(ts) >= Looser(e, 2)
    decreases |ts|, 1
  {
    if IsUnary(ts, e) {
      UnaryOpens(ts, e);
      LooserGrows(e, 2, 3);
    } else {
      var i :| 0 <= i < |ts| && ts[i] == AndAnd && IsAnd(ts[..i], e.lhs) && IsUnary(ts[i + 1..], e.rhs);
      AndOpens(ts[..i], e.lhs);
      UnaryOpens(ts[i + 1..], e.rhs);
      OpensAround(ts, i);
      LooserGrows(e.rhs, 2, 3);
    }
  }

  lemma {:induction false} UnaryOpens(ts: seq<Token>, e: Expr)
    requires IsUnary(ts, e)
    ensures Opens(ts) >= Looser(e, 3)
    decreases |ts|, 0
  {
    if StartsWith(ts, Bang) && e.Not? && IsUnary(ts[1..], e.arg) {
      UnaryOpens(ts[1..], e.arg);
      assert ts == [Bang] + ts[1..];
      OpensBang(ts[1..]);
    } else if |ts| >= 2 && ts[0] == Open && ts[|ts| - 1] == Close && IsOr(ts[1..|ts| - 1], e) {
      OrOpens(ts[1..|ts| - 1], e);
      assert ts == [Open] + ts[1..|ts| - 1] + [Close];
      OpensParens(ts[1..|ts| - 1]);
      LooserGrows(e, 1, 3);
    }
  }

  /** expr_print uses as few parentheses as any text with its meaning: all texts of the expression and
      of its left-nested form. */
  lemma PrintMinimal(e: Expr, ts: seq<Token>)
    requires IsOr(ts, e) || IsOr(ts, Canon(e))
    ensures Opens(Print(e, NoneType)) <= Opens(ts)
  {
    PrintOpens(e, NoneType);
    if IsOr(ts, e) {
      OrOpens(ts, e);
    } else {
      OrOpens(ts, Canon(e));
      PrintOpens(Canon(e), NoneType);
      CanonPrint(e, NoneType);
    }
  }
}
