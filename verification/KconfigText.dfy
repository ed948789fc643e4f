/** The characters expr_fprint writes, and the lexer of zconf.l that reads them back. */
module KconfigText {
  import opened KconfigExpr
  import opened KconfigPrint

  function NameOf(s: Symbol): string {
    match s
    case SymbolYes => "y"
    case SymbolMod => "m"
    case SymbolNo => "n"
    case Constant(t) => t
    case Named(name, _) => name
  }

  /** What expr_print_file_helper writes: of a symbol its name, without quotes. */
  function TokenText(t: Token): string {
    match t
    case Word(s) => NameOf(s)
    case Open => "("
    case Close => ")"
    case Bang => "!"
    case Eq => "="
    case Ne => "!="
    case OrOr => " || "
    case AndAnd => " && "
  }

  function TextOf(ts: seq<Token>): string {
    if ts == [] then "" else TokenText(ts[0]) + TextOf(ts[1..])
  }

  /** expr_fprint */
  function Written(e: Expr): string { TextOf(Print(e, NoneType)) }

  // ---------------------------------------------------------------- the lexer

  /** ({n}|[-/.]) */
  predicate WordChar(c: char) {
    'A' <= c <= 'Z' || 'a' <= c <= 'z' || '0' <= c <= '9' || c in "_-/."
  }

  predicate WordChars(s: string) { forall i | 0 <= i < |s| :: WordChar(s[i]) }

  /** What the pattern ({n}|[-/.])+ matches. */
  predicate IsName(s: string) { s != "" && WordChars(s) }

  /** The longest match of that pattern. */
  function NameLength(s: string): (n: nat)
    ensures n <= |s| && WordChars(s[..n]) && (n < |s| ==> !WordChar(s[n]))
  {
    if s == "" || !WordChar(s[0]) then 0 else 1 + NameLength(s[1..])
  }

  /** A match of the lexer: a name, or one of the tokens without a text of its own. */
  datatype Piece = Name(text: string) | Sign(token: Token)

  /** The sign that starts with c, when d follows; "!=" is longer than "!". */
  function SignAt(c: char, d: char): Option<Token> {
    match c
    case '&' => if d == '&' then Some(AndAnd) else None
    case '|' => if d == '|' then Some(OrOr) else None
    case '!' => if d == '=' then Some(Ne) else Some(Bang)
    case '=' => Some(Eq)
    case '(' => Some(Open)
    case ')' => Some(Close)
    case _ => None
  }

  function SignLength(t: Token): nat { if t.AndAnd? || t.OrOr? || t.Ne? then 2 else 1 }

  /** The i-th character, or NUL behind the end. */
  function CharAt(s: string, i: nat): char { if i < |s| then s[i] else '\0' }

  /** The rules of the state PARAM for the characters that can be in an expression without quotes;
      what no other rule matches, such as a space, is skipped. */
  function Scan(s: string): seq<Piece>
    decreases |s|
  {
    if s == "" then []
    else if WordChar(s[0]) then
      var n := NameLength(s);
      [Name(s[..n])] + Scan(s[n..])
    else
      match SignAt(s[0], CharAt(s, 1))
      case Some(t) => [Sign(t)] + Scan(s[SignLength(t)..])
      case None => Scan(s[1..])
  }

  function PieceOf(t: Token): Piece { if t.Word? then Name(NameOf(t.sym)) else Sign(t) }

  function Pieces(ts: seq<Token>): (r: seq<Piece>)
    ensures |r| == |ts| && forall i | 0 <= i < |ts| :: r[i] == PieceOf(ts[i])
  {
    if ts == [] then [] else [PieceOf(ts[0])] + Pieces(ts[1..])
  }

  /** Every symbol in it has a name the lexer would match as one. */
  predicate Namely(ts: seq<Token>) { forall i | 0 <= i < |ts| && ts[i].Word? :: IsName(NameOf(ts[i].sym)) }

  /** No two words in a row, and no "!" before "=". */
  predicate Spaced(ts: seq<Token>) { forall i | 0 <= i < |ts| - 1 :: Follows(ts[i], ts[i + 1]) }

  predicate Follows(t: Token, u: Token) { !(t.Word? && u.Word?) && !(t.Bang? && u.Eq?) }

  lemma {:induction false} NameLengthIs(name: string, rest: string)
    requires WordChars(name) && (rest == "" || !WordChar(rest[0]))
    ensures NameLength(name + rest) == |name|
  {
    if name != "" {
      assert (name + rest)[1..] == name[1..] + rest;
      NameLengthIs(name[1..], rest);
    } else {
      assert name + rest == rest;
    }
  }

  lemma ScanName(name: string, rest: string)
    requires IsName(name) && (rest == "" || !WordChar(rest[0]))
    ensures Scan(name + rest) == [Name(name)] + Scan(rest)
  {
    NameLengthIs(name, rest);
    assert (name + rest)[..|name|] == name && (name + rest)[|name|..] == rest;
    assert (name + rest)[0] == name[0];
  }

  lemma ScanSpace(rest: string)
    ensures Scan(" " + rest) == Scan(rest)
  {
    assert (" " + rest)[1..] == rest;
  }

  lemma ScanSign(t: Token, text: string, rest: string)
    requires text != "" && !WordChar(text[0]) && |text| == SignLength(t)
    requires SignAt(text[0], CharAt(text + rest, 1)) == Some(t)
    ensures Scan(text + rest) == [Sign(t)] + Scan(rest)
  {
    assert (text + rest)[|text|..] == rest && (text + rest)[0] == text[0];
  }

  lemma ScanOperator(t: Token, rest: string)
    requires t.AndAnd? || t.OrOr?
    ensures Scan(TokenText(t) + rest) == [Sign(t)] + Scan(rest)
  {
    var two := if t.AndAnd? then "&&" else "||";
    assert TokenText(t) + rest == " " + (two + (" " + rest));
    ScanSpace(two + (" " + rest));
    ScanSign(t, two, " " + rest);
    ScanSpace(rest);
  }

  lemma ScanOther(t: Token, rest: string)
    requires t.Open? || t.Close? || t.Bang? || t.Eq? || t.Ne?
    requires t.Bang? ==> CharAt(rest, 0) != '='
    ensures Scan(TokenText(t) + rest) == [Sign(t)] + Scan(rest)
  {
    assert !t.Ne? ==> CharAt(TokenText(t) + rest, 1) == CharAt(rest, 0);
    ScanSign(t, TokenText(t), rest);
  }

  lemma ScanToken(t: Token, rest: string)
    requires t.Word? ==> IsName(NameOf(t.sym)) && (rest == "" || !WordChar(rest[0]))
    requires t.Bang? ==> CharAt(rest, 0) != '='
    ensures Scan(TokenText(t) + rest) == [PieceOf(t)] + Scan(rest)
  {
    if t.Word? {
      ScanName(NameOf(t.sym), rest);
    } else if t.OrOr? || t.AndAnd? {
      ScanOperator(t, rest);
    } else {
      ScanOther(t, rest);
    }
  }

  lemma TextStart(ts: seq<Token>)
    requires ts != [] && Namely(ts)
    ensures TextOf(ts) != "" && TextOf(ts)[0] == TokenText(ts[0])[0]
  {
  }

  /** The characters are taken apart into the names and signs they were written from. */
  lemma {:induction false} ScanText(ts: seq<Token>)
    requires Namely(ts) && Spaced(ts)
    ensures Scan(TextOf(ts)) == Pieces(ts)
  {
    if ts != [] {
      var rest := ts[1..];
      assert forall i | 0 <= i < |rest| :: rest[i] == ts[i + 1];
      ScanText(rest);
      if rest != [] {
        TextStart(rest);
        assert Follows(ts[0], ts[1]);
      }
      ScanToken(ts[0], TextOf(rest));
    }
  }

  // ---------------------------------------------------------------- printed expressions

  /** Tokens that can stand between operators. */
  predicate OperandLike(ts: seq<Token>) {
    && ts != [] && Spaced(ts)
    && (ts[0].Word? || ts[0].Bang? || ts[0].Open?)
    && (ts[|ts| - 1].Word? || ts[|ts| - 1].Close?)
  }

  lemma OperandsJoin(a: seq<Token>, t: Token, b: seq<Token>)
    requires OperandLike(a) && OperandLike(b) && (t.OrOr? || t.AndAnd? || t.Eq? || t.Ne?)
    ensures OperandLike(a + [t] + b)
  {
  }

  lemma OperandNegated(a: seq<Token>)
    requires OperandLike(a)
    ensures OperandLike([Bang] + a)
  {
  }

  lemma OperandParens(a: seq<Token>)
    requires OperandLike(a)
    ensures OperandLike([Open] + a + [Close])
  {
  }

  lemma {:induction false} PrintSpaced(e: Expr, prev: NodeType)
    ensures OperandLike(Print(e, prev))
    decreases e
  {
    var body := Print(e, TypeOf(e));
    BodySpaced(e);
    if CompareType(prev, TypeOf(e)) > 0 {
      OperandParens(body);
    }
  }

  lemma {:induction false} BodySpaced(e: Expr)
    ensures OperandLike(Print(e, TypeOf(e)))
    decreases e, 0
  {
    match e
    case Symbol(_) =>
    case Equal(l, r) => OperandsJoin([Word(l)], Eq, [Word(r)]);
    case Unequal(l, r) => OperandsJoin([Word(l)], Ne, [Word(r)]);
    case Not(a) => PrintSpaced(a, NotType); OperandNegated(Print(a, NotType));
    case And(a, b) =>
      PrintSpaced(a, AndType); PrintSpaced(b, AndType);
      OperandsJoin(Print(a, AndType), AndAnd, Print(b, AndType));
    case Or(a, b) =>
      PrintSpaced(a, OrType); PrintSpaced(b, OrType);
      OperandsJoin(Print(a, OrType), OrOr, Print(b, OrType));
  }

  function SymbolsOf(e: Expr): set<Symbol> {
    match e
    case Symbol(s) => {s}
    case Equal(l, r) => {l, r}
    case Unequal(l, r) => {l, r}
    case Not(a) => SymbolsOf(a)
    case And(a, b) => SymbolsOf(a) + SymbolsOf(b)
    case Or(a, b) => SymbolsOf(a) + SymbolsOf(b)
  }

  lemma {:induction false} PrintsItsSymbols(e: Expr, prev: NodeType)
    ensures forall t | t in Print(e, prev) && t.Word? :: t.sym in SymbolsOf(e)
  {
    match e
    case Not(a) => PrintsItsSymbols(a, NotType);
    case And(a, b) => PrintsItsSymbols(a, AndType); PrintsItsSymbols(b, AndType);
    case Or(a, b) => PrintsItsSymbols(a, OrType); PrintsItsSymbols(b, OrType);
    case _ =>
  }

  /** Symbols with names for the lexer. */
  predicate AllNames(known: set<Symbol>) { forall s | s in known :: IsName(NameOf(s)) }

  /** What is written is scanned as what was printed. */
  lemma ScanWritten(e: Expr)
    requires AllNames(SymbolsOf(e))
    ensures Scan(Written(e)) == Pieces(Print(e, NoneType))
  {
    var ts := Print(e, NoneType);
    PrintsItsSymbols(e, NoneType);
    PrintSpaced(e, NoneType);
    forall i | 0 <= i < |ts| && ts[i].Word?
      ensures IsName(NameOf(ts[i].sym))
    {
      assert ts[i] in ts;
    }
    ScanText(ts);
  }

  // ---------------------------------------------------------------- reading the text

  /** Matches of the same pattern that are no T_WORD: the rule above it ignores "---", and two names are
      keywords. */
  predicate Reserved(name: string) { name == "---" || name == "if" || name == "on" }

  /** The tokens of an expression, each name looked up. */
  function Tokens(lookup: string -> Symbol, ps: seq<Piece>): seq<Token>
    requires forall i | 0 <= i < |ps| && ps[i].Name? :: !Reserved(ps[i].text)
  {
    if ps == [] then []
    else
      [if ps[0].Name? then Word(lookup(ps[0].text)) else ps[0].token] + Tokens(lookup, ps[1..])
  }

  lemma {:induction false} TokensBack(lookup: string -> Symbol, ts: seq<Token>)
    requires forall i | 0 <= i < |ts| && ts[i].Word? ::
      lookup(NameOf(ts[i].sym)) == ts[i].sym && !Reserved(NameOf(ts[i].sym))
    ensures Tokens(lookup, Pieces(ts)) == ts
  {
    if ts != [] {
      assert forall i | 0 <= i < |ts| - 1 :: ts[1..][i] == ts[i + 1];
      TokensBack(lookup, ts[1..]);
    }
  }

  /** What expr_fprint writes is read as the expression, up to nesting, when sym_lookup finds its
      symbols by their names. */
  lemma TextReadsBack(e: Expr, lookup: string -> Symbol)
    requires forall s | s in SymbolsOf(e) :: IsName(NameOf(s)) && !Reserved(NameOf(s)) && lookup(NameOf(s)) == s
    ensures var ps := Scan(Written(e));
      && (forall i | 0 <= i < |ps| && ps[i].Name? :: !Reserved(ps[i].text))
      && ReadOr(Tokens(lookup, ps)) == Got(Canon(e), [])
  {
    var ts := Print(e, NoneType);
    ScanWritten(e);
    PrintsItsSymbols(e, NoneType);
    forall i | 0 <= i < |ts| && ts[i].Word?
      ensures lookup(NameOf(ts[i].sym)) == ts[i].sym && !Reserved(NameOf(ts[i].sym))
    {
      assert ts[i] in ts;
    }
    TokensBack(lookup, ts);
    PrintReadsBack(e);
  }

  // ---------------------------------------------------------------- when the text is ambiguous

  ghost predicate NamesDiffer(known: set<Symbol>) {
    forall s, t | s in known && t in known && NameOf(s) == NameOf(t) :: s == t
  }

  ghost predicate WrittenApart(known: set<Symbol>) {
    forall e1: Expr, e2: Expr | SymbolsOf(e1) <= known && SymbolsOf(e2) <= known && Written(e1) == Written(e2) ::
      Canon(e1) == Canon(e2)
  }

  /** Among symbols with names for the lexer, the text tells all expressions apart exactly when no two
      of the symbols share a name, as a quoted constant and a declared symbol may. */
  lemma NamesSuffice(known: set<Symbol>)
    requires AllNames(known)
    ensures WrittenApart(known) <==> NamesDiffer(known)
  {
    if NamesDiffer(known) {
      forall e1: Expr, e2: Expr | SymbolsOf(e1) <= known && SymbolsOf(e2) <= known && Written(e1) == Written(e2)
        ensures Canon(e1) == Canon(e2)
      {
        WrittenAlike(known, e1, e2);
        PrintUnambiguous(e1, e2);
      }
    }
    if WrittenApart(known) {
      forall s, t | s in known && t in known && NameOf(s) == NameOf(t)
        ensures s == t
      {
        WordText(s);
        WordText(t);
        assert Canon(Symbol(s)) == Canon(Symbol(t));
      }
    }
  }

  lemma WrittenAlike(known: set<Symbol>, e1: Expr, e2: Expr)
    requires AllNames(known) && NamesDiffer(known) && SymbolsOf(e1) <= known && SymbolsOf(e2) <= known
    requires Written(e1) == Written(e2)
    ensures Print(e1, NoneType) == Print(e2, NoneType)
  {
    ScanWritten(e1);
    ScanWritten(e2);
    PrintsItsSymbols(e1, NoneType);
    PrintsItsSymbols(e2, NoneType);
    PiecesAlike(known, Print(e1, NoneType), Print(e2, NoneType));
  }

  lemma PiecesAlike(known: set<Symbol>, t1: seq<Token>, t2: seq<Token>)
    requires NamesDiffer(known) && Pieces(t1) == Pieces(t2)
    requires forall t | t in t1 && t.Word? :: t.sym in known
    requires forall t | t in t2 && t.Word? :: t.sym in known
    ensures t1 == t2
  {
    assert |t1| == |Pieces(t1)| == |t2|;
    forall i | 0 <= i < |t1|
      ensures t1[i] == t2[i]
    {
      assert Pieces(t1)[i] == Pieces(t2)[i];
      assert t1[i] in t1 && t2[i] in t2;
    }
  }

  lemma WordText(s: Symbol)
    ensures Written(Symbol(s)) == NameOf(s)
  {
    assert Print(Symbol(s), NoneType) == [Word(s)];
    assert [Word(s)][1..] == [];
    assert TextOf([Word(s)]) == TokenText(Word(s)) + TextOf([]) == NameOf(s);
  }

  /** Other names do not suffice: a quoted constant may hold the text of any other expression. */
  lemma QuotedExpression(e: Expr, known: set<Symbol>)
    requires !e.Symbol? && Written(e) != "y" && Written(e) != "m" && Written(e) != "n"
    requires SymbolsOf(e) <= known && Constant(Written(e)) in known
    ensures !WrittenApart(known)
  {
    var c := Symbol(Constant(Written(e)));
    WordText(c.sym);
    CanonPrint(e, NoneType);
    assert Written(c) == Written(e) && Canon(c) != Canon(e);
  }

  /** The text of an OR of two symbols. */
  function OrName(s: Symbol, t: Symbol): (name: ConstName)
    ensures |name| == |NameOf(s)| + 4 + |NameOf(t)|
  {
    NameOf(s) + " || " + NameOf(t)
  }

  lemma OrText(s: Symbol, t: Symbol)
    ensures Written(Or(Symbol(s), Symbol(t))) == OrName(s, t)
  {
    var a, b := [Word(s), OrOr, Word(t)], [OrOr, Word(t)];
    assert Print(Or(Symbol(s), Symbol(t)), NoneType) == a;
    assert a[1..] == b && b[1..] == [Word(t)] && [Word(t)][1..] == [];
    assert TextOf([Word(t)]) == NameOf(t) + TextOf([]) == NameOf(t);
    assert TextOf(b) == " || " + TextOf([Word(t)]) && TextOf(a) == NameOf(s) + TextOf(b);
  }

  lemma NotYmn(s: string)
    requires |s| > 1
    ensures s != "y" && s != "m" && s != "n"
  {
  }

  /** For one, foo || bar and the constant quoted so, with three different names. */
  lemma QuotedOr(foo: Symbol, bar: Symbol)
    requires NameOf(foo) != NameOf(bar)
    ensures var known := {foo, bar, Constant(OrName(foo, bar))}; NamesDiffer(known) && !WrittenApart(known)
  {
    OrText(foo, bar);
    NotYmn(OrName(foo, bar));
    QuotedExpression(Or(Symbol(foo), Symbol(bar)), {foo, bar, Constant(OrName(foo, bar))});
  }
}
