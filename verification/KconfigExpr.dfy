/** Expressions over three-valued symbols, as in scripts/kconfig/expr.h and expr.c.

    Trees are values here.  A symbol is identified by its name and by whether it is a constant,
    which is what sym_lookup uses to keep symbols unique; a declared one has a kind. */
module KconfigExpr {

  datatype Option<+T> = None | Some(value: T)

  /** n, m and y are 0, 1 and 2, as in the enum of expr.h. */
  type Tristate = t: int | 0 <= t <= 2

  const NO: Tristate := 0
  const MOD: Tristate := 1
  const YES: Tristate := 2

  function OrValue(a: Tristate, b: Tristate): Tristate { if a > b then a else b }

  function AndValue(a: Tristate, b: Tristate): Tristate { if a < b then a else b }

  function NotValue(a: Tristate): Tristate { 2 - a }

  datatype SymbolKind = Unknown | Boolean | Tri | Int | Hex | Text | Other

  /** What a quoted constant may be called: sym_lookup answers y, m and n with the built-in ones. */
  type ConstName = s: string | s != "y" && s != "m" && s != "n" witness ""

  /** The three built-in constants are objects of their own (symbol_yes, symbol_mod, symbol_no).
      sym_lookup makes every other constant of type S_UNKNOWN, and no declaration gives it another. */
  datatype Symbol = SymbolYes | SymbolMod | SymbolNo | Constant(text: ConstName) | Named(name: string, kind: SymbolKind)
  {
    predicate IsConst() { !Named? }

    predicate IsBuiltIn() { SymbolYes? || SymbolMod? || SymbolNo? }

    predicate OfKind(k: SymbolKind) { if Named? then kind == k else k == Unknown }

    /** True for the symbol_yes and symbol_no objects. */
    predicate IsYesOrNo() { SymbolYes? || SymbolNo? }
  }

  datatype Expr =
    | Symbol(sym: Symbol)
    | Equal(left: Symbol, right: Symbol)
    | Unequal(left: Symbol, right: Symbol)
    | Not(arg: Expr)
    | And(lhs: Expr, rhs: Expr)
    | Or(lhs: Expr, rhs: Expr)
  {
    predicate IsYes() { Symbol? && sym.SymbolYes? }
    predicate IsNo() { Symbol? && sym.SymbolNo? }
    predicate IsBinary() { And? || Or? }
    predicate IsComparison() { Equal? || Unequal? }
  }

  /** What sym_calc_value and sym_get_string_value deliver, taken as given. */
  datatype Valuation = Valuation(tri: Symbol -> Tristate, str: Symbol -> string)
  {
    ghost predicate Valid() {
      && tri(SymbolYes) == YES && tri(SymbolMod) == MOD && tri(SymbolNo) == NO
      && str(SymbolYes) == "y" && str(SymbolMod) == "m" && str(SymbolNo) == "n"
      && (forall s: Symbol :: s.OfKind(Boolean) ==> tri(s) != MOD)
      && (forall s: Symbol :: s.OfKind(Boolean) || s.OfKind(Tri) ==> str(s) == TristateName(tri(s)))
      && (forall t: ConstName :: str(Constant(t)) == t)
    }
  }

  /** The strings tell constants apart. */
  lemma ConstantsDiffer(v: Valuation, s: Symbol, t: Symbol)
    requires v.Valid() && s.IsConst() && t.IsConst() && s != t
    ensures v.str(s) != v.str(t)
  {
    assert s.Constant? ==> v.str(s) == s.text;
    assert t.Constant? ==> v.str(t) == t.text;
  }

  /** The valuation that gives the symbols of a configuration these values; a boolean symbol reads
      m as y. */
  function Configured(values: Symbol -> Tristate, texts: Symbol -> string): Valuation {
    var tri := (s: Symbol) =>
      if s.SymbolYes? then YES else if s.SymbolMod? then MOD else if !s.Named? then NO
      else if s.kind == Boolean && values(s) == MOD then YES else values(s);
    var str := (s: Symbol) =>
      if s.Constant? then s.text
      else if s.IsBuiltIn() || s.OfKind(Boolean) || s.OfKind(Tri) then TristateName(tri(s)) else texts(s);
    Valuation(tri, str)
  }

  /** Valid leaves all configurations open: tristate symbols take all values, boolean ones n and y,
      and the others any string. */
  lemma EveryConfiguration(values: Symbol -> Tristate, texts: Symbol -> string)
    ensures var v := Configured(values, texts);
      && v.Valid()
      && (forall s: Symbol | s.Named? && (s.kind == Boolean ==> values(s) != MOD) :: v.tri(s) == values(s))
      && (forall s: Symbol | s.Named? && s.kind != Boolean && s.kind != Tri :: v.str(s) == texts(s))
  {
    assert TristateName(YES) == "y" && TristateName(MOD) == "m" && TristateName(NO) == "n";
  }

  /** There are valid valuations, also with a symbol that is m. */
  lemma SomeConfiguration(s: Symbol)
    requires s.Named? && s.kind != Boolean
    ensures exists v: Valuation :: v.Valid() && v.tri(s) == MOD
  {
    EveryConfiguration((_: Symbol) => MOD, (_: Symbol) => "");
    var v := Configured((_: Symbol) => MOD, (_: Symbol) => "");
    assert v.Valid() && v.tri(s) == MOD;
  }

  function TristateName(t: Tristate): string {
    if t == 0 then "n" else if t == 1 then "m" else "y"
  }

  /** expr_calc_value */
  function Eval(e: Expr, v: Valuation): Tristate {
    match e
    case Symbol(s) => v.tri(s)
    case Equal(l, r) => if v.str(l) == v.str(r) then YES else NO
    case Unequal(l, r) => if v.str(l) == v.str(r) then NO else YES
    case Not(a) => NotValue(Eval(a, v))
    case And(a, b) => AndValue(Eval(a, v), Eval(b, v))
    case Or(a, b) => OrValue(Eval(a, v), Eval(b, v))
  }

  /** No symbol tested for its own value is m. */
  predicate NoMod(e: Expr, v: Valuation) {
    match e
    case Symbol(s) => v.tri(s) != MOD
    case Equal(_, _) => true
    case Unequal(_, _) => true
    case Not(a) => NoMod(a, v)
    case And(a, b) => NoMod(a, v) && NoMod(b, v)
    case Or(a, b) => NoMod(a, v) && NoMod(b, v)
  }

  lemma NoModEval(e: Expr, v: Valuation)
    requires NoMod(e, v)
    ensures Eval(e, v) != MOD
  {
  }

  function Size(e: Expr): (n: nat)
    ensures n >= 1
  {
    match e
    case Not(a) => 1 + Size(a)
    case And(a, b) => 1 + Size(a) + Size(b)
    case Or(a, b) => 1 + Size(a) + Size(b)
    case _ => 1
  }

  /** The two associative operators; the E_OR / E_AND argument of the rewriters. */
  datatype Op = OrOp | AndOp

  predicate IsOp(op: Op, e: Expr) { if op.OrOp? then e.Or? else e.And? }

  function OpOf(e: Expr): Op
    requires e.IsBinary()
  {
    if e.Or? then OrOp else AndOp
  }

  function Make(op: Op, a: Expr, b: Expr): Expr { if op.OrOp? then Or(a, b) else And(a, b) }

  function Join(op: Op, a: Tristate, b: Tristate): Tristate {
    if op.OrOp? then OrValue(a, b) else AndValue(a, b)
  }

  /** n is neutral in an OR list, y in an AND list. */
  function Unit(op: Op): Expr { if op.OrOp? then Symbol(SymbolNo) else Symbol(SymbolYes) }

  /** The other one, which decides a list alone. */
  function Absorbing(op: Op): Expr { if op.OrOp? then Symbol(SymbolYes) else Symbol(SymbolNo) }

  function UnitValue(op: Op): Tristate { if op.OrOp? then NO else YES }

  /** An AND or OR of two operands, with a constant one removed. */
  function DropConstant(op: Op, l: Expr, r: Expr): Expr {
    if op.AndOp? then
      if l.IsNo() then Symbol(SymbolNo)
      else if l.IsYes() then r
      else if r.IsNo() then Symbol(SymbolNo)
      else if r.IsYes() then l
      else And(l, r)
    else
      if l.IsNo() then r
      else if l.IsYes() then Symbol(SymbolYes)
      else if r.IsNo() then l
      else if r.IsYes() then Symbol(SymbolYes)
      else Or(l, r)
  }

  /** expr_eliminate_yn */
  function EliminateYn(e: Expr): Expr {
    match e
    case And(a, b) => DropConstant(AndOp, EliminateYn(a), EliminateYn(b))
    case Or(a, b) => DropConstant(OrOp, EliminateYn(a), EliminateYn(b))
    case _ => e
  }

  /** No operand of an AND or OR (reached through ANDs and ORs only) is y or n. */
  predicate YnFree(e: Expr) {
    e.IsBinary() ==>
      && YnFree(e.lhs) && !e.lhs.IsYes() && !e.lhs.IsNo()
      && YnFree(e.rhs) && !e.rhs.IsYes() && !e.rhs.IsNo()
  }

  /** expr_eliminate_yn keeps every value, leaves no constant operand, and shrinks the tree
      exactly when there was one. */
  lemma {:induction false} EliminateYnCorrect(e: Expr)
    ensures forall v: Valuation | v.Valid() :: Eval(EliminateYn(e), v) == Eval(e, v)
    ensures YnFree(EliminateYn(e))
    ensures YnFree(e) ==> EliminateYn(e) == e
    ensures !YnFree(e) ==> Size(EliminateYn(e)) < Size(e)
  {
    if e.IsBinary() {
      EliminateYnCorrect(e.lhs);
      EliminateYnCorrect(e.rhs);
    }
  }
}
