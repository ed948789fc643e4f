/** How menu_finalize builds the menu tree: entries that depend on the one before them move below it, and
    those below an entry without a prompt move up again.  Conditions are taken as they are when an
    entry is looked at. */
module KconfigNesting {
  import opened KconfigExpr
  import opened KconfigMenu

  /** struct menu: prompt is the condition of its prompt, dep its own, both NULL for always; list are the
      entries below it.  level and block keep what the parser knew, in how many blocks the entry was
      written and whether it is a block itself, for the statements only. */
  datatype Entry = Entry(sym: Option<Symbol>, prompt: Option<Option<Expr>>, dep: Option<Expr>, list: seq<Entry>,
                         level: nat, block: bool)
  {
    function Alone(): Entry { this.(list := []) }

    /** The condition of the entry when it may become a child, and when it may become a parent. */
    function Condition(): Option<Expr> { if prompt.Some? then prompt.value else dep }

    function Base(): Option<Expr> { if prompt.Some? then prompt.value else None }
  }

  function Count(e: Entry): (n: nat)
    ensures n >= 1
  {
    1 + CountAll(e.list)
  }

  function CountAll(es: seq<Entry>): nat { if es == [] then 0 else Count(es[0]) + CountAll(es[1..]) }

  lemma {:induction false} CountJoin(a: seq<Entry>, b: seq<Entry>)
    ensures CountAll(a + b) == CountAll(a) + CountAll(b)
    decreases |a|
  {
    if a == [] {
      assert a + b == b;
    } else {
      assert (a + b)[1..] == a[1..] + b;
      CountJoin(a[1..], b);
    }
  }

  lemma ListMovesOut(es: seq<Entry>)
    requires es != []
    ensures CountAll(es[0].list + es[1..]) < CountAll(es)
  {
    CountJoin(es[0].list, es[1..]);
    assert CountAll(es) == Count(es[0]) + CountAll(es[1..]);
    assert Count(es[0]) == 1 + CountAll(es[0].list);
  }

  /** The test for the entry e that follows parent. */
  predicate IsChild(parent: Entry, e: Entry) {
    parent.sym.Some? && BecomesChild(parent.sym.value, parent.Base(), e.Condition())
  }

  /** The entries that were taken in, and what still follows. */
  datatype Parted = Parted(below: seq<Entry>, rest: seq<Entry>)

  /** menu_finalize on the entry e, followed by rest: its list, and what still follows it. */
  function Finalize(e: Entry, rest: seq<Entry>): (r: Parted)
    ensures CountAll(r.rest) <= CountAll(rest)
    decreases Count(e) + CountAll(rest), 1
  {
    var p := if e.list != [] then Parted(FinalizeAll(e.list), rest) else Gather(e, rest);
    p.(below := Hoist(p.below))
  }

  /** Its loop over what follows an entry without a list. */
  function Gather(parent: Entry, rest: seq<Entry>): (r: Parted)
    ensures CountAll(r.rest) <= CountAll(rest)
    decreases CountAll(rest), 2
  {
    if rest == [] || !IsChild(parent, rest[0]) then Parted([], rest)
    else
      var first := Finalize(rest[0], rest[1..]);
      var more := Gather(parent, first.rest);
      Parted([rest[0].(list := first.below)] + more.below, more.rest)
  }

  /** Its loop over a list. */
  function FinalizeAll(es: seq<Entry>): seq<Entry>
    decreases CountAll(es), 2
  {
    if es == [] then []
    else
      var first := Finalize(es[0], es[1..]);
      [es[0].(list := first.below)] + FinalizeAll(first.rest)
  }

  /** Its last loop: the list of an entry without a prompt goes behind that entry. */
  function Hoist(es: seq<Entry>): seq<Entry>
    decreases CountAll(es)
  {
    if es == [] then []
    else if es[0].list != [] && es[0].prompt.None? then
      ListMovesOut(es);
      [es[0].Alone()] + Hoist(es[0].list + es[1..])
    else [es[0]] + Hoist(es[1..])
  }

  // ---------------------------------------------------------------- nothing is lost or moved

  /** The entries in the order in which they are shown. */
  function Shown(e: Entry): seq<Entry> { [e.Alone()] + ShownAll(e.list) }

  function ShownAll(es: seq<Entry>): seq<Entry> { if es == [] then [] else Shown(es[0]) + ShownAll(es[1..]) }

  lemma {:induction false} ShownJoin(a: seq<Entry>, b: seq<Entry>)
    ensures ShownAll(a + b) == ShownAll(a) + ShownAll(b)
    decreases |a|
  {
    if a == [] {
      assert a + b == b;
    } else {
      assert (a + b)[1..] == a[1..] + b;
      ShownJoin(a[1..], b);
    }
  }

  lemma ShownFirst(e: Entry, es: seq<Entry>)
    ensures ShownAll([e] + es) == Shown(e) + ShownAll(es)
  {
    assert ([e] + es)[1..] == es;
  }

  lemma {:induction false} HoistShows(es: seq<Entry>)
    ensures ShownAll(Hoist(es)) == ShownAll(es)
    decreases CountAll(es)
  {
    if es != [] {
      if es[0].list != [] && es[0].prompt.None? {
        ListMovesOut(es);
        ShownJoin(es[0].list, es[1..]);
        HoistShows(es[0].list + es[1..]);
        ShownFirst(es[0].Alone(), Hoist(es[0].list + es[1..]));
      } else {
        HoistShows(es[1..]);
        ShownFirst(es[0], Hoist(es[1..]));
      }
    }
  }

  lemma {:induction false} FinalizeShows(e: Entry, rest: seq<Entry>)
    ensures var r := Finalize(e, rest);
      Shown(e.(list := r.below)) + ShownAll(r.rest) == Shown(e) + ShownAll(rest)
    decreases Count(e) + CountAll(rest), 1
  {
    var p := if e.list != [] then Parted(FinalizeAll(e.list), rest) else Gather(e, rest);
    HoistShows(p.below);
    if e.list != [] {
      FinalizeAllShows(e.list);
    } else {
      GatherShows(e, rest);
      InTurn([e.Alone()], ShownAll(p.below), ShownAll(p.rest), ShownAll(rest));
    }
  }

  lemma {:induction false} GatherShows(parent: Entry, rest: seq<Entry>)
    ensures var r := Gather(parent, rest); ShownAll(r.below) + ShownAll(r.rest) == ShownAll(rest)
    decreases CountAll(rest), 2
  {
    if rest != [] && IsChild(parent, rest[0]) {
      var first := Finalize(rest[0], rest[1..]);
      var more := Gather(parent, first.rest);
      var entry := rest[0].(list := first.below);
      FinalizeShows(rest[0], rest[1..]);
      GatherShows(parent, first.rest);
      ShownFirst(entry, more.below);
      InTurn(Shown(entry), ShownAll(more.below), ShownAll(more.rest), ShownAll(first.rest));
    }
  }

  lemma InTurn(a: seq<Entry>, b: seq<Entry>, c: seq<Entry>, bc: seq<Entry>)
    requires b + c == bc
    ensures (a + b) + c == a + bc
  {
  }

  /** Finalizing keeps every entry, and the order in which they are shown. */
  lemma {:induction false} FinalizeAllShows(es: seq<Entry>)
    ensures ShownAll(FinalizeAll(es)) == ShownAll(es)
    decreases CountAll(es), 2
  {
    if es != [] {
      var first := Finalize(es[0], es[1..]);
      FinalizeShows(es[0], es[1..]);
      FinalizeAllShows(first.rest);
      ShownFirst(es[0].(list := first.below), FinalizeAll(first.rest));
    }
  }

  // ---------------------------------------------------------------- who is below whom

  /** An entry without a list takes in exactly the entries behind it that depend on it, each with those
      that depend on that one, up to the first that does not. */
  lemma {:induction false} GatherExact(parent: Entry, rest: seq<Entry>)
    ensures var r := Gather(parent, rest);
      && (forall i | 0 <= i < |r.below| :: IsChild(parent, r.below[i]))
      && (r.rest != [] ==> !IsChild(parent, r.rest[0]))
    decreases CountAll(rest)
  {
    if rest != [] && IsChild(parent, rest[0]) {
      var first := Finalize(rest[0], rest[1..]);
      GatherExact(parent, first.rest);
      assert rest[0].(list := first.below).Condition() == rest[0].Condition();
    }
  }

  /** Afterwards no entry of a list has a list of its own without having a prompt. */
  lemma {:induction false} HoistFlat(es: seq<Entry>)
    ensures forall i | 0 <= i < |Hoist(es)| :: Hoist(es)[i].list != [] ==> Hoist(es)[i].prompt.Some?
    decreases CountAll(es)
  {
    if es != [] {
      if es[0].list != [] && es[0].prompt.None? {
        ListMovesOut(es);
        HoistFlat(es[0].list + es[1..]);
      } else {
        HoistFlat(es[1..]);
      }
    }
  }

  /** And a list in which that holds already is left alone. */
  lemma {:induction false} HoistIdle(es: seq<Entry>)
    requires forall i | 0 <= i < |es| :: es[i].list != [] ==> es[i].prompt.Some?
    ensures Hoist(es) == es
    decreases CountAll(es)
  {
    if es != [] {
      HoistIdle(es[1..]);
    }
  }

  /** Where parent is n, or where its prompt is read as n, so is the condition c. */
  predicate HiddenWith(parent: Entry, c: Option<Expr>, v: Valuation) {
    (parent.sym.Some? && v.tri(parent.sym.value) == NO ==> EvalOpt(c, v) == NO)
    || (EvalReadOpt(parent.Base(), SymbolNo, v) == NO ==> EvalReadOpt(c, SymbolNo, v) == NO)
  }

  /** Every entry taken in by a boolean or tristate one is hidden with it. */
  lemma ChildHidden(parent: Entry, rest: seq<Entry>, v: Valuation)
    requires parent.sym.Some? && (parent.sym.value.OfKind(Boolean) || parent.sym.value.OfKind(Tri)) && v.Valid()
    ensures forall c | c in Gather(parent, rest).below :: HiddenWith(parent, c.Condition(), v)
  {
    GatherExact(parent, rest);
    forall c | c in Gather(parent, rest).below
      ensures HiddenWith(parent, c.Condition(), v)
    {
      ChildSound(parent.sym.value, parent.Base(), c.Condition(), v);
    }
  }
}
