/** What the finished menu tree looks like: nothing is left beside an entry that belongs below it, and
    nothing is below an entry that does not depend on it. */
module KconfigTree {
  import opened KconfigExpr
  import opened KconfigNesting

  /** As the parser leaves them: only blocks have lists, one level further in. */
  ghost predicate Parsed(es: seq<Entry>, level: nat)
    decreases es
  {
    forall i | 0 <= i < |es| ::
      es[i].level == level && es[i].block == (es[i].list != []) && Parsed(es[i].list, level + 1)
  }

  // ---------------------------------------------------------------- the finished tree

  /** x may be directly followed by y in a list: an entry with a prompt that is no block would have taken
      in an entry of its own block that depends on it. */
  predicate Parts(x: Entry, y: Entry) {
    x.prompt.Some? && !x.block && x.level == y.level ==> !IsChild(x, y)
  }

  ghost predicate Chain(es: seq<Entry>) { forall i | 0 <= i < |es| - 1 :: Parts(es[i], es[i + 1]) }

  /** Only entries with a prompt have a list. */
  predicate Flat(es: seq<Entry>) { forall i | 0 <= i < |es| :: es[i].list != [] ==> es[i].prompt.Some? }

  /** The j-th entry depends on p, or has moved up to it from an entry without a prompt before it: from
      such a block, or as a child. */
  ghost predicate Under(p: Entry, es: seq<Entry>, j: nat)
    requires j < |es|
  {
    || IsChild(p, es[j])
    || exists k | 0 <= k < j :: es[k].prompt.None? && (es[k].block || IsChild(es[k], es[j]))
  }

  ghost predicate AllUnder(p: Entry, es: seq<Entry>) { forall j | 0 <= j < |es| :: Under(p, es, j) }

  ghost predicate Tidy(es: seq<Entry>)
    decreases es
  {
    Chain(es) && forall i | 0 <= i < |es| :: TidyBelow(es[i])
  }

  /** A list that was there before is tidy inside, and one that was built holds what belongs there. */
  ghost predicate TidyBelow(e: Entry)
    decreases e
  {
    Flat(e.list) && Tidy(e.list) && (!e.block ==> AllUnder(e, e.list))
  }

  // ---------------------------------------------------------------- joining lists

  ghost predicate LastParts(es: seq<Entry>, next: Entry) { es != [] ==> Parts(es[|es| - 1], next) }

  lemma ChainJoin(a: seq<Entry>, b: seq<Entry>)
    requires Chain(a) && Chain(b) && (b != [] ==> LastParts(a, b[0]))
    ensures Chain(a + b)
  {
  }

  lemma TidyJoin(a: seq<Entry>, b: seq<Entry>)
    requires Tidy(a) && Tidy(b) && (b != [] ==> LastParts(a, b[0]))
    ensures Tidy(a + b)
  {
    ChainJoin(a, b);
  }

  lemma UnderJoin(p: Entry, a: seq<Entry>, b: seq<Entry>)
    requires AllUnder(p, a) && AllUnder(p, b)
    ensures AllUnder(p, a + b)
  {
    var es := a + b;
    forall j | 0 <= j < |es|
      ensures Under(p, es, j)
    {
      if j < |a| {
        assert Under(p, a, j) && es[j] == a[j];
        assert forall k | 0 <= k < j :: es[k] == a[k];
      } else {
        var i := j - |a|;
        assert Under(p, b, i) && es[j] == b[i];
        if !IsChild(p, b[i]) {
          var k :| 0 <= k < i && b[k].prompt.None? && (b[k].block || IsChild(b[k], b[i]));
          assert es[|a| + k] == b[k];
        }
      }
    }
  }

  /** Where a list stands does not depend on what is below its entries. */
  lemma SameHead(x: Entry, y: Entry, below: seq<Entry>)
    ensures Parts(x.(list := below), y) == Parts(x, y) == Parts(x, y.(list := below))
    ensures IsChild(x.(list := below), y) == IsChild(x, y) == IsChild(x, y.(list := below))
  {
  }

  // ---------------------------------------------------------------- the lists as they are built

  predicate AtLeast(es: seq<Entry>, level: nat) { forall i | 0 <= i < |es| :: es[i].level >= level }

  predicate AllOf(es: seq<Entry>, level: nat) {
    forall i | 0 <= i < |es| :: es[i].level == level && AtLeast(es[i].list, level)
  }

  /** What is last below each entry, too, may be followed by the next one. */
  ghost predicate ListsPart(es: seq<Entry>) { forall i | 0 <= i < |es| - 1 :: LastParts(es[i].list, es[i + 1]) }

  ghost predicate EndParts(es: seq<Entry>, rest: seq<Entry>) {
    es != [] && rest != [] ==> Parts(es[|es| - 1], rest[0]) && LastParts(es[|es| - 1].list, rest[0])
  }

  /** The entries of one block, finished but not hoisted yet, with rest behind them. */
  ghost predicate Built(es: seq<Entry>, level: nat, rest: seq<Entry>) {
    Tidy(es) && AllOf(es, level) && ListsPart(es) && EndParts(es, rest)
  }

  lemma ListsPartMore(e: Entry, es: seq<Entry>, rest: seq<Entry>)
    requires ListsPart(es) && EndParts(es, rest)
    requires EndParts([e], if es != [] then es else rest)
    ensures ListsPart([e] + es) && EndParts([e] + es, rest)
  {
  }

  lemma BuiltMore(e: Entry, es: seq<Entry>, level: nat, rest: seq<Entry>)
    requires TidyBelow(e) && e.level == level && AtLeast(e.list, level) && Built(es, level, rest)
    requires EndParts([e], if es != [] then es else rest)
    ensures Built([e] + es, level, rest)
  {
    TidyJoin([e], es);
    ListsPartMore(e, es, rest);
  }

  // ---------------------------------------------------------------- hoisting

  lemma {:induction false} FlatFirst(list: seq<Entry>, rest: seq<Entry>)
    requires Flat(list)
    ensures Hoist(list + rest) == list + Hoist(rest)
    decreases |list|
  {
    if list == [] {
      assert list + rest == rest;
    } else {
      assert (list + rest)[1..] == list[1..] + rest;
      FlatFirst(list[1..], rest);
    }
  }

  /** What is left of the first entry of a list, and what moves behind it. */
  function Piece(e: Entry): (r: seq<Entry>)
    ensures r != [] && r[0].Alone() == e.Alone()
  {
    if e.list != [] && e.prompt.None? then [e.Alone()] + e.list else [e]
  }

  lemma HoistFirst(e: Entry, es: seq<Entry>)
    requires Flat(e.list)
    ensures Hoist([e] + es) == Piece(e) + Hoist(es)
  {
    var all := [e] + es;
    assert all[0] == e && all[1..] == es;
    if e.list != [] && e.prompt.None? {
      ListMovesOut(all);
      FlatFirst(e.list, es);
    }
  }

  lemma PieceTidy(e: Entry, level: nat)
    requires TidyBelow(e) && e.level == level && AtLeast(e.list, level)
    ensures Tidy(Piece(e)) && Flat(Piece(e)) && AtLeast(Piece(e), level)
  {
    if e.list != [] && e.prompt.None? {
      TidyJoin([e.Alone()], e.list);
    }
  }

  lemma PieceLast(e: Entry, next: Entry)
    requires Parts(e, next) && LastParts(e.list, next)
    ensures LastParts(Piece(e), next)
  {
  }

  lemma PieceUnder(p: Entry, e: Entry)
    requires IsChild(p, e) && TidyBelow(e)
    ensures AllUnder(p, Piece(e))
  {
    SameHead(p, e, []);
    if e.list != [] && e.prompt.None? {
      forall j | 0 <= j < |Piece(e)|
        ensures Under(p, Piece(e), j)
      {
        if j > 0 {
          LaterUnder(p, e, j);
        }
      }
    }
  }

  lemma BehindOwner(p: Entry, es: seq<Entry>, k: nat, j: nat)
    requires k < j < |es| && es[k].prompt.None? && (es[k].block || IsChild(es[k], es[j]))
    ensures Under(p, es, j)
  {
  }

  lemma LaterUnder(p: Entry, e: Entry, j: nat)
    requires TidyBelow(e) && e.list != [] && e.prompt.None? && 0 < j <= |e.list|
    ensures Under(p, Piece(e), j)
  {
    var all, c := [e.Alone()] + e.list, e.list[j - 1];
    assert Piece(e) == all && all[j] == c;
    if e.block || IsChild(e, c) {
      SameHead(e, c, []);
      BehindOwner(p, all, 0, j);
    } else {
      assert Under(e, e.list, j - 1);
      var k :| 0 <= k < j - 1 && e.list[k].prompt.None? && (e.list[k].block || IsChild(e.list[k], c));
      assert all[k + 1] == e.list[k];
      BehindOwner(p, all, k + 1, j);
    }
  }

  lemma {:induction false} HoistTidy(es: seq<Entry>, level: nat, rest: seq<Entry>)
    requires Built(es, level, rest)
    ensures Tidy(Hoist(es)) && Flat(Hoist(es)) && AtLeast(Hoist(es), level)
    ensures es != [] ==> Hoist(es) != [] && Hoist(es)[0].Alone() == es[0].Alone()
    ensures rest != [] ==> LastParts(Hoist(es), rest[0])
    decreases |es|
  {
    if es != [] {
      var e, more := es[0], es[1..];
      assert es == [e] + more;
      assert TidyBelow(e);
      BuiltLess(es, level, rest);
      HoistTidy(more, level, rest);
      HoistFirst(e, more);
      PieceTidy(e, level);
      if more != [] {
        PieceLast(e, more[0]);
        NextHead(Piece(e), more[0], Hoist(more)[0]);
        TidyJoin(Piece(e), Hoist(more));
      } else if rest != [] {
        PieceLast(e, rest[0]);
      }
    }
  }

  lemma BuiltLess(es: seq<Entry>, level: nat, rest: seq<Entry>)
    requires es != [] && Built(es, level, rest)
    ensures Built(es[1..], level, rest)
  {
  }

  lemma NextHead(es: seq<Entry>, next: Entry, next': Entry)
    requires LastParts(es, next) && next'.Alone() == next.Alone()
    ensures LastParts(es, next')
  {
    assert next' == next.(list := next'.list);
  }

  lemma {:induction false} HoistUnder(p: Entry, es: seq<Entry>)
    requires (forall i | 0 <= i < |es| :: IsChild(p, es[i])) && Tidy(es)
    ensures AllUnder(p, Hoist(es))
    decreases |es|
  {
    if es != [] {
      var e, more := es[0], es[1..];
      assert es == [e] + more;
      assert TidyBelow(e);
      HoistUnder(p, more);
      HoistFirst(e, more);
      PieceUnder(p, e);
      UnderJoin(p, Piece(e), Hoist(more));
    }
  }

  // ---------------------------------------------------------------- the whole operation

  /** What menu_finalize leaves of an entry, and of those behind it. */
  ghost predicate Finished(e: Entry, below: seq<Entry>, rest: seq<Entry>, level: nat) {
    && TidyBelow(e.(list := below)) && Parsed(rest, level) && AtLeast(below, level)
    && (rest != [] ==> (!e.block ==> !IsChild(e, rest[0])) && LastParts(below, rest[0]))
  }

  lemma {:induction false} FinalizeTidy(e: Entry, rest: seq<Entry>, level: nat)
    requires Parsed([e], level) && Parsed(rest, level)
    ensures var r := Finalize(e, rest); Finished(e, r.below, r.rest, level)
    decreases Count(e) + CountAll(rest), 1
  {
    assert [e][0] == e;
    if e.list != [] {
      FinalizeAllBuilt(e.list, level + 1);
      HoistTidy(FinalizeAll(e.list), level + 1, []);
    } else {
      var g := Gather(e, rest);
      GatherBuilt(e, rest, level);
      GatherExact(e, rest);
      HoistTidy(g.below, level, g.rest);
      HoistUnder(e, g.below);
      UnderSame(e, Hoist(g.below));
    }
  }

  lemma UnderSame(e: Entry, es: seq<Entry>)
    requires AllUnder(e, es)
    ensures AllUnder(e.(list := es), es)
  {
    forall j | 0 <= j < |es|
      ensures Under(e.(list := es), es, j)
    {
      assert Under(e, es, j);
      SameHead(e, es[j], es);
    }
  }

  lemma {:induction false} GatherBuilt(parent: Entry, rest: seq<Entry>, level: nat)
    requires Parsed(rest, level)
    ensures var r := Gather(parent, rest);
      Built(r.below, level, r.rest) && Parsed(r.rest, level) && (r.below == [] ==> r.rest == rest)
    ensures var r := Gather(parent, rest); r.below != [] ==> r.below[0].Alone() == rest[0].Alone()
    decreases CountAll(rest), 2
  {
    if rest != [] && IsChild(parent, rest[0]) {
      var e, first := rest[0], Finalize(rest[0], rest[1..]);
      FinalizeTidy(e, rest[1..], level);
      GatherBuilt(parent, first.rest, level);
      var more := Gather(parent, first.rest);
      FirstBuilt(e, first, more.below, level, more.rest);
    }
  }

  lemma FirstBuilt(e: Entry, first: Parted, more: seq<Entry>, level: nat, rest: seq<Entry>)
    requires e.level == level && Finished(e, first.below, first.rest, level) && Built(more, level, rest)
    requires if more == [] then rest == first.rest
             else first.rest != [] && more[0].Alone() == first.rest[0].Alone()
    ensures Built([e.(list := first.below)] + more, level, rest)
  {
    var e' := e.(list := first.below);
    if first.rest != [] {
      SameHead(e, first.rest[0], first.below);
      if more != [] {
        NextHead(first.below, first.rest[0], more[0]);
        NextHead([e'], first.rest[0], more[0]);
      }
    }
    BuiltMore(e', more, level, rest);
  }

  lemma {:induction false} FinalizeAllBuilt(es: seq<Entry>, level: nat)
    requires Parsed(es, level)
    ensures Built(FinalizeAll(es), level, [])
    ensures if es == [] then FinalizeAll(es) == []
            else FinalizeAll(es) != [] && FinalizeAll(es)[0].Alone() == es[0].Alone()
    decreases CountAll(es), 2
  {
    if es != [] {
      var first := Finalize(es[0], es[1..]);
      FinalizeTidy(es[0], es[1..], level);
      FinalizeAllBuilt(first.rest, level);
      FirstBuilt(es[0], first, FinalizeAll(first.rest), level, []);
    }
  }

  /** The finished list of a block. */
  lemma FinalizeAllTidy(es: seq<Entry>)
    requires Parsed(es, 0)
    ensures Tidy(FinalizeAll(es))
  {
    FinalizeAllBuilt(es, 0);
  }

  /** menu_finalize on the root of the tree. */
  lemma RootTidy(root: Entry)
    requires root.list != [] && root.block && Parsed(root.list, 0)
    ensures TidyBelow(root.(list := Finalize(root, []).below))
    ensures ShownAll(Finalize(root, []).below) == ShownAll(root.list)
  {
    FinalizeAllBuilt(root.list, 0);
    HoistTidy(FinalizeAll(root.list), 0, []);
    FinalizeAllShows(root.list);
    HoistShows(FinalizeAll(root.list));
  }
}
