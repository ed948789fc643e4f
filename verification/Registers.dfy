/** Shift registers in the abstract: a step applied again and again, and an update fed with a
    buffer.  The register type W is left open; Crc32 uses 32-bit words. */
module Registers {

  type Byte = bv8

  /** f applied n times. */
  function Iterate<W>(f: W -> W, c: W, n: nat): W {
    if n == 0 then c else f(Iterate(f, c, n - 1))
  }

  /** A register with update u, fed with a buffer byte by byte. */
  function Feed<W>(u: (W, Byte) -> W, c: W, s: seq<Byte>): W
    decreases |s|
  {
    if s == [] then c else Feed(u, u(c, s[0]), s[1..])
  }

  ghost predicate Inverts<W(!new)>(g: W -> W, f: W -> W) {
    forall a: W :: g(f(a)) == a
  }

  ghost predicate UpdateInverts<W(!new)>(d: (W, Byte) -> W, u: (W, Byte) -> W) {
    forall c: W, b: Byte :: d(u(c, b), b) == c
  }

  lemma {:induction false} IterateFront<W>(f: W -> W, c: W, n: nat)
    ensures Iterate(f, c, n + 1) == Iterate(f, f(c), n)
  {
    if n > 0 {
      IterateFront(f, c, n - 1);
    }
  }

  lemma {:induction false} IterateInverts<W(!new)>(f: W -> W, g: W -> W, c: W, n: nat)
    requires Inverts(g, f)
    ensures Iterate(g, Iterate(f, c, n), n) == c
  {
    if n > 0 {
      var d := Iterate(f, c, n - 1);
      assert g(f(d)) == d;
      IterateFront(g, f(d), n - 1);
      IterateInverts(f, g, c, n - 1);
    }
  }

  lemma IterateEight<W>(f: W -> W, c: W)
    ensures Iterate(f, c, 8) == f(f(f(f(f(f(f(f(c))))))))
  {
    assert Iterate(f, c, 1) == f(c);
    assert Iterate(f, c, 2) == f(f(c));
    assert Iterate(f, c, 3) == f(f(f(c)));
    assert Iterate(f, c, 4) == f(f(f(f(c))));
    assert Iterate(f, c, 5) == f(f(f(f(f(c)))));
    assert Iterate(f, c, 6) == f(f(f(f(f(f(c))))));
    assert Iterate(f, c, 7) == f(f(f(f(f(f(f(c)))))));
  }

  /** f respects the addition of registers. */
  ghost predicate Linear<W(!new)>(add: (W, W) -> W, f: W -> W) {
    forall a: W, b: W {:trigger f(add(a, b))} :: f(add(a, b)) == add(f(a), f(b))
  }

  lemma {:induction false} IterateLinear<W(!new)>(add: (W, W) -> W, f: W -> W, a: W, b: W, n: nat)
    requires Linear(add, f)
    ensures Iterate(f, add(a, b), n) == add(Iterate(f, a, n), Iterate(f, b, n))
  {
    if n > 0 {
      IterateLinear(add, f, a, b, n - 1);
    }
  }

  lemma {:induction false} FeedConcat<W>(u: (W, Byte) -> W, c: W, a: seq<Byte>, b: seq<Byte>)
    ensures Feed(u, c, a + b) == Feed(u, Feed(u, c, a), b)
    decreases |a|
  {
    if a == [] {
      assert a + b == b;
    } else {
      assert (a + b)[1..] == a[1..] + b;
      FeedConcat(u, u(c, a[0]), a[1..], b);
    }
  }

  lemma Undo<W(!new)>(u: (W, Byte) -> W, d: (W, Byte) -> W, c: W, b: Byte)
    requires UpdateInverts(d, u)
    ensures d(u(c, b), b) == c
  {
  }

  /** For a fixed buffer, different registers stay different. */
  lemma {:induction false} FeedInjective<W(!new)>(u: (W, Byte) -> W, d: (W, Byte) -> W, a: W, b: W, s: seq<Byte>)
    requires UpdateInverts(d, u) && Feed(u, a, s) == Feed(u, b, s)
    ensures a == b
    decreases |s|
  {
    if s != [] {
      FeedInjective(u, d, u(a, s[0]), u(b, s[0]), s[1..]);
      Undo(u, d, a, s[0]);
      Undo(u, d, b, s[0]);
    }
  }

  /** Bytes packed into one register value, the first one outermost. */
  function PackBytes<W>(cons: (Byte, W) -> W, zero: W, s: seq<Byte>): W
    decreases |s|
  {
    if s == [] then zero else cons(s[0], PackBytes(cons, zero, s[1..]))
  }

  /** How up to four packed bytes behave: fits(n, w) says that w holds n bytes.  Adding them all
      and stepping once is updating with the first and adding the rest. */
  ghost predicate PacksWindow<W(!new)>(u: (W, Byte) -> W, f: W -> W, add: (W, W) -> W,
                                       cons: (Byte, W) -> W, zero: W, fits: (nat, W) -> bool) {
    && fits(0, zero) && (forall c: W :: add(c, zero) == c)
    && (forall n: nat, b: Byte, w: W | n < 4 && fits(n, w) :: fits(n + 1, cons(b, w)))
    && (forall n: nat, b: Byte, w: W, c: W | n < 4 && fits(n, w) :: f(add(c, cons(b, w))) == add(u(c, b), w))
    && (forall n: nat, b: Byte, w: W, b': Byte, w': W |
          n < 4 && fits(n, w) && fits(n, w') && cons(b, w) == cons(b', w') :: b == b' && w == w')
    && (forall c: W, w: W, w': W | add(c, w) == add(c, w') :: w == w')
  }

  lemma WindowAt<W(!new)>(u: (W, Byte) -> W, f: W -> W, add: (W, W) -> W, cons: (Byte, W) -> W, zero: W,
                          fits: (nat, W) -> bool, n: nat, b: Byte, w: W, c: W)
    requires PacksWindow(u, f, add, cons, zero, fits) && n < 4 && fits(n, w)
    ensures fits(n + 1, cons(b, w)) && f(add(c, cons(b, w))) == add(u(c, b), w)
  {
  }

  lemma WindowInjectiveAt<W(!new)>(u: (W, Byte) -> W, f: W -> W, add: (W, W) -> W, cons: (Byte, W) -> W, zero: W,
                                   fits: (nat, W) -> bool, n: nat, b: Byte, w: W, b': Byte, w': W)
    requires PacksWindow(u, f, add, cons, zero, fits) && n < 4 && fits(n, w) && fits(n, w')
    requires cons(b, w) == cons(b', w')
    ensures b == b' && w == w'
  {
  }

  lemma {:induction false} PackFits<W(!new)>(u: (W, Byte) -> W, f: W -> W, add: (W, W) -> W,
                                             cons: (Byte, W) -> W, zero: W, fits: (nat, W) -> bool, s: seq<Byte>)
    requires PacksWindow(u, f, add, cons, zero, fits) && |s| <= 4
    ensures fits(|s|, PackBytes(cons, zero, s))
    decreases |s|
  {
    if s != [] {
      PackFits(u, f, add, cons, zero, fits, s[1..]);
      WindowAt(u, f, add, cons, zero, fits, |s| - 1, s[0], PackBytes(cons, zero, s[1..]), zero);
    }
  }

  lemma {:induction false} PackInjective<W(!new)>(u: (W, Byte) -> W, f: W -> W, add: (W, W) -> W,
                                                  cons: (Byte, W) -> W, zero: W, fits: (nat, W) -> bool,
                                                  s: seq<Byte>, t: seq<Byte>)
    requires PacksWindow(u, f, add, cons, zero, fits)
    requires |s| == |t| <= 4 && PackBytes(cons, zero, s) == PackBytes(cons, zero, t)
    ensures s == t
    decreases |s|
  {
    if s != [] {
      PackFits(u, f, add, cons, zero, fits, s[1..]);
      PackFits(u, f, add, cons, zero, fits, t[1..]);
      WindowInjectiveAt(u, f, add, cons, zero, fits, |s| - 1,
                        s[0], PackBytes(cons, zero, s[1..]), t[0], PackBytes(cons, zero, t[1..]));
      PackInjective(u, f, add, cons, zero, fits, s[1..], t[1..]);
      assert s == [s[0]] + s[1..] && t == [t[0]] + t[1..];
    }
  }

  /** Feeding up to four bytes one by one is adding them all first and then stepping. */
  lemma {:induction false} FeedWindow<W(!new)>(u: (W, Byte) -> W, f: W -> W, add: (W, W) -> W,
                                               cons: (Byte, W) -> W, zero: W, fits: (nat, W) -> bool,
                                               c: W, s: seq<Byte>)
    requires PacksWindow(u, f, add, cons, zero, fits) && |s| <= 4
    ensures Feed(u, c, s) == Iterate(f, add(c, PackBytes(cons, zero, s)), |s|)
    decreases |s|
  {
    if s != [] {
      var w := PackBytes(cons, zero, s[1..]);
      PackFits(u, f, add, cons, zero, fits, s[1..]);
      FeedWindow(u, f, add, cons, zero, fits, u(c, s[0]), s[1..]);
      WindowAt(u, f, add, cons, zero, fits, |s| - 1, s[0], w, c);
      IterateFront(f, add(c, PackBytes(cons, zero, s)), |s| - 1);
    }
  }

  /** Two buffers that differ only within four consecutive bytes leave different registers. */
  lemma ChangeDetected<W(!new)>(u: (W, Byte) -> W, d: (W, Byte) -> W, f: W -> W, g: W -> W, add: (W, W) -> W,
                                cons: (Byte, W) -> W, zero: W, fits: (nat, W) -> bool,
                                c: W, p: seq<Byte>, s: seq<Byte>, t: seq<Byte>, q: seq<Byte>)
    requires UpdateInverts(d, u) && Inverts(g, f) && PacksWindow(u, f, add, cons, zero, fits)
    requires |s| == |t| <= 4 && Feed(u, c, p + s + q) == Feed(u, c, p + t + q)
    ensures s == t
  {
    var m := Feed(u, c, p);
    FeedConcat(u, c, p, s);
    FeedConcat(u, c, p + s, q);
    FeedConcat(u, c, p, t);
    FeedConcat(u, c, p + t, q);
    FeedInjective(u, d, Feed(u, m, s), Feed(u, m, t), q);
    FeedWindow(u, f, add, cons, zero, fits, m, s);
    FeedWindow(u, f, add, cons, zero, fits, m, t);
    var x, y := PackBytes(cons, zero, s), PackBytes(cons, zero, t);
    IterateInverts(f, g, add(m, x), |s|);
    IterateInverts(f, g, add(m, y), |s|);
    assert add(m, x) == add(m, y);
    PackInjective(u, f, add, cons, zero, fits, s, t);
  }

  lemma PackFour<W>(cons: (Byte, W) -> W, zero: W, a: Byte, b: Byte, c: Byte, d: Byte)
    ensures PackBytes(cons, zero, [a, b, c, d]) == cons(a, cons(b, cons(c, cons(d, zero))))
  {
    assert PackBytes(cons, zero, [d]) == cons(d, PackBytes(cons, zero, [])) by {
      assert [d][1..] == [];
    }
    assert PackBytes(cons, zero, [c, d]) == cons(c, PackBytes(cons, zero, [d])) by {
      assert [c, d][1..] == [d];
    }
    assert PackBytes(cons, zero, [b, c, d]) == cons(b, PackBytes(cons, zero, [c, d])) by {
      assert [b, c, d][1..] == [c, d];
    }
    assert [a, b, c, d][1..] == [b, c, d];
  }
}
