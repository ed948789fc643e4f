/** The receive queue apart from the rest of the receiver: which packs are pushed does not depend on
    it, and of those it takes the first ones it has room for. */
module UartQueue {
  import opened Registers
  import opened UartFrame
  import opened UartReceive

  /** A queue of cap places that held q, after more packs were pushed. */
  function Capped(q: seq<Delivery>, cap: nat, more: seq<Delivery>): (r: seq<Delivery>)
    requires |q| <= cap
    ensures |q| + |more| <= cap ==> r == q + more
    ensures |r| <= cap && (|q| + |more| > cap ==> |r| < |q| + |more|)
  {
    q + if |more| <= cap - |q| then more else more[..cap - |q|]
  }

  lemma CappedMore(q: seq<Delivery>, cap: nat, more: seq<Delivery>, d: Delivery)
    requires |q| <= cap
    ensures var r := Capped(q, cap, more); Capped(q, cap, more + [d]) == if |r| < cap then r + [d] else r
  {
    if |q| + |more| >= cap {
      assert (more + [d])[..cap - |q|] == more[..cap - |q|];
    }
  }

  /** The state u, with a queue of cap places that held q when u had pushed n packs. */
  function View(u: Recv, n: nat, q: seq<Delivery>, cap: nat): Recv
    requires n <= |u.delivered| && |q| <= cap
  {
    u.(delivered := Capped(q, cap, u.delivered[n..]), capacity := cap)
  }

  /** From u to t at most k packs were pushed, and u has room for so many. */
  predicate Grown(u: Recv, t: Recv, k: nat) {
    && t.capacity == u.capacity && u.delivered <= t.delivered && |t.delivered| <= |u.delivered| + k
  }

  predicate HasPlaces(u: Recv, n: nat, k: nat) { n <= |u.delivered| && |u.delivered| + k <= u.capacity }

  lemma DeliverView(u: Recv, len: nat, n: nat, q: seq<Delivery>, cap: nat)
    requires HasPlaces(u, n, 1) && |q| <= cap
    ensures Grown(u, Deliver(u, len), 1)
    ensures Deliver(View(u, n, q, cap), len) == View(Deliver(u, len), n, q, cap)
  {
    var d := Delivery(u.header, len, u.addr, u.BodyAt(len), u.bodyVef);
    CappedMore(q, cap, u.delivered[n..], d);
    assert (u.delivered + [d])[n..] == u.delivered[n..] + [d];
  }

  lemma MoveView(link: Link, u: Recv, n: nat, q: seq<Delivery>, cap: nat)
    requires Stalls(link, u) && HasPlaces(u, n, 1) && |q| <= cap
    ensures Stalls(link, View(u, n, q, cap)) && Grown(u, Move(link, u), 1)
    ensures Move(link, View(u, n, q, cap)) == View(Move(link, u), n, q, cap)
  {
    if u.phase == CheckBody && u.bodyCount == BodySize(u.header) && FlagsOf(u.header) == 0 {
      DeliverView(u.(bodyCount := 0), BodySize(u.header), n, q, cap);
    }
  }

  /** The turns that consume nothing. */
  lemma {:induction false} SettleView(link: Link, u: Recv, n: nat, q: seq<Delivery>, cap: nat)
    requires HasPlaces(u, n, Rank(u)) && |q| <= cap
    ensures Grown(u, Settle(link, u), Rank(u))
    ensures Settle(link, View(u, n, q, cap)) == View(Settle(link, u), n, q, cap)
    decreases Rank(u)
  {
    if Stalls(link, u) {
      MoveView(link, u, n, q, cap);
      SettleView(link, Move(link, u), n, q, cap);
    } else {
      assert !Stalls(link, View(u, n, q, cap));
    }
  }

  lemma HeaderByteView(link: Link, u: Recv, b: Byte, n: nat, q: seq<Delivery>, cap: nat)
    requires HasPlaces(u, n, 1) && |q| <= cap && u.headerCount < HEADER_SIZE
    ensures Grown(u, HeaderByte(link, u, b), 1)
    ensures HeaderByte(link, View(u, n, q, cap), b) == View(HeaderByte(link, u, b), n, q, cap)
  {
    var t := u.(header := u.header[u.headerCount := b], headerCount := u.headerCount + 1);
    if t.headerCount == HEADER_SIZE {
      DeliverView(t.(headerCount := 4), 0, n, q, cap);
    }
  }

  lemma BodyByteView(u: Recv, b: Byte, n: nat, q: seq<Delivery>, cap: nat)
    requires HasPlaces(u, n, 1) && |q| <= cap
    ensures Grown(u, BodyByte(u, b), 1)
    ensures BodyByte(View(u, n, q, cap), b) == View(BodyByte(u, b), n, q, cap)
  {
    var t := StoreAll(Started(u), [b]);
    assert StoreAll(Started(View(u, n, q, cap)), [b]) == View(t, n, q, cap);
    if t.bodyCount == BodySize(t.header) && FlagsOf(t.header) == 0 {
      DeliverView(t.(bodyCount := 0), BodySize(t.header), n, q, cap);
    }
  }

  lemma VefByteView(u: Recv, b: Byte, n: nat, q: seq<Delivery>, cap: nat)
    requires HasPlaces(u, n, 1) && |q| <= cap && |u.tmpVef| == 4
    ensures Grown(u, VefByte(u, b), 1)
    ensures VefByte(View(u, n, q, cap), b) == View(VefByte(u, b), n, q, cap)
  {
    var t := u.(tmpVef := u.tmpVef[1..] + [b], vefCount := u.vefCount + 1);
    if t.vefCount == 4 {
      DeliverView(t.(bodyVef := t.tmpVef, tmpVef := ZERO_WORD, vefCount := 0), BodySize(t.header), n, q, cap);
    }
  }

  lemma ConsumeView(link: Link, u: Recv, b: Byte, n: nat, q: seq<Delivery>, cap: nat)
    requires u.Valid() && !Stalls(link, u) && HasPlaces(u, n, 1) && |q| <= cap
    ensures View(u, n, q, cap).Valid() && !Stalls(link, View(u, n, q, cap)) && Grown(u, Consume(link, u, b), 1)
    ensures Consume(link, View(u, n, q, cap), b) == View(Consume(link, u, b), n, q, cap)
  {
    match u.phase
    case FindMagic =>
    case CheckHeader => HeaderByteView(link, u, b, n, q, cap);
    case CheckBody => BodyByteView(u, b, n, q, cap);
    case BodyVef => VefByteView(u, b, n, q, cap);
  }

  lemma ByteView(link: Link, u: Recv, b: Byte, n: nat, q: seq<Delivery>, cap: nat)
    requires u.Valid() && HasPlaces(u, n, 3) && |q| <= cap
    ensures View(u, n, q, cap).Valid() && Grown(u, RecvByte(link, u, b), 3)
    ensures RecvByte(link, View(u, n, q, cap), b) == View(RecvByte(link, u, b), n, q, cap)
  {
    SettleValid(link, u);
    SettleView(link, u, n, q, cap);
    ConsumeView(link, Settle(link, u), b, n, q, cap);
  }

  /** A full queue drops the later packs and changes nothing else. */
  lemma {:induction false} StreamView(link: Link, u: Recv, bytes: seq<Byte>, n: nat, q: seq<Delivery>, cap: nat)
    requires u.Valid() && HasPlaces(u, n, 3 * |bytes|) && |q| <= cap
    ensures View(u, n, q, cap).Valid() && Grown(u, RecvAll(link, u, bytes), 3 * |bytes|)
    ensures RecvAll(link, View(u, n, q, cap), bytes) == View(RecvAll(link, u, bytes), n, q, cap)
    decreases |bytes|
  {
    if bytes != [] {
      ByteView(link, u, bytes[0], n, q, cap);
      StreamView(link, RecvByte(link, u, bytes[0]), bytes[1..], n, q, cap);
    }
  }

  /** A stream adds to a queue what an unlimited one would be given, as far as there is room. */
  lemma QueueTakesFirst(link: Link, s: Recv, bytes: seq<Byte>)
    requires s.Valid() && |s.delivered| <= s.capacity
    ensures var pushed := RecvAll(link, s.(delivered := [], capacity := 3 * |bytes|), bytes).delivered;
      RecvAll(link, s, bytes).delivered == Capped(s.delivered, s.capacity, pushed)
  {
    var u := s.(delivered := [], capacity := 3 * |bytes|);
    assert View(u, 0, s.delivered, s.capacity) == s;
    StreamView(link, u, bytes, 0, s.delivered, s.capacity);
    assert RecvAll(link, u, bytes).delivered[0..] == RecvAll(link, u, bytes).delivered;
  }
}
