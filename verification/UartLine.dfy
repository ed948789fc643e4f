/** Both ends of the line together: any interleaving of posts, FIFO grants and DMA on one side, any
    chunks and DMA on the other. */
module UartLine {
  import opened Registers
  import opened UartFrame
  import opened UartReceive
  import opened UartRoundTrip
  import opened UartQueue
  import opened UartReceivers
  import opened UartSenders

  /** What can happen to a sender: a call of UartMessageAsyncSend, room in the FIFO, the end of a
      DMA transfer. */
  datatype Event = Post(m: Message, addr: nat) | Room(n: nat) | TransferDone

  lemma {:induction false} FramesMore(link: Link, ms: seq<Message>, m: Message)
    requires link.Valid()
    ensures Frames(link, ms + [m]) == Frames(link, ms) + Frame(link, m)
    decreases |ms|
  {
    if ms == [] {
      assert ms + [m] == [m] && [m][1..] == [];
    } else {
      assert (ms + [m])[1..] == ms[1..] + [m];
      FramesMore(link, ms[1..], m);
    }
  }

  /** The length of every message that is posted fits its field. */
  predicate AllFit(events: seq<Event>) {
    forall i | 0 <= i < |events| :: events[i].Post? ==> events[i].m.Fits()
  }

  /** How many messages are posted. */
  function Posts(events: seq<Event>): (n: nat)
    ensures n <= |events|
  {
    if events == [] then 0
    else Posts(events[..|events| - 1]) + if events[|events| - 1].Post? then 1 else 0
  }

  lemma OneUp(b: Byte)
    ensures Value(b + 1) == if Value(b) == 255 then 0 else Value(b) + 1
  {
  }

  /** A response does not use up a sequence number. */
  function Used(m: Message): nat { if IsResponse(m.cmd) then 0 else 1 }

  function Bumped(b: Byte, m: Message): (r: Byte)
    ensures Value(r) == (Value(b) + Used(m)) % 256
  {
    if IsResponse(m.cmd) then b else OneUp(b); b + 1
  }

  /** The sequence counter after some messages that found it at first. */
  function Counter(first: Byte, posted: seq<Message>): Byte {
    if posted == [] then first else Bumped(Counter(first, posted[..|posted| - 1]), posted[|posted| - 1])
  }

  function UsedBy(posted: seq<Message>): nat {
    if posted == [] then 0 else UsedBy(posted[..|posted| - 1]) + Used(posted[|posted| - 1])
  }

  lemma ModUp(x: nat, y: nat, d: nat)
    requires y == x % 256 && d <= 1
    ensures (y + d) % 256 == (x + d) % 256
  {
  }

  /** It counts those that are not responses, modulo 256. */
  lemma {:induction false} CounterCounts(first: Byte, posted: seq<Message>)
    ensures Value(Counter(first, posted)) == (Value(first) + UsedBy(posted)) % 256
  {
    if posted != [] {
      var k := |posted| - 1;
      var before := Counter(first, posted[..k]);
      CounterCounts(first, posted[..k]);
      ModUp(Value(first) + UsedBy(posted[..k]), Value(before), Used(posted[k]));
      assert Value(Counter(first, posted)) == Value(Bumped(before, posted[k]));
    }
  }

  /** posted are some of the messages of the events, in their order, each with its sequence number:
      a response with the one its caller chose, every other with the running counter. */
  predicate Taken(events: seq<Event>, posted: seq<Message>, first: Byte)
    decreases |events|
  {
    if events == [] then posted == []
    else
      var k := |events| - 1;
      || Taken(events[..k], posted, first)
      || (events[k].Post? && posted != [] && TakenLast(events[k].m, posted, first)
          && Taken(events[..k], posted[..|posted| - 1], first))
  }

  predicate TakenLast(m: Message, posted: seq<Message>, first: Byte)
    requires posted != []
  {
    var k := |posted| - 1;
    posted[k] == Stamped(m, Counter(first, posted[..k]))
  }

  /** An empty grant while the first byte of a header or checksum is due. */
  predicate Drops(s: Sender, e: Event)
    reads s
  {
    e == Room(0) && s.sending && !s.dmaActive && s.Skips()
  }

  /** Sent and pending bytes grew by these, or some were lost. */
  predicate Grew(before: seq<Byte>, more: seq<Byte>, after: seq<Byte>, lost: bool) {
    Kept(before + more, after, !lost)
  }

  /** What one event may take: its own message, with the number that is due. */
  predicate TakenNow(e: Event, posted: seq<Message>, sequence: Byte) {
    posted == [] || (e.Post? && posted == [Stamped(e.m, sequence)])
  }

  /** Posting one message, when the sender takes it. */
  method PostOne(s: Sender, m: Message, addr: nat) returns (posted: seq<Message>)
    requires s.Valid() && m.Fits()
    modifies s
    ensures s.Valid() && (posted == [] <==> |old(s.queue)| == s.capacity)
    ensures posted == [] || posted == [Stamped(m, old(s.sequence))]
    ensures s.sequence == Counter(old(s.sequence), posted)
    ensures s.wire + s.Pending() == old(s.wire + s.Pending()) + Frames(s.link, posted)
    ensures |s.queue| <= |old(s.queue)| + 1
  {
    var stamped := Stamped(m, s.sequence);
    CounterOne(s.sequence, stamped);
    PostedWire(s.link, s.wire, s.Pending(), m, s.sequence, addr);
    var ret := s.AsyncSend(true, true, ZERO_WORD, m, addr);
    posted := if ret == 0 then [stamped] else [];
  }

  lemma PostedWire(link: Link, sent: seq<Byte>, pending: seq<Byte>, m: Message, sequence: Byte, addr: nat)
    requires link.Valid() && m.Fits()
    ensures sent + (pending + WireOf(link, PackFor(link, ZERO_WORD, m, sequence, addr)))
         == (sent + pending) + Frames(link, [Stamped(m, sequence)])
    ensures (sent + pending) + Frames(link, []) == sent + pending
  {
    var stamped := Stamped(m, sequence);
    WireIsFrame(link, ZERO_WORD, m, sequence, addr);
    assert [stamped][1..] == [];
    assert Frames(link, [stamped]) == Frame(link, stamped) + Frames(link, []) == Frame(link, stamped);
    Regroup(sent, pending, Frame(link, stamped));
  }

  lemma CounterOne(first: Byte, m: Message)
    ensures Counter(first, [m]) == Bumped(first, m)
  {
    assert [m][..0] == [];
  }

  /** One event; hardware calls back only while the matching transfer is on. */
  method Step(s: Sender, e: Event) returns (posted: seq<Message>)
    requires s.Valid() && (e.Post? ==> e.m.Fits())
    modifies s
    ensures s.Valid() && TakenNow(e, posted, old(s.sequence)) && s.sequence == Counter(old(s.sequence), posted)
    ensures |s.queue| <= |old(s.queue)| + |Posted(e)|
    ensures |old(s.queue)| < s.capacity ==> |posted| == |Posted(e)|
    ensures Grew(old(s.wire + s.Pending()), Frames(s.link, posted), s.wire + s.Pending(), old(Drops(s, e)))
  {
    posted := [];
    if e.Post? {
      posted := PostOne(s, e.m, e.addr);
    } else {
      Callback(s, e);
      assert old(s.wire + s.Pending()) + Frames(s.link, []) == old(s.wire + s.Pending());
    }
  }

  method Callback(s: Sender, e: Event)
    requires s.Valid() && !e.Post?
    modifies s`queue, s`cur, s`state, s`headerCount, s`bodyCount, s`needNum, s`crcCount, s`crc,
             s`sending, s`dmaActive, s`dmaLen, s`wire
    ensures s.Valid() && |s.queue| <= |old(s.queue)|
    ensures Kept(old(s.wire + s.Pending()), s.wire + s.Pending(), !old(Drops(s, e)))
  {
    if e.Room? && s.sending && !s.dmaActive {
      s.SendCallback(e.n);
    } else if e.TransferDone? && s.dmaActive {
      s.DmaDone();
    }
  }

  /** The messages an event posts. */
  function Posted(e: Event): seq<Message> { if e.Post? then [e.m] else [] }

  /** After some events: the messages taken so far were added to what was sent or pending unless an
      empty grant lost some bytes, and none was turned away unless the queue could have been full. */
  ghost predicate Running(s: Sender, all: seq<Byte>, queued: nat, first: Byte, events: seq<Event>,
                          posted: seq<Message>, lost: bool)
    reads s
  {
    && s.Valid() && Taken(events, posted, first) && s.sequence == Counter(first, posted)
    && |s.queue| <= queued + Posts(events)
    && (queued + Posts(events) <= s.capacity ==> |posted| == Posts(events))
    && Grew(all, Frames(s.link, posted), s.wire + s.Pending(), lost)
    && (Room(0) !in events ==> !lost)
  }

  method RunOne(s: Sender, ghost all: seq<Byte>, ghost queued: nat, ghost first: Byte, events: seq<Event>, i: nat,
                posted: seq<Message>, ghost lost: bool) returns (r: seq<Message>, ghost lost': bool)
    requires i < |events| && AllFit(events)
    requires Running(s, all, queued, first, events[..i], posted, lost)
    modifies s
    ensures Running(s, all, queued, first, events[..i + 1], r, lost')
    ensures lost' == (lost || old(Drops(s, events[i])))
  {
    PostsMore(events, i);
    lost' := lost || Drops(s, events[i]);
    var more := Step(s, events[i]);
    RunMore(s.link, all, posted, more, old(s.wire + s.Pending()), s.wire + s.Pending(), lost, old(Drops(s, events[i])));
    TakenMore(events, i, posted, more, first);
    r := posted + more;
  }

  /** Every message that was taken, and nothing else, is on the wire or still to come, in order,
      exactly unless some grant was empty at the wrong moment. */
  method Run(s: Sender, events: seq<Event>) returns (posted: seq<Message>, ghost lost: bool)
    requires s.Valid() && AllFit(events)
    modifies s
    ensures Running(s, old(s.wire + s.Pending()), |old(s.queue)|, old(s.sequence), events, posted, lost)
  {
    ghost var all, queued, first := s.wire + s.Pending(), |s.queue|, s.sequence;
    posted, lost := [], false;
    assert all + Frames(s.link, []) == all;
    for i := 0 to |events|
      invariant Running(s, all, queued, first, events[..i], posted, lost) == true
    {
      posted, lost := RunOne(s, all, queued, first, events, i, posted, lost);
    }
    assert events[..|events|] == events;
  }

  lemma PostsMore(events: seq<Event>, i: nat)
    requires i < |events|
    ensures Posts(events[..i + 1]) == Posts(events[..i]) + |Posted(events[i])|
  {
    assert events[..i + 1][..i] == events[..i];
  }

  lemma TakenMore(events: seq<Event>, i: nat, posted: seq<Message>, more: seq<Message>, first: Byte)
    requires i < |events| && Taken(events[..i], posted, first)
    requires TakenNow(events[i], more, Counter(first, posted))
    ensures Taken(events[..i + 1], posted + more, first)
    ensures Counter(first, posted + more) == Counter(Counter(first, posted), more)
  {
    assert events[..i + 1][..i] == events[..i];
    if more == [] {
      assert posted + more == posted;
    } else {
      assert (posted + more)[..|posted|] == posted;
      CounterOne(Counter(first, posted), more[0]);
    }
  }

  /** What holds of the body and id of every message posted holds of every message taken. */
  lemma {:induction false} TakenFits(slots: seq<Slot>, events: seq<Event>, posted: seq<Message>, first: Byte)
    requires Taken(events, posted, first)
    requires forall i | 0 <= i < |events| :: events[i].Post? ==> CanTake(slots, events[i].m) && events[i].m.Fits()
    ensures |posted| <= Posts(events)
    ensures forall i | 0 <= i < |posted| :: CanTake(slots, posted[i]) && posted[i].Fits()
    decreases |events|
  {
    if events != [] {
      var k := |events| - 1;
      if Taken(events[..k], posted, first) {
        TakenFits(slots, events[..k], posted, first);
      } else {
        TakenFits(slots, events[..k], posted[..|posted| - 1], first);
      }
    }
  }

  /** The numbers of the messages that are not responses are consecutive, modulo 256. */
  lemma {:induction false} Numbered(events: seq<Event>, posted: seq<Message>, first: Byte, i: nat)
    requires Taken(events, posted, first) && i < |posted| && !IsResponse(posted[i].cmd)
    ensures posted[i].seqNo == Counter(first, posted[..i])
    ensures Value(posted[i].seqNo) == (Value(first) + UsedBy(posted[..i])) % 256
    decreases |events|
  {
    CounterCounts(first, posted[..i]);
    var k := |events| - 1;
    if Taken(events[..k], posted, first) {
      Numbered(events[..k], posted, first, i);
    } else if i < |posted| - 1 {
      Numbered(events[..k], posted[..|posted| - 1], first, i);
      assert posted[..|posted| - 1][..i] == posted[..i];
    }
  }

  /** How many of them are of another type than RSP. */
  function NotResponses(ms: seq<Message>): nat {
    if ms == [] then 0
    else NotResponses(ms[..|ms| - 1]) + if IsType(ms[|ms| - 1].cmd, RSP) then 0 else 1
  }

  lemma {:induction false} UsedByOthers(ms: seq<Message>)
    requires forall i | 0 <= i < |ms| :: ms[i].Fits()
    ensures UsedBy(ms) == NotResponses(ms)
  {
    if ms != [] {
      var k := |ms| - 1;
      ResponseIsType(ms[k].cmd);
      UsedByOthers(ms[..k]);
    }
  }

  /** m is what is sent for the message a caller posted after before: a response is sent as it is, with
      its caller's number, and every other message with the next number. */
  predicate SentFor(m: Message, before: seq<Message>, first: Byte, asked: Message) {
    if IsType(m.cmd, RSP) then m == asked
    else m == asked.(seqNo := m.seqNo) && Value(m.seqNo) == (Value(first) + NotResponses(before)) % 256
  }

  /** All of them are what was posted, numbered so. */
  ghost predicate RightNumbers(events: seq<Event>, posted: seq<Message>, first: Byte) {
    forall i | 0 <= i < |posted| :: Asked(events, posted[i], posted[..i], first)
  }

  ghost predicate Asked(events: seq<Event>, m: Message, before: seq<Message>, first: Byte) {
    exists e | e in events :: e.Post? && SentFor(m, before, first, e.m)
  }

  lemma StampedRight(m: Message, before: seq<Message>, first: Byte)
    requires m.Fits() && forall i | 0 <= i < |before| :: before[i].Fits()
    ensures SentFor(Stamped(m, Counter(first, before)), before, first, m)
  {
    ResponseIsType(m.cmd);
    UsedByOthers(before);
    CounterCounts(first, before);
  }

  lemma {:induction false} TakenNumbers(events: seq<Event>, posted: seq<Message>, first: Byte)
    requires Taken(events, posted, first) && AllFit(events)
    ensures RightNumbers(events, posted, first) && forall i | 0 <= i < |posted| :: posted[i].Fits()
    decreases |events|
  {
    if events != [] {
      var k := |events| - 1;
      if Taken(events[..k], posted, first) {
        TakenNumbers(events[..k], posted, first);
        MoreEvents(events, posted, first);
      } else {
        var n := |posted| - 1;
        TakenNumbers(events[..k], posted[..n], first);
        MoreEvents(events, posted[..n], first);
        StampedRight(events[k].m, posted[..n], first);
        OneMoreNumber(events, posted, first);
      }
    }
  }

  lemma MoreEvents(events: seq<Event>, posted: seq<Message>, first: Byte)
    requires events != [] && RightNumbers(events[..|events| - 1], posted, first)
    ensures RightNumbers(events, posted, first)
  {
    forall i | 0 <= i < |posted|
      ensures Asked(events, posted[i], posted[..i], first)
    {
      assert Asked(events[..|events| - 1], posted[i], posted[..i], first);
    }
  }

  lemma OneMoreNumber(events: seq<Event>, posted: seq<Message>, first: Byte)
    requires events != [] && posted != [] && events[|events| - 1].Post?
    requires RightNumbers(events, posted[..|posted| - 1], first)
    requires SentFor(posted[|posted| - 1], posted[..|posted| - 1], first, events[|events| - 1].m)
    ensures RightNumbers(events, posted, first)
  {
    var n := |posted| - 1;
    forall i | 0 <= i < |posted|
      ensures Asked(events, posted[i], posted[..i], first)
    {
      assert events[|events| - 1] in events;
      if i < n {
        assert posted[..n][i] == posted[i] && posted[..n][..i] == posted[..i];
        assert Asked(events, posted[..n][i], posted[..n][..i], first);
      }
    }
  }

  lemma GrewTwice(t: seq<Byte>, a: seq<Byte>, mid: seq<Byte>, b: seq<Byte>, after: seq<Byte>, lost: bool, now: bool)
    requires Grew(t, a, mid, lost) && Grew(mid, b, after, now)
    ensures Grew(t, a + b, after, lost || now)
  {
    assert (t + a) + b == t + (a + b);
  }

  lemma RunMore(link: Link, t: seq<Byte>, ms: seq<Message>, more: seq<Message>, mid: seq<Byte>, after: seq<Byte>,
                lost: bool, lostNow: bool)
    requires link.Valid() && |more| <= 1
    requires Grew(t, Frames(link, ms), mid, lost) && Grew(mid, Frames(link, more), after, lostNow)
    ensures Grew(t, Frames(link, ms + more), after, lost || lostNow)
  {
    GrewTwice(t, Frames(link, ms), mid, Frames(link, more), after, lost, lostNow);
    if more == [] {
      assert ms + more == ms && Frames(link, ms) + [] == Frames(link, ms);
    } else {
      assert more == [more[0]] && more[1..] == [];
      assert Frames(link, more) == Frame(link, more[0]) + Frames(link, []) == Frame(link, more[0]);
      FramesMore(link, ms, more[0]);
    }
  }

  /** With room again and again, and every transfer ending, a sender gets everything out. */
  method Flush(s: Sender, room: nat -> nat)
    requires s.Valid() && forall i: nat :: room(i) > 0
    modifies s
    ensures s.Valid() && !s.sending && s.wire == old(s.wire + s.Pending())
  {
    ghost var all := s.wire + s.Pending();
    var i := 0;
    while s.sending
      invariant s.Valid() && s.wire + s.Pending() == all
      decreases |all| - |s.wire|, s.dmaActive, s.sending
    {
      if s.dmaActive {
        s.DmaDone();
      } else {
        s.SendCallback(room(i));
      }
      i := i + 1;
    }
  }

  /** Room for nothing at the wrong moment cannot be made up for: the line never carries what was
      due. */
  method NeverRecovers(s: Sender, room: nat -> nat)
    requires s.Valid() && s.sending && !s.dmaActive && s.Skips() && forall i: nat :: room(i) > 0
    modifies s
    ensures s.Valid() && !s.sending && s.wire != old(s.wire + s.Pending())
  {
    s.SendCallback(0);
    Flush(s, room);
  }

  /** In particular a first message whose first grant is empty goes out without its header. */
  method FirstGrantEmpty(s: Sender, m: Message, addr: nat, room: nat -> nat)
    requires s.Valid() && !s.sending && s.wire == [] && s.capacity > 0 && m.Fits()
    requires forall i: nat :: room(i) > 0
    modifies s
    ensures !s.sending && s.wire != Frame(s.link, Stamped(m, old(s.sequence)))
  {
    WireIsFrame(s.link, ZERO_WORD, m, s.sequence, addr);
    var ret := s.AsyncSend(true, true, ZERO_WORD, m, addr);
    NeverRecovers(s, room);
  }

  /** One callback of the receiver: a finished transfer, or a chunk. */
  method FeedOne(ghost run: (Recv, seq<Byte>) -> Recv, r: Receiver, bytes: seq<Byte>)
    requires Follows(r.link, run) && r.Valid() && (r.dmaLen > 0 ==> r.dmaLen == |bytes|)
    modifies r
    ensures r.Valid() && r.Abs() == run(old(r.Abs()), bytes)
  {
    assert run(r.Abs(), bytes) == RecvAll(r.link, r.Abs(), bytes);
    if r.dmaLen > 0 {
      r.DmaDone(bytes);
    } else {
      r.RecvCallback(bytes);
    }
  }

  /** The receiver is in the state u, but for its queue. */
  ghost predicate Beside(r: Receiver, u: Recv)
    reads r
  {
    r.Valid() && |r.queue| <= r.capacity && r.Abs() == u.(delivered := r.queue, capacity := r.capacity)
  }

  /** Of what u has pushed, these were taken out and those are in the queue, unless one was dropped. */
  predicate Served(u: Recv, got: seq<Delivery>, queue: seq<Delivery>, cap: nat, dropped: bool) {
    if dropped then |got| + |queue| < |u.delivered| && cap < |u.delivered| else got + queue == u.delivered
  }

  /** The next bytes of a line: a pack is dropped exactly when there are more than free places. */
  method FeedNext(ghost run: (Recv, seq<Byte>) -> Recv, r: Receiver, ghost u: Recv, bytes: seq<Byte>,
                  ghost got: seq<Delivery>, ghost dropped: bool) returns (ghost t: Recv, ghost dropped': bool)
    requires Follows(r.link, run) && Beside(r, u) && (r.dmaLen > 0 ==> r.dmaLen == |bytes|)
    requires HasPlaces(u, |u.delivered|, 3 * |bytes|) && Served(u, got, r.queue, r.capacity, dropped)
    modifies r
    ensures Beside(r, t) && t == run(u, bytes) && Grown(u, t, 3 * |bytes|)
    ensures Served(t, got, r.queue, r.capacity, dropped')
    ensures dropped' <==> dropped || |old(r.queue)| + |t.delivered| - |u.delivered| > r.capacity
  {
    ghost var q, n := r.queue, |u.delivered|;
    assert u.delivered[n..] == [] && Capped(q, r.capacity, []) == q;
    StreamView(r.link, u, bytes, n, q, r.capacity);
    RunAt(r.link, run, u, bytes);
    RunAt(r.link, run, r.Abs(), bytes);
    FeedOne(run, r, bytes);
    t := run(u, bytes);
    dropped' := dropped || |q| + |t.delivered| - n > r.capacity;
    ServedMore(u, t, got, q, r.capacity, dropped);
  }

  lemma RunAt(link: Link, run: (Recv, seq<Byte>) -> Recv, s: Recv, bytes: seq<Byte>)
    requires Follows(link, run) && s.Valid()
    ensures run(s, bytes) == RecvAll(link, s, bytes)
  {
  }

  lemma ServedMore(u: Recv, t: Recv, got: seq<Delivery>, q: seq<Delivery>, cap: nat, dropped: bool)
    requires u.delivered <= t.delivered && |q| <= cap && Served(u, got, q, cap, dropped)
    ensures var more := t.delivered[|u.delivered|..];
      Served(t, got, Capped(q, cap, more), cap, dropped || |q| + |more| > cap)
  {
    var more := t.delivered[|u.delivered|..];
    assert t.delivered == u.delivered + more;
    if !dropped && |q| + |more| <= cap {
      assert got + (q + more) == (got + q) + more;
    }
  }

  /** The consumer takes out some packs, as far as there are any. */
  method TakeOut(r: Receiver, n: nat, ghost u: Recv, got: seq<Delivery>, ghost dropped: bool)
    returns (got': seq<Delivery>)
    requires Beside(r, u) && Served(u, got, r.queue, r.capacity, dropped)
    modifies r`queue
    ensures Beside(r, u) && Served(u, got', r.queue, r.capacity, dropped)
  {
    got' := got;
    for i := 0 to n
      invariant Beside(r, u) && Served(u, got', r.queue, r.capacity, dropped)
    {
      ghost var q := r.queue;
      var packs := r.GetPack();
      assert got' + q == (got' + packs) + r.queue;
      got' := got' + packs;
    }
  }

  /** One chunk of a line, or the end of a DMA transfer. */
  method FeedPart(ghost run: (Recv, seq<Byte>) -> Recv, r: Receiver, ghost s: Recv, bytes: seq<Byte>, used: nat, n: nat,
                  ghost got: seq<Delivery>, ghost dropped: bool) returns (ghost dropped': bool)
    requires Follows(r.link, run) && used + n <= |bytes| && (r.dmaLen > 0 ==> r.dmaLen == n)
    requires s.Valid() && |s.delivered| + 3 * |bytes| <= s.capacity
    requires Fed(run, r, s, bytes, used, got, dropped)
    modifies r
    ensures Fed(run, r, s, bytes, used + n, got, dropped')
  {
    ghost var u := run(s, bytes[..used]);
    assert bytes[..used + n] == bytes[..used] + bytes[used..used + n];
    RunAt(r.link, run, s, bytes[..used]);
    Compose(r.link, run, s, bytes[..used], bytes[used..used + n], bytes[..used + n]);
    ghost var t;
    t, dropped' := FeedNext(run, r, u, bytes[used..used + n], got, dropped);
    GrownMore(s, u, t, 3 * used, 3 * n);
  }

  lemma GrownMore(s: Recv, u: Recv, t: Recv, j: nat, k: nat)
    requires Grown(s, u, j) && Grown(u, t, k)
    ensures Grown(s, t, j + k)
  {
  }

  /** And then the consumer. */
  method FeedTurn(ghost run: (Recv, seq<Byte>) -> Recv, r: Receiver, ghost s: Recv, bytes: seq<Byte>, used: nat,
                  size: nat, gets: nat, got: seq<Delivery>, ghost dropped: bool)
    returns (used': nat, got': seq<Delivery>, ghost dropped': bool)
    requires Follows(r.link, run) && used < |bytes| && r.dmaLen <= |bytes| - used && size > 0
    requires s.Valid() && |s.delivered| + 3 * |bytes| <= s.capacity
    requires Fed(run, r, s, bytes, used, got, dropped)
    modifies r
    ensures used < used' && Fed(run, r, s, bytes, used', got', dropped')
  {
    var n := if r.dmaLen > 0 then r.dmaLen else Min(size, |bytes| - used);
    used' := used + n;
    dropped' := FeedPart(run, r, s, bytes, used, n, got, dropped);
    got' := TakeOut(r, gets, run(s, bytes[..used']), got, dropped');
  }

  /** After some bytes of a line. */
  ghost predicate Fed(run: (Recv, seq<Byte>) -> Recv, r: Receiver, s: Recv, bytes: seq<Byte>, used: nat,
                      got: seq<Delivery>, dropped: bool)
    reads r
  {
    && used <= |bytes| && Beside(r, run(s, bytes[..used]))
    && Served(run(s, bytes[..used]), got, r.queue, r.capacity, dropped)
    && Grown(s, run(s, bytes[..used]), 3 * used)
  }

  lemma FedNothing(run: (Recv, seq<Byte>) -> Recv, r: Receiver, s: Recv, bytes: seq<Byte>)
    requires Follows(r.link, run) && Beside(r, s) && s.Valid() && s.delivered == r.queue
    ensures Fed(run, r, s, bytes, 0, [], false)
  {
    RunAt(r.link, run, s, []);
    assert bytes[..0] == [];
  }

  /** The bytes of a line in chunks of any sizes, except while a DMA transfer is on; after each the
      consumer takes out as many packs as it likes. */
  method FeedLine(ghost run: (Recv, seq<Byte>) -> Recv, r: Receiver, ghost s: Recv, bytes: seq<Byte>, size: nat -> nat,
                  gets: nat -> nat) returns (used: nat, got: seq<Delivery>, ghost dropped: bool)
    requires Follows(r.link, run) && Beside(r, s) && s.Valid() && s.delivered == r.queue
    requires |s.delivered| + 3 * |bytes| <= s.capacity && forall i: nat :: size(i) > 0
    modifies r
    ensures Fed(run, r, s, bytes, used, got, dropped)
    ensures used < |bytes| ==> r.dmaLen > |bytes| - used
  {
    FedNothing(run, r, s, bytes);
    used, got, dropped := 0, [], false;
    var i := 0;
    while used < |bytes| && r.dmaLen <= |bytes| - used
      invariant Fed(run, r, s, bytes, used, got, dropped) == true
      decreases |bytes| - used
    {
      used, got, dropped := FeedTurn(run, r, s, bytes, used, size(i), gets(i), got, dropped);
      i := i + 1;
    }
  }

  /** A body under way that is longer than the rest of the line leaves the receiver in its body. */
  lemma StillInBody(link: Link, s: Recv, bytes: seq<Byte>)
    requires s.Valid() && s.phase == CheckBody && s.bodyCount > 0 && s.bodyCount + |bytes| < BodySize(s.header)
    ensures RecvAll(link, s, bytes).phase == CheckBody
  {
    if bytes != [] {
      BodyRun(link, s, bytes);
    }
  }

  /** A stream that ends between frames never leaves a DMA transfer waiting. */
  lemma NothingLeft(link: Link, run: (Recv, seq<Byte>) -> Recv, s: Recv, bytes: seq<Byte>, used: nat, dmaLen: nat)
    requires Follows(link, run) && s.Valid() && used < |bytes| && |bytes| - used < dmaLen
    requires run(s, bytes[..used]).Valid() && run(s, bytes).phase == FindMagic
    ensures var t := run(s, bytes[..used]);
      t.phase == CheckBody && t.bodyCount > 0 ==> t.bodyCount + dmaLen > BodySize(t.header)
  {
    var t := run(s, bytes[..used]);
    assert bytes == bytes[..used] + bytes[used..];
    Compose(link, run, s, bytes[..used], bytes[used..], bytes);
    assert run(t, bytes[used..]) == RecvAll(link, t, bytes[used..]);
    if t.phase == CheckBody && t.bodyCount > 0 && t.bodyCount + dmaLen <= BodySize(t.header) {
      StillInBody(link, t, bytes[used..]);
    }
  }

  /** All of ms arrived, in order: the first ones were taken out, the others are in the queue. */
  ghost predicate AllServed(link: Link, s: Recv, t: Recv, got: seq<Delivery>, ms: seq<Message>) {
    AllReceived(link, s.(capacity := 0), t.(delivered := got + t.delivered, capacity := 0), ms)
  }

  lemma CapacityAside(link: Link, s: Recv, t: Recv, ms: seq<Message>)
    requires AllReceived(link, s, t, ms)
    ensures AllReceived(link, s.(capacity := 0), t.(capacity := 0), ms)
  {
    forall i | 0 <= i < |ms|
      ensures Placed(link, s.(capacity := 0), t.(capacity := 0), ms, i)
    {
      assert Placed(link, s, t, ms, i);
    }
  }

  /** Frames on the line, in chunks of any sizes, with the receiver's own DMA transfers and a consumer. */
  method Arrive(r: Receiver, ghost ms: seq<Message>, bytes: seq<Byte>, size: nat -> nat, gets: nat -> nat)
    returns (got: seq<Delivery>, ghost dropped: bool)
    requires r.Valid() && r.link.Valid() && |r.queue| <= r.capacity && forall i: nat :: size(i) > 0
    requires r.dmaLen == 0 && Idle(r.Abs())
    requires forall i | 0 <= i < |ms| :: CanTake(r.slots, ms[i]) && ms[i].Fits()
    modifies r
    ensures r.Valid()
    ensures bytes == Frames(r.link, ms) ==>
      && (!dropped ==> AllServed(r.link, old(r.Abs()), r.Abs(), got, ms))
      && (dropped <==> |got| + |r.queue| < |old(r.queue)| + |ms|)
      && (|old(r.queue)| + |ms| <= r.capacity ==> !dropped)
  {
    ghost var run, s0 := RunOf(r.link), r.Abs();
    ghost var s := s0.(capacity := |r.queue| + 3 * |bytes| + |ms|);
    RunFollows(r.link);
    FramesRun(r.link, run, s, ms);
    var used;
    used, got, dropped := FeedLine(run, r, s, bytes, size, gets);
    if bytes == Frames(r.link, ms) {
      assert used == |bytes| by {
        if used < |bytes| {
          NothingLeft(r.link, run, s, bytes, used, r.dmaLen);
        }
      }
      assert bytes[..used] == bytes;
      CapacityAside(r.link, s, run(s, bytes), ms);
    }
  }

  /** End to end: whatever was posted, under any grants, chunks and DMA splits, arrives as exactly
      the list of messages the sender took, sequence numbers included, and it took all of them if
      they fit its queue.  Only a grant of no bytes can lose something on the way, and only a full
      queue at its end: that is so exactly when packs are missing. */
  method EndToEnd(s: Sender, r: Receiver, events: seq<Event>, room: nat -> nat, size: nat -> nat, gets: nat -> nat)
    returns (posted: seq<Message>, ghost lost: bool, got: seq<Delivery>, ghost dropped: bool)
    requires s.Valid() && !s.sending && s.wire == [] && r.Valid() && s.link == r.link
    requires r.dmaLen == 0 && Idle(r.Abs()) && |r.queue| <= r.capacity
    requires (forall i: nat :: room(i) > 0 && size(i) > 0) && AllFit(events)
    requires forall i | 0 <= i < |events| :: events[i].Post? ==> CanTake(r.slots, events[i].m)
    modifies s, r
    ensures Taken(events, posted, old(s.sequence)) && (Posts(events) <= s.capacity ==> |posted| == Posts(events))
    ensures RightNumbers(events, posted, old(s.sequence))
    ensures !lost <==> s.wire == Frames(s.link, posted)
    ensures Room(0) !in events ==> !lost
    ensures !lost && !dropped ==> AllServed(r.link, old(r.Abs()), r.Abs(), got, posted)
    ensures !lost ==> (dropped <==> |got| + |r.queue| < |old(r.queue)| + |posted|)
    ensures !lost && |old(r.queue)| + |posted| <= r.capacity ==> !dropped
    ensures r.Valid()
  {
    posted, lost := SendAll(s, events, room);
    TakenFits(r.slots, events, posted, old(s.sequence));
    TakenNumbers(events, posted, old(s.sequence));
    got, dropped := Arrive(r, posted, s.wire, size, gets);
  }

  /** The sender's half: all frames are on the wire, and nothing else. */
  method SendAll(s: Sender, events: seq<Event>, room: nat -> nat) returns (posted: seq<Message>, ghost lost: bool)
    requires s.Valid() && !s.sending && s.wire == [] && (forall i: nat :: room(i) > 0) && AllFit(events)
    modifies s
    ensures s.Valid() && Taken(events, posted, old(s.sequence))
    ensures Posts(events) <= s.capacity ==> |posted| == Posts(events)
    ensures !lost <==> s.wire == Frames(s.link, posted)
    ensures Room(0) !in events ==> !lost
  {
    posted, lost := Run(s, events);
    Flush(s, room);
  }
}
