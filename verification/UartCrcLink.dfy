/** The link of lvp/common/uart_message_v2.c with its real checksum and magic words, which the code
    keeps as 32-bit little-endian numbers. */
module UartCrcLink {
  import opened Registers
  import opened Crc32
  import opened UartFrame
  import opened UartReceive
  import opened UartRoundTrip
  import opened UartMemory
  import opened UartReceivers
  import opened UartSenders
  import opened UartLine

  /** MSG_HOST_MAGIC */
  const HOST_MAGIC: Word := 0x42555858

  function LowByteOf(w: Word): Byte { (w & 0xff) as Byte }

  /** The four bytes of a number in memory. */
  function Bytes(w: Word): (s: seq<Byte>)
    ensures |s| == 4
  {
    [LowByteOf(w), LowByteOf(w >> 8), LowByteOf(w >> 16), LowByteOf(w >> 24)]
  }

  function ChecksumBytes(data: seq<Byte>): (s: seq<Byte>)
    ensures |s| == 4
  {
    Bytes(Crc(0, data))
  }

  function CrcLink(magic: Word): Link { Link(Bytes(magic), ChecksumBytes) }

  lemma LoadFour(a: Byte, b: Byte, c: Byte, d: Byte)
    ensures Load([a, b, c, d]) == Cons(a, Cons(b, Cons(c, Cons(d, 0))))
  {
    PackFour(Cons, 0, a, b, c, d);
  }

  /** A number is what its bytes load as. */
  lemma LoadBytes(w: Word)
    ensures Load(Bytes(w)) == w
  {
    LoadFour(LowByteOf(w), LowByteOf(w >> 8), LowByteOf(w >> 16), LowByteOf(w >> 24));
  }

  /** Four bytes are determined by the number they load as. */
  lemma LoadInjective(s: seq<Byte>, t: seq<Byte>)
    requires |s| == |t| == 4 && Load(s) == Load(t)
    ensures s == t
  {
    ByteStepShiftsAll();
    WordsPack(ByteStep);
    PackInjective(UpdateWith(ByteStep), ByteStep, Xor, Cons, 0, Fits, s, t);
  }

  lemma LinkValid(magic: Word)
    requires magic != 0
    ensures CrcLink(magic).Valid()
  {
    LoadBytes(magic);
    LoadBytes(0);
    LoadFour(0, 0, 0, 0);
    if Bytes(magic) == ZERO_WORD {
      ZeroLoads();
    }
  }

  lemma ZeroLoads()
    ensures Load(ZERO_WORD) == 0
  {
    LoadFour(0, 0, 0, 0);
  }

  /** The shift registers of the receiver: a byte in at the top moves the others down. */
  function ShiftRegister(w: Word, e: Byte): Word { (w >> 8) | (Widen(e) << 24) }

  lemma ShiftIn(a: Byte, b: Byte, c: Byte, d: Byte, e: Byte)
    ensures Cons(b, Cons(c, Cons(d, Cons(e, 0)))) == ShiftRegister(Cons(a, Cons(b, Cons(c, Cons(d, 0)))), e)
  {
  }

  lemma FourShift(a: Byte, b: Byte, c: Byte, d: Byte, e: Byte)
    ensures Load([b, c, d, e]) == ShiftRegister(Load([a, b, c, d]), e)
  {
    LoadFour(a, b, c, d);
    LoadFour(b, c, d, e);
    ShiftIn(a, b, c, d, e);
  }

  lemma FourOf(s: seq<Byte>, e: Byte)
    requires |s| == 4
    ensures s == [s[0], s[1], s[2], s[3]] && s[1..] + [e] == [s[1], s[2], s[3], e]
  {
  }

  lemma RegisterShifts(s: seq<Byte>, e: Byte)
    requires |s| == 4
    ensures Load(s[1..] + [e]) == ShiftRegister(Load(s), e)
  {
    FourOf(s, e);
    FourShift(s[0], s[1], s[2], s[3], e);
  }

  /** _CheckCrc */
  predicate CheckCrc(data: seq<Byte>, standard: Word) { standard == Crc(0, data) }

  /** The comparison of checksum bytes is the comparison of the numbers. */
  lemma HeaderCheck(magic: Word, h: Header)
    ensures HeaderCrcOk(CrcLink(magic), h) <==> CheckCrc(h[..10], Load(h[10..]))
  {
    LoadBytes(Crc(0, h[..10]));
    if Load(h[10..]) == Crc(0, h[..10]) {
      LoadInjective(h[10..], ChecksumBytes(h[..10]));
    }
  }

  /** The test of UartMessageAsyncTick, on the memory the pack points at; made only when flags are 1. */
  predicate TickAccepts(slots: seq<Slot>, d: Delivery) {
    FlagsOf(d.header) == 1 ==> CheckCrc(Fetch(slots, d), Load(d.vef))
  }

  /** Of a list of frames, every message passes whose body is still in its place: all of them if the
      bodies with its id fit in a row behind the offset. */
  lemma CarriedAccepted(magic: Word, s: Recv, t: Recv, ms: seq<Message>, k: nat)
    requires AllReceived(CrcLink(magic), s, t, ms) && k < |ms| && CanTake(s.slots, ms[k]) && Undisturbed(s.slots, ms, k)
    ensures TickAccepts(t.slots, t.delivered[|s.delivered| + k])
  {
    assert Placed(CrcLink(magic), s, t, ms, k);
    FetchesBody(CrcLink(magic), s, t, ms, k);
    LoadBytes(Crc(0, ms[k].body));
  }

  /** What the line makes of a frame when it damages what follows the header: body and checksum. */
  function DamagedFrame(magic: Word, m: Message, damaged: seq<Byte>): seq<Byte>
    requires magic != 0
  {
    LinkValid(magic);
    HeaderFor(CrcLink(magic), m) + damaged
  }

  /** A frame whose body and checksum are damaged within four consecutive bytes arrives, with the
      damaged body, and is then rejected. */
  lemma DamageRejected(magic: Word, s: Recv, m: Message, p: seq<Byte>, good: seq<Byte>, bad: seq<Byte>, q: seq<Byte>)
    requires magic != 0 && Idle(s) && m.Fits() && CanTake(s.slots, m) && |s.delivered| < s.capacity
    requires m.flags == 1 && m.body + ChecksumBytes(m.body) == p + good + q && |good| == |bad| <= 4 && good != bad
    ensures var t := RecvAll(CrcLink(magic), s, DamagedFrame(magic, m, p + bad + q));
      && Idle(t) && |t.delivered| == |s.delivered| + 1 && t.delivered[..|s.delivered|] == s.delivered
      && Fetch(t.slots, t.delivered[|s.delivered|]) == (p + bad + q)[..|m.body|]
      && !TickAccepts(t.slots, t.delivered[|s.delivered|])
  {
    LinkValid(magic);
    var all, n := p + bad + q, |m.body|;
    var body, vef := all[..n], all[n..];
    assert all == body + vef;
    FrameParts(HeaderFor(CrcLink(magic), m), body, vef);
    var t := DamagedArrives(CrcLink(magic), s, m, body, vef);
    LoadBytes(Crc(0, m.body));
    SealBroken(0, m.body, ChecksumBytes(m.body), body, vef, p, good, bad, q);
    assert !CheckCrc(Fetch(t.slots, t.delivered[|s.delivered|]), Load(vef));
  }

  lemma FrameParts(h: seq<Byte>, body: seq<Byte>, vef: seq<Byte>)
    ensures h + (body + vef) == h + body + vef
  {
  }

  /** A header damaged within four consecutive bytes behind its magic word is not taken for one. */
  lemma DamagedHeaderDropped(magic: Word, s: Recv, h: Header, bad: Header, p: seq<Byte>, x: seq<Byte>, y: seq<Byte>,
                             q: seq<Byte>)
    requires magic != 0 && Idle(s) && MagicOf(bad) == Bytes(magic) && HeaderCrcOk(CrcLink(magic), h)
    requires h == p + x + q && bad == p + y + q && |x| == |y| <= 4 && x != y
    ensures RecvAll(CrcLink(magic), s, bad) == s.(header := WithMagic(bad, ZERO_WORD))
  {
    LinkValid(magic);
    var link := CrcLink(magic);
    RunFollows(link);
    assert h[..10] + h[10..] == h && bad[..10] + bad[10..] == bad;
    HeaderCheck(magic, h);
    HeaderCheck(magic, bad);
    SealBroken(0, h[..10], h[10..], bad[..10], bad[10..], p, x, y, q);
    HeaderArrives(link, RunOf(link), s, bad);
  }

  /** The packs, those the consumer has taken out and those in the queue, are those of the messages;
      the latter are accepted unless overwritten. */
  ghost predicate Accepted(magic: Word, slots: seq<Slot>, t: Recv, got: seq<Delivery>, ms: seq<Message>) {
    && |got| + |t.delivered| == |ms|
    && forall i | 0 <= i < |ms| ::
         && Carries(CrcLink(magic), (got + t.delivered)[i], ms[i])
         && (i >= |got| && Undisturbed(slots, ms, i) ==> TickAccepts(t.slots, (got + t.delivered)[i]))
  }

  lemma ServedAccepted(magic: Word, s: Recv, t: Recv, got: seq<Delivery>, ms: seq<Message>)
    requires AllServed(CrcLink(magic), s, t, got, ms) && s.delivered == []
    requires forall i | 0 <= i < |ms| :: CanTake(s.slots, ms[i]) && ms[i].Fits()
    ensures Accepted(magic, s.slots, t, got, ms)
  {
    var s0, t0 := s.(capacity := 0), t.(delivered := got + t.delivered, capacity := 0);
    forall i | 0 <= i < |ms|
      ensures Carries(CrcLink(magic), t0.delivered[i], ms[i])
      ensures Undisturbed(s.slots, ms, i) ==> TickAccepts(t.slots, t0.delivered[i])
    {
      assert Placed(CrcLink(magic), s0, t0, ms, i);
      if Undisturbed(s.slots, ms, i) {
        CarriedAccepted(magic, s0, t0, ms, i);
      }
    }
  }

  /** UartMessageAsyncInit: magic 0 stands for MSG_HOST_MAGIC. */
  function Configured(magic: Word): (r: Word)
    ensures r != 0
  {
    if magic == 0 then HOST_MAGIC else magic
  }

  /** Two ends that are initialised alike: whatever is posted arrives unless the receive queue was full,
      and is accepted when its body has not been overwritten. */
  method Exchange(magic: Word, slots: seq<Slot>, sendCapacity: nat, recvCapacity: nat, events: seq<Event>,
                  room: nat -> nat, size: nat -> nat, gets: nat -> nat)
    returns (r: Receiver, posted: seq<Message>, ghost lost: bool, got: seq<Delivery>, ghost dropped: bool)
    requires forall i | 0 <= i < |slots| :: slots[i].Valid()
    requires (forall i: nat :: room(i) > 0 && size(i) > 0) && AllFit(events)
    requires forall i | 0 <= i < |events| :: events[i].Post? ==> CanTake(slots, events[i].m)
    ensures Taken(events, posted, 0) && (Posts(events) <= sendCapacity ==> |posted| == Posts(events))
    ensures RightNumbers(events, posted, 0)
    ensures !lost && !dropped ==> Accepted(Configured(magic), slots, r.Abs(), got, posted)
    ensures !lost ==> (dropped <==> |got| + |r.queue| < |posted|)
    ensures !lost && |posted| <= recvCapacity ==> !dropped
    ensures Room(0) !in events ==> !lost
  {
    var link := CrcLink(Configured(magic));
    LinkValid(Configured(magic));
    var s := new Sender(link, sendCapacity);
    r := new Receiver(link, slots, recvCapacity);
    ghost var before := r.Abs();
    posted, lost, got, dropped := EndToEnd(s, r, events, room, size, gets);
    TakenFits(slots, events, posted, 0);
    if !lost && !dropped {
      ServedAccepted(Configured(magic), before, r.Abs(), got, posted);
    }
  }
}
