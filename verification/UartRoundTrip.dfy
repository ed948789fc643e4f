/** What a sent frame does to an idle receiver: every message arrives once, whole and in order. */
module UartRoundTrip {
  import opened Registers
  import opened UartFrame
  import opened UartReceive

  /** The message pack a message with these checksum bytes must arrive as. */
  predicate CarriesWith(d: Delivery, m: Message, vef: seq<Byte>) {
    && CmdOf(d.header) == m.cmd && SeqOf(d.header) == m.seqNo && FlagsOf(d.header) == m.flags
    && d.len == |m.body| && d.body == m.body
    && (m.flags != 0 ==> d.vef == vef)
  }

  predicate Carries(link: Link, d: Delivery, m: Message) { CarriesWith(d, m, link.crc(m.body)) }

  /** Where in its buffer the next body goes. */
  function PlaceIn(slot: Slot, m: Message): nat {
    if slot.offset + LengthField(m) > |slot.buffer| then 0 else slot.offset
  }

  function PlaceFor(slots: seq<Slot>, m: Message): Address {
    var i := FindSlot(slots, m.cmd, 0);
    if i < |slots| then At(i, PlaceIn(slots[i], m)) else Null
  }

  /** The registrations and their buffers after one message. */
  function Filed(slots: seq<Slot>, m: Message): (r: seq<Slot>)
    ensures SameShape(r, slots)
  {
    var i := FindSlot(slots, m.cmd, 0);
    if m.body == [] || i == |slots| || |m.body| > |slots[i].buffer| then slots
    else
      var o := PlaceIn(slots[i], m);
      slots[i := slots[i].(offset := o + |m.body|, buffer := Overwrite(slots[i].buffer, o, m.body))]
  }

  /** And after several. */
  function FiledAll(slots: seq<Slot>, ms: seq<Message>): seq<Slot>
    decreases |ms|
  {
    if ms == [] then slots else FiledAll(Filed(slots, ms[0]), ms[1..])
  }

  /** A body of n bytes needs a registration of its id with a large enough buffer. */
  predicate HasRoom(slots: seq<Slot>, cmd: int, n: nat) {
    n == 0 ||
    var i := FindSlot(slots, cmd, 0);
    i < |slots| && slots[i].hasBuffer && n <= |slots[i].buffer|
  }

  predicate CanTake(slots: seq<Slot>, m: Message) { HasRoom(slots, m.cmd, |m.body|) }

  /** The same registrations, wherever the next body goes and whatever the buffers hold. */
  predicate SameShape(a: seq<Slot>, b: seq<Slot>) {
    && |a| == |b|
    && forall i | 0 <= i < |a| ::
         a[i].id == b[i].id && a[i].hasBuffer == b[i].hasBuffer && |a[i].buffer| == |b[i].buffer|
  }

  lemma {:induction false} SameShapeFinds(a: seq<Slot>, b: seq<Slot>, id: int, from: nat)
    requires SameShape(a, b) && from <= |a|
    ensures FindSlot(a, id, from) == FindSlot(b, id, from)
    decreases |a| - from
  {
    if from < |a| && a[from].id != id {
      SameShapeFinds(a, b, id, from + 1);
    }
  }

  /** Two parts of a stream, one after the other. */
  lemma Compose(link: Link, run: (Recv, seq<Byte>) -> Recv, s: Recv, a: seq<Byte>, b: seq<Byte>, whole: seq<Byte>)
    requires Follows(link, run) && s.Valid() && run(s, a).Valid() && whole == a + b
    ensures run(s, whole) == run(run(s, a), b)
  {
    assert run(s, a) == RecvAll(link, s, a);
    RecvConcat(link, s, a, b);
    assert run(s, whole) == RecvAll(link, s, whole);
    assert run(run(s, a), b) == RecvAll(link, run(s, a), b);
  }

  // ---------------------------------------------------------------- the magic word

  lemma EarlyMatchIsZero(magic: seq<Byte>, i: nat)
    requires |magic| == 4 && i < 4 && (ZERO_WORD + magic[..i])[i..] == magic
    ensures magic == ZERO_WORD
  {
    var r := (ZERO_WORD + magic[..i])[i..];
    assert r[0] == magic[0] && r[1] == magic[1] && r[2] == magic[2] && r[3] == magic[3];
  }

  function Shifted(s: Recv, bytes: seq<Byte>): Recv {
    s.(header := WithMagic(s.header, (MagicOf(s.header) + bytes)[|bytes|..]))
  }

  lemma MagicStep(link: Link, s: Recv, b: Byte)
    requires s.Valid() && s.phase == FindMagic && MagicOf(s.header) != link.magic
    ensures var t := Shifted(s, [b]);
      RecvAll(link, s, [b]) == t.(phase := if MagicOf(t.header) == link.magic then CheckHeader else FindMagic)
  {
    assert RecvByte(link, s, b) == MagicByte(link, s, b);
    assert [b][1..] == [];
    assert (MagicOf(s.header) + [b])[1..] == s.header[1..4] + [b];
  }

  lemma ShiftOneMore(s: Recv, bytes: seq<Byte>, b: Byte)
    ensures Shifted(Shifted(s, bytes), [b]) == Shifted(s, bytes + [b])
  {
    var k := |bytes|;
    var m := MagicOf(s.header);
    assert MagicOf(Shifted(s, bytes).header) == (m + bytes)[k..];
    assert ((m + bytes)[k..] + [b])[1..] == (m + (bytes + [b]))[k + 1..];
  }

  /** A register that starts at zero does not hold a non-zero word before its last byte. */
  lemma RegisterHolds(link: Link, s: Recv, bytes: seq<Byte>)
    requires link.Valid() && Idle(s) && bytes <= link.magic
    ensures MagicOf(Shifted(s, bytes).header) == link.magic <==> |bytes| == 4
  {
    assert MagicOf(Shifted(s, bytes).header) == (ZERO_WORD + bytes)[|bytes|..];
    if |bytes| < 4 && (ZERO_WORD + bytes)[|bytes|..] == link.magic {
      EarlyMatchIsZero(link.magic, |bytes|);
    }
  }

  lemma MagicAppend(link: Link, run: (Recv, seq<Byte>) -> Recv, s: Recv, bytes: seq<Byte>, b: Byte, whole: seq<Byte>)
    requires Follows(link, run) && Idle(s) && run(s, bytes) == Shifted(s, bytes) && whole == bytes + [b]
    requires MagicOf(Shifted(s, bytes).header) != link.magic
    ensures var t := Shifted(s, whole);
      run(s, whole) == t.(phase := if MagicOf(t.header) == link.magic then CheckHeader else FindMagic)
  {
    MagicStep(link, Shifted(s, bytes), b);
    assert run(Shifted(s, bytes), [b]) == RecvAll(link, Shifted(s, bytes), [b]);
    ShiftOneMore(s, bytes, b);
    Compose(link, run, s, bytes, [b], whole);
  }

  lemma {:induction false} MagicRun(link: Link, run: (Recv, seq<Byte>) -> Recv, s: Recv, bytes: seq<Byte>)
    requires link.Valid() && Follows(link, run) && Idle(s) && bytes <= link.magic
    ensures run(s, bytes) == Shifted(s, bytes).(phase := if |bytes| == 4 then CheckHeader else FindMagic)
    decreases |bytes|
  {
    if bytes == [] {
      assert run(s, bytes) == RecvAll(link, s, bytes);
      assert Shifted(s, bytes).header == s.header;
    } else {
      var k := |bytes| - 1;
      MagicRun(link, run, s, bytes[..k]);
      RegisterHolds(link, s, bytes[..k]);
      RegisterHolds(link, s, bytes);
      MagicAppend(link, run, s, bytes[..k], bytes[k], bytes);
    }
  }

  // ---------------------------------------------------------------- the header

  /** The magic word of a frame. */
  lemma MagicArrives(link: Link, run: (Recv, seq<Byte>) -> Recv, s: Recv)
    requires link.Valid() && Follows(link, run) && Idle(s)
    ensures run(s, link.magic) == s.(header := WithMagic(s.header, link.magic), phase := CheckHeader)
  {
    MagicRun(link, run, s, link.magic);
    assert (MagicOf(s.header) + link.magic)[4..] == link.magic;
  }

  lemma FieldsArrive(link: Link, t: Recv, h: Header)
    requires t.Valid() && t.phase == CheckHeader && t.headerCount == 4 && MagicOf(t.header) == MagicOf(h)
    ensures RecvAll(link, t, h[4..]) == FinishHeader(link, t.(header := h))
  {
    HeaderRun(link, t, h[4..]);
    assert Overwrite(t.header, 4, h[4..]) == h;
    assert CopyHeader(t, h[4..]) == t.(header := h, headerCount := HEADER_SIZE);
  }

  /** A header with the right magic word, sent to an idle receiver. */
  lemma HeaderArrives(link: Link, run: (Recv, seq<Byte>) -> Recv, s: Recv, h: Header)
    requires link.Valid() && Follows(link, run) && Idle(s) && MagicOf(h) == link.magic
    ensures run(s, h) == FinishHeader(link, s.(header := h, phase := CheckHeader))
  {
    var t := s.(header := WithMagic(s.header, link.magic), phase := CheckHeader);
    assert MagicOf(t.header) == link.magic;
    MagicArrives(link, run, s);
    assert run(t, h[4..]) == FinishHeader(link, t.(header := h)) by {
      FieldsArrive(link, t, h);
      assert run(t, h[4..]) == RecvAll(link, t, h[4..]);
    }
    Compose(link, run, s, link.magic, h[4..], h);
  }

  // ---------------------------------------------------------------- the body and its checksum

  /** A header whose fields say what m says. */
  predicate Describes(h: Header, m: Message) {
    && CmdOf(h) == m.cmd && SeqOf(h) == m.seqNo && FlagsOf(h) == m.flags
    && LengthOf(h) == LengthField(m) && BodySize(h) == |m.body|
  }

  /** The header has arrived, and says that something follows. */
  predicate BodyAhead(s: Recv, h: Header) {
    s.Valid() && s.phase == CheckBody && s.header == h && s.bodyCount == 0 && s.headerCount == 4
  }

  /** The state a stored body leaves, before the message pack is pushed or its checksum awaited. */
  predicate BodyIn(s: Recv, t: Recv, m: Message) {
    && t.Valid() && t.phase == CheckBody && t.header == s.header && t.headerCount == 4
    && (m.body != [] ==> t.BodyFits()) && t.BodyAt(|m.body|) == m.body && SameShape(t.slots, s.slots)
    && t.delivered == s.delivered && t.capacity == s.capacity && FiledBody(s, t, m)
  }

  /** The buffers hold one body more. */
  predicate FiledBody(s: Recv, t: Recv, m: Message) {
    t.slots == Filed(s.slots, m) && (m.body != [] ==> t.addr == PlaceFor(s.slots, m))
  }

  /** Room for the body has been reserved. */
  predicate BodyRoom(s: Recv, t: Recv) {
    && t.Valid() && t.phase == CheckBody && t.header == s.header && t.headerCount == 4 && t.bodyCount == 0
    && t.BodyFits() && SameShape(t.slots, s.slots) && t.delivered == s.delivered && t.capacity == s.capacity
  }

  lemma RoomForBody(s: Recv, m: Message)
    requires BodyAhead(s, s.header) && Describes(s.header, m) && m.body != [] && CanTake(s.slots, m)
    ensures PrepareRecv(s).0 && BodyRoom(s, Started(s))
  {
    PrepareValid(s);
  }

  lemma ShapeStays(a: seq<Slot>, b: seq<Slot>, c: seq<Slot>)
    requires SameButContents(a, b) && SameShape(b, c)
    ensures SameShape(a, c)
  {
  }

  lemma StoredShape(s: Recv, t: Recv, body: seq<Byte>)
    requires BodyRoom(s, t) && |body| <= BodySize(t.header)
    ensures SameShape(StoreAll(t, body).slots, s.slots) && StoreAll(t, body).BodyFits()
    ensures StoreAll(t, body).BodyAt(|body|) == body
  {
    StoreKeeps(t, body);
    ShapeStays(StoreAll(t, body).slots, t.slots, s.slots);
    StoredBody(t, body);
    assert t.BodyAt(0) == [];
  }

  lemma BodyFiled(s: Recv, m: Message)
    requires BodyAhead(s, s.header) && Describes(s.header, m) && m.body != [] && CanTake(s.slots, m)
    ensures FiledBody(s, StoreAll(Started(s), m.body), m)
  {
    var t := PrepareRecv(s).1;
    PutBytesKeeps(t.slots, t.addr, 0, m.body);
  }

  lemma BodyStored(s: Recv, t: Recv, m: Message)
    requires BodyRoom(s, t) && Describes(s.header, m) && LengthOf(s.header) > 0
    requires FiledBody(s, StoreAll(t, m.body), m)
    ensures BodyIn(s, StoreAll(t, m.body), m)
  {
    StoredShape(s, t, m.body);
    StoreValid(t, m.body);
  }

  lemma BodyArrives(link: Link, s: Recv, m: Message)
    requires BodyAhead(s, s.header) && Describes(s.header, m) && m.body != [] && CanTake(s.slots, m)
    ensures RecvAll(link, s, m.body) == FinishBody(StoreAll(Started(s), m.body))
  {
    RoomForBody(s, m);
    BodyRun(link, s, m.body);
  }

  /** What one message with these checksum bytes leaves behind. */
  predicate Received(s: Recv, t: Recv, m: Message, vef: seq<Byte>) {
    && Idle(t) && t.slots == Filed(s.slots, m) && t.capacity == s.capacity
    && if |s.delivered| < s.capacity
       then t.delivered != [] && t.delivered[..|t.delivered| - 1] == s.delivered
            && CarriesWith(t.delivered[|t.delivered| - 1], m, vef)
            && (m.body != [] ==> t.delivered[|t.delivered| - 1].addr == PlaceFor(s.slots, m))
       else t.delivered == s.delivered
  }

  /** The checksum after a body, empty or not, whether it is right or not. */
  lemma VefArrives(link: Link, s: Recv, t: Recv, m: Message, vef: seq<Byte>)
    requires link.Valid() && BodyIn(s, t, m) && Describes(t.header, m) && m.flags != 0 && |vef| == 4
    ensures var u := t.(phase := BodyVef, bodyCount := 0);
      u.Valid() && Received(s, RecvAll(link, u, vef), m, vef)
  {
    var u := t.(phase := BodyVef, bodyCount := 0);
    VefRun(link, u, vef);
    assert (u.tmpVef + vef)[4..] == vef;
  }

  lemma PlainBodyDone(s: Recv, t: Recv, m: Message, vef: seq<Byte>)
    requires BodyIn(s, t, m) && Describes(t.header, m) && m.flags == 0
    ensures Received(s, FinishBody(t), m, vef)
  {
  }

  /** An empty body: only its checksum follows. */
  lemma EmptyBodyArrives(link: Link, s: Recv, m: Message, vef: seq<Byte>)
    requires link.Valid() && BodyAhead(s, s.header) && Describes(s.header, m) && m.body == [] && m.flags != 0
    requires |vef| == 4
    ensures Received(s, RecvAll(link, s, vef), m, vef)
  {
    MoveFirst(link, s, vef);
    assert Move(link, s) == s.(phase := BodyVef, bodyCount := 0);
    VefArrives(link, s, s, m, vef);
  }

  /** Body and checksum after a good header. */
  lemma RestArrives(link: Link, run: (Recv, seq<Byte>) -> Recv, s: Recv, m: Message, vef: seq<Byte>)
    requires link.Valid() && Follows(link, run) && BodyAhead(s, s.header) && Describes(s.header, m)
    requires LengthOf(s.header) > 0 && CanTake(s.slots, m) && |vef| == 4
    ensures Received(s, run(s, m.body + Trailer(m, vef)), m, vef)
  {
    if m.body == [] {
      assert m.body + Trailer(m, vef) == vef;
      EmptyBodyArrives(link, s, m, vef);
      assert run(s, vef) == RecvAll(link, s, vef);
    } else {
      FullBodyArrives(link, run, s, m, vef);
    }
  }

  lemma FullBodyArrives(link: Link, run: (Recv, seq<Byte>) -> Recv, s: Recv, m: Message, vef: seq<Byte>)
    requires link.Valid() && Follows(link, run) && BodyAhead(s, s.header) && Describes(s.header, m)
    requires m.body != [] && CanTake(s.slots, m) && |vef| == 4
    ensures Received(s, run(s, m.body + Trailer(m, vef)), m, vef)
  {
    var t := StoreAll(Started(s), m.body);
    RoomForBody(s, m);
    BodyFiled(s, m);
    BodyStored(s, Started(s), m);
    assert run(s, m.body) == FinishBody(t) by {
      BodyArrives(link, s, m);
      assert run(s, m.body) == RecvAll(link, s, m.body);
    }
    if m.flags == 0 {
      assert m.body + Trailer(m, vef) == m.body;
      PlainBodyDone(s, t, m, vef);
    } else {
      VefArrives(link, s, t, m, vef);
      var u := t.(phase := BodyVef, bodyCount := 0);
      assert run(u, vef) == RecvAll(link, u, vef);
      Compose(link, run, s, m.body, vef, m.body + Trailer(m, vef));
    }
  }

  lemma HeaderDescribes(link: Link, m: Message)
    requires link.Valid() && m.Fits()
    ensures Describes(HeaderFor(link, m), m)
  {
    HeaderForFields(link, m);
  }

  /** One frame, sent to an idle receiver that has room for it, arrives with the checksum bytes it has. */
  lemma FrameWithArrives(link: Link, run: (Recv, seq<Byte>) -> Recv, s: Recv, m: Message, vef: seq<Byte>)
    requires link.Valid() && Follows(link, run) && Idle(s) && m.Fits() && CanTake(s.slots, m) && |vef| == 4
    ensures Received(s, run(s, FrameWith(link, m, vef)), m, vef)
  {
    var h := HeaderFor(link, m);
    HeaderDescribes(link, m);
    HeaderArrives(link, run, s, h);
    if LengthOf(h) == 0 {
      assert FrameWith(link, m, vef) == h;
    } else {
      var s1 := s.(header := h, phase := CheckBody);
      assert run(s, h) == s1;
      RestArrives(link, run, s1, m, vef);
      Compose(link, run, s, h, m.body + Trailer(m, vef), FrameWith(link, m, vef));
    }
  }

  /** The frame of a message arrives whole. */
  lemma FrameArrives(link: Link, run: (Recv, seq<Byte>) -> Recv, s: Recv, m: Message)
    requires link.Valid() && Follows(link, run) && Idle(s) && m.Fits() && CanTake(s.slots, m)
    ensures Received(s, run(s, Frame(link, m)), m, link.crc(m.body))
  {
    FrameWithArrives(link, run, s, m, link.crc(m.body));
  }

  /** All of ms arrived, in order, and the receiver is ready for more; their bodies went to the
      places the registrations gave them. */
  ghost predicate AllReceived(link: Link, s: Recv, t: Recv, ms: seq<Message>) {
    && Idle(t) && t.slots == FiledAll(s.slots, ms) && t.capacity == s.capacity
    && |t.delivered| == |s.delivered| + |ms| && t.delivered[..|s.delivered|] == s.delivered
    && forall i | 0 <= i < |ms| :: Placed(link, s, t, ms, i)
  }

  /** The i-th of them is in the queue, and says where its body was put. */
  predicate Placed(link: Link, s: Recv, t: Recv, ms: seq<Message>, i: nat)
    requires i < |ms| && |s.delivered| + |ms| <= |t.delivered|
  {
    var d := t.delivered[|s.delivered| + i];
    Carries(link, d, ms[i]) && (ms[i].body != [] ==> d.addr == PlaceFor(FiledAll(s.slots, ms[..i]), ms[i]))
  }

  lemma PlacedNext(link: Link, s: Recv, t: Recv, u: Recv, ms: seq<Message>, i: nat)
    requires 0 < i < |ms| && |u.delivered| == |s.delivered| + |ms| && |t.delivered| == |s.delivered| + 1
    requires t.slots == Filed(s.slots, ms[0]) && Placed(link, t, u, ms[1..], i - 1)
    ensures Placed(link, s, u, ms, i)
  {
    assert ms[..i][1..] == ms[1..][..i - 1];
  }

  lemma PlacedFirst(link: Link, s: Recv, t: Recv, u: Recv, ms: seq<Message>)
    requires ms != [] && |s.delivered| < s.capacity && Received(s, t, ms[0], link.crc(ms[0].body))
    requires |u.delivered| == |s.delivered| + |ms| && u.delivered[..|t.delivered|] == t.delivered
    ensures Placed(link, s, u, ms, 0)
  {
    var n := |s.delivered|;
    assert u.delivered[..n + 1][n] == u.delivered[n];
    assert ms[..0] == [];
  }

  lemma OneMoreReceived(link: Link, s: Recv, t: Recv, u: Recv, ms: seq<Message>)
    requires ms != [] && |s.delivered| < s.capacity
    requires Received(s, t, ms[0], link.crc(ms[0].body)) && AllReceived(link, t, u, ms[1..])
    ensures AllReceived(link, s, u, ms)
  {
    var n := |s.delivered|;
    assert u.delivered[..n + 1][..n] == u.delivered[..n];
    forall i | 0 <= i < |ms|
      ensures Placed(link, s, u, ms, i)
    {
      if i > 0 {
        PlacedNext(link, s, t, u, ms, i);
      } else {
        PlacedFirst(link, s, t, u, ms);
      }
    }
  }

  lemma StillTaken(slots: seq<Slot>, slots': seq<Slot>, ms: seq<Message>)
    requires SameShape(slots, slots') && ms != []
    requires forall i | 0 <= i < |ms| :: ms[i].Fits() && CanTake(slots', ms[i])
    ensures forall i | 0 <= i < |ms| - 1 :: ms[1..][i].Fits() && CanTake(slots, ms[1..][i])
  {
    forall i | 0 <= i < |ms| - 1
      ensures ms[1..][i].Fits() && CanTake(slots, ms[1..][i])
    {
      SameShapeFinds(slots, slots', ms[i + 1].cmd, 0);
    }
  }

  lemma {:induction false} FramesRun(link: Link, run: (Recv, seq<Byte>) -> Recv, s: Recv, ms: seq<Message>)
    requires link.Valid() && Follows(link, run) && Idle(s) && |s.delivered| + |ms| <= s.capacity
    requires forall i | 0 <= i < |ms| :: ms[i].Fits() && CanTake(s.slots, ms[i])
    ensures AllReceived(link, s, run(s, Frames(link, ms)), ms)
    decreases |ms|
  {
    if ms == [] {
      assert run(s, []) == RecvAll(link, s, []);
    } else {
      var t := run(s, Frame(link, ms[0]));
      FrameArrives(link, run, s, ms[0]);
      StillTaken(t.slots, s.slots, ms);
      FramesRun(link, run, t, ms[1..]);
      Compose(link, run, s, Frame(link, ms[0]), Frames(link, ms[1..]), Frames(link, ms));
      OneMoreReceived(link, s, t, run(t, Frames(link, ms[1..])), ms);
    }
  }

  /** A list of frames arrives as the list of messages: same order, fields, bodies and checksums. */
  lemma FramesArrive(link: Link, s: Recv, ms: seq<Message>)
    requires link.Valid() && Idle(s) && |s.delivered| + |ms| <= s.capacity
    requires forall i | 0 <= i < |ms| :: ms[i].Fits() && CanTake(s.slots, ms[i])
    ensures AllReceived(link, s, RecvAll(link, s, Frames(link, ms)), ms)
  {
    RunFollows(link);
    FramesRun(link, RunOf(link), s, ms);
  }
}
