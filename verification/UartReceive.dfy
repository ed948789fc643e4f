/** The receive machine of lvp/common/uart_message_v2.c, one byte at a time: what every way of
    cutting the byte stream into chunks and DMA transfers must amount to. */
module UartReceive {
  import opened Registers
  import opened UartFrame

  datatype Phase = FindMagic | CheckHeader | CheckBody | BodyVef

  /** One entry of s_uart_msg_regist_array: hasBuffer is msg_buffer != NULL, base its address. */
  datatype Slot = Slot(id: int, hasBuffer: bool, base: nat, buffer: seq<Byte>, offset: nat)
  {
    /** The sums of _UartMessagePrepareRecv do not wrap. */
    predicate Valid() { |buffer| < 0xffff_0000 && offset < 0xffff_0000 }
  }

  /** body_addr: a place in a registered buffer. */
  datatype Address = Null | At(slot: nat, offset: nat)

  /** The n bytes at an address. */
  function BytesAt(slots: seq<Slot>, addr: Address, n: nat): seq<Byte> {
    if addr.At? && addr.slot < |slots| && addr.offset + n <= |slots[addr.slot].buffer|
    then slots[addr.slot].buffer[addr.offset..addr.offset + n]
    else []
  }

  /** A pack as it is pushed; body is what its address holds at that moment. */
  datatype Delivery = Delivery(header: Header, len: nat, addr: Address, body: seq<Byte>, vef: seq<Byte>)

  /** The receiver's part of a MESSAGE_HANDLE, the static counters, the registrations, and the
      receive queue, which holds up to capacity packs. */
  datatype Recv = Recv(
    phase: Phase,
    header: Header,
    headerCount: nat,
    slots: seq<Slot>,
    addr: Address,
    bodyCount: nat,
    vefCount: nat,
    tmpVef: seq<Byte>,
    bodyVef: seq<Byte>,
    delivered: seq<Delivery>,
    capacity: nat)
  {
    /** The n bytes at the body address. */
    function BodyAt(n: nat): seq<Byte> { BytesAt(slots, addr, n) }

    /** The counters are in range, and a body in progress lies inside its buffer. */
    predicate Valid() {
      && 4 <= headerCount < HEADER_SIZE && vefCount < 4 && |tmpVef| == 4 && |bodyVef| == 4
      && (forall i | 0 <= i < |slots| :: slots[i].Valid())
      && (headerCount > 4 ==> phase == CheckHeader)
      && (phase == CheckBody ==> LengthOf(header) > 0)
      && (phase == CheckBody && bodyCount > 0 ==> bodyCount <= BodySize(header) && BodyFits())
      && (phase != CheckBody ==> bodyCount == 0)
      && (phase != BodyVef ==> vefCount == 0)
      && (phase == BodyVef ==> FlagsOf(header) != 0 && (BodySize(header) > 0 ==> BodyFits()))
    }

    predicate BodyFits() {
      addr.At? && addr.slot < |slots| && addr.offset + BodySize(header) <= |slots[addr.slot].buffer|
    }
  }

  /** Between two frames. */
  predicate Idle(s: Recv) {
    s.Valid() && s.phase == FindMagic && MagicOf(s.header) == ZERO_WORD && s.headerCount == 4
  }

  function WithMagic(h: Header, m: seq<Byte>): Header
    requires |m| == 4
  {
    m + h[4..]
  }

  /** LvpQueuePut: a full queue drops the message pack. */
  function Push(s: Recv, d: Delivery): seq<Delivery> {
    if |s.delivered| < s.capacity then s.delivered + [d] else s.delivered
  }

  /** Push the message pack and forget its magic word. */
  function Deliver(s: Recv, len: nat): Recv {
    s.(phase := FindMagic,
       header := WithMagic(s.header, ZERO_WORD),
       delivered := Push(s, Delivery(s.header, len, s.addr, s.BodyAt(len), s.bodyVef)))
  }

  /** The first registration with the id of the message pack. */
  function FindSlot(slots: seq<Slot>, id: int, from: nat): (i: nat)
    requires from <= |slots|
    ensures from <= i <= |slots|
    ensures forall j | from <= j < i :: slots[j].id != id
    ensures i < |slots| ==> slots[i].id == id
    decreases |slots| - from
  {
    if from == |slots| || slots[from].id == id then from else FindSlot(slots, id, from + 1)
  }

  /** _UartMessagePrepareRecv: reserve room for the body, or refuse it. */
  function PrepareRecv(s: Recv): (bool, Recv) {
    var i := FindSlot(s.slots, CmdOf(s.header), 0);
    if i == |s.slots| || BodySize(s.header) > |s.slots[i].buffer| then (false, s.(addr := Null))
    else
      var slot := s.slots[i];
      var off := if slot.offset + LengthOf(s.header) > |slot.buffer| then 0 else slot.offset;
      if !slot.hasBuffer then (false, s.(slots := s.slots[i := slot.(offset := off)], addr := Null))
      else (true, s.(slots := s.slots[i := slot.(offset := off + BodySize(s.header))], addr := At(i, off)))
  }

  /** The turns of the loop that consume nothing. */
  predicate Stalls(link: Link, s: Recv) {
    match s.phase
    case FindMagic => MagicOf(s.header) == link.magic
    case CheckHeader => false
    case CheckBody => s.bodyCount == BodySize(s.header) || (s.bodyCount == 0 && !PrepareRecv(s).0)
    case BodyVef => false
  }

  /** Such a turn: a magic word already there, an empty body, a refused body.  A refused body
      leaves the magic word in place. */
  function Move(link: Link, s: Recv): Recv
    requires Stalls(link, s)
  {
    match s.phase
    case FindMagic => s.(phase := CheckHeader)
    case CheckBody =>
      if s.bodyCount == BodySize(s.header) then
        if FlagsOf(s.header) == 0 then Deliver(s.(bodyCount := 0), BodySize(s.header))
        else s.(phase := BodyVef, bodyCount := 0)
      else PrepareRecv(s).1.(phase := FindMagic)
  }

  /** How many stalling turns can still follow. */
  function Rank(s: Recv): nat {
    match s.phase
    case FindMagic => 1
    case CheckBody => 2
    case _ => 0
  }

  function Settle(link: Link, s: Recv): (r: Recv)
    ensures !Stalls(link, r)
    decreases Rank(s)
  {
    if Stalls(link, s) then Settle(link, Move(link, s)) else s
  }

  /** _UartMessageAsyncRecvFindMagic on one byte */
  function MagicByte(link: Link, s: Recv, b: Byte): Recv {
    var h := WithMagic(s.header, s.header[1..4] + [b]);
    s.(header := h, phase := if MagicOf(h) == link.magic then CheckHeader else FindMagic)
  }

  /** What follows the last header byte. */
  function FinishHeader(link: Link, s: Recv): Recv {
    var t := s.(headerCount := 4);
    if !HeaderCrcOk(link, s.header) then t.(phase := FindMagic, header := WithMagic(s.header, ZERO_WORD))
    else if LengthOf(s.header) > 0 then t.(phase := CheckBody)
    else Deliver(t, 0)
  }

  function AfterHeader(link: Link, s: Recv): Recv {
    if s.headerCount == HEADER_SIZE then FinishHeader(link, s) else s
  }

  /** _UartMessageAsyncRecvCheckHeader on one byte */
  function HeaderByte(link: Link, s: Recv, b: Byte): Recv
    requires s.headerCount < HEADER_SIZE
  {
    AfterHeader(link, s.(header := s.header[s.headerCount := b], headerCount := s.headerCount + 1))
  }

  /** A byte stored n places after a body address. */
  function PutByte(slots: seq<Slot>, addr: Address, n: nat, b: Byte): (r: seq<Slot>)
    ensures |r| == |slots|
  {
    if addr.At? && addr.slot < |slots| && addr.offset + n < |slots[addr.slot].buffer| then
      var slot := slots[addr.slot];
      slots[addr.slot := slot.(buffer := slot.buffer[addr.offset + n := b])]
    else slots
  }

  function PutBytes(slots: seq<Slot>, addr: Address, n: nat, bytes: seq<Byte>): (r: seq<Slot>)
    ensures |r| == |slots|
    decreases |bytes|
  {
    if bytes == [] then slots
    else
      var k := |bytes| - 1;
      PutByte(PutBytes(slots, addr, n, bytes[..k]), addr, n + k, bytes[k])
  }

  /** Store body bytes after those already there. */
  function StoreAll(s: Recv, bytes: seq<Byte>): Recv {
    s.(slots := PutBytes(s.slots, s.addr, s.bodyCount, bytes), bodyCount := s.bodyCount + |bytes|)
  }

  /** The state a body byte is stored in. */
  function Started(s: Recv): Recv { if s.bodyCount == 0 then PrepareRecv(s).1 else s }

  /** What follows the last body byte. */
  function FinishBody(s: Recv): Recv {
    var t := s.(bodyCount := 0);
    if FlagsOf(s.header) == 0 then Deliver(t, BodySize(s.header)) else t.(phase := BodyVef)
  }

  function AfterBody(s: Recv): Recv { if s.bodyCount == BodySize(s.header) then FinishBody(s) else s }

  /** _UartMessageAsyncRecvCheckBody on one byte */
  function BodyByte(s: Recv, b: Byte): Recv { AfterBody(StoreAll(Started(s), [b])) }

  /** What follows the last checksum byte. */
  function FinishVef(s: Recv): Recv {
    Deliver(s.(bodyVef := s.tmpVef, tmpVef := ZERO_WORD, vefCount := 0), BodySize(s.header))
  }

  function AfterVef(s: Recv): Recv { if s.vefCount == 4 then FinishVef(s) else s }

  /** _UartMessageAsyncRecvBodyVerification on one byte */
  function VefByte(s: Recv, b: Byte): Recv
    requires |s.tmpVef| == 4
  {
    AfterVef(s.(tmpVef := s.tmpVef[1..] + [b], vefCount := s.vefCount + 1))
  }

  function Consume(link: Link, s: Recv, b: Byte): Recv
    requires s.Valid() && !Stalls(link, s)
  {
    match s.phase
    case FindMagic => MagicByte(link, s, b)
    case CheckHeader => HeaderByte(link, s, b)
    case CheckBody => BodyByte(s, b)
    case BodyVef => VefByte(s, b)
  }

  // ---------------------------------------------------------------- the invariant

  lemma PrepareValid(s: Recv)
    requires s.Valid() && s.phase == CheckBody && s.bodyCount == 0
    ensures PrepareRecv(s).1.(phase := FindMagic).Valid()
    ensures PrepareRecv(s).0 ==> PrepareRecv(s).1.BodyFits() && PrepareRecv(s).1.Valid()
  {
  }

  lemma MoveValid(link: Link, s: Recv)
    requires s.Valid() && Stalls(link, s)
    ensures Move(link, s).Valid()
  {
    if s.phase == CheckBody && s.bodyCount != BodySize(s.header) {
      PrepareValid(s);
    }
  }

  lemma {:induction false} SettleValid(link: Link, s: Recv)
    requires s.Valid()
    ensures Settle(link, s).Valid()
    decreases Rank(s)
  {
    if Stalls(link, s) {
      MoveValid(link, s);
      SettleValid(link, Move(link, s));
    }
  }

  /** b with bytes written from at on. */
  function Overwrite(b: seq<Byte>, at: nat, bytes: seq<Byte>): seq<Byte>
    requires at + |bytes| <= |b|
  {
    b[..at] + bytes + b[at + |bytes|..]
  }

  lemma OverwriteOne(b: seq<Byte>, at: nat, x: Byte)
    requires at < |b|
    ensures Overwrite(b, at, [x]) == b[at := x]
  {
  }

  /** One more step of a copy loop. */
  lemma OverwriteNext(b: seq<Byte>, at: nat, bytes: seq<Byte>, i: nat)
    requires at + |bytes| <= |b| && i < |bytes|
    ensures Overwrite(b, at, bytes[..i])[at + i := bytes[i]] == Overwrite(b, at, bytes[..i + 1])
  {
  }

  lemma OverwriteMore(b: seq<Byte>, at: nat, bytes: seq<Byte>)
    requires at + |bytes| <= |b| && bytes != []
    ensures var k := |bytes| - 1; Overwrite(b, at, bytes[..k])[at + k := bytes[k]] == Overwrite(b, at, bytes)
  {
  }

  /** Storing bytes one after the other changes their places and nothing else. */
  lemma {:induction false} PutBytesKeeps(slots: seq<Slot>, addr: Address, n: nat, bytes: seq<Byte>)
    requires addr.At? && addr.slot < |slots| && addr.offset + n + |bytes| <= |slots[addr.slot].buffer|
    ensures var slot := slots[addr.slot];
      PutBytes(slots, addr, n, bytes) ==
      slots[addr.slot := slot.(buffer := Overwrite(slot.buffer, addr.offset + n, bytes))]
    decreases |bytes|
  {
    var slot := slots[addr.slot];
    if bytes == [] {
      assert Overwrite(slot.buffer, addr.offset + n, []) == slot.buffer;
    } else {
      PutBytesKeeps(slots, addr, n, bytes[..|bytes| - 1]);
      OverwriteMore(slot.buffer, addr.offset + n, bytes);
    }
  }

  /** Two lists of registrations that differ in buffer contents only. */
  predicate SameButContents(a: seq<Slot>, b: seq<Slot>) {
    && |a| == |b|
    && forall i | 0 <= i < |a| :: |a[i].buffer| == |b[i].buffer| && a[i] == b[i].(buffer := a[i].buffer)
  }

  lemma StoreKeeps(s: Recv, bytes: seq<Byte>)
    requires s.BodyFits() && s.bodyCount + |bytes| <= BodySize(s.header)
    ensures SameButContents(StoreAll(s, bytes).slots, s.slots)
    ensures StoreAll(s, bytes).BodyFits()
  {
    PutBytesKeeps(s.slots, s.addr, s.bodyCount, bytes);
  }

  lemma StoredBody(s: Recv, bytes: seq<Byte>)
    requires s.BodyFits() && s.bodyCount + |bytes| <= BodySize(s.header)
    ensures StoreAll(s, bytes).BodyAt(s.bodyCount + |bytes|) == s.BodyAt(s.bodyCount) + bytes
  {
    PutBytesKeeps(s.slots, s.addr, s.bodyCount, bytes);
  }

  lemma StoreValid(s: Recv, bytes: seq<Byte>)
    requires s.Valid() && s.phase == CheckBody && s.bodyCount + |bytes| <= BodySize(s.header)
    requires s.BodyFits()
    ensures StoreAll(s, bytes).Valid() && AfterBody(StoreAll(s, bytes)).Valid()
  {
    StoreKeeps(s, bytes);
  }

  lemma BodyByteValid(s: Recv, b: Byte)
    requires s.Valid() && s.phase == CheckBody && s.bodyCount < BodySize(s.header)
    requires s.bodyCount == 0 ==> PrepareRecv(s).0
    ensures BodyByte(s, b).Valid()
  {
    if s.bodyCount == 0 {
      PrepareValid(s);
    }
    StoreValid(Started(s), [b]);
  }

  lemma ConsumeValid(link: Link, s: Recv, b: Byte)
    requires s.Valid() && !Stalls(link, s)
    ensures Consume(link, s, b).Valid()
  {
    if s.phase == CheckBody {
      BodyByteValid(s, b);
    }
  }

  // ---------------------------------------------------------------- streams

  /** What one byte does, after the turns that need none. */
  function RecvByte(link: Link, s: Recv, b: Byte): (r: Recv)
    requires s.Valid()
    ensures r.Valid()
  {
    SettleValid(link, s);
    ConsumeValid(link, Settle(link, s), b);
    Consume(link, Settle(link, s), b)
  }

  /** What a stream of bytes does. */
  function RecvAll(link: Link, s: Recv, bytes: seq<Byte>): (r: Recv)
    requires s.Valid()
    ensures r.Valid()
    decreases |bytes|
  {
    if bytes == [] then s else RecvAll(link, RecvByte(link, s, bytes[0]), bytes[1..])
  }

  /** A stream can be cut anywhere. */
  lemma {:induction false} RecvConcat(link: Link, s: Recv, a: seq<Byte>, b: seq<Byte>)
    requires s.Valid()
    ensures RecvAll(link, s, a + b) == RecvAll(link, RecvAll(link, s, a), b)
    decreases |a|
  {
    if a == [] {
      assert a + b == b;
    } else {
      assert (a + b)[1..] == a[1..] + b;
      RecvConcat(link, RecvByte(link, s, a[0]), a[1..], b);
    }
  }

  /** A turn that consumes nothing changes nothing for the bytes that follow. */
  lemma MoveFirst(link: Link, s: Recv, bytes: seq<Byte>)
    requires s.Valid() && Stalls(link, s) && bytes != []
    ensures Move(link, s).Valid() && RecvAll(link, Move(link, s), bytes) == RecvAll(link, s, bytes)
  {
    MoveValid(link, s);
    assert Settle(link, s) == Settle(link, Move(link, s));
  }

  /** A turn that consumes one byte. */
  lemma ConsumeFirst(link: Link, s: Recv, bytes: seq<Byte>)
    requires s.Valid() && !Stalls(link, s) && bytes != []
    ensures Consume(link, s, bytes[0]).Valid()
    ensures RecvAll(link, s, bytes) == RecvAll(link, Consume(link, s, bytes[0]), bytes[1..])
  {
    ConsumeValid(link, s, bytes[0]);
  }

  /** run is RecvAll, kept abstract where its definition is not needed. */
  ghost predicate Follows(link: Link, run: (Recv, seq<Byte>) -> Recv) {
    forall s: Recv, bytes: seq<Byte> {:trigger RecvAll(link, s, bytes)} | s.Valid() ::
      run(s, bytes) == RecvAll(link, s, bytes)
  }

  /** RecvAll, made total. */
  ghost function RunOf(link: Link): (Recv, seq<Byte>) -> Recv {
    (s: Recv, bytes: seq<Byte>) => if s.Valid() then RecvAll(link, s, bytes) else s
  }

  lemma RunFollows(link: Link)
    ensures Follows(link, RunOf(link))
  {
  }

  // ---------------------------------------------------------------- runs inside a body

  lemma PutOne(slots: seq<Slot>, addr: Address, n: nat, b: Byte)
    ensures PutBytes(slots, addr, n, [b]) == PutByte(slots, addr, n, b)
  {
    assert [b][..0] == [];
    assert PutBytes(slots, addr, n, []) == slots;
  }

  lemma StoreMore(s: Recv, bytes: seq<Byte>)
    requires bytes != []
    ensures StoreAll(s, bytes) == StoreAll(StoreAll(s, bytes[..|bytes| - 1]), [bytes[|bytes| - 1]])
  {
    var k := |bytes| - 1;
    var t := StoreAll(s, bytes[..k]);
    PutOne(t.slots, s.addr, s.bodyCount + k, bytes[k]);
  }

  lemma BodyStep(link: Link, s: Recv, b: Byte)
    requires s.Valid() && s.phase == CheckBody && s.bodyCount < BodySize(s.header)
    requires s.bodyCount == 0 ==> PrepareRecv(s).0
    ensures RecvAll(link, s, [b]) == AfterBody(StoreAll(Started(s), [b]))
  {
    assert RecvByte(link, s, b) == BodyByte(s, b);
    assert [b][1..] == [];
  }

  lemma StartedFits(s: Recv)
    requires s.Valid() && s.phase == CheckBody && s.bodyCount < BodySize(s.header)
    requires s.bodyCount == 0 ==> PrepareRecv(s).0
    ensures Started(s).Valid() && Started(s).BodyFits() && Started(s).bodyCount == s.bodyCount
    ensures Started(s).header == s.header && Started(s).phase == CheckBody
  {
    if s.bodyCount == 0 {
      PrepareValid(s);
    }
  }

  /** Body bytes up to the end of the body are stored in order. */
  lemma {:induction false} BodyRun(link: Link, s: Recv, bytes: seq<Byte>)
    requires s.Valid() && s.phase == CheckBody && bytes != [] && s.bodyCount + |bytes| <= BodySize(s.header)
    requires s.bodyCount == 0 ==> PrepareRecv(s).0
    ensures RecvAll(link, s, bytes) == AfterBody(StoreAll(Started(s), bytes))
    decreases |bytes|
  {
    var k := |bytes| - 1;
    assert bytes == bytes[..k] + [bytes[k]];
    if k == 0 {
      assert bytes == [bytes[0]];
      BodyStep(link, s, bytes[0]);
    } else {
      BodyRun(link, s, bytes[..k]);
      StartedFits(s);
      var t := StoreAll(Started(s), bytes[..k]);
      StoreValid(Started(s), bytes[..k]);
      RecvConcat(link, s, bytes[..k], [bytes[k]]);
      BodyStep(link, t, bytes[k]);
      StoreMore(Started(s), bytes);
    }
  }

  // ---------------------------------------------------------------- runs inside a header or a checksum

  function CopyHeader(s: Recv, bytes: seq<Byte>): Recv
    requires s.headerCount + |bytes| <= HEADER_SIZE
  {
    s.(header := Overwrite(s.header, s.headerCount, bytes), headerCount := s.headerCount + |bytes|)
  }

  lemma HeaderStep(link: Link, s: Recv, b: Byte)
    requires s.Valid() && s.phase == CheckHeader
    ensures RecvAll(link, s, [b]) == AfterHeader(link, CopyHeader(s, [b]))
  {
    assert RecvByte(link, s, b) == HeaderByte(link, s, b);
    assert [b][1..] == [];
    OverwriteOne(s.header, s.headerCount, b);
  }

  lemma CopyMore(s: Recv, bytes: seq<Byte>)
    requires bytes != [] && s.headerCount + |bytes| <= HEADER_SIZE
    ensures CopyHeader(s, bytes) == CopyHeader(CopyHeader(s, bytes[..|bytes| - 1]), [bytes[|bytes| - 1]])
  {
    OverwriteMore(s.header, s.headerCount, bytes);
    var k := |bytes| - 1;
    var h := Overwrite(s.header, s.headerCount, bytes[..k]);
    OverwriteOne(h, s.headerCount + k, bytes[k]);
  }

  /** Header bytes up to the end of the header are copied in order. */
  lemma {:induction false} HeaderRun(link: Link, s: Recv, bytes: seq<Byte>)
    requires s.Valid() && s.phase == CheckHeader && bytes != [] && s.headerCount + |bytes| <= HEADER_SIZE
    ensures RecvAll(link, s, bytes) == AfterHeader(link, CopyHeader(s, bytes))
    decreases |bytes|
  {
    var k := |bytes| - 1;
    assert bytes == bytes[..k] + [bytes[k]];
    if k == 0 {
      assert bytes == [bytes[0]];
      HeaderStep(link, s, bytes[0]);
    } else {
      HeaderRun(link, s, bytes[..k]);
      RecvConcat(link, s, bytes[..k], [bytes[k]]);
      HeaderStep(link, CopyHeader(s, bytes[..k]), bytes[k]);
      CopyMore(s, bytes);
    }
  }

  function ShiftVef(s: Recv, bytes: seq<Byte>): Recv
    requires |s.tmpVef| == 4
  {
    s.(tmpVef := (s.tmpVef + bytes)[|bytes|..], vefCount := s.vefCount + |bytes|)
  }

  lemma VefStep(link: Link, s: Recv, b: Byte)
    requires s.Valid() && s.phase == BodyVef
    ensures RecvAll(link, s, [b]) == AfterVef(ShiftVef(s, [b]))
  {
    assert RecvByte(link, s, b) == VefByte(s, b);
    assert [b][1..] == [];
    assert (s.tmpVef + [b])[1..] == s.tmpVef[1..] + [b];
  }

  lemma ShiftMore(s: Recv, bytes: seq<Byte>)
    requires |s.tmpVef| == 4 && bytes != []
    ensures ShiftVef(s, bytes) == ShiftVef(ShiftVef(s, bytes[..|bytes| - 1]), [bytes[|bytes| - 1]])
  {
  }

  /** Checksum bytes are shifted in, in order. */
  lemma {:induction false} VefRun(link: Link, s: Recv, bytes: seq<Byte>)
    requires s.Valid() && s.phase == BodyVef && bytes != [] && s.vefCount + |bytes| <= 4
    ensures RecvAll(link, s, bytes) == AfterVef(ShiftVef(s, bytes))
    decreases |bytes|
  {
    var k := |bytes| - 1;
    assert bytes == bytes[..k] + [bytes[k]];
    if k == 0 {
      assert bytes == [bytes[0]];
      VefStep(link, s, bytes[0]);
    } else {
      VefRun(link, s, bytes[..k]);
      RecvConcat(link, s, bytes[..k], [bytes[k]]);
      VefStep(link, ShiftVef(s, bytes[..k]), bytes[k]);
      ShiftMore(s, bytes);
    }
  }
}
