/** The send side of lvp/common/uart_message_v2.c: a queue of packs, written to the wire as the FIFO
    grants room, with DMA for the middle of long bodies. */
module UartSenders {
  import opened Registers
  import opened UartFrame

  /** A queued MSG_PACK; body is what the memory at body_addr holds until the message pack is sent. */
  datatype Pack = Pack(header: Header, addr: nat, body: seq<Byte>)

  datatype SendState = SendHeader | SendBody | SendBodyCrc | SendDone

  function CrcBytes(link: Link, p: Pack): seq<Byte> {
    if FlagsOf(p.header) != 0 then link.crc(p.body) else []
  }

  /** The bytes a pack must put on the wire: a length field of 0 sends the header only. */
  function WireOf(link: Link, p: Pack): seq<Byte> { p.header + Tail(link, p) }

  function Tail(link: Link, p: Pack): seq<Byte> {
    if LengthOf(p.header) == 0 then [] else p.body + CrcBytes(link, p)
  }

  function WireOfAll(link: Link, ps: seq<Pack>): seq<Byte> {
    if ps == [] then [] else WireOf(link, ps[0]) + WireOfAll(link, ps[1..])
  }

  lemma {:induction false} WireOfMore(link: Link, ps: seq<Pack>, p: Pack)
    ensures WireOfAll(link, ps + [p]) == WireOfAll(link, ps) + WireOf(link, p)
    decreases |ps|
  {
    if ps == [] {
      assert ps + [p] == [p] && [p][1..] == [];
    } else {
      assert (ps + [p])[1..] == ps[1..] + [p];
      WireOfMore(link, ps[1..], p);
    }
  }

  lemma Regroup(a: seq<Byte>, b: seq<Byte>, c: seq<Byte>)
    ensures a + (b + c) == (a + b) + c && [] + c == c
  {
  }

  /** What moves from the front of what is pending to the end of what is sent. */
  lemma Through(w: seq<Byte>, r: seq<Byte>, w': seq<Byte>, r': seq<Byte>, q: seq<Byte>)
    requires w' + r' == w + r
    ensures w' + (r' + q) == w + (r + q)
  {
    Regroup(w, r, q);
    Regroup(w', r', q);
  }

  /** UartMessageAsyncSend keeps the sequence number the caller chose for responses. */
  predicate IsResponse(cmd: nat) { cmd / 256 % 256 == 2 }

  /** Those are the ids of type RSP, whatever their number. */
  lemma ResponseIds(msgType: nat, nr: nat)
    requires msgType < 256 && nr < 256
    ensures IsResponse(NewMsg(msgType, nr)) <==> msgType == RSP
    ensures IsType(NewMsg(msgType, nr), msgType)
  {
  }

  lemma ResponseIsType(cmd: nat)
    requires cmd < 0x1_0000
    ensures IsResponse(cmd) <==> IsType(cmd, RSP)
  {
  }

  /** The message with the sequence number it is sent with. */
  function Stamped(m: Message, sequence: Byte): Message {
    if IsResponse(m.cmd) then m else m.(seqNo := sequence)
  }

  /** A pack may bring its own magic word; 0 stands for the one of the port. */
  function Marked(link: Link, magic: seq<Byte>): (l: Link)
    requires |magic| == 4 && link.Valid()
    ensures l.Valid() && l.crc == link.crc
  {
    if magic == ZERO_WORD then link else link.(magic := magic)
  }

  /** A message as it is queued. */
  function PackFor(link: Link, magic: seq<Byte>, m: Message, sequence: Byte, addr: nat): Pack
    requires |magic| == 4 && link.Valid()
  {
    Pack(HeaderFor(Marked(link, magic), Stamped(m, sequence)), addr, m.body)
  }

  lemma HeaderAndTail(link: Link, l: Link, m: Message, addr: nat)
    requires l.Valid() && l.crc == link.crc && m.Fits()
    ensures WireOf(link, Pack(HeaderFor(l, m), addr, m.body)) == Frame(l, m)
  {
    HeaderForFields(l, m);
  }

  /** What goes over the wire for a message whose length fits its field is its frame. */
  lemma WireIsFrame(link: Link, magic: seq<Byte>, m: Message, sequence: Byte, addr: nat)
    requires link.Valid() && |magic| == 4 && m.Fits()
    ensures WireOf(link, PackFor(link, magic, m, sequence, addr)) == Frame(Marked(link, magic), Stamped(m, sequence))
  {
    HeaderAndTail(link, Marked(link, magic), Stamped(m, sequence), addr);
  }

  function Min(a: nat, b: nat): (m: nat)
    ensures m <= a && m <= b && (m == a || m == b)
  {
    if a < b then a else b
  }

  /** The parts of a sender that say what has been sent and what has not. */
  datatype Snapshot = Snapshot(
    state: SendState, cur: Pack, headerCount: nat, bodyCount: nat, dmaLen: nat, crcCount: nat,
    sending: bool, queue: seq<Pack>, wire: seq<Byte>)

  /** What is still to be sent of the current pack. */
  function RestOf(link: Link, s: Snapshot): seq<Byte> {
    match s.state
    case SendHeader =>
      (if s.headerCount <= HEADER_SIZE then s.cur.header[s.headerCount..] else []) + Tail(link, s.cur)
    case SendBody =>
      (if s.dmaLen <= s.bodyCount <= |s.cur.body| then s.cur.body[s.bodyCount - s.dmaLen..] else [])
      + CrcBytes(link, s.cur)
    case SendBodyCrc =>
      if s.crcCount <= |CrcBytes(link, s.cur)| then CrcBytes(link, s.cur)[s.crcCount..] else []
    case SendDone => []
  }

  /** What is still to be sent in all. */
  function PendingOf(link: Link, s: Snapshot): seq<Byte> {
    if s.sending then RestOf(link, s) + WireOfAll(link, s.queue) else []
  }

  /** All that has been accepted, sent or not. */
  function Total(link: Link, s: Snapshot): seq<Byte> { s.wire + PendingOf(link, s) }

  lemma OnePending(link: Link, pack: Pack)
    ensures WireOfAll(link, [pack]) == [] + WireOf(link, pack)
  {
    assert [pack][1..] == [];
  }

  lemma OneMorePending(link: Link, s: Snapshot, pack: Pack)
    requires s.sending
    ensures PendingOf(link, s.(queue := s.queue + [pack])) == PendingOf(link, s) + WireOf(link, pack)
  {
    WireOfMore(link, s.queue, pack);
    Regroup(RestOf(link, s), WireOfAll(link, s.queue), WireOf(link, pack));
    assert RestOf(link, s.(queue := s.queue + [pack])) == RestOf(link, s);
  }

  /** The step from one state of a header to another, or to what follows it. */
  lemma HeaderMoves(link: Link, s: Snapshot, t: Snapshot)
    requires s.state == SendHeader && s.cur == t.cur && s.headerCount <= HEADER_SIZE && t.headerCount <= HEADER_SIZE
    requires if t.state == SendHeader
      then t.wire + t.cur.header[t.headerCount..] == s.wire + s.cur.header[s.headerCount..]
      else t.wire == s.wire + s.cur.header[s.headerCount..]
           && if LengthOf(s.cur.header) > 0 then t.state == SendBody && t.bodyCount == t.dmaLen == 0
              else t.state == SendDone
    ensures t.wire + RestOf(link, t) == s.wire + RestOf(link, s)
  {
    var tail, from := Tail(link, s.cur), s.cur.header[s.headerCount..];
    Regroup(s.wire, from, tail);
    if t.state == SendHeader {
      Through(s.wire, from, t.wire, t.cur.header[t.headerCount..], tail);
    } else {
      assert RestOf(link, t) == tail;
    }
  }

  /** The step from one state of a body to another, or to what follows it. */
  lemma BodyMoves(link: Link, s: Snapshot, t: Snapshot)
    requires s.state == SendBody && s.cur == t.cur
    requires s.dmaLen <= s.bodyCount <= |s.cur.body| && t.dmaLen <= t.bodyCount <= |s.cur.body|
    requires if t.state == SendBody
      then t.wire + t.cur.body[t.bodyCount - t.dmaLen..] == s.wire + s.cur.body[s.bodyCount - s.dmaLen..]
      else t.wire == s.wire + s.cur.body[s.bodyCount - s.dmaLen..]
           && if FlagsOf(s.cur.header) != 0 then t.state == SendBodyCrc && t.crcCount == 0 else t.state == SendDone
    ensures t.wire + RestOf(link, t) == s.wire + RestOf(link, s)
  {
    var crc, from := CrcBytes(link, s.cur), s.cur.body[s.bodyCount - s.dmaLen..];
    Regroup(s.wire, from, crc);
    if t.state == SendBody {
      Through(s.wire, from, t.wire, t.cur.body[t.bodyCount - t.dmaLen..], crc);
    } else {
      assert RestOf(link, t) == crc;
    }
  }

  /** The queue waits behind the current pack. */
  lemma PackMoves(link: Link, s: Snapshot, t: Snapshot)
    requires s.sending && t.sending && s.queue == t.queue
    ensures t.wire + RestOf(link, t) == s.wire + RestOf(link, s)
        ==> t.wire + PendingOf(link, t) == s.wire + PendingOf(link, s)
    ensures |RestOf(link, t)| < |RestOf(link, s)| ==> |PendingOf(link, t)| < |PendingOf(link, s)|
  {
    if t.wire + RestOf(link, t) == s.wire + RestOf(link, s) {
      Through(s.wire, RestOf(link, s), t.wire, RestOf(link, t), WireOfAll(link, s.queue));
    }
  }

  lemma NothingMoves(link: Link, s: Snapshot)
    requires s.sending && s.state == SendDone
    ensures PendingOf(link, s) == WireOfAll(link, s.queue)
  {
  }

  lemma Transferred(w: seq<Byte>, body: seq<Byte>, from: nat, to: nat, crc: seq<Byte>)
    requires from <= to <= |body|
    ensures (w + body[from..to]) + (body[to..] + crc) == w + (body[from..] + crc)
  {
    assert body[from..] == body[from..to] + body[to..];
  }

  /** Nothing is lost, or something is, for good. */
  predicate Kept(before: seq<Byte>, after: seq<Byte>, all: bool) {
    if all then after == before else |after| < |before|
  }

  /** total is Total, kept abstract where its definition is not needed. */
  ghost predicate Totals(link: Link, total: Snapshot -> seq<Byte>) {
    forall s: Snapshot {:trigger Total(link, s)} :: total(s) == Total(link, s)
  }

  class Sender {
    const link: Link
    const capacity: nat
    var queue: seq<Pack>
    var cur: Pack
    var state: SendState
    var headerCount: nat
    var bodyCount: nat
    var needNum: nat
    var crcCount: nat
    var crc: seq<Byte>
    var sending: bool
    var sequence: Byte
    /** A DMA transfer is running; its dmaLen bytes are already in bodyCount. */
    var dmaActive: bool
    var dmaLen: nat
    /** All bytes written to the FIFO or sent by finished DMA transfers. */
    var wire: seq<Byte>

    ghost function Snap(): Snapshot
      reads `state, `cur, `headerCount, `bodyCount, `dmaLen, `crcCount, `sending, `queue, `wire
    {
      Snapshot(state, cur, headerCount, bodyCount, dmaLen, crcCount, sending, queue, wire)
    }

    ghost function Rest(): seq<Byte>
      reads `state, `cur, `headerCount, `bodyCount, `dmaLen, `crcCount, `sending, `queue, `wire
    {
      RestOf(link, Snap())
    }

    ghost function Pending(): seq<Byte>
      reads `state, `cur, `headerCount, `bodyCount, `dmaLen, `crcCount, `sending, `queue, `wire
    {
      PendingOf(link, Snap())
    }

    /** An idle sender has an empty queue. */
    ghost predicate Valid()
      reads `queue, `cur, `state, `headerCount, `bodyCount, `needNum, `crcCount, `crc, `sending, `dmaActive, `dmaLen
    {
      Sound() && (!sending ==> queue == [] && state == SendDone)
    }

    /** The counters belong to the state they count in. */
    ghost predicate Sound()
      reads `queue, `cur, `state, `headerCount, `bodyCount, `needNum, `crcCount, `crc, `sending, `dmaActive, `dmaLen
    {
      && link.Valid() && |queue| <= capacity
      && headerCount < HEADER_SIZE && (state != SendHeader ==> headerCount == 0)
      && (state != SendBody ==> bodyCount == 0 && !dmaActive)
      && (state == SendBody ==> LengthOf(cur.header) > 0 && bodyCount <= |cur.body|
                                && (bodyCount > 0 ==> needNum == |cur.body|))
      && (if dmaActive then dmaLen < bodyCount else dmaLen == 0)
      && crcCount < 4 && (state != SendBodyCrc ==> crcCount == 0)
      && (state == SendBodyCrc ==> FlagsOf(cur.header) != 0)
      && (crcCount > 0 ==> crc == link.crc(cur.body))
    }

    constructor (link: Link, capacity: nat)
      requires link.Valid()
      ensures Valid() && this.link == link && this.capacity == capacity
      ensures !sending && !dmaActive && wire == [] && sequence == 0
    {
      this.link, this.capacity := link, capacity;
      queue, state, sending, sequence, wire := [], SendDone, false, 0, [];
      cur := Pack(seq(HEADER_SIZE, _ => 0), 0, []);
      headerCount, bodyCount, needNum, crcCount, crc := 0, 0, 0, 0, [];
      dmaActive, dmaLen := false, 0;
    }

    /** _UartMessageSendCheck: the next pack, or nothing more to do. */
    method SendCheck() returns (ret: int)
      requires Sound() && state == SendDone
      modifies `queue, `sending, `cur, `state
      ensures Valid() && !dmaActive
      ensures Pending() == WireOfAll(link, old(queue))
      ensures ret == if old(queue) == [] then -1 else 0
      ensures ret == 0 ==> state == SendHeader && queue == old(queue)[1..] && sending
      ensures ret == -1 ==> !sending
    {
      if queue == [] {
        sending := false;
        return -1;
      }
      sending := true;
      cur := queue[0];
      queue := queue[1..];
      state := SendHeader;
      return 0;
    }

    /** UartMessageAsyncSend: 0 when the message is queued behind what is pending, -1 when the
        port is not ready, the body is missing, or the queue is full. */
    method AsyncSend(ready: bool, hasBody: bool, magic: seq<Byte>, m: Message, addr: nat)
      returns (ret: int)
      requires Valid() && |magic| == 4
      modifies `sequence, `queue, `sending, `cur, `state
      ensures Valid()
      ensures ret == if ready && (m.body == [] || hasBody) && |old(queue)| < capacity then 0 else -1
      ensures ret == -1 ==> Pending() == old(Pending()) && sequence == old(sequence)
      ensures ret == 0 ==> Pending() == old(Pending()) + WireOf(link, PackFor(link, magic, m, old(sequence), addr))
      ensures |queue| <= |old(queue)| + 1 && (ret == 0 && !old(sending) ==> Skips() && !dmaActive)
      ensures ret == 0 ==> sending && sequence == if IsResponse(m.cmd) then old(sequence) else old(sequence) + 1
    {
      if !ready || (m.body != [] && !hasBody) || |queue| >= capacity {
        return -1;
      }
      Accept(magic, m, addr);
      ret := 0;
    }

    method Accept(magic: seq<Byte>, m: Message, addr: nat)
      requires Valid() && |magic| == 4 && |queue| < capacity
      modifies `sequence, `queue, `sending, `cur, `state
      ensures Valid() && sending && (!old(sending) ==> Skips() && !dmaActive) && |queue| <= |old(queue)| + 1
      ensures Pending() == old(Pending()) + WireOf(link, PackFor(link, magic, m, old(sequence), addr))
      ensures sequence == if IsResponse(m.cmd) then old(sequence) else old(sequence) + 1
    {
      ghost var before, want := Pending(), PackFor(link, magic, m, sequence, addr);
      var pack := FillIn(magic, m, addr);
      assert Pending() == before && pack == want;
      Enqueue(pack);
      assert Pending() == before + WireOf(link, want);
    }

    /** The header fields UartMessageAsyncSend sets itself. */
    method FillIn(magic: seq<Byte>, m: Message, addr: nat) returns (pack: Pack)
      requires Valid() && |magic| == 4
      modifies `sequence
      ensures pack == PackFor(link, magic, m, old(sequence), addr)
      ensures sequence == if IsResponse(m.cmd) then old(sequence) else old(sequence) + 1
    {
      var l := link;
      if magic != ZERO_WORD {
        l := link.(magic := magic);
      }
      var seqNo := m.seqNo;
      if !IsResponse(m.cmd) {
        seqNo := sequence;
        sequence := sequence + 1;
      }
      pack := Pack(HeaderFor(l, m.(seqNo := seqNo)), addr, m.body);
    }

    method Enqueue(pack: Pack)
      requires Valid() && |queue| < capacity
      modifies `queue, `sending, `cur, `state
      ensures Valid() && sending && (!old(sending) ==> Skips() && !dmaActive) && |queue| <= |old(queue)| + 1
      ensures Pending() == old(Pending()) + WireOf(link, pack)
    {
      queue := queue + [pack];
      if !sending {
        OnePending(link, pack);
        assert queue == [pack];
        var _ := SendCheck();
      } else {
        OneMorePending(link, old(Snap()), pack);
      }
    }

    /** _UartMessageAsyncSendHeader: whether the header is complete */
    method SendHeaderPart(sendLen: nat) returns (done: bool, left: nat)
      requires Valid() && state == SendHeader
      modifies `headerCount, `wire
      ensures left <= sendLen && |wire| + left == |old(wire)| + sendLen && headerCount < HEADER_SIZE
      ensures done <==> headerCount == 0
      ensures old(headerCount) == 0 && sendLen == 0 ==> done && wire == old(wire)
      ensures old(headerCount) > 0 || sendLen > 0 ==>
        wire + (if done then [] else cur.header[headerCount..])
        == old(wire) + cur.header[old(headerCount)..]
      ensures !done ==> left == 0
    {
      var n := Min(sendLen, HEADER_SIZE - headerCount);
      wire := wire + cur.header[headerCount..headerCount + n];
      headerCount := headerCount + n;
      headerCount := if headerCount == HEADER_SIZE then 0 else headerCount;
      left := sendLen - n;
      done := headerCount == 0;
    }

    /** _UartMessageAsyncSendCrC: whether the checksum is complete */
    method SendCrcPart(sendLen: nat) returns (done: bool, left: nat)
      requires Valid() && state == SendBodyCrc
      modifies `crcCount, `crc, `wire
      ensures left <= sendLen && |wire| + left == |old(wire)| + sendLen && crcCount < 4
      ensures done <==> crcCount == 0
      ensures old(crcCount) == 0 && sendLen == 0 ==> done && wire == old(wire)
      ensures old(crcCount) > 0 || sendLen > 0 ==>
        wire + (if done then [] else CrcBytes(link, cur)[crcCount..])
        == old(wire) + CrcBytes(link, cur)[old(crcCount)..]
      ensures (!done ==> left == 0) && (crcCount > 0 ==> crc == link.crc(cur.body))
    {
      if crcCount == 0 {
        crc := link.crc(cur.body);
      }
      var n := Min(sendLen, 4 - crcCount);
      wire := wire + crc[crcCount..crcCount + n];
      crcCount := crcCount + n;
      crcCount := if crcCount == 4 then 0 else crcCount;
      left := sendLen - n;
      done := crcCount == 0;
    }

    /** The bytes of the current body no finished write has covered. */
    ghost function BodyRest(): seq<Byte>
      requires dmaLen <= bodyCount <= |cur.body|
      reads this
    {
      cur.body[bodyCount - dmaLen..]
    }

    /** _UartMessageAsyncSendBody, with a length of 0 also when a DMA transfer is done: 1 when the
        body is complete, -1 when there is nothing to write with, 0 otherwise. */
    method SendBodyPart(sendLen: nat) returns (ret: int, left: nat)
      requires Valid() && state == SendBody && !dmaActive
      modifies `needNum, `bodyCount, `state, `wire, `dmaActive, `dmaLen
      ensures state == SendBody || (ret == 1 && state == AfterBody())
      ensures ret == 1 ==> bodyCount == 0 && !dmaActive && dmaLen == 0 && wire == old(wire) + old(BodyRest())
      ensures ret != 1 ==> Valid() && wire + BodyRest() == old(wire) + old(BodyRest())
      ensures left <= sendLen && (ret != 1 ==> left == 0)
      ensures !dmaActive ==> |wire| + left == |old(wire)| + sendLen
      ensures dmaActive ==> |old(wire)| < |wire| <= |old(wire)| + sendLen
      ensures sendLen == 0 ==> !dmaActive
    {
      if bodyCount == 0 {
        needNum := |cur.body|;
      }
      if bodyCount == needNum {
        bodyCount := 0;
        state := AfterBody();
        return 1, sendLen;
      }
      if sendLen == 0 {
        return -1, 0;
      }
      left := WriteBody(sendLen);
      if bodyCount == 0 {
        return 1, left;
      }
      StartDma();
      return 0, 0;
    }

    /** Body bytes for the FIFO; a complete body sets the count back to 0. */
    method WriteBody(sendLen: nat) returns (left: nat)
      requires dmaLen == 0 && bodyCount < needNum == |cur.body| && 0 < sendLen
      modifies `bodyCount, `wire
      ensures left <= sendLen && |wire| + left == |old(wire)| + sendLen && bodyCount < needNum
      ensures if bodyCount == 0 then wire == old(wire) + old(BodyRest())
              else left == 0 && wire + BodyRest() == old(wire) + old(BodyRest())
    {
      var n := Min(sendLen, needNum - bodyCount);
      wire := wire + cur.body[bodyCount..bodyCount + n];
      bodyCount := bodyCount + n;
      bodyCount := if bodyCount == needNum then 0 else bodyCount;
      left := sendLen - n;
    }

    /** Whole 16-byte blocks of a body that is long enough, or has got to a 16-byte boundary, are
        left to DMA; there may be none. */
    method StartDma()
      requires Valid() && state == SendBody && !dmaActive && 0 < bodyCount < needNum
      modifies `dmaActive, `dmaLen, `bodyCount
      ensures Valid() && BodyRest() == old(BodyRest())
    {
      if (cur.addr + bodyCount) % 16 == 0 || (bodyCount >= 16 && needNum - bodyCount > 32) {
        var len := needNum - bodyCount;
        len := len - len % 16;
        dmaActive, dmaLen := true, len;
        bodyCount := bodyCount + len;
      }
    }

    function AfterBody(): SendState
      reads this
    {
      if FlagsOf(cur.header) != 0 then SendBodyCrc else SendDone
    }

    /** The states in which nothing of a header or a checksum has been sent: a grant of no bytes
        counts there as its end. */
    predicate Skips()
      reads this
    {
      (state == SendHeader && headerCount == 0) || (state == SendBodyCrc && crcCount == 0)
    }

    ghost function Rank(): nat
      reads this
    {
      match state
      case SendHeader => 3
      case SendBody => 2
      case SendBodyCrc => 1
      case SendDone => 0
    }

    /** The case of the loop for a header. */
    method HeaderTurn(sendLen: nat) returns (left: nat)
      requires Valid() && state == SendHeader
      modifies `headerCount, `wire, `state
      ensures Valid() && left <= sendLen && |wire| + left == |old(wire)| + sendLen
      ensures state == SendHeader || Rank() < old(Rank())
      ensures state == SendHeader ==> left == 0
      ensures sendLen > 0 || !old(Skips()) ==> wire + Rest() == old(wire) + old(Rest())
      ensures sendLen == 0 && old(Skips()) ==> wire == old(wire) && |Rest()| < |old(Rest())|
    {
      left := HeaderStep(sendLen);
      if sendLen > 0 || !old(Skips()) {
        HeaderMoves(link, old(Snap()), Snap());
      }
    }

    method HeaderStep(sendLen: nat) returns (left: nat)
      requires Valid() && state == SendHeader
      modifies `headerCount, `wire, `state
      ensures Valid() && left <= sendLen && |wire| + left == |old(wire)| + sendLen
      ensures state == SendHeader || (state == SendBody && bodyCount == 0) || state == SendDone
      ensures if state == SendHeader then left == 0
              else state == if LengthOf(cur.header) > 0 then SendBody else SendDone
      ensures sendLen > 0 || !old(Skips()) ==>
        wire + (if state == SendHeader then cur.header[headerCount..] else [])
        == old(wire) + cur.header[old(headerCount)..]
      ensures sendLen == 0 && old(Skips()) ==> state != SendHeader && wire == old(wire)
    {
      var done;
      done, left := SendHeaderPart(sendLen);
      if done {
        state := if LengthOf(cur.header) > 0 then SendBody else SendDone;
      }
    }

    /** The case of the loop for a body. */
    method BodyTurn(sendLen: nat) returns (left: nat)
      requires Valid() && state == SendBody && !dmaActive
      modifies `needNum, `bodyCount, `state, `wire, `dmaActive, `dmaLen
      ensures Valid() && left <= sendLen
      ensures !dmaActive ==> |wire| + left == |old(wire)| + sendLen
      ensures dmaActive ==> |old(wire)| < |wire| <= |old(wire)| + sendLen
      ensures sendLen == 0 ==> !dmaActive
      ensures state == SendBody || Rank() < old(Rank())
      ensures state == SendBody ==> left == 0
      ensures wire + Rest() == old(wire) + old(Rest())
    {
      left := BodyStep(sendLen);
      BodyMoves(link, old(Snap()), Snap());
    }

    method BodyStep(sendLen: nat) returns (left: nat)
      requires Valid() && state == SendBody && !dmaActive
      modifies `needNum, `bodyCount, `state, `wire, `dmaActive, `dmaLen
      ensures Valid() && left <= sendLen
      ensures !dmaActive ==> |wire| + left == |old(wire)| + sendLen
      ensures dmaActive ==> |old(wire)| < |wire| <= |old(wire)| + sendLen
      ensures sendLen == 0 ==> !dmaActive
      ensures if state == SendBody then left == 0 && wire + BodyRest() == old(wire) + old(BodyRest())
              else state == AfterBody() && wire == old(wire) + old(BodyRest())
    {
      var ret;
      ret, left := SendBodyPart(sendLen);
      if ret == 1 {
        state := AfterBody();
      }
    }

    /** The case of the loop for a checksum. */
    method CrcTurn(sendLen: nat) returns (left: nat)
      requires Valid() && state == SendBodyCrc
      modifies `crcCount, `crc, `wire, `state
      ensures Valid() && left <= sendLen && |wire| + left == |old(wire)| + sendLen
      ensures state == SendBodyCrc || Rank() < old(Rank())
      ensures state == SendBodyCrc ==> left == 0
      ensures sendLen > 0 || !old(Skips()) ==> wire + Rest() == old(wire) + old(Rest())
      ensures sendLen == 0 && old(Skips()) ==> wire == old(wire) && |Rest()| < |old(Rest())|
    {
      var done;
      done, left := SendCrcPart(sendLen);
      if done {
        state := SendDone;
      }
    }

    /** A turn that works on the current pack. */
    method PackTurn(sendLen: nat) returns (left: nat)
      requires Valid() && state != SendDone && !dmaActive
      modifies `headerCount, `wire, `state, `needNum, `bodyCount, `dmaActive, `dmaLen, `crcCount, `crc
      ensures Valid() && left <= sendLen
      ensures !dmaActive ==> |wire| + left == |old(wire)| + sendLen
      ensures dmaActive ==> left == 0 && |old(wire)| < |wire| <= |old(wire)| + sendLen
      ensures left == 0 || Rank() < old(Rank())
      ensures sendLen > 0 || !old(Skips()) ==> wire + Rest() == old(wire) + old(Rest())
      ensures sendLen == 0 && old(Skips()) ==> wire == old(wire) && |Rest()| < |old(Rest())|
    {
      match state
      case SendHeader =>
        left := HeaderTurn(sendLen);
      case SendBody =>
        left := BodyTurn(sendLen);
      case SendBodyCrc =>
        left := CrcTurn(sendLen);
    }

    /** One turn of the loop in _UartMessageAsyncSendCallback; stop when the queue has run dry. */
    method Turn(sendLen: nat) returns (left: nat, stop: bool)
      requires Valid() && sending && !dmaActive
      modifies `queue, `cur, `state, `headerCount, `bodyCount, `needNum, `crcCount, `crc,
               `sending, `dmaActive, `dmaLen, `wire
      ensures Valid() && left <= sendLen && stop == !sending
      ensures !dmaActive ==> |wire| + left == |old(wire)| + sendLen
      ensures dmaActive ==> left == 0 && |old(wire)| < |wire| <= |old(wire)| + sendLen
      ensures sendLen > 0 || !old(Skips()) ==> wire + Pending() == old(wire) + old(Pending())
      ensures sendLen == 0 && old(Skips()) ==> wire == old(wire) && |Pending()| < |old(Pending())|
      ensures |queue| <= |old(queue)| && (stop ==> queue == old(queue) && Rank() == old(Rank()))
      ensures left == 0 || stop || |queue| < |old(queue)| || (queue == old(queue) && Rank() < old(Rank()))
    {
      if state == SendDone {
        left := sendLen;
        NothingMoves(link, Snap());
        var ret := SendCheck();
        stop := ret == -1;
      } else {
        left := PackTurn(sendLen);
        stop := false;
        PackMoves(link, old(Snap()), Snap());
      }
    }

    method TurnFor(ghost total: Snapshot -> seq<Byte>, sendLen: nat) returns (left: nat, stop: bool)
      requires Totals(link, total) && Valid() && sending && !dmaActive
      modifies `queue, `cur, `state, `headerCount, `bodyCount, `needNum, `crcCount, `crc,
               `sending, `dmaActive, `dmaLen, `wire
      ensures Valid() && left <= sendLen && stop == !sending
      ensures !dmaActive ==> |wire| + left == |old(wire)| + sendLen
      ensures dmaActive ==> left == 0 && |old(wire)| < |wire| <= |old(wire)| + sendLen
      ensures Kept(total(old(Snap())), total(Snap()), sendLen > 0 || !old(Skips()))
      ensures |queue| <= |old(queue)| && (stop ==> queue == old(queue) && Rank() == old(Rank()))
      ensures left == 0 || stop || |queue| < |old(queue)| || (queue == old(queue) && Rank() < old(Rank()))
    {
      left, stop := Turn(sendLen);
      assert total(Snap()) == Total(link, Snap()) && total(old(Snap())) == Total(link, old(Snap()));
      if sendLen == 0 && old(Skips()) {
        assert |Total(link, Snap())| < |Total(link, old(Snap()))|;
      }
    }

    /** _UartMessageAsyncSendCallback for a FIFO with room for grant bytes. */
    method SendWhile(ghost total: Snapshot -> seq<Byte>, grant: nat)
      requires Totals(link, total) && Valid() && sending && !dmaActive
      modifies `queue, `cur, `state, `headerCount, `bodyCount, `needNum, `crcCount, `crc,
               `sending, `dmaActive, `dmaLen, `wire
      ensures Valid()
      ensures Kept(total(old(Snap())), total(Snap()), grant > 0 || !old(Skips()))
      ensures |old(wire)| <= |wire| <= |old(wire)| + grant
      ensures sending && !dmaActive ==> |wire| == |old(wire)| + grant
      ensures dmaActive ==> |wire| > |old(wire)|
      ensures |queue| <= |old(queue)|
    {
      var sendLen, stop := TurnFor(total, grant);
      while sendLen > 0 && !stop
        invariant Valid() && 0 <= sendLen <= grant && stop == !sending && |queue| <= |old(queue)|
        invariant !dmaActive ==> |wire| + sendLen == |old(wire)| + grant
        invariant dmaActive ==> sendLen == 0 && |old(wire)| < |wire| <= |old(wire)| + grant
        invariant Kept(total(old(Snap())), total(Snap()), grant > 0 || !old(Skips()))
        decreases sendLen, |queue|, Rank(), !stop
      {
        sendLen, stop := TurnFor(total, sendLen);
      }
    }

    /** _UartMessageAsyncSendCallback: what has been sent and what is pending together stay the
        same, unless there was no room at all just when a header or a checksum was due; then it is
        lost. */
    method SendCallback(grant: nat)
      requires Valid() && sending && !dmaActive
      modifies `queue, `cur, `state, `headerCount, `bodyCount, `needNum, `crcCount, `crc,
               `sending, `dmaActive, `dmaLen, `wire
      ensures Valid()
      ensures Kept(old(wire + Pending()), wire + Pending(), grant > 0 || !old(Skips()))
      ensures |old(wire)| <= |wire| <= |old(wire)| + grant
      ensures sending && !dmaActive ==> |wire| == |old(wire)| + grant
      ensures dmaActive ==> |wire| > |old(wire)|
      ensures |queue| <= |old(queue)|
    {
      ghost var total := (s: Snapshot) => Total(link, s);
      SendWhile(total, grant);
    }

    /** The transfer is done, and the body is looked at again. */
    method EndDma()
      requires Valid() && dmaActive
      modifies `needNum, `bodyCount, `state, `wire, `dmaActive, `dmaLen
      ensures Valid() && !dmaActive && |wire| == |old(wire)| + old(dmaLen)
      ensures wire + Rest() == old(wire) + old(Rest())
    {
      EndTransfer();
      var left := BodyTurn(0);
    }

    method EndTransfer()
      requires Valid() && dmaActive
      modifies `wire, `dmaActive, `dmaLen
      ensures Valid() && !dmaActive && |wire| == |old(wire)| + old(dmaLen)
      ensures wire + Rest() == old(wire) + old(Rest())
    {
      Transferred(wire, cur.body, bodyCount - dmaLen, bodyCount, CrcBytes(link, cur));
      wire := wire + cur.body[bodyCount - dmaLen..bodyCount];
      dmaActive, dmaLen := false, 0;
    }

    /** _UartAsyncSendCallback, when the running transfer is done. */
    method DmaDone()
      requires Valid() && dmaActive
      modifies `queue, `cur, `state, `headerCount, `bodyCount, `needNum, `crcCount, `crc,
               `sending, `dmaActive, `dmaLen, `wire
      ensures Valid() && !dmaActive && sending && queue == old(queue)
      ensures wire + Pending() == old(wire + Pending())
      ensures |wire| == |old(wire)| + old(dmaLen)
    {
      EndDma();
      Through(old(wire), old(Rest()), wire, Rest(), WireOfAll(link, queue));
    }
  }
}
