/** The receive interrupt of lvp/common/uart_message_v2.c: a chunk at a time, with DMA for the
    middle of long bodies. */
module UartReceivers {
  import opened Registers
  import opened UartFrame
  import opened UartReceive

  /** The loop went from state s with the bytes buf ahead to state t with rest ahead, and rest
      does to t what buf would have done to s. */
  ghost predicate Advances(run: (Recv, seq<Byte>) -> Recv, s: Recv, buf: seq<Byte>, t: Recv, rest: seq<Byte>) {
    t.Valid() && |rest| <= |buf| && run(t, rest) == run(s, buf)
  }

  lemma OneByte(link: Link, run: (Recv, seq<Byte>) -> Recv, s: Recv, buf: seq<Byte>)
    requires Follows(link, run) && s.Valid() && !Stalls(link, s) && buf != []
    ensures Advances(run, s, buf, Consume(link, s, buf[0]), buf[1..])
  {
    ConsumeFirst(link, s, buf);
    assert run(s, buf) == RecvAll(link, s, buf);
    assert run(Consume(link, s, buf[0]), buf[1..]) == RecvAll(link, Consume(link, s, buf[0]), buf[1..]);
  }

  lemma NoByte(link: Link, run: (Recv, seq<Byte>) -> Recv, s: Recv, buf: seq<Byte>)
    requires Follows(link, run) && s.Valid() && Stalls(link, s) && buf != []
    ensures Advances(run, s, buf, Move(link, s), buf)
  {
    MoveFirst(link, s, buf);
    assert run(s, buf) == RecvAll(link, s, buf);
    assert run(Move(link, s), buf) == RecvAll(link, Move(link, s), buf);
  }

  lemma ManyBytes(link: Link, run: (Recv, seq<Byte>) -> Recv, s: Recv, buf: seq<Byte>, n: nat)
    requires Follows(link, run) && s.Valid() && n <= |buf|
    ensures Advances(run, s, buf, RecvAll(link, s, buf[..n]), buf[n..])
  {
    assert buf == buf[..n] + buf[n..];
    RecvConcat(link, s, buf[..n], buf[n..]);
    assert run(s, buf) == RecvAll(link, s, buf);
    var t := RecvAll(link, s, buf[..n]);
    assert run(t, buf[n..]) == RecvAll(link, t, buf[n..]);
  }

  lemma HeaderBytes(link: Link, run: (Recv, seq<Byte>) -> Recv, s: Recv, buf: seq<Byte>, n: nat)
    requires Follows(link, run) && s.Valid() && s.phase == CheckHeader
    requires 0 < n <= |buf| && s.headerCount + n <= HEADER_SIZE
    ensures Advances(run, s, buf, AfterHeader(link, CopyHeader(s, buf[..n])), buf[n..])
  {
    ManyBytes(link, run, s, buf, n);
    HeaderRun(link, s, buf[..n]);
  }

  lemma BodyBytes(link: Link, run: (Recv, seq<Byte>) -> Recv, s: Recv, buf: seq<Byte>, n: nat)
    requires Follows(link, run) && s.Valid() && s.phase == CheckBody
    requires 0 < n <= |buf| && s.bodyCount + n <= BodySize(s.header)
    requires s.bodyCount == 0 ==> PrepareRecv(s).0
    ensures Advances(run, s, buf, AfterBody(StoreAll(Started(s), buf[..n])), buf[n..])
  {
    ManyBytes(link, run, s, buf, n);
    BodyRun(link, s, buf[..n]);
  }

  lemma VefBytes(link: Link, run: (Recv, seq<Byte>) -> Recv, s: Recv, buf: seq<Byte>, n: nat)
    requires Follows(link, run) && s.Valid() && s.phase == BodyVef
    requires 0 < n <= |buf| && s.vefCount + n <= 4
    ensures Advances(run, s, buf, AfterVef(ShiftVef(s, buf[..n])), buf[n..])
  {
    ManyBytes(link, run, s, buf, n);
    VefRun(link, s, buf[..n]);
  }

  /** The part of the condition for DMA that looks at the address: past the first 16-byte line. */
  predicate PastFirstLine(base: nat, addr: nat) { addr > base - base % 16 + 16 }

  lemma CopyStep(h: Header, at: nat, buf: seq<Byte>, j: nat)
    requires j < |buf| && at + j < HEADER_SIZE
    ensures Overwrite(h, at, buf[..j])[at + j := buf[j]] == Overwrite(h, at, buf[..j + 1])
  {
    OverwriteNext(h, at, buf[..j + 1], j);
    assert buf[..j + 1][..j] == buf[..j] && buf[..j + 1][..j + 1] == buf[..j + 1];
  }

  /** What the callback does with the answer of one of its helpers. */
  function Outcome(result: int, s: Recv): Recv {
    if result == 1 then Deliver(s, BodySize(s.header))
    else if result == -1 then s.(phase := Phase.FindMagic)
    else s
  }

  /** After the last turn the state is what the whole chunk leads to. */
  lemma ChunkDone(link: Link, s: Recv, chunk: seq<Byte>, t: Recv)
    requires s.Valid() && Advances(RunOf(link), s, chunk, t, [])
    ensures t == RecvAll(link, s, chunk)
  {
    assert RunOf(link)(t, []) == RecvAll(link, t, []);
    assert RunOf(link)(s, chunk) == RecvAll(link, s, chunk);
  }

  class Receiver {
    const link: Link
    var phase: Phase
    var header: Header
    var headerCount: nat
    var slots: seq<Slot>
    var addr: Address
    var bodyCount: nat
    var vefCount: nat
    var tmpVef: seq<Byte>
    var bodyVef: seq<Byte>
    var queue: seq<Delivery>
    const capacity: nat
    /** Bytes a running DMA transfer still has to store; already in bodyCount. */
    var dmaLen: nat

    /** As UartMessageAsyncInit leaves it, for the given registrations. */
    constructor (link: Link, slots: seq<Slot>, capacity: nat)
      requires forall i | 0 <= i < |slots| :: slots[i].Valid()
      ensures Valid() && this.link == link && dmaLen == 0
      ensures Idle(Abs()) && Abs().slots == slots && Abs().delivered == [] && Abs().capacity == capacity
    {
      this.link, this.slots, this.capacity := link, slots, capacity;
      phase, header, headerCount := Phase.FindMagic, seq(HEADER_SIZE, _ => 0), 4;
      addr, bodyCount, dmaLen := Null, 0, 0;
      vefCount, tmpVef, bodyVef, queue := 0, ZERO_WORD, ZERO_WORD, [];
    }

    /** The state as the byte-by-byte specification sees it: a running DMA has stored nothing yet. */
    ghost function Abs(): Recv
      reads this
    {
      var count := if dmaLen <= bodyCount then bodyCount - dmaLen else 0;
      Recv(phase, header, headerCount, slots, addr, count, vefCount, tmpVef, bodyVef, queue, capacity)
    }

    ghost predicate Valid()
      reads this
    {
      && Abs().Valid()
      && (dmaLen > 0 ==> phase == Phase.CheckBody && dmaLen < bodyCount <= BodySize(header))
    }

    /** _UartMessageAsyncRecvFindMagic */
    method FindMagic(ghost run: (Recv, seq<Byte>) -> Recv, buf: seq<Byte>) returns (found: bool, rest: seq<Byte>)
      requires Follows(link, run) && Valid() && dmaLen == 0 && phase == Phase.FindMagic && buf != []
      modifies `header
      ensures Advances(run, old(Abs()), buf,
                       Abs().(phase := if found then Phase.CheckHeader else Phase.FindMagic), rest)
      ensures found || rest == []
    {
      if MagicOf(header) != link.magic {
        var i := 0;
        while i < |buf|
          invariant 0 <= i <= |buf| && MagicOf(header) != link.magic
          invariant Advances(run, old(Abs()), buf, Abs(), buf[i..])
        {
          OneByte(link, run, Abs(), buf[i..]);
          header := WithMagic(header, header[1..4] + [buf[i]]);
          assert buf[i..][1..] == buf[i + 1..];
          if MagicOf(header) == link.magic {
            return true, buf[i + 1..];
          }
          i := i + 1;
        }
        assert buf[i..] == [];
        return false, [];
      }
      NoByte(link, run, Abs(), buf);
      return true, buf;
    }

    /** The copy loop of _UartMessageAsyncRecvCheckHeader. */
    method CopyHeaderBytes(buf: seq<Byte>) returns (j: nat)
      requires 4 <= headerCount < HEADER_SIZE && buf != []
      modifies `header
      ensures 0 < j <= |buf| && headerCount + j <= HEADER_SIZE
      ensures headerCount + j < HEADER_SIZE ==> j == |buf|
      ensures header == Overwrite(old(header), headerCount, buf[..j])
    {
      j := 0;
      while j < |buf| && j + headerCount < HEADER_SIZE
        invariant 0 <= j <= |buf| && headerCount + j <= HEADER_SIZE
        invariant header == Overwrite(old(header), headerCount, buf[..j])
      {
        CopyStep(old(header), headerCount, buf, j);
        header := header[headerCount + j := buf[j]];
        j := j + 1;
      }
    }

    /** _UartMessageAsyncRecvCheckHeader: 1 for a good header, -1 for a bad one, 0 for more to come */
    method CheckHeader(ghost run: (Recv, seq<Byte>) -> Recv, buf: seq<Byte>) returns (result: int, rest: seq<Byte>)
      requires Follows(link, run) && Valid() && phase == Phase.CheckHeader && buf != []
      modifies `header, `headerCount
      ensures Advances(run, old(Abs()), buf,
                       if result == 1 then FinishHeader(link, Abs())
                       else if result == -1 then Abs().(phase := Phase.FindMagic) else Abs(), rest)
      ensures result == 1 ==> HeaderCrcOk(link, header) && headerCount == 4
      ensures |rest| < |buf|
    {
      var j := CopyHeaderBytes(buf);
      HeaderBytes(link, run, old(Abs()), buf, j);
      headerCount := headerCount + j;
      rest := buf[j..];
      assert Abs() == CopyHeader(old(Abs()), buf[..j]);
      if headerCount == HEADER_SIZE {
        headerCount := 4;
        if HeaderCrcOk(link, header) {
          result := 1;
        } else {
          header := WithMagic(header, ZERO_WORD);
          result := -1;
        }
      } else {
        result := 0;
      }
    }

    /** A complete pack goes to the queue, and its magic word is forgotten. */
    method PushPack(len: nat)
      modifies `phase, `header, `queue
      ensures dmaLen == 0 ==> Abs() == Deliver(old(Abs()), len)
    {
      phase := Phase.FindMagic;
      if |queue| < capacity {
        queue := queue + [Delivery(header, len, addr, BytesAt(slots, addr, len), bodyVef)];
      }
      header := WithMagic(header, ZERO_WORD);
    }

    /** _UartMessagePrepareRecv */
    method PrepareRecv() returns (ok: bool)
      modifies `slots, `addr
      ensures dmaLen == 0 ==> (ok, Abs()) == UartReceive.PrepareRecv(old(Abs()))
    {
      var i := 0;
      while i < |slots| && slots[i].id != CmdOf(header)
        invariant i <= |slots| && FindSlot(slots, CmdOf(header), 0) == FindSlot(slots, CmdOf(header), i)
      {
        i := i + 1;
      }
      if i < |slots| && BodySize(header) <= |slots[i].buffer| {
        ghost var off := if slots[i].offset + LengthOf(header) > |slots[i].buffer| then 0 else slots[i].offset;
        if slots[i].offset + LengthOf(header) > |slots[i].buffer| {
          slots := slots[i := slots[i].(offset := 0)];
        }
        assert slots == old(slots)[i := old(slots)[i].(offset := off)];
        if slots[i].hasBuffer {
          addr := At(i, slots[i].offset);
          slots := slots[i := slots[i].(offset := slots[i].offset + BodySize(header))];
          assert slots == old(slots)[i := old(slots)[i].(offset := off + BodySize(header))];
          return true;
        }
      }
      addr := Null;
      return false;
    }

    /** Bytes go to memory, n places after the body address: the copy loop, and the DMA engine. */
    method CopyBody(n: nat, bytes: seq<Byte>)
      requires addr.At? && addr.slot < |slots| && addr.offset + n + |bytes| <= |slots[addr.slot].buffer|
      modifies `slots
      ensures slots == PutBytes(old(slots), addr, n, bytes)
    {
      ghost var was := slots[addr.slot].buffer;
      var i := 0;
      assert Overwrite(was, addr.offset + n, bytes[..0]) == was;
      while i < |bytes|
        invariant 0 <= i <= |bytes|
        invariant slots == old(slots)[addr.slot := old(slots)[addr.slot].(
                             buffer := Overwrite(was, addr.offset + n, bytes[..i]))]
      {
        OverwriteNext(was, addr.offset + n, bytes, i);
        var slot := slots[addr.slot];
        slots := slots[addr.slot := slot.(buffer := slot.buffer[addr.offset + n + i := bytes[i]])];
        i := i + 1;
      }
      assert bytes[..i] == bytes;
      PutBytesKeeps(old(slots), addr, n, bytes);
    }

    /** The rest of a long body is left to DMA: whole 16-byte blocks of it. */
    method StartDma()
      requires Valid() && phase == Phase.CheckBody && dmaLen == 0 && 0 < bodyCount < BodySize(header)
      modifies `dmaLen, `bodyCount
      ensures Valid() && Abs() == old(Abs())
    {
      var base := slots[addr.slot].base + addr.offset;
      var len := BodySize(header) - bodyCount;
      if len > 32 && PastFirstLine(base, base + bodyCount) {
        len := len - len % 16;
        dmaLen := len;
        bodyCount := bodyCount + len;
      }
    }

    /** A body that turns out to be complete already, because it is empty or DMA ended it. */
    method EndBody()
      requires phase == Phase.CheckBody && dmaLen == 0 && bodyCount == BodySize(header)
      modifies `bodyCount, `phase, `header, `queue
      ensures Abs() == FinishBody(old(Abs())) && Rank(Abs()) < old(Rank(Abs()))
    {
      bodyCount := 0;
      if FlagsOf(header) == 0 {
        PushPack(BodySize(header));
      } else {
        phase := Phase.BodyVef;
      }
    }

    /** _UartMessageAsyncRecvCheckBody, also called with nothing when a DMA transfer is done:
        1 for a complete pack, -1 for a refused one, 0 when it has dealt with the state itself */
    method CheckBody(ghost run: (Recv, seq<Byte>) -> Recv, buf: seq<Byte>) returns (result: int, rest: seq<Byte>)
      requires Follows(link, run) && Valid() && phase == Phase.CheckBody && dmaLen == 0
      requires buf == [] ==> bodyCount > 0
      modifies this
      ensures buf == [] ==> dmaLen == 0 && Abs() == AfterBody(old(Abs()))
      ensures buf != [] ==> Advances(run, old(Abs()), buf, Outcome(result, Abs()), rest)
      ensures |rest| == |buf| ==> Rank(Outcome(result, Abs())) < old(Rank(Abs()))
      ensures dmaLen > 0 ==> result == 0 && rest == [] && Valid()
    {
      if bodyCount == BodySize(header) {
        if buf != [] {
          NoByte(link, run, Abs(), buf);
        }
        EndBody();
        return 0, buf;
      }
      if bodyCount == 0 {
        var ok := PrepareRecv();
        if !ok {
          NoByte(link, run, old(Abs()), buf);
          return -1, buf;
        }
      }
      if buf == [] {
        return -1, buf;
      }
      StartedFits(old(Abs()));
      assert Abs() == Started(old(Abs()));
      result, rest := TakeBody(run, buf, old(Abs()));
    }

    /** The rest of _UartMessageAsyncRecvCheckBody: copy what is there; was is the state before
        room was reserved. */
    method TakeBody(ghost run: (Recv, seq<Byte>) -> Recv, buf: seq<Byte>, ghost was: Recv)
      returns (result: int, rest: seq<Byte>)
      requires Follows(link, run) && was.Valid() && was.phase == Phase.CheckBody && dmaLen == 0 && buf != []
      requires was.bodyCount < BodySize(was.header) && (was.bodyCount == 0 ==> UartReceive.PrepareRecv(was).0)
      requires Abs() == Started(was) && Abs().Valid() && Abs().BodyFits() && bodyCount == was.bodyCount
      requires header == was.header && phase == Phase.CheckBody
      modifies this
      ensures Advances(run, was, buf, Outcome(result, Abs()), rest) && |rest| < |buf|
      ensures dmaLen > 0 ==> result == 0 && rest == [] && Valid()
    {
      var left := BodySize(header) - bodyCount;
      var n := if left > |buf| then |buf| else left;
      BodyBytes(link, run, was, buf, n);
      StoreValid(Abs(), buf[..n]);
      CopyBody(bodyCount, buf[..n]);
      bodyCount := bodyCount + n;
      assert Abs() == StoreAll(Started(was), buf[..n]);
      rest := buf[n..];
      if bodyCount == BodySize(header) {
        result := CompleteBody();
      } else {
        result := 0;
        StartDma();
      }
    }

    /** The last body byte has been copied from a chunk. */
    method CompleteBody() returns (result: int)
      requires phase == Phase.CheckBody && dmaLen == 0 && bodyCount == BodySize(header)
      modifies `bodyCount, `phase
      ensures Outcome(result, Abs()) == FinishBody(old(Abs()))
    {
      bodyCount := 0;
      if FlagsOf(header) == 0 {
        return 1;
      }
      phase := Phase.BodyVef;
      return 0;
    }

    /** _UartMessageAsyncRecvBodyVerification: 1 for a complete pack, 0 for more to come */
    method BodyVerification(ghost run: (Recv, seq<Byte>) -> Recv, buf: seq<Byte>) returns (result: int, rest: seq<Byte>)
      requires Follows(link, run) && Valid() && phase == Phase.BodyVef && buf != []
      modifies `tmpVef, `vefCount, `bodyVef
      ensures Advances(run, old(Abs()), buf, Outcome(result, Abs()), rest) && |rest| < |buf|
      ensures result == 0 || result == 1
    {
      var n := if 4 - vefCount > |buf| then |buf| else 4 - vefCount;
      VefBytes(link, run, Abs(), buf, n);
      ShiftIn(buf[..n]);
      rest := buf[n..];
      if vefCount + n == 4 {
        bodyVef := tmpVef;
        tmpVef := ZERO_WORD;
        vefCount := 0;
        result := 1;
      } else {
        vefCount := vefCount + n;
        result := 0;
      }
    }

    method ShiftIn(bytes: seq<Byte>)
      requires |tmpVef| == 4
      modifies `tmpVef
      ensures tmpVef == (old(tmpVef) + bytes)[|bytes|..]
    {
      var i := 0;
      while i < |bytes|
        invariant 0 <= i <= |bytes| && tmpVef == (old(tmpVef) + bytes[..i])[i..]
      {
        tmpVef := tmpVef[1..] + [bytes[i]];
        i := i + 1;
      }
      assert bytes[..i] == bytes;
    }

    /** One turn of the loop in _UartMessageAsyncRecvCallback. */
    method Turn(ghost run: (Recv, seq<Byte>) -> Recv, buf: seq<Byte>) returns (rest: seq<Byte>)
      requires Follows(link, run) && Valid() && dmaLen == 0 && buf != []
      modifies this
      ensures Valid() && Advances(run, old(Abs()), buf, Abs(), rest)
      ensures |rest| == |buf| ==> Rank(Abs()) < old(Rank(Abs()))
      ensures dmaLen > 0 ==> rest == []
    {
      match phase
      case FindMagic =>
        var found: bool;
        found, rest := FindMagic(run, buf);
        if found {
          phase := Phase.CheckHeader;
        }
      case CheckHeader =>
        rest := HeaderTurn(run, buf);
      case CheckBody =>
        var result: int;
        result, rest := CheckBody(run, buf);
        Conclude(result);
      case BodyVef =>
        var result: int;
        result, rest := BodyVerification(run, buf);
        Conclude(result);
    }

    method HeaderTurn(ghost run: (Recv, seq<Byte>) -> Recv, buf: seq<Byte>) returns (rest: seq<Byte>)
      requires Follows(link, run) && Valid() && phase == Phase.CheckHeader && buf != []
      modifies this
      ensures dmaLen == 0 && Advances(run, old(Abs()), buf, Abs(), rest) && |rest| < |buf|
    {
      var result;
      result, rest := CheckHeader(run, buf);
      if result == 1 {
        if LengthOf(header) > 0 {
          phase := Phase.CheckBody;
        } else {
          PushPack(0);
        }
      } else if result == -1 {
        phase := Phase.FindMagic;
      }
    }

    /** The branches on a helper's answer. */
    method Conclude(result: int)
      requires dmaLen > 0 ==> result == 0
      modifies `phase, `header, `queue
      ensures dmaLen == 0 ==> Abs() == Outcome(result, old(Abs()))
      ensures dmaLen > 0 ==> Abs() == old(Abs()) && header == old(header) && phase == old(phase)
    {
      if result == 1 {
        PushPack(BodySize(header));
      } else if result == -1 {
        phase := Phase.FindMagic;
      }
    }

    /** _UartMessageAsyncRecvCallback on the bytes gx_uart_read delivers: what they do one by one.
        Every turn consumes a byte or lowers the rank. */
    method RecvCallback(chunk: seq<Byte>)
      requires Valid() && dmaLen == 0
      modifies this
      ensures Valid() && Abs() == RecvAll(link, old(Abs()), chunk)
    {
      if chunk == [] {
        return;
      }
      ghost var run := RunOf(link);
      RunFollows(link);
      var buf := chunk;
      while buf != []
        invariant Valid() && Advances(run, old(Abs()), chunk, Abs(), buf)
        invariant dmaLen > 0 ==> buf == []
        decreases |buf|, Rank(Abs())
      {
        buf := Turn(run, buf);
      }
      ChunkDone(link, old(Abs()), chunk, Abs());
    }

    /** DMA stores its bytes, and the body state is looked at again. */
    method EndDma(bytes: seq<Byte>)
      requires Valid() && dmaLen == |bytes| > 0
      modifies this
      ensures Valid() && dmaLen == 0 && Abs() == AfterBody(StoreAll(old(Abs()), bytes))
    {
      StoreValid(old(Abs()), bytes);
      RunFollows(link);
      CopyBody(bodyCount - dmaLen, bytes);
      dmaLen := 0;
      assert Abs() == StoreAll(old(Abs()), bytes);
      var result, rest := CheckBody(RunOf(link), []);
    }

    /** _uartRecvBufferCallback, when a transfer of these bytes is done.  It passes no buffer, and
        the source reads through that null pointer once before it tests it; this starts at the test. */
    method DmaDone(bytes: seq<Byte>)
      requires Valid() && dmaLen == |bytes| > 0
      modifies this
      ensures Valid() && dmaLen == 0 && Abs() == RecvAll(link, old(Abs()), bytes)
    {
      BodyRun(link, old(Abs()), bytes);
      EndDma(bytes);
    }

    /** LvpQueueGet in UartMessageAsyncTick: the oldest pack, if there is one. */
    method GetPack() returns (packs: seq<Delivery>)
      requires Valid()
      modifies `queue
      ensures Valid() && Abs() == old(Abs()).(delivered := queue)
      ensures packs + queue == old(queue) && (packs == [] <==> old(queue) == []) && |packs| <= 1
    {
      if queue == [] {
        return [];
      }
      packs := queue[..1];
      queue := queue[1..];
    }
  }
}
