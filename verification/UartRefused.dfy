/** A message whose body is refused cannot arrive, whatever else comes in: the condition of the
    round trip is exact. */
module UartRefused {
  import opened Registers
  import opened UartFrame
  import opened UartReceive
  import opened UartRoundTrip

  /** With the registrations regs: packs pushed from index n on, and a body under way, had room. */
  ghost predicate Roomy(s: Recv, n: nat, regs: seq<Slot>) {
    && SameShape(s.slots, regs)
    && (forall i | n <= i < |s.delivered| :: HasRoom(regs, CmdOf(s.delivered[i].header), |s.delivered[i].body|))
    && ((s.phase == CheckBody && s.bodyCount > 0) || s.phase == BodyVef
        ==> HasRoom(regs, CmdOf(s.header), BodySize(s.header)))
  }

  lemma PrepareRoom(s: Recv, regs: seq<Slot>)
    requires SameShape(s.slots, regs)
    ensures SameShape(PrepareRecv(s).1.slots, regs)
    ensures PrepareRecv(s).0 ==> HasRoom(regs, CmdOf(s.header), BodySize(s.header))
  {
    SameShapeFinds(s.slots, regs, CmdOf(s.header), 0);
  }

  lemma DeliverRoomy(s: Recv, len: nat, n: nat, regs: seq<Slot>)
    requires Roomy(s.(phase := FindMagic), n, regs) && HasRoom(regs, CmdOf(s.header), len)
    ensures Roomy(Deliver(s, len), n, regs)
  {
  }

  lemma FinishBodyRoomy(s: Recv, n: nat, regs: seq<Slot>)
    requires Roomy(s.(phase := FindMagic), n, regs) && HasRoom(regs, CmdOf(s.header), BodySize(s.header))
    ensures Roomy(FinishBody(s), n, regs)
  {
    DeliverRoomy(s.(bodyCount := 0), BodySize(s.header), n, regs);
  }

  lemma MoveRoomy(link: Link, s: Recv, n: nat, regs: seq<Slot>)
    requires s.Valid() && Stalls(link, s) && Roomy(s, n, regs)
    ensures Roomy(Move(link, s), n, regs)
  {
    if s.phase == CheckBody {
      if s.bodyCount == BodySize(s.header) {
        FinishBodyRoomy(s, n, regs);
      } else {
        PrepareRoom(s, regs);
      }
    }
  }

  lemma {:induction false} SettleRoomy(link: Link, s: Recv, n: nat, regs: seq<Slot>)
    requires s.Valid() && Roomy(s, n, regs)
    ensures Roomy(Settle(link, s), n, regs)
    decreases Rank(s)
  {
    if Stalls(link, s) {
      MoveValid(link, s);
      MoveRoomy(link, s, n, regs);
      SettleRoomy(link, Move(link, s), n, regs);
    }
  }

  lemma BodyByteRoomy(s: Recv, b: Byte, n: nat, regs: seq<Slot>)
    requires s.Valid() && s.phase == CheckBody && Roomy(s, n, regs) && s.bodyCount < BodySize(s.header)
    requires s.bodyCount == 0 ==> PrepareRecv(s).0
    ensures Roomy(BodyByte(s, b), n, regs)
  {
    StartedFits(s);
    PrepareRoom(s, regs);
    StoreKeeps(Started(s), [b]);
    var t := StoreAll(Started(s), [b]);
    if t.bodyCount == BodySize(t.header) {
      FinishBodyRoomy(t, n, regs);
    }
  }

  lemma ConsumeRoomy(link: Link, s: Recv, b: Byte, n: nat, regs: seq<Slot>)
    requires s.Valid() && !Stalls(link, s) && Roomy(s, n, regs)
    ensures Roomy(Consume(link, s, b), n, regs)
  {
    match s.phase
    case FindMagic =>
    case CheckHeader =>
      var t := s.(header := s.header[s.headerCount := b], headerCount := s.headerCount + 1);
      if t.headerCount == HEADER_SIZE {
        DeliverRoomy(t.(headerCount := 4), 0, n, regs);
      }
    case CheckBody =>
      BodyByteRoomy(s, b, n, regs);
    case BodyVef =>
      var t := s.(tmpVef := s.tmpVef[1..] + [b], vefCount := s.vefCount + 1);
      if t.vefCount == 4 {
        DeliverRoomy(t.(bodyVef := t.tmpVef, tmpVef := ZERO_WORD, vefCount := 0), BodySize(t.header), n, regs);
      }
  }

  lemma {:induction false} StreamRoomy(link: Link, s: Recv, bytes: seq<Byte>, n: nat, regs: seq<Slot>)
    requires s.Valid() && Roomy(s, n, regs)
    ensures Roomy(RecvAll(link, s, bytes), n, regs)
    decreases |bytes|
  {
    if bytes != [] {
      SettleRoomy(link, s, n, regs);
      SettleValid(link, s);
      ConsumeRoomy(link, Settle(link, s), bytes[0], n, regs);
      StreamRoomy(link, RecvByte(link, s, bytes[0]), bytes[1..], n, regs);
    }
  }

  /** No stream makes an idle receiver push a pack whose body it has no room for. */
  lemma RefusedNeverArrives(link: Link, s: Recv, bytes: seq<Byte>, i: nat, m: Message)
    requires Idle(s) && !CanTake(s.slots, m)
    requires |s.delivered| <= i < |RecvAll(link, s, bytes).delivered|
    ensures !Carries(link, RecvAll(link, s, bytes).delivered[i], m)
  {
    StreamRoomy(link, s, bytes, |s.delivered|, s.slots);
  }

  /** A frame brings an idle receiver with a place in its queue exactly its message, if and only if
      the message has no body or its id is registered with a large enough buffer. */
  lemma ArrivesIff(link: Link, s: Recv, m: Message)
    requires link.Valid() && Idle(s) && m.Fits() && |s.delivered| < s.capacity
    ensures Received(s, RecvAll(link, s, Frame(link, m)), m, link.crc(m.body)) <==> CanTake(s.slots, m)
  {
    var t := RecvAll(link, s, Frame(link, m));
    if CanTake(s.slots, m) {
      RunFollows(link);
      FrameArrives(link, RunOf(link), s, m);
    } else if Received(s, t, m, link.crc(m.body)) {
      RefusedNeverArrives(link, s, Frame(link, m), |t.delivered| - 1, m);
    }
  }
}
