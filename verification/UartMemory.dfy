/** How long the body of a queued message pack stays in its buffer: the queue holds only its address. */
module UartMemory {
  import opened Registers
  import opened UartFrame
  import opened UartReceive
  import opened UartRoundTrip

  /** What the address of a queued pack holds. */
  function Fetch(slots: seq<Slot>, d: Delivery): seq<Byte> { BytesAt(slots, d.addr, d.len) }

  /** n bytes at offset o of the i-th buffer. */
  predicate Inside(slots: seq<Slot>, i: nat, o: nat, n: nat) { i < |slots| && o + n <= |slots[i].buffer| }

  /** Where a body that is taken goes. */
  predicate Takes(slots: seq<Slot>, m: Message, i: nat) {
    && m.body != [] && i == FindSlot(slots, m.cmd, 0) < |slots| && |m.body| <= |slots[i].buffer|
  }

  /** bytes, put at p, say what b says wherever they meet the n bytes at o. */
  predicate Agrees(b: seq<Byte>, o: nat, n: nat, bytes: seq<Byte>, p: nat)
    requires p + |bytes| <= |b|
  {
    forall j | p <= j < p + |bytes| && o <= j < o + n :: b[j] == bytes[j - p]
  }

  lemma OverwriteKeeps(b: seq<Byte>, at: nat, bytes: seq<Byte>, o: nat, n: nat)
    requires at + |bytes| <= |b| && o + n <= |b|
    ensures Overwrite(b, at, bytes)[o..o + n] == b[o..o + n] <==> Agrees(b, o, n, bytes, at)
  {
    var c := Overwrite(b, at, bytes);
    forall j | o <= j < o + n
      ensures c[o..o + n][j - o] == (if at <= j < at + |bytes| then bytes[j - at] else b[j])
      ensures b[o..o + n][j - o] == b[j]
    {
    }
    if c[o..o + n] == b[o..o + n] {
      forall j | at <= j < at + |bytes| && o <= j < o + n
        ensures b[j] == bytes[j - at]
      {
        assert c[o..o + n][j - o] == b[o..o + n][j - o];
      }
    }
  }

  /** One more body leaves another where it is if and only if it says the same wherever the two overlap. */
  lemma NextBodyKeeps(slots: seq<Slot>, m: Message, i: nat, o: nat, n: nat)
    requires Takes(slots, m, i) && Inside(slots, i, o, n)
    ensures BytesAt(Filed(slots, m), At(i, o), n) == BytesAt(slots, At(i, o), n)
            <==> Agrees(slots[i].buffer, o, n, m.body, PlaceIn(slots[i], m))
  {
    var p := PlaceIn(slots[i], m);
    OverwriteKeeps(slots[i].buffer, p, m.body, o, n);
    assert Filed(slots, m)[i].buffer == Overwrite(slots[i].buffer, p, m.body);
  }

  /** What the messages of one id claim of its buffer when the offset does not go back. */
  function Demand(ms: seq<Message>, cmd: int): nat
    decreases |ms|
  {
    if ms == [] then 0 else (if ms[0].cmd == cmd then LengthField(ms[0]) else 0) + Demand(ms[1..], cmd)
  }

  /** All of them fit behind the offset of the i-th registration, which is the first with its id. */
  predicate FitBehind(slots: seq<Slot>, ms: seq<Message>, i: nat) {
    i < |slots| && FindSlot(slots, slots[i].id, 0) == i
    && slots[i].offset + Demand(ms, slots[i].id) <= |slots[i].buffer|
  }

  lemma StillFit(slots: seq<Slot>, ms: seq<Message>, i: nat)
    requires ms != [] && FitBehind(slots, ms, i)
    ensures FitBehind(Filed(slots, ms[0]), ms[1..], i) && slots[i].offset <= Filed(slots, ms[0])[i].offset
  {
    SameShapeFinds(Filed(slots, ms[0]), slots, slots[i].id, 0);
  }

  /** Then nothing in front of the offset changes. */
  lemma {:induction false} FrontUntouched(slots: seq<Slot>, ms: seq<Message>, i: nat, o: nat, n: nat)
    requires FitBehind(slots, ms, i) && o + n <= slots[i].offset
    ensures BytesAt(FiledAll(slots, ms), At(i, o), n) == BytesAt(slots, At(i, o), n)
    decreases |ms|
  {
    if ms != [] {
      var m := ms[0];
      StillFit(slots, ms, i);
      FrontUntouched(Filed(slots, m), ms[1..], i, o, n);
      if Takes(slots, m, i) {
        NextBodyKeeps(slots, m, i, o, n);
      }
    }
  }

  lemma JustFiled(slots: seq<Slot>, m: Message, i: nat)
    requires Takes(slots, m, i)
    ensures BytesAt(Filed(slots, m), PlaceFor(slots, m), |m.body|) == m.body
    ensures PlaceFor(slots, m) == At(i, PlaceIn(slots[i], m))
    ensures PlaceIn(slots[i], m) + |m.body| == Filed(slots, m)[i].offset
  {
  }

  /** As long as the offset does not go back, every body stays in its place. */
  lemma {:induction false} BodyStays(slots: seq<Slot>, ms: seq<Message>, k: nat)
    requires k < |ms| && CanTake(slots, ms[k]) && ms[k].body != []
    requires FitBehind(slots, ms, FindSlot(slots, ms[k].cmd, 0))
    ensures BytesAt(FiledAll(slots, ms), PlaceFor(FiledAll(slots, ms[..k]), ms[k]), |ms[k].body|) == ms[k].body
    decreases |ms|
  {
    var i := FindSlot(slots, ms[k].cmd, 0);
    StillFit(slots, ms, i);
    if k == 0 {
      JustFiled(slots, ms[0], i);
      FrontUntouched(Filed(slots, ms[0]), ms[1..], i, PlaceIn(slots[i], ms[0]), |ms[0].body|);
      assert ms[..0] == [];
    } else {
      var after := Filed(slots, ms[0]);
      SameShapeFinds(after, slots, ms[k].cmd, 0);
      BodyStays(after, ms[1..], k - 1);
      assert ms[..k][1..] == ms[1..][..k - 1];
    }
  }

  lemma AgreesInFront(buffer: seq<Byte>, a: seq<Byte>, b: seq<Byte>)
    requires a <= buffer && |b| <= |buffer|
    ensures Agrees(buffer, 0, |a|, b, 0) <==> forall j | 0 <= j < |a| && j < |b| :: a[j] == b[j]
  {
    assert forall j | 0 <= j < |a| :: buffer[j] == a[j];
  }

  /** When it does go back, to where the first body is, that one survives exactly if the two bodies
      agree as far as both go. */
  lemma WrappedOver(slots: seq<Slot>, a: Message, b: Message, i: nat)
    requires Takes(slots, a, i) && b.cmd == a.cmd && b.body != [] && |b.body| <= |slots[i].buffer|
    requires slots[i].offset == 0 && LengthField(a) <= |slots[i].buffer| < |a.body| + LengthField(b)
    ensures BytesAt(FiledAll(slots, [a, b]), PlaceFor(slots, a), |a.body|) == a.body
            <==> forall j | 0 <= j < |a.body| && j < |b.body| :: a.body[j] == b.body[j]
  {
    var one := Filed(slots, a);
    JustFiled(slots, a, i);
    SameShapeFinds(one, slots, b.cmd, 0);
    NextBodyKeeps(one, b, i, 0, |a.body|);
    AgreesInFront(one[i].buffer, a.body, b.body);
    FiledTwo(slots, a, b);
  }

  lemma FiledTwo(slots: seq<Slot>, a: Message, b: Message)
    ensures FiledAll(slots, [a, b]) == Filed(Filed(slots, a), b)
  {
    assert [a, b][1..] == [b] && [b][1..] == [];
    assert FiledAll(Filed(slots, a), [b]) == FiledAll(Filed(Filed(slots, a), b), []);
  }

  /** The k-th body is empty, or all bodies with its id fit in a row behind the offset. */
  predicate Undisturbed(slots: seq<Slot>, ms: seq<Message>, k: nat)
    requires k < |ms|
  {
    ms[k].body != [] ==> FitBehind(slots, ms, FindSlot(slots, ms[k].cmd, 0))
  }

  /** After a list of frames, the queue entry of the k-th message still finds its body. */
  lemma FetchesBody(link: Link, s: Recv, t: Recv, ms: seq<Message>, k: nat)
    requires AllReceived(link, s, t, ms) && k < |ms| && CanTake(s.slots, ms[k]) && Undisturbed(s.slots, ms, k)
    ensures Fetch(t.slots, t.delivered[|s.delivered| + k]) == ms[k].body
  {
    assert Placed(link, s, t, ms, k);
    if ms[k].body != [] {
      BodyStays(s.slots, ms, k);
    }
  }

  /** So does the entry of a single message, whatever its checksum bytes. */
  lemma FetchesLast(s: Recv, t: Recv, m: Message, vef: seq<Byte>)
    requires Received(s, t, m, vef) && |s.delivered| < s.capacity && CanTake(s.slots, m)
    ensures |t.delivered| == |s.delivered| + 1 && t.delivered[..|s.delivered|] == s.delivered
    ensures CarriesWith(t.delivered[|s.delivered|], m, vef)
    ensures Fetch(t.slots, t.delivered[|s.delivered|]) == m.body
  {
    assert |t.delivered[..|t.delivered| - 1]| == |s.delivered|;
    if m.body != [] {
      JustFiled(s.slots, m, FindSlot(s.slots, m.cmd, 0));
    }
  }

  /** Only the length of a body is in its header. */
  lemma SameHeader(link: Link, m: Message, body: seq<Byte>)
    requires link.Valid() && |body| == |m.body|
    ensures HeaderFor(link, m.(body := body)) == HeaderFor(link, m)
    ensures m.flags != 0 ==>
      forall vef :: FrameWith(link, m.(body := body), vef) == HeaderFor(link, m) + body + vef
  {
    assert HeaderStart(link, m.(body := body)) == HeaderStart(link, m);
  }

  lemma FrameWithReceived(link: Link, s: Recv, m: Message, vef: seq<Byte>)
    requires link.Valid() && Idle(s) && m.Fits() && CanTake(s.slots, m) && |vef| == 4
    ensures Received(s, RecvAll(link, s, FrameWith(link, m, vef)), m, vef)
  {
    RunFollows(link);
    FrameWithArrives(link, RunOf(link), s, m, vef);
  }

  /** A frame with another body of the same length, and any checksum. */
  lemma DamagedArrives(link: Link, s: Recv, m: Message, body: seq<Byte>, vef: seq<Byte>) returns (t: Recv)
    requires link.Valid() && Idle(s) && m.Fits() && CanTake(s.slots, m) && |s.delivered| < s.capacity
    requires m.flags != 0 && |body| == |m.body| && |vef| == 4
    ensures t == RecvAll(link, s, HeaderFor(link, m) + body + vef) && Idle(t)
    ensures |t.delivered| == |s.delivered| + 1 && t.delivered[..|s.delivered|] == s.delivered
    ensures CarriesWith(t.delivered[|s.delivered|], m.(body := body), vef)
    ensures Fetch(t.slots, t.delivered[|s.delivered|]) == body
  {
    var m' := m.(body := body);
    SameHeader(link, m, body);
    FrameWithReceived(link, s, m', vef);
    t := RecvAll(link, s, FrameWith(link, m', vef));
    FetchesLast(s, t, m', vef);
  }
}
