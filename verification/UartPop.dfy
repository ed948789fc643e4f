/** UartMessageAsyncRecvedPop of lvp/common/uart_message_v2.c: one turn of the receive queue, with a
    sentinel put behind its last pack. */
module UartPop {
  import opened LvpQueues

  /** What the search looks at of a MSG_PACK; the rest goes with it. */
  datatype Pack<P> = Pack(cmd: int, port: int, rest: P)

  predicate Match<P>(p: Pack<P>, port: int, id: int) { id == p.cmd && port == p.port }

  /** The first match among the first k packs, or k. */
  function FirstMatch<P>(c: seq<Pack<P>>, k: nat, port: int, id: int): (i: nat)
    requires k <= |c|
    ensures i <= k
  {
    if k == 0 then 0
    else
      var i := FirstMatch(c, k - 1, port, id);
      if i < k - 1 || Match(c[k - 1], port, id) then i else k
  }

  /** The first k packs without their first match. */
  function Rest<P>(c: seq<Pack<P>>, k: nat, port: int, id: int): (r: seq<Pack<P>>)
    requires k <= |c|
  {
    if k == 0 then []
    else if FirstMatch(c, k - 1, port, id) == k - 1 && Match(c[k - 1], port, id) then Rest(c, k - 1, port, id)
    else Rest(c, k - 1, port, id) + [c[k - 1]]
  }

  function Without<T>(c: seq<T>, i: nat): seq<T> {
    if i < |c| then c[..i] + c[i + 1..] else c
  }

  predicate NoSentinel<P>(c: seq<Pack<P>>) { forall i | 0 <= i < |c| :: c[i].cmd != 0 }

  /** It is a match, and there is none before it. */
  lemma {:induction false} FirstMatchIsFirst<P>(c: seq<Pack<P>>, k: nat, port: int, id: int)
    requires k <= |c|
    ensures var i := FirstMatch(c, k, port, id);
      (i < k ==> Match(c[i], port, id)) && forall j | 0 <= j < i :: !Match(c[j], port, id)
  {
    if k > 0 {
      FirstMatchIsFirst(c, k - 1, port, id);
    }
  }

  /** Exactly the first match is missing from the rest. */
  lemma {:induction false} RestIsWithout<P>(c: seq<Pack<P>>, k: nat, port: int, id: int)
    requires k <= |c|
    ensures Rest(c, k, port, id) == Without(c[..k], FirstMatch(c, k, port, id))
  {
    if k > 0 {
      RestIsWithout(c, k - 1, port, id);
      assert c[..k] == c[..k - 1] + [c[k - 1]];
    }
  }

  /** The packs a full queue loses first: its oldest, unless that is the one looked for. */
  function AfterLoss<P>(c: seq<Pack<P>>, full: bool, port: int, id: int): seq<Pack<P>> {
    if full && c != [] && !Match(c[0], port, id) then c[1..] else c
  }

  /** Only a full queue with another pack in front loses one. */
  lemma LossShows<P>(c: seq<Pack<P>>, full: bool, port: int, id: int)
    ensures var list := AfterLoss(c, full, port, id);
      Rest(list, |list|, port, id) == Rest(c, |c|, port, id) <==> !(full && c != [] && !Match(c[0], port, id))
  {
    if full && c != [] && !Match(c[0], port, id) {
      OneShorter(c, |c|, port, id);
    }
  }

  lemma {:induction false} OneShorter<P>(c: seq<Pack<P>>, k: nat, port: int, id: int)
    requires 0 < k <= |c| && !Match(c[0], port, id)
    ensures FirstMatch(c, k, port, id) == 1 + FirstMatch(c[1..], k - 1, port, id)
    ensures |Rest(c, k, port, id)| == 1 + |Rest(c[1..], k - 1, port, id)|
  {
    if k > 1 {
      OneShorter(c, k - 1, port, id);
    }
  }

  /** The loop's view: k packs of list are dealt with, the one in hand comes next; kept is the
      caller's pack once the first match has been found. */
  ghost predicate Turning<P>(list: seq<Pack<P>>, port: int, id: int, sentinel: Pack<P>,
                             k: nat, cells: seq<Pack<P>>, hand: Pack<P>, found: bool, kept: Pack<P>) {
    && k <= |list| && sentinel.cmd == 0
    && (if k < |list|
        then hand == list[k] && cells == list[k + 1..] + [sentinel] + Rest(list, k, port, id)
        else hand == sentinel && cells == Rest(list, k, port, id))
    && var i := FirstMatch(list, k, port, id);
       found == (i < k) && (found ==> kept == list[i])
  }

  /** Taking the next pack in hand, after the last one has been put back or kept. */
  lemma TurnOn<P>(list: seq<Pack<P>>, port: int, id: int, sentinel: Pack<P>, k: nat, cells: seq<Pack<P>>,
                  found: bool, kept: Pack<P>)
    requires k < |list| && sentinel.cmd == 0
    requires cells == list[k + 1..] + [sentinel] + Rest(list, k + 1, port, id)
    requires var i := FirstMatch(list, k + 1, port, id); found == (i < k + 1) && (found ==> kept == list[i])
    ensures cells != [] && Turning(list, port, id, sentinel, k + 1, cells[1..], cells[0], found, kept)
  {
  }

  /** view is Turning, kept abstract where its definition is not needed. */
  ghost predicate Views<P(!new)>(view: (nat, seq<Pack<P>>, Pack<P>, bool, Pack<P>) -> bool,
                                 list: seq<Pack<P>>, port: int, id: int, sentinel: Pack<P>) {
    forall k: nat, cells: seq<Pack<P>>, hand: Pack<P>, found: bool, kept: Pack<P>
      {:trigger Turning(list, port, id, sentinel, k, cells, hand, found, kept)} ::
      view(k, cells, hand, found, kept) == Turning(list, port, id, sentinel, k, cells, hand, found, kept)
  }

  /** The message pack in hand lies in out until the first match has been found, then in tmp. */
  ghost predicate Placed<P(0)>(q: LvpQueue<Pack<P>>, pack: array<Pack<P>>, out: array<Pack<P>>, tmp: array<Pack<P>>)
    reads q
  {
    && q.Valid() && q.memberSize == 1 && out.Length == 1 && tmp.Length == 1
    && out != q.buffer && tmp != q.buffer && out != tmp && (pack == out || pack == tmp)
  }

  method RecvedPop<P(0, !new)>(q: LvpQueue<Pack<P>>, port: int, id: int, out: array<Pack<P>>) returns (result: int)
    requires q.Valid() && q.memberSize == 1 && NoSentinel(q.Cells())
    requires out.Length == 1 && out != q.buffer
    modifies q`head, q`tail, q.buffer, out
    ensures q.Valid()
    ensures old(q.Cells()) == [] ==> result == -1 && q.Cells() == [] && out[..] == old(out[..])
    ensures old(q.Cells()) != [] ==>
      var list := AfterLoss(old(q.Cells()), old(q.IsFull()), port, id);
      var i := FirstMatch(list, |list|, port, id);
      && q.Cells() == Rest(list, |list|, port, id) && result == (if i < |list| then 0 else -1)
      && (i < |list| ==> out[0] == list[i])
  {
    if q.IsEmpty() {
      return -1;
    }
    ghost var c := q.Cells();
    SendAround(q, out);
    ghost var sentinel := q.Cells()[|q.Cells()| - 1];
    result := Search(q, port, id, out, c, sentinel);
  }

  /** The sentinel goes into the queue, the oldest pack comes out; a full queue has to give up its
      oldest pack first. */
  method SendAround<P(0)>(q: LvpQueue<Pack<P>>, out: array<Pack<P>>)
    requires q.Valid() && q.memberSize == 1 && q.Cells() != []
    requires out.Length == 1 && out != q.buffer
    modifies q`head, q`tail, q.buffer, out
    ensures q.Valid() && q.IsFull() == old(q.IsFull()) && out[0] == old(q.Cells())[0]
    ensures |q.Cells()| == |old(q.Cells())| && q.Cells()[|q.Cells()| - 1].cmd == 0
    ensures q.Cells()[..|q.Cells()| - 1] == old(q.Cells())[1..]
  {
    var ok;
    if q.IsFull() {
      ok := q.Get(out);
      var cmd := out[0].cmd;
      out[0] := out[0].(cmd := 0);
      ok := q.Put(out[..]);
      out[0] := out[0].(cmd := cmd);
    } else {
      out[0] := out[0].(cmd := 0);
      ok := q.Put(out[..]);
      ok := q.Get(out);
    }
  }

  /** The first match stays where it is. */
  method Keep<P(0)>(q: LvpQueue<Pack<P>>, ghost list: seq<Pack<P>>, ghost k: nat, port: int, id: int,
                    out: array<Pack<P>>, tmp: array<Pack<P>>, ghost sentinel: Pack<P>)
    requires k < |list| && Placed(q, out, out, tmp) && Match(out[0], port, id)
    requires Turning(list, port, id, sentinel, k, q.Cells(), out[0], false, out[0])
    modifies q`head, tmp
    ensures Placed(q, tmp, out, tmp) && !q.IsFull()
    ensures Turning(list, port, id, sentinel, k + 1, q.Cells(), tmp[0], true, out[0])
  {
    TurnOn(list, port, id, sentinel, k, q.Cells(), true, out[0]);
    var ok := q.Get(tmp);
  }

  /** The message pack in hand goes back behind the sentinel, or is lost when there is no place for it. */
  method PutBack<P(0)>(q: LvpQueue<Pack<P>>, ghost list: seq<Pack<P>>, ghost k: nat, port: int, id: int,
                       pack: array<Pack<P>>, ghost out: array<Pack<P>>, ghost tmp: array<Pack<P>>,
                       ghost sentinel: Pack<P>)
    requires k < |list| && Placed(q, pack, out, tmp) && (q.IsFull() ==> k == 0)
    requires Turning(list, port, id, sentinel, k, q.Cells(), pack[0], pack == tmp, out[0])
    requires !(Match(pack[0], port, id) && pack == out)
    modifies q`head, q`tail, q.buffer, pack
    ensures Placed(q, pack, out, tmp) && !q.IsFull()
    ensures if old(q.IsFull())
            then Turning(list[1..], port, id, sentinel, 0, q.Cells(), pack[0], pack == tmp, out[0])
            else Turning(list, port, id, sentinel, k + 1, q.Cells(), pack[0], pack == tmp, out[0])
  {
    ghost var kept := out[0];
    var ok := q.Put(pack[..]);
    if ok {
      assert q.Cells() == list[k + 1..] + [sentinel] + Rest(list, k + 1, port, id);
      TurnOn(list, port, id, sentinel, k, q.Cells(), pack == tmp, kept);
    } else {
      assert list[k + 1..] == list[1..];
    }
    ok := q.Get(pack);
  }

  /** One turn of the loop. */
  method Step<P(0)>(q: LvpQueue<Pack<P>>, ghost list: seq<Pack<P>>, ghost k: nat, port: int, id: int,
                    pack: array<Pack<P>>, out: array<Pack<P>>, tmp: array<Pack<P>>, ghost sentinel: Pack<P>)
    returns (next: array<Pack<P>>, hit: bool)
    requires k < |list| && Placed(q, pack, out, tmp) && (q.IsFull() ==> k == 0)
    requires Turning(list, port, id, sentinel, k, q.Cells(), pack[0], pack == tmp, out[0])
    modifies q`head, q`tail, q.buffer, pack, tmp
    ensures Placed(q, next, out, tmp) && !q.IsFull() && (hit ==> next == tmp) && (!hit ==> next == pack)
    ensures if old(q.IsFull()) && !Match(list[k], port, id)
            then Turning(list[1..], port, id, sentinel, 0, q.Cells(), next[0], next == tmp, out[0])
            else Turning(list, port, id, sentinel, k + 1, q.Cells(), next[0], next == tmp, out[0])
  {
    if Match(pack[0], port, id) && pack == out {
      next, hit := tmp, true;
      Keep(q, list, k, port, id, out, tmp, sentinel);
    } else {
      next, hit := pack, false;
      PutBack(q, list, k, port, id, pack, out, tmp, sentinel);
    }
  }

  /** A turn that is not the last. */
  method NextTurn<P(0, !new)>(ghost view: (nat, seq<Pack<P>>, Pack<P>, bool, Pack<P>) -> bool,
                              q: LvpQueue<Pack<P>>, ghost list: seq<Pack<P>>, ghost k: nat, port: int, id: int,
                              pack: array<Pack<P>>, out: array<Pack<P>>, tmp: array<Pack<P>>, ghost sentinel: Pack<P>)
    returns (next: array<Pack<P>>, hit: bool)
    requires NoSentinel(list) && Views(view, list, port, id, sentinel) && Placed(q, pack, out, tmp) && !q.IsFull()
    requires view(k, q.Cells(), pack[0], pack == tmp, out[0]) && pack[0].cmd != 0
    modifies q`head, q`tail, q.buffer, out, tmp
    ensures k < |list| && Placed(q, next, out, tmp) && !q.IsFull()
    ensures view(k + 1, q.Cells(), next[0], next == tmp, out[0])
    ensures (hit ==> next == tmp) && (!hit ==> next == pack)
  {
    assert Turning(list, port, id, sentinel, k, q.Cells(), pack[0], pack == tmp, out[0]);
    next, hit := Step(q, list, k, port, id, pack, out, tmp, sentinel);
  }

  /** The turns after the first, until the sentinel is in hand. */
  method Turns<P(0, !new)>(ghost view: (nat, seq<Pack<P>>, Pack<P>, bool, Pack<P>) -> bool,
                           q: LvpQueue<Pack<P>>, ghost list: seq<Pack<P>>, ghost from: nat, port: int, id: int,
                           first: array<Pack<P>>, out: array<Pack<P>>, tmp: array<Pack<P>>, ghost sentinel: Pack<P>,
                           before: int)
    returns (result: int, last: array<Pack<P>>, ghost k: nat)
    requires NoSentinel(list) && Views(view, list, port, id, sentinel) && Placed(q, first, out, tmp) && !q.IsFull()
    requires view(from, q.Cells(), first[0], first == tmp, out[0])
    requires before == if first == tmp then 0 else -1
    modifies q`head, q`tail, q.buffer, out, tmp
    ensures Placed(q, last, out, tmp) && last[0].cmd == 0
    ensures view(k, q.Cells(), last[0], last == tmp, out[0])
    ensures result == if last == tmp then 0 else -1
  {
    result, last, k := before, first, from;
    while last[0].cmd != 0
      invariant Placed(q, last, out, tmp) && !q.IsFull() && view(k, q.Cells(), last[0], last == tmp, out[0])
      invariant result == if last == tmp then 0 else -1
      decreases |list| - k
    {
      var hit;
      last, hit := NextTurn(view, q, list, k, port, id, last, out, tmp, sentinel);
      k := k + 1;
      if hit {
        result := 0;
      }
    }
  }

  /** The loop: packs go back behind the sentinel, the first match stays with the caller. */
  method Search<P(0, !new)>(q: LvpQueue<Pack<P>>, port: int, id: int, out: array<Pack<P>>,
                            ghost c: seq<Pack<P>>, ghost sentinel: Pack<P>) returns (result: int)
    requires q.Valid() && q.memberSize == 1 && NoSentinel(c) && c != [] && out.Length == 1 && out != q.buffer
    requires out[0] == c[0] && q.Cells() == c[1..] + [sentinel] && sentinel.cmd == 0
    modifies q`head, q`tail, q.buffer, out
    ensures q.Valid()
    ensures
      var list := AfterLoss(c, old(q.IsFull()), port, id);
      var i := FirstMatch(list, |list|, port, id);
      && q.Cells() == Rest(list, |list|, port, id) && result == (if i < |list| then 0 else -1)
      && (i < |list| ==> out[0] == list[i])
  {
    var tmp := new Pack<P>[1];
    ghost var list, k := AfterLoss(c, q.IsFull(), port, id), if q.IsFull() && !Match(c[0], port, id) then 0 else 1;
    assert q.Cells() == c[1..] + [sentinel] + Rest(c, 0, port, id);
    var pack, hit := Step(q, c, 0, port, id, out, out, tmp, sentinel);
    ghost var view := (k: nat, cells: seq<Pack<P>>, hand: Pack<P>, found: bool, kept: Pack<P>) =>
      Turning(list, port, id, sentinel, k, cells, hand, found, kept);
    result, pack, k := Turns(view, q, list, k, port, id, pack, out, tmp, sentinel, if hit then 0 else -1);
  }
}
