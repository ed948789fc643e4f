/** Decoding from a saved block: the demo stores, with every block, the predictor its encoding started from. */
module AdpcmReplay {
  import opened Adpcm
  import opened AdpcmTracking
  import opened AdpcmCode
  import opened AdpcmStream

  /** The encoder that started at e, after some blocks. */
  ghost function After(t: Steps, e: Predictor, blocks: seq<seq<int>>): (r: Predictor)
    requires 0 <= e.idx <= 88
    ensures 0 <= r.idx <= 88
  {
    FollowAll(t, e, Codes(t, e, Flatten(blocks)))
  }

  /** Every block was kept with the predictor the encoder had in front of it. */
  ghost predicate Kept(t: Steps, e: Predictor, blocks: seq<seq<int>>, log: seq<Block>) {
    && 0 <= e.idx <= 88 && |log| == |blocks|
    && forall b | 0 <= b < |log| :: Holds(t, After(t, e, blocks[..b]), blocks[b], log[b])
  }

  lemma FlattenMore(a: seq<seq<int>>, x: seq<int>)
    ensures Flatten(a + [x]) == Flatten(a) + x
  {
    assert (a + [x])[..|a|] == a;
  }

  lemma LastOff<T>(a: seq<T>, b: seq<T>)
    requires b != []
    ensures a + b == (a + b[..|b| - 1]) + [b[|b| - 1]] && b == b[..|b| - 1] + [b[|b| - 1]]
  {
  }

  lemma {:induction false} FlattenSplit(a: seq<seq<int>>, b: seq<seq<int>>)
    ensures Flatten(a + b) == Flatten(a) + Flatten(b)
  {
    if b == [] {
      assert a + b == a;
    } else {
      var n := |b| - 1;
      LastOff(a, b);
      FlattenSplit(a, b[..n]);
      FlattenMore(a + b[..n], b[n]);
      FlattenMore(b[..n], b[n]);
    }
  }

  /** Going on from where the encoder was. */
  lemma AfterSplit(t: Steps, e: Predictor, a: seq<seq<int>>, b: seq<seq<int>>)
    requires 0 <= e.idx <= 88
    ensures After(t, e, a + b) == After(t, After(t, e, a), b)
    ensures Codes(t, e, Flatten(a + b)) == Codes(t, e, Flatten(a)) + Codes(t, After(t, e, a), Flatten(b))
  {
    FlattenSplit(a, b);
    CodesSplit(t, e, Flatten(a), Flatten(b));
    FollowSplit(t, e, Codes(t, e, Flatten(a)), Codes(t, After(t, e, a), Flatten(b)));
  }

  lemma OneBlock(t: Steps, e: Predictor, block: seq<int>)
    requires 0 <= e.idx <= 88
    ensures Flatten([block]) == block && After(t, e, [block]) == FollowAll(t, e, Codes(t, e, block))
  {
    assert [block][..0] == [];
  }

  lemma AfterMore(t: Steps, e: Predictor, blocks: seq<seq<int>>, b: nat)
    requires b < |blocks| && 0 <= e.idx <= 88
    ensures After(t, e, blocks[..b + 1]) ==
            FollowAll(t, After(t, e, blocks[..b]), Codes(t, After(t, e, blocks[..b]), blocks[b]))
  {
    assert blocks[..b + 1] == blocks[..b] + [blocks[b]];
    AfterSplit(t, e, blocks[..b], [blocks[b]]);
    OneBlock(t, After(t, e, blocks[..b]), blocks[b]);
  }

  lemma KeptMore(t: Steps, e: Predictor, blocks: seq<seq<int>>, b: nat, log: seq<Block>, more: Block)
    requires b < |blocks| && Kept(t, e, blocks[..b], log) && Holds(t, After(t, e, blocks[..b]), blocks[b], more)
    ensures Kept(t, e, blocks[..b + 1], log + [more])
  {
    forall i | 0 <= i <= b
      ensures Holds(t, After(t, e, blocks[..b + 1][..i]), blocks[..b + 1][i], (log + [more])[i])
    {
      if i < b {
        assert blocks[..b + 1][..i] == blocks[..b][..i];
        assert Holds(t, After(t, e, blocks[..b][..i]), blocks[..b][i], log[i]);
      } else {
        assert blocks[..b + 1][..i] == blocks[..b];
      }
    }
  }

  method EncodeBlocks(c: Codec, blocks: seq<seq<int>>) returns (log: seq<Block>)
    requires 0 <= c.enPredictIdx <= 88
    modifies c`enPredict, c`enPredictIdx
    ensures Kept(c.t, old(c.En()), blocks, log)
  {
    ghost var e := c.En();
    log := [];
    assert blocks[..0] == [];
    for b := 0 to |blocks|
      invariant Kept(c.t, e, blocks[..b], log) && c.En() == After(c.t, e, blocks[..b])
    {
      var more := EncodeBlock(c, blocks[b]);
      KeptMore(c.t, e, blocks, b, log, more);
      AfterMore(c.t, e, blocks, b);
      log := log + [more];
    }
    assert blocks[..|blocks|] == blocks;
  }

  /** A decoder that was set to s has decoded these blocks. */
  ghost predicate Decoding(t: Steps, s: Predictor, blocks: seq<seq<int>>, de: Predictor, pcm: seq<int>) {
    0 <= s.idx <= 88 && StreamState(t, s, s, Flatten(blocks), After(t, s, blocks), de, pcm)
  }

  lemma DecodingMore(t: Steps, s: Predictor, part: seq<seq<int>>, block: seq<int>, de: Predictor, pcm: seq<int>,
                     de': Predictor, more: seq<int>)
    requires Decoding(t, s, part, de, pcm)
    requires var en := After(t, s, part);
      StreamState(t, en, de, block, FollowAll(t, en, Codes(t, en, block)), de', more)
    ensures Decoding(t, s, part + [block], de', pcm + more)
  {
    var en := After(t, s, part);
    OneBlock(t, en, block);
    FlattenSplit(part, [block]);
    AfterSplit(t, s, part, [block]);
    StreamStep(t, s, s, Flatten(part), block, en, de, pcm, FollowAll(t, en, Codes(t, en, block)), de', more);
  }

  lemma NoneDecoded(t: Steps, s: Predictor)
    requires 0 <= s.idx <= 88
    ensures Decoding(t, s, [], s, [])
  {
  }

  lemma SliceMore<T>(s: seq<T>, k: nat, b: nat)
    requires k <= b < |s|
    ensures s[k..b + 1] == s[k..b] + [s[b]] && s[..b] == s[..k] + s[k..b]
  {
  }

  lemma SliceEnds<T>(s: seq<T>, k: nat)
    requires k <= |s|
    ensures s[k..k] == [] && s[k..|s|] == s[k..]
  {
  }

  /** The saved predictor of a later block. */
  lemma SavedLater(t: Steps, e: Predictor, blocks: seq<seq<int>>, k: nat, b: nat)
    requires k <= b < |blocks| && 0 <= e.idx <= 88
    ensures After(t, After(t, e, blocks[..k]), blocks[k..b]) == After(t, e, blocks[..b])
  {
    SliceMore(blocks, k, b);
    AfterSplit(t, e, blocks[..k], blocks[k..b]);
  }

  predicate Fours(log: seq<Block>) { forall b | 0 <= b < |log| :: log[b].count % 4 == 0 }

  /** view is Decoding of the blocks from k on, kept abstract in the loop. */
  ghost predicate Views(view: (nat, Predictor, seq<int>) -> bool, t: Steps, s: Predictor, blocks: seq<seq<int>>,
                        k: nat)
  {
    forall b: nat, de: Predictor, pcm: seq<int> {:trigger Decoding(t, s, blocks[k..b], de, pcm)} | k <= b <= |blocks| ::
      view(b, de, pcm) == Decoding(t, s, blocks[k..b], de, pcm)
  }

  method DecodeAllFrom(ghost view: (nat, Predictor, seq<int>) -> bool, d: Codec, log: seq<Block>, k: nat,
                       ghost e: Predictor, ghost blocks: seq<seq<int>>, nextByte: int) returns (pcm: seq<int>)
    requires Kept(d.t, e, blocks, log) && Fours(log) && k < |log| && 0 <= nextByte < 256
    requires Views(view, d.t, After(d.t, e, blocks[..k]), blocks, k) && view(k, d.De(), [])
    modifies d`dePredict, d`dePredictIdx
    ensures view(|log|, d.De(), pcm)
  {
    pcm := [];
    for b := k to |log|
      invariant view(b, d.De(), pcm)
    {
      pcm := DecodeViewed(view, d, log, k, b, e, blocks, nextByte, pcm);
    }
  }

  method DecodeViewed(ghost view: (nat, Predictor, seq<int>) -> bool, d: Codec, log: seq<Block>, ghost k: nat, b: nat,
                      ghost e: Predictor, ghost blocks: seq<seq<int>>, nextByte: int, pcm: seq<int>)
    returns (r: seq<int>)
    requires Kept(d.t, e, blocks, log) && Fours(log) && k <= b < |log| && 0 <= nextByte < 256
    requires Views(view, d.t, After(d.t, e, blocks[..k]), blocks, k) && view(b, d.De(), pcm)
    modifies d`dePredict, d`dePredictIdx
    ensures view(b + 1, d.De(), r)
  {
    assert Decoding(d.t, After(d.t, e, blocks[..k]), blocks[k..b], d.De(), pcm) == view(b, d.De(), pcm);
    assert Holds(d.t, After(d.t, e, blocks[..b]), blocks[b], log[b]);
    r := DecodeNext(d, log[b], k, b, e, blocks, nextByte, pcm);
  }

  /** The blocks from the k-th on, decoded from the predictor saved with it. */
  method DecodeFrom(d: Codec, log: seq<Block>, k: nat, ghost e: Predictor, ghost blocks: seq<seq<int>>, nextByte: int)
    returns (pcm: seq<int>)
    requires Kept(d.t, e, blocks, log) && Fours(log) && k < |log| && 0 <= nextByte < 256
    modifies d`dePredict, d`dePredictIdx
    ensures Decoding(d.t, After(d.t, e, blocks[..k]), blocks[k..], d.De(), pcm)
  {
    ghost var s := After(d.t, e, blocks[..k]);
    assert Holds(d.t, s, blocks[k], log[k]);
    d.RestoreDecoder(log[k].saved.value, log[k].saved.idx);
    NoneDecoded(d.t, s);
    SliceEnds(blocks, k);
    ghost var view := (b: nat, de: Predictor, out: seq<int>) =>
      k <= b <= |blocks| && Decoding(d.t, s, blocks[k..b], de, out);
    pcm := DecodeAllFrom(view, d, log, k, e, blocks, nextByte);
  }

  method DecodeNext(d: Codec, next: Block, ghost k: nat, ghost b: nat, ghost e: Predictor,
                    ghost blocks: seq<seq<int>>, nextByte: int, pcm: seq<int>) returns (r: seq<int>)
    requires 0 <= e.idx <= 88 && k <= b < |blocks| && Holds(d.t, After(d.t, e, blocks[..b]), blocks[b], next)
    requires 0 <= nextByte < 256 && next.count % 4 == 0
    requires Decoding(d.t, After(d.t, e, blocks[..k]), blocks[k..b], d.De(), pcm)
    modifies d`dePredict, d`dePredictIdx
    ensures Decoding(d.t, After(d.t, e, blocks[..k]), blocks[k..b + 1], d.De(), r)
  {
    ghost var s, d1 := After(d.t, e, blocks[..k]), d.De();
    SavedLater(d.t, e, blocks, k, b);
    SliceMore(blocks, k, b);
    var more := DecodeBlock(d, next, blocks[b], nextByte);
    DecodingMore(d.t, s, blocks[k..b], blocks[b], d1, pcm, d.De(), more);
    r := pcm + more;
  }

  /** A stream is encoded by one codec; another one, in any state, is set to what was saved with
      the k-th block and decodes from there: it stays zero or one above the encoder. */
  method Replay(c: Codec, d: Codec, blocks: seq<seq<int>>, k: nat, nextByte: int) returns (pcm: seq<int>)
    requires c != d && c.t == d.t && c.En().Valid(32766) && k < |blocks| && 0 <= nextByte < 256
    requires forall b | 0 <= b < |blocks| :: |blocks[b]| % 4 == 0
    modifies c, d
    ensures Tracks(c.t, old(c.En()), Codes(c.t, old(c.En()), Flatten(blocks)), |Flatten(blocks[..k])|, pcm)
  {
    ghost var e := c.En();
    var log := EncodeBlocks(c, blocks);
    assert forall b | 0 <= b < |log| :: Holds(c.t, After(c.t, e, blocks[..b]), blocks[b], log[b]);
    pcm := DecodeFrom(d, log, k, e, blocks, nextByte);
    ReplayNear(c.t, e, blocks, k, d.De(), pcm);
  }

  /** pcm stays zero or one above the encoder, from one of its codes up to the last. */
  ghost predicate Tracks(t: Steps, e: Predictor, cs: seq<Code>, from: nat, pcm: seq<int>) {
    && 0 <= e.idx <= 88 && from + |pcm| == |cs|
    && forall i | 0 <= i < |pcm| :: 0 <= pcm[i] - FollowAll(t, e, cs[..from + i + 1]).value <= 1
  }

  lemma TracksLater(t: Steps, e: Predictor, front: seq<Code>, rest: seq<Code>, pcm: seq<int>)
    requires 0 <= e.idx <= 88 && Tracks(t, FollowAll(t, e, front), rest, 0, pcm)
    ensures Tracks(t, e, front + rest, |front|, pcm)
  {
    forall i | 0 <= i < |pcm|
      ensures 0 <= pcm[i] - FollowAll(t, e, (front + rest)[..|front| + i + 1]).value <= 1
    {
      assert (front + rest)[..|front| + i + 1] == front + rest[..0 + i + 1];
      FollowSplit(t, e, front, rest[..0 + i + 1]);
    }
  }

  lemma ReplayNear(t: Steps, e: Predictor, blocks: seq<seq<int>>, k: nat, de: Predictor, pcm: seq<int>)
    requires e.Valid(32766) && k < |blocks| && Decoding(t, After(t, e, blocks[..k]), blocks[k..], de, pcm)
    ensures Tracks(t, e, Codes(t, e, Flatten(blocks)), |Flatten(blocks[..k])|, pcm)
  {
    var s, a, b := After(t, e, blocks[..k]), Flatten(blocks[..k]), Flatten(blocks[k..]);
    assert blocks == blocks[..k] + blocks[k..];
    AfterSplit(t, e, blocks[..k], blocks[k..]);
    NearForever(t, e, e, Codes(t, e, a));
    StreamNear(t, s, s, b, pcm);
    assert Tracks(t, s, Codes(t, s, b), 0, pcm);
    TracksLater(t, e, Codes(t, e, a), Codes(t, s, b), pcm);
  }
}
