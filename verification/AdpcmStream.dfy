/** Encoder output fed to the decoder, block after block. */
module AdpcmStream {
  import opened Adpcm
  import opened AdpcmTracking
  import opened AdpcmCode

  /** The 16-bit words as the decoder's byte pointer sees them. */
  function BytesOf(words: seq<int>): (bytes: seq<int>)
    ensures |bytes| == 2 * |words|
    ensures forall k | 0 <= k < |words| :: bytes[2 * k] == words[k] % 256 && bytes[2 * k + 1] == words[k] / 256 % 256
    ensures forall k | 0 <= k < |bytes| :: 0 <= bytes[k] < 256
  {
    if words == [] then []
    else
      var w := words[|words| - 1];
      BytesOf(words[..|words| - 1]) + [w % 256, w / 256 % 256]
  }

  lemma WordBytes(n0: int, n1: int, n2: int, n3: int)
    requires 0 <= n0 < 16 && 0 <= n1 < 16 && 0 <= n2 < 16 && 0 <= n3 < 16
    ensures var w := PackNibbles(n0, n1, n2, n3);
      w % 256 == n0 + 16 * n1 && w / 256 % 256 == n2 + 16 * n3
  {
    assert PackNibbles(n0, n1, n2, n3) == (n0 + 16 * n1) + 256 * (n2 + 16 * n3);
  }

  /** The four code positions of two neighbouring bytes. */
  lemma BitsOfWord(bytes: seq<int>, k: nat, n0: int, n1: int, n2: int, n3: int)
    requires 0 <= n0 < 16 && 0 <= n1 < 16 && 0 <= n2 < 16 && 0 <= n3 < 16
    requires 2 * k + 1 < |bytes| && bytes[2 * k] == n0 + 16 * n1 && bytes[2 * k + 1] == n2 + 16 * n3
    ensures BitsAt(bytes, 4 * k) % 16 == n0 && BitsAt(bytes, 4 * k + 1) % 16 == n1
    ensures BitsAt(bytes, 4 * k + 2) % 16 == n2 && BitsAt(bytes, 4 * k + 3) % 16 == n3
  {
    assert BitsAt(bytes, 4 * k) == n0 + 16 * n1 && BitsAt(bytes, 4 * k + 1) == n1;
    assert BitsAt(bytes, 4 * k + 2) == n2 + 16 * n3 && BitsAt(bytes, 4 * k + 3) == n3;
  }

  lemma WordReadBack(words: seq<int>, ns: seq<int>, tail: seq<int>, k: nat)
    requires 4 * k + 4 <= |ns| && k < |words| && words[k] == PackedWord(ns, k)
    requires forall i | 0 <= i < |ns| :: 0 <= ns[i] < 16
    ensures var bytes := BytesOf(words) + tail;
      && 2 * k + 1 < |bytes|
      && bytes[2 * k] == ns[4 * k] + 16 * ns[4 * k + 1]
      && bytes[2 * k + 1] == ns[4 * k + 2] + 16 * ns[4 * k + 3]
  {
    WordBytes(ns[4 * k], ns[4 * k + 1], ns[4 * k + 2], ns[4 * k + 3]);
  }

  lemma BitsReadBack(bytes: seq<int>, ns: seq<int>, k: nat, j: nat)
    requires 4 * k + 4 <= |ns| && (forall i | 0 <= i < |ns| :: 0 <= ns[i] < 16) && j < 4
    requires 2 * k + 1 < |bytes|
    requires bytes[2 * k] == ns[4 * k] + 16 * ns[4 * k + 1]
    requires bytes[2 * k + 1] == ns[4 * k + 2] + 16 * ns[4 * k + 3]
    ensures BitsAt(bytes, 4 * k + j) % 16 == ns[4 * k + j]
  {
    BitsOfWord(bytes, k, ns[4 * k], ns[4 * k + 1], ns[4 * k + 2], ns[4 * k + 3]);
  }

  lemma NibbleReadBack(words: seq<int>, ns: seq<int>, tail: seq<int>, i: nat, k: nat, j: nat)
    requires 4 * k + 4 <= |ns| && k < |words| && words[k] == PackedWord(ns, k) && j < 4 && i == 4 * k + j
    requires forall m | 0 <= m < |ns| :: 0 <= ns[m] < 16
    ensures i / 2 < |BytesOf(words) + tail| && BitsAt(BytesOf(words) + tail, i) % 16 == ns[i]
  {
    WordReadBack(words, ns, tail, k);
    BitsReadBack(BytesOf(words) + tail, ns, k, j);
  }

  /** Each code is read back from where it was packed. */
  lemma CodeReadBack(words: seq<int>, before: seq<int>, cs: seq<Code>, tail: seq<int>, i: nat)
    requires |cs| % 4 == 0 && Written(words, before, NibblesOf(cs)) && i < |cs|
    requires forall m | 0 <= m < |tail| :: 0 <= tail[m] < 256
    ensures i / 2 < |BytesOf(words) + tail| && FromBits(BitsAt(BytesOf(words) + tail, i)) == cs[i]
  {
    var ns, k := NibblesOf(cs), i / 4;
    assert k < |ns| / 4;
    assert words[k] == PackedWord(ns, k);
    NibbleReadBack(words, ns, tail, i, k, i % 4);
    NibbleRoundTrip(cs[i], BitsAt(BytesOf(words) + tail, i));
  }

  lemma {:induction false} CodesAre(bytes: seq<int>, cs: seq<Code>, n: nat)
    requires n <= |cs| && n <= 2 * |bytes|
    requires forall i | 0 <= i < n :: FromBits(BitsAt(bytes, i)) == cs[i]
    ensures CodesOf(bytes, n) == cs[..n]
  {
    if n > 0 {
      CodesAre(bytes, cs, n - 1);
    }
  }

  /** The decoder reads the encoder's codes, in order, whatever byte follows them. */
  lemma CodesReadBack(words: seq<int>, before: seq<int>, cs: seq<Code>, tail: seq<int>, n: nat)
    requires |cs| % 4 == 0 && Written(words, before, NibblesOf(cs)) && n <= |cs|
    requires forall m | 0 <= m < |tail| :: 0 <= tail[m] < 256
    ensures n <= 2 * |BytesOf(words) + tail| && CodesOf(BytesOf(words) + tail, n) == cs[..n]
  {
    var bytes := BytesOf(words) + tail;
    if n > 0 {
      CodeReadBack(words, before, cs, tail, n - 1);
    }
    forall i | 0 <= i < n
      ensures FromBits(BitsAt(bytes, i)) == cs[i]
    {
      CodeReadBack(words, before, cs, tail, i);
    }
    CodesAre(bytes, cs, n);
  }

  function Flatten(blocks: seq<seq<int>>): seq<int> {
    if blocks == [] then [] else Flatten(blocks[..|blocks| - 1]) + blocks[|blocks| - 1]
  }

  lemma {:induction false} DecodeSplit(t: Steps, s: Predictor, a: seq<Code>, b: seq<Code>)
    requires 0 <= s.idx <= 88
    ensures DecodeAll(t, s, a + b) == DecodeAll(t, DecodeAll(t, s, a), b)
  {
    if b == [] {
      assert a + b == a;
    } else {
      var n := |b| - 1;
      assert (a + b)[..|a + b| - 1] == a + b[..n];
      DecodeSplit(t, s, a, b[..n]);
    }
  }

  /** After samples: both predictors went through the encoder's codes, and pcm is what the decoder
      wrote after each of them. */
  ghost predicate StreamState(t: Steps, e0: Predictor, d0: Predictor, samples: seq<int>,
                              en: Predictor, de: Predictor, pcm: seq<int>)
  {
    && 0 <= e0.idx <= 88 && 0 <= d0.idx <= 88
    && var cs := Codes(t, e0, samples);
    && en == FollowAll(t, e0, cs) && de == DecodeAll(t, d0, cs)
    && |pcm| == |cs| && forall n | 1 <= n <= |cs| :: pcm[n - 1] == DecodeAll(t, d0, cs[..n]).value
  }

  /** An encoded block as it is kept: the predictor before it, its words, and how many samples it had. */
  datatype Block = Block(saved: Predictor, words: seq<int>, count: nat)

  /** b is what encoding samples from the predictor e leaves. */
  ghost predicate Holds(t: Steps, e: Predictor, samples: seq<int>, b: Block) {
    0 <= e.idx <= 88 && b.saved == e && b.count == |samples|
    && Written(b.words, b.words, NibblesOf(Codes(t, e, samples)))
  }

  /** One block of the demo: the predictor is saved, then the block encoded. */
  method EncodeBlock(c: Codec, block: seq<int>) returns (b: Block)
    requires 0 <= c.enPredictIdx <= 88
    modifies c`enPredict, c`enPredictIdx
    ensures Holds(c.t, old(c.En()), block, b)
    ensures c.En() == FollowAll(c.t, old(c.En()), Codes(c.t, old(c.En()), block))
  {
    var saved := c.En();
    var out := new int[|block| / 4];
    c.Pcm2Adpcm(block, out);
    b := Block(saved, out[..], |block|);
    assert b.words[|b.words|..] == [];
  }

  /** One block decoded, whatever the decoder did before it. */
  method DecodeBlock(d: Codec, b: Block, ghost samples: seq<int>, nextByte: int) returns (pcm: seq<int>)
    requires Holds(d.t, b.saved, samples, b) && b.count % 4 == 0 && 0 <= nextByte < 256 && 0 <= d.dePredictIdx <= 88
    modifies d`dePredict, d`dePredictIdx
    ensures StreamState(d.t, b.saved, old(d.De()), samples, FollowAll(d.t, b.saved, Codes(d.t, b.saved, samples)),
                        d.De(), pcm)
  {
    ghost var d0 := d.De();
    var bytes := BytesOf(b.words) + [nextByte];
    CodesReadBack(b.words, b.words, Codes(d.t, b.saved, samples), [nextByte], b.count);
    EnoughBytes(b.words, NibblesOf(Codes(d.t, b.saved, samples)), nextByte);
    var out := new int[b.count];
    d.Adpcm2Pcm(bytes, out, b.count);
    pcm := out[..];
    BlockState(d.t, b.saved, d0, samples, b.words, b.words, bytes, nextByte,
               FollowAll(d.t, b.saved, Codes(d.t, b.saved, samples)), d.De(), pcm);
  }

  lemma EnoughBytes(words: seq<int>, ns: seq<int>, nextByte: int)
    requires Written(words, words, ns)
    ensures |BytesOf(words) + [nextByte]| >= |ns| / 2 + 1 - |ns| % 4 / 2
  {
  }

  /** One block through Pcm2Adpcm, its words read as bytes, and Adpcm2Pcm. */
  method TransferBlock(c: Codec, block: seq<int>, nextByte: int) returns (pcm: seq<int>)
    requires |block| % 4 == 0 && 0 <= nextByte < 256
    requires 0 <= c.enPredictIdx <= 88 && 0 <= c.dePredictIdx <= 88
    modifies c
    ensures StreamState(c.t, old(c.En()), old(c.De()), block, c.En(), c.De(), pcm)
  {
    var b := EncodeBlock(c, block);
    pcm := DecodeBlock(c, b, block, nextByte);
  }

  lemma BlockState(t: Steps, e0: Predictor, d0: Predictor, block: seq<int>, words: seq<int>, before: seq<int>,
                   bytes: seq<int>, nextByte: int, en: Predictor, de: Predictor, pcm: seq<int>)
    requires |block| % 4 == 0 && 0 <= e0.idx <= 88 && 0 <= d0.idx <= 88 && 0 <= nextByte < 256
    requires en == FollowAll(t, e0, Codes(t, e0, block)) && Written(words, before, NibblesOf(Codes(t, e0, block)))
    requires bytes == BytesOf(words) + [nextByte] && |block| <= 2 * |bytes| && |pcm| == |block|
    requires de == DecodeAll(t, d0, CodesOf(bytes, |block|))
    requires forall k: nat | k < |block| :: pcm[k] == DecodeAll(t, d0, CodesOf(bytes, k + 1)).value
    ensures StreamState(t, e0, d0, block, en, de, pcm)
  {
    var cs := Codes(t, e0, block);
    CodesReadBack(words, before, cs, [nextByte], |cs|);
    assert cs[..|cs|] == cs;
    forall n | 1 <= n <= |cs|
      ensures pcm[n - 1] == DecodeAll(t, d0, cs[..n]).value
    {
      CodesReadBack(words, before, cs, [nextByte], n);
      assert pcm[n - 1] == DecodeAll(t, d0, CodesOf(bytes, n - 1 + 1)).value;
    }
  }

  /** A whole run: every block of the stream is encoded and decoded in turn.  The decoder gets the
      encoder's codes and nothing else, and stays within one of the encoder throughout. */
  method TransferStream(c: Codec, blocks: seq<seq<int>>, nextByte: int) returns (pcm: seq<int>)
    requires forall b | 0 <= b < |blocks| :: |blocks[b]| % 4 == 0
    requires 0 <= nextByte < 256 && Near(c.En(), c.De())
    modifies c
    ensures var cs := Codes(c.t, old(c.En()), Flatten(blocks));
      && c.En() == FollowAll(c.t, old(c.En()), cs)
      && c.De() == DecodeAll(c.t, old(c.De()), cs)
      && Near(c.En(), c.De())
      && |pcm| == |cs|
      && forall n | 1 <= n <= |pcm| ::
           0 <= pcm[n - 1] - FollowAll(c.t, old(c.En()), cs[..n]).value <= 1
  {
    pcm := [];
    ghost var e0, d0 := c.En(), c.De();
    var b := 0;
    assert blocks[..0] == [];
    while b < |blocks|
      invariant 0 <= b <= |blocks|
      invariant StreamState(c.t, e0, d0, Flatten(blocks[..b]), c.En(), c.De(), pcm)
    {
      ghost var e1, d1, done := c.En(), c.De(), pcm;
      var more := TransferBlock(c, blocks[b], nextByte);
      pcm := pcm + more;
      StreamStep(c.t, e0, d0, Flatten(blocks[..b]), blocks[b], e1, d1, done, c.En(), c.De(), more);
      assert blocks[..b + 1][..b] == blocks[..b];
      b := b + 1;
    }
    assert blocks[..b] == blocks;
    StreamNear(c.t, e0, d0, Flatten(blocks), pcm);
  }

  lemma StreamStep(t: Steps, e0: Predictor, d0: Predictor, samples: seq<int>, block: seq<int>,
                   en: Predictor, de: Predictor, pcm: seq<int>, en': Predictor, de': Predictor, more: seq<int>)
    requires StreamState(t, e0, d0, samples, en, de, pcm)
    requires StreamState(t, en, de, block, en', de', more)
    ensures StreamState(t, e0, d0, samples + block, en', de', pcm + more)
  {
    var a, b := Codes(t, e0, samples), Codes(t, en, block);
    CodesSplit(t, e0, samples, block);
    FollowSplit(t, e0, a, b);
    DecodeSplit(t, d0, a, b);
    forall n | 1 <= n <= |a + b|
      ensures (pcm + more)[n - 1] == DecodeAll(t, d0, (a + b)[..n]).value
    {
      DecodePrefix(t, d0, a, b, n);
    }
  }

  lemma DecodePrefix(t: Steps, s: Predictor, a: seq<Code>, b: seq<Code>, n: nat)
    requires 0 <= s.idx <= 88 && n <= |a + b|
    ensures DecodeAll(t, s, (a + b)[..n]) ==
            if n <= |a| then DecodeAll(t, s, a[..n]) else DecodeAll(t, DecodeAll(t, s, a), b[..n - |a|])
  {
    if n <= |a| {
      assert (a + b)[..n] == a[..n];
    } else {
      assert (a + b)[..n] == a + b[..n - |a|];
      DecodeSplit(t, s, a, b[..n - |a|]);
    }
  }

  lemma StreamNear(t: Steps, e0: Predictor, d0: Predictor, samples: seq<int>, pcm: seq<int>)
    requires Near(e0, d0)
    requires var cs := Codes(t, e0, samples);
      StreamState(t, e0, d0, samples, FollowAll(t, e0, cs), DecodeAll(t, d0, cs), pcm)
    ensures var cs := Codes(t, e0, samples);
      && Near(FollowAll(t, e0, cs), DecodeAll(t, d0, cs))
      && forall n | 1 <= n <= |pcm| :: 0 <= pcm[n - 1] - FollowAll(t, e0, cs[..n]).value <= 1
  {
    var cs := Codes(t, e0, samples);
    NearForever(t, e0, d0, cs);
    forall n | 1 <= n <= |pcm|
      ensures 0 <= pcm[n - 1] - FollowAll(t, e0, cs[..n]).value <= 1
    {
      NearForever(t, e0, d0, cs[..n]);
    }
  }
}
