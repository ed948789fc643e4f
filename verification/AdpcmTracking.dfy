/** The decoder follows the encoder over whole runs, and how close both stay to the signal. */
module AdpcmTracking {
  import opened Adpcm

  /** The codes of a run of samples. */
  function Codes(t: Steps, s: Predictor, samples: seq<int>): (cs: seq<Code>)
    requires 0 <= s.idx <= 88
    ensures |cs| == |samples|
  {
    if samples == [] then []
    else
      var n := |samples| - 1;
      var cs := Codes(t, s, samples[..n]);
      cs + [CodeFor(t, FollowAll(t, s, cs), samples[n])]
  }

  /** The encoder after a run of codes. */
  function FollowAll(t: Steps, s: Predictor, cs: seq<Code>): (r: Predictor)
    requires 0 <= s.idx <= 88
    ensures 0 <= r.idx <= 88
  {
    if cs == [] then s else Follow(t, FollowAll(t, s, cs[..|cs| - 1]), cs[|cs| - 1])
  }

  /** The decoder after a run of codes. */
  function DecodeAll(t: Steps, s: Predictor, cs: seq<Code>): (r: Predictor)
    requires 0 <= s.idx <= 88
    ensures 0 <= r.idx <= 88
  {
    if cs == [] then s else Decode(t, DecodeAll(t, s, cs[..|cs| - 1]), cs[|cs| - 1])
  }

  /** Same step index, and the decoder at most one above the encoder. */
  predicate Near(en: Predictor, de: Predictor) {
    en.Valid(32766) && de.Valid(32767) && en.idx == de.idx && 0 <= de.value - en.value <= 1
  }

  /** Whatever the code, one step keeps the two predictors together. */
  lemma NearStep(t: Steps, en: Predictor, de: Predictor, c: Code)
    requires Near(en, de)
    ensures Near(Follow(t, en, c), Decode(t, de, c))
  {
  }

  /** The decoder tracks the encoder forever: after every prefix of every code stream. */
  lemma {:induction false} NearForever(t: Steps, en: Predictor, de: Predictor, cs: seq<Code>)
    requires Near(en, de)
    ensures Near(FollowAll(t, en, cs), DecodeAll(t, de, cs))
  {
    if cs != [] {
      NearForever(t, en, de, cs[..|cs| - 1]);
      NearStep(t, FollowAll(t, en, cs[..|cs| - 1]), DecodeAll(t, de, cs[..|cs| - 1]), cs[|cs| - 1]);
    }
  }

  lemma {:induction false} FollowSplit(t: Steps, s: Predictor, a: seq<Code>, b: seq<Code>)
    requires 0 <= s.idx <= 88
    ensures FollowAll(t, s, a + b) == FollowAll(t, FollowAll(t, s, a), b)
  {
    if b == [] {
      assert a + b == a;
    } else {
      var n := |b| - 1;
      assert (a + b)[..|a + b| - 1] == a + b[..n];
      FollowSplit(t, s, a, b[..n]);
    }
  }

  /** Encoding in blocks is encoding the whole stream. */
  lemma {:induction false} CodesSplit(t: Steps, s: Predictor, a: seq<int>, b: seq<int>)
    requires 0 <= s.idx <= 88
    ensures Codes(t, s, a + b) == Codes(t, s, a) + Codes(t, FollowAll(t, s, Codes(t, s, a)), b)
  {
    if b == [] {
      assert a + b == a;
    } else {
      var n := |b| - 1;
      assert (a + b)[..|a + b| - 1] == a + b[..n];
      CodesSplit(t, s, a, b[..n]);
      FollowSplit(t, s, Codes(t, s, a), Codes(t, FollowAll(t, s, Codes(t, s, a)), b[..n]));
    }
  }

  /** Decoding may start anywhere in the stream, from the predictor and index the encoder had
      there: it tracks the encoder over the rest. */
  lemma NearFromAnyBlock(t: Steps, s: Predictor, a: seq<int>, b: seq<int>)
    requires s.Valid(32766)
    ensures var saved := FollowAll(t, s, Codes(t, s, a));
      var rest := Codes(t, s, a + b)[|a|..];
      Near(FollowAll(t, s, Codes(t, s, a + b)), DecodeAll(t, saved, rest))
  {
    var saved := FollowAll(t, s, Codes(t, s, a));
    var rest := Codes(t, saved, b);
    CodesSplit(t, s, a, b);
    FollowSplit(t, s, Codes(t, s, a), rest);
    NearForever(t, s, s, Codes(t, s, a));
    NearForever(t, saved, saved, rest);
  }

  // ---------------------------------------------------------------- accuracy

  /** Below twice the step, the difference the code stands for is within an eighth of a step
      (plus rounding) of the real one. */
  lemma CodeError(t: Steps, s: Predictor, sample: int)
    requires 0 <= s.idx <= 88
    requires -2 * t[s.idx] < sample - s.value < 2 * t[s.idx]
    ensures var c := CodeFor(t, s, sample);
      var diff := if c.negative then s.value - sample else sample - s.value;
      -(t[s.idx] / 8) <= diff - Difference(t[s.idx], c) <= t[s.idx] / 8 + 2
  {
  }

  lemma FollowTracks(t: Steps, en: Predictor, sample: int)
    requires 0 <= en.idx <= 88 && -32768 <= sample <= 32767
    requires -2 * t[en.idx] < sample - en.value < 2 * t[en.idx]
    ensures -(t[en.idx] / 8 + 2) <= Follow(t, en, CodeFor(t, en, sample)).value - sample <= t[en.idx] / 8 + 2
  {
    CodeError(t, en, sample);
  }

  /** The predictor after coding a sample that was within reach is close to the sample, clamping
      included, and so is what the decoder writes. */
  lemma SampleTracked(t: Steps, en: Predictor, de: Predictor, sample: int)
    requires Near(en, de) && -32768 <= sample <= 32767
    requires -2 * t[en.idx] < sample - en.value < 2 * t[en.idx]
    ensures var c := CodeFor(t, en, sample);
      && -(t[en.idx] / 8 + 2) <= Follow(t, en, c).value - sample <= t[en.idx] / 8 + 2
      && -(t[en.idx] / 8 + 2) <= Decode(t, de, c).value - sample <= t[en.idx] / 8 + 3
  {
    FollowTracks(t, en, sample);
    NearStep(t, en, de, CodeFor(t, en, sample));
  }
}
