/** The code of 3rdparty/adpcm/adpcm.c: static predictors and the loops over the buffers. */
module AdpcmCode {
  import opened Adpcm
  import opened AdpcmTracking

  /** Up to four nibbles in one 16-bit word, the first one lowest. */
  function PackNibbles(n0: int, n1: int, n2: int, n3: int): int { n0 + 16 * n1 + 256 * n2 + 4096 * n3 }

  /** Word k of a stream of nibbles. */
  function PackedWord(ns: seq<int>, k: nat): int
    requires 4 * k + 4 <= |ns|
  {
    PackNibbles(ns[4 * k], ns[4 * k + 1], ns[4 * k + 2], ns[4 * k + 3])
  }

  function NibblesOf(cs: seq<Code>): (ns: seq<int>)
    ensures |ns| == |cs| && forall i | 0 <= i < |cs| :: ns[i] == ToNibble(cs[i])
  {
    if cs == [] then [] else NibblesOf(cs[..|cs| - 1]) + [ToNibble(cs[|cs| - 1])]
  }

  /** The value whose low nibble is code i of a byte buffer. */
  function BitsAt(bytes: seq<int>, i: nat): int
    requires i / 2 < |bytes|
  {
    if i % 2 == 0 then bytes[i / 2] else bytes[i / 2] / 16
  }

  function CodesOf(bytes: seq<int>, n: nat): (cs: seq<Code>)
    requires n <= 2 * |bytes|
    ensures |cs| == n
  {
    if n == 0 then [] else CodesOf(bytes, n - 1) + [FromBits(BitsAt(bytes, n - 1))]
  }

  /** What is left in code16 after the nibbles ns: those since the last whole word, on top. */
  predicate Pending(code16: int, ns: seq<int>) {
    var i := |ns|;
    && 0 <= code16 < 65536
    && (i % 4 == 1 ==> code16 / 4096 == ns[i - 1])
    && (i % 4 == 2 ==> code16 / 256 == PackNibbles(ns[i - 2], ns[i - 1], 0, 0))
    && (i % 4 == 3 ==> code16 / 16 == PackNibbles(ns[i - 3], ns[i - 2], ns[i - 1], 0))
  }

  /** The words of out are the first |ns| / 4 packed groups, and the rest is as before. */
  ghost predicate Written(out: seq<int>, before: seq<int>, ns: seq<int>) {
    && |out| == |before| >= |ns| / 4
    && (forall k: nat | k < |ns| / 4 :: out[k] == PackedWord(ns, k))
    && out[|ns| / 4..] == before[|ns| / 4..]
  }

  lemma WrittenStep(out: seq<int>, before: seq<int>, ns: seq<int>, n: int, w: int)
    requires Written(out, before, ns)
    requires |ns| % 4 == 3 ==> |ns| / 4 < |out| && w == PackedWord(ns + [n], |ns| / 4)
    ensures Written(if |ns| % 4 == 3 then out[|ns| / 4 := w] else out, before, ns + [n])
  {
    assert forall k: nat | k < |ns| / 4 :: PackedWord(ns + [n], k) == PackedWord(ns, k);
    if |ns| % 4 == 3 {
      var m := |ns| / 4;
      assert out[m := w][m + 1..] == out[m..][1..] == before[m..][1..] == before[m + 1..];
    } else {
      assert |ns + [n]| / 4 == |ns| / 4;
    }
  }

  /** code16 >> 4 | code << 12: the older nibbles move down, the new one is on top. */
  lemma ShiftIn(code16: int, n: int)
    requires 0 <= code16 < 65536 && 0 <= n < 16
    ensures var w := code16 / 16 + n * 4096;
      0 <= w < 65536 && w / 4096 == n && w / 256 == code16 / 4096 + 16 * n && w / 16 == code16 / 256 + 256 * n
  {
  }

  lemma PendingStep(code16: int, ns: seq<int>, n: int)
    requires Pending(code16, ns) && 0 <= n < 16
    ensures Pending(code16 / 16 + n * 4096, ns + [n])
    ensures |ns| % 4 == 3 ==> code16 / 16 + n * 4096 == PackedWord(ns + [n], |ns| / 4)
  {
    ShiftIn(code16, n);
    if |ns| % 4 == 3 {
      assert |ns| == 4 * (|ns| / 4) + 3;
    }
  }

  class Codec {
    const t: Steps
    var enPredict: int
    var enPredictIdx: int
    var dePredict: int
    var dePredictIdx: int

    constructor (t: Steps)
      ensures this.t == t
      ensures En() == Predictor(0, 0) && De() == Predictor(0, 0)
    {
      this.t := t;
      enPredict, enPredictIdx, dePredict, dePredictIdx := 0, 0, 0, 0;
    }

    function En(): Predictor
      reads this
    {
      Predictor(enPredict, enPredictIdx)
    }

    function De(): Predictor
      reads this
    {
      Predictor(dePredict, dePredictIdx)
    }

    /** AdpcmSetDePredict and AdpcmSetDePredictIdx with what AdpcmGetEnPredict and
        AdpcmGetEnpredictIdx returned before a block. */
    method RestoreDecoder(data: int, idx: int)
      modifies this`dePredict, this`dePredictIdx
      ensures De() == Predictor(data, idx)
    {
      dePredict := data;
      dePredictIdx := idx;
    }

    /** One turn of the loop of Pcm2Adpcm, up to the code and the quantised difference. */
    static method Quantize(t: Steps, predict: int, idx: int, sample: int) returns (code: int, diffq: int)
      requires 0 <= idx <= 88
      ensures code == ToNibble(CodeFor(t, Predictor(predict, idx), sample))
      ensures diffq == Difference(t[idx], CodeFor(t, Predictor(predict, idx), sample))
    {
      var step := t[idx];
      var diff := sample - predict;
      if diff >= 0 {
        code := 0;
      } else {
        diff := -diff;
        code := 8;
      }
      diffq := step / 8;
      if diff >= step {
        diff := diff - step;
        diffq := diffq + step;
        code := code + 4;
      }
      step := step / 2;
      if diff >= step {
        diff := diff - step;
        diffq := diffq + step;
        code := code + 2;
      }
      step := step / 2;
      if diff >= step {
        diff := diff - step;
        diffq := diffq + step;
        code := code + 1;
      }
    }

    /** idxtbl, indexed with a nibble. */
    static function IndexOf(code: int): int
      requires 0 <= code < 16
    {
      [-1, -1, -1, -1, 2, 4, 6, 8, -1, -1, -1, -1, 2, 4, 6, 8][code]
    }

    static lemma IndexIsEntry(c: Code)
      ensures IndexOf(ToNibble(c)) == IndexEntry(c)
    {
    }

    /** The rest of that turn: move the predictor, clamp it on the side it moved to. */
    method MoveEncoder(code: int, diffq: int, ghost c: Code)
      requires 0 <= enPredictIdx <= 88 && code == ToNibble(c) && diffq == Difference(t[enPredictIdx], c)
      modifies this`enPredict, this`enPredictIdx
      ensures En() == Follow(t, old(En()), c)
    {
      if code >= 8 {
        enPredict := enPredict - diffq;
        if enPredict < -32768 {
          enPredict := -32768;
        }
      } else {
        enPredict := enPredict + diffq;
        if enPredict > 32766 {
          enPredict := 32766;
        }
      }
      IndexIsEntry(c);
      enPredictIdx := enPredictIdx + IndexOf(code);
      if enPredictIdx < 0 {
        enPredictIdx := 0;
      } else if enPredictIdx > 88 {
        enPredictIdx := 88;
      }
    }

    /** One turn of the loop of Pcm2Adpcm, without the output word. */
    method EncodeSample(ghost s0: Predictor, inPcm: seq<int>, i: nat) returns (code: int)
      requires i < |inPcm| && 0 <= s0.idx <= 88
      requires En() == FollowAll(t, s0, Codes(t, s0, inPcm[..i]))
      modifies this`enPredict, this`enPredictIdx
      ensures 0 <= code < 16
      ensures NibblesOf(Codes(t, s0, inPcm[..i + 1])) == NibblesOf(Codes(t, s0, inPcm[..i])) + [code]
      ensures En() == FollowAll(t, s0, Codes(t, s0, inPcm[..i + 1]))
    {
      var diffq;
      ghost var c := CodeFor(t, En(), inPcm[i]);
      code, diffq := Quantize(t, enPredict, enPredictIdx, inPcm[i]);
      MoveEncoder(code, diffq, c);
      CodesMore(t, s0, inPcm, i);
    }

    /** The output part of that turn. */
    static method PackSample(code16: int, code: int, i: nat, out: array<int>,
                             ghost before: seq<int>, ghost ns: seq<int>) returns (w: int)
      requires 0 <= code < 16 && |ns| == i && Pending(code16, ns)
      requires Written(out[..], before, ns) && (i % 4 == 3 ==> i / 4 < out.Length)
      modifies out
      ensures Pending(w, ns + [code]) && Written(out[..], before, ns + [code])
    {
      PendingStep(code16, ns, code);
      w := code16 / 16 + code * 4096;
      WrittenStep(out[..], before, ns, code, w);
      if i % 4 == 3 {
        out[i / 4] := w;
      }
    }

    /** Everything that holds after i turns of the loop of Pcm2Adpcm. */
    ghost predicate Encoded(s0: Predictor, inPcm: seq<int>, i: nat, code16: int, out: seq<int>, before: seq<int>)
      requires i <= |inPcm| && 0 <= s0.idx <= 88
      reads this
    {
      var cs := Codes(t, s0, inPcm[..i]);
      En() == FollowAll(t, s0, cs) && Pending(code16, NibblesOf(cs)) && Written(out, before, NibblesOf(cs))
    }

    method EncodeTurn(ghost s0: Predictor, inPcm: seq<int>, i: nat, code16: int, out: array<int>,
                      ghost before: seq<int>)
      returns (w: int)
      requires i < |inPcm| && 0 <= s0.idx <= 88 && |inPcm| / 4 <= out.Length
      requires Encoded(s0, inPcm, i, code16, out[..], before)
      modifies this`enPredict, this`enPredictIdx, out
      ensures Encoded(s0, inPcm, i + 1, w, out[..], before)
    {
      ghost var ns := NibblesOf(Codes(t, s0, inPcm[..i]));
      var code := EncodeSample(s0, inPcm, i);
      w := PackSample(code16, code, i, out, before, ns);
    }

    /** Pcm2Adpcm.  out takes the 16-bit words as unsigned values; a tail of fewer than four
        samples moves the predictor but is not written. */
    method Pcm2Adpcm(inPcm: seq<int>, out: array<int>)
      requires out.Length >= |inPcm| / 4 && 0 <= enPredictIdx <= 88
      modifies this`enPredict, this`enPredictIdx, out
      ensures En() == FollowAll(t, old(En()), Codes(t, old(En()), inPcm))
      ensures Written(out[..], old(out[..]), NibblesOf(Codes(t, old(En()), inPcm)))
    {
      var i, code16 := 0, 0;
      ghost var s0, before := En(), out[..];
      assert inPcm[..0] == [];
      while i < |inPcm|
        invariant 0 <= i <= |inPcm| && Encoded(s0, inPcm, i, code16, out[..], before)
      {
        code16 := EncodeTurn(s0, inPcm, i, code16, out, before);
        i := i + 1;
      }
      assert inPcm[..i] == inPcm;
    }

    /** One turn of the loop of Adpcm2Pcm: the low four bits of code move the predictor. */
    method MoveDecoder(code: int)
      requires 0 <= code < 256 && 0 <= dePredictIdx <= 88
      modifies this`dePredict, this`dePredictIdx
      ensures De() == Decode(t, old(De()), FromBits(code))
    {
      var step := t[dePredictIdx];
      var diffq := step / 8;
      if code / 4 % 2 == 1 {
        diffq := diffq + step;
      }
      step := step / 2;
      if code / 2 % 2 == 1 {
        diffq := diffq + step;
      }
      step := step / 2;
      if code % 2 == 1 {
        diffq := diffq + step;
      }
      if code / 8 % 2 == 1 {
        dePredict := dePredict - diffq;
      } else {
        dePredict := dePredict + diffq;
      }
      if dePredict > 32767 {
        dePredict := 32767;
      } else if dePredict < -32768 {
        dePredict := -32768;
      }
      LowNibble(code);
      IndexIsEntry(FromBits(code));
      dePredictIdx := dePredictIdx + IndexOf(code % 16);
      if dePredictIdx < 0 {
        dePredictIdx := 0;
      } else if dePredictIdx > 88 {
        dePredictIdx := 88;
      }
    }

    /** The end of that turn: the upper nibble of the byte, or the next byte. */
    static method NextBits(inAdpcm: seq<int>, i: nat, code: int) returns (r: int)
      requires forall k | 0 <= k < |inAdpcm| :: 0 <= inAdpcm[k] < 256
      requires (i + 1) / 2 < |inAdpcm| && code == BitsAt(inAdpcm, i)
      ensures r == BitsAt(inAdpcm, i + 1) && 0 <= r < 256
    {
      if i % 2 == 1 {
        r := inAdpcm[i / 2 + 1];
      } else {
        r := code / 16;
      }
    }

    /** The same turn, against the stream decoded so far. */
    method DecodeSample(ghost s0: Predictor, inAdpcm: seq<int>, i: nat, code: int)
      requires i + 1 < 2 * |inAdpcm| && 0 <= s0.idx <= 88 && 0 <= code < 256 && code == BitsAt(inAdpcm, i)
      requires De() == DecodeAll(t, s0, CodesOf(inAdpcm, i))
      modifies this`dePredict, this`dePredictIdx
      ensures De() == DecodeAll(t, s0, CodesOf(inAdpcm, i + 1))
    {
      MoveDecoder(code);
      DecodeMore(t, s0, inAdpcm, i);
    }

    /** Everything that holds after i turns of the loop of Adpcm2Pcm. */
    ghost predicate Decoded(s0: Predictor, inAdpcm: seq<int>, i: nat, code: int, out: seq<int>, before: seq<int>)
      requires i / 2 < |inAdpcm| && 0 <= s0.idx <= 88
      reads this
    {
      && 0 <= code < 256 && code == BitsAt(inAdpcm, i)
      && De() == DecodeAll(t, s0, CodesOf(inAdpcm, i))
      && |out| == |before| >= i && out[i..] == before[i..]
      && forall k: nat | k < i :: out[k] == DecodeAll(t, s0, CodesOf(inAdpcm, k + 1)).value
    }

    method DecodeTurn(ghost s0: Predictor, inAdpcm: seq<int>, i: nat, code: int, outPcm: array<int>,
                      ghost before: seq<int>)
      returns (next: int)
      requires forall k | 0 <= k < |inAdpcm| :: 0 <= inAdpcm[k] < 256
      requires (i + 1) / 2 < |inAdpcm| && i < outPcm.Length && 0 <= s0.idx <= 88
      requires Decoded(s0, inAdpcm, i, code, outPcm[..], before)
      modifies this`dePredict, this`dePredictIdx, outPcm
      ensures Decoded(s0, inAdpcm, i + 1, next, outPcm[..], before)
    {
      DecodeSample(s0, inAdpcm, i, code);
      next := NextBits(inAdpcm, i, code);
      ghost var was := outPcm[..];
      outPcm[i] := dePredict;
      assert outPcm[i + 1..] == was[i..][1..] == before[i..][1..] == before[i + 1..];
    }

    /** Adpcm2Pcm.  The byte after the last code is read too, and not used. */
    method Adpcm2Pcm(inAdpcm: seq<int>, outPcm: array<int>, samples: nat)
      requires forall k | 0 <= k < |inAdpcm| :: 0 <= inAdpcm[k] < 256
      requires |inAdpcm| >= samples / 2 + 1 && outPcm.Length >= samples && 0 <= dePredictIdx <= 88
      modifies this`dePredict, this`dePredictIdx, outPcm
      ensures De() == DecodeAll(t, old(De()), CodesOf(inAdpcm, samples))
      ensures forall k: nat | k < samples ::
                outPcm[k] == DecodeAll(t, old(De()), CodesOf(inAdpcm, k + 1)).value
      ensures outPcm[samples..] == old(outPcm[samples..])
    {
      var i := 0;
      ghost var s0, before := De(), outPcm[..];
      var code := inAdpcm[0];
      while i < samples
        invariant 0 <= i <= samples && Decoded(s0, inAdpcm, i, code, outPcm[..], before)
      {
        code := DecodeTurn(s0, inAdpcm, i, code, outPcm, before);
        i := i + 1;
      }
    }
  }

  lemma CodesMore(t: Steps, s: Predictor, samples: seq<int>, i: nat)
    requires 0 <= s.idx <= 88 && i < |samples|
    ensures var cs := Codes(t, s, samples[..i]);
      var c := CodeFor(t, FollowAll(t, s, cs), samples[i]);
      && Codes(t, s, samples[..i + 1]) == cs + [c]
      && FollowAll(t, s, cs + [c]) == Follow(t, FollowAll(t, s, cs), c)
  {
    var cs := Codes(t, s, samples[..i]);
    assert samples[..i + 1][..i] == samples[..i];
    assert (cs + [CodeFor(t, FollowAll(t, s, cs), samples[i])])[..i] == cs;
  }

  lemma DecodeMore(t: Steps, s: Predictor, bytes: seq<int>, i: nat)
    requires 0 <= s.idx <= 88 && i + 1 <= 2 * |bytes|
    ensures DecodeAll(t, s, CodesOf(bytes, i + 1))
         == Decode(t, DecodeAll(t, s, CodesOf(bytes, i)), FromBits(BitsAt(bytes, i)))
  {
    assert CodesOf(bytes, i + 1)[..i] == CodesOf(bytes, i);
  }
}
