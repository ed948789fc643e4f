/** 3rdparty/adpcm/adpcm.c: the IMA/DVI ADPCM steps of section 4.5.1 of RFC 3551, low nibble first.

    Encoder and decoder run on separate predictors; the encoder stops at 32766 and the decoder
    at 32767. */
module Adpcm {

  /** The step table, in rows of ten. */
  const STEP_ROWS: seq<seq<int>> := [
    [7, 8, 9, 10, 11, 12, 13, 14, 16, 17],
    [19, 21, 23, 25, 28, 31, 34, 37, 41, 45],
    [50, 55, 60, 66, 73, 80, 88, 97, 107, 118],
    [130, 143, 157, 173, 190, 209, 230, 253, 279, 307],
    [337, 371, 408, 449, 494, 544, 598, 658, 724, 796],
    [876, 963, 1060, 1166, 1282, 1411, 1552, 1707, 1878, 2066],
    [2272, 2499, 2749, 3024, 3327, 3660, 4026, 4428, 4871, 5358],
    [5894, 6484, 7132, 7845, 8630, 9493, 10442, 11487, 12635, 13899],
    [15289, 16818, 18500, 20350, 22385, 24623, 27086, 29794, 32767]
  ]

  /** Four code bits, largest first: the sign, then the step, its half and its quarter. */
  datatype Code = Code(negative: bool, full: bool, half: bool, quarter: bool)

  /** A predictor: en_predict and en_predict_idx, or their counterparts in the decoder. */
  datatype Predictor = Predictor(value: int, idx: int)
  {
    predicate Valid(top: int) { -32768 <= value <= top && 0 <= idx <= 88 }
  }

  /** Any table of 89 positive steps; everything but the constant itself is about these. */
  type Steps = t: seq<int> | |t| == 89 && forall i | 0 <= i < 89 :: 1 <= t[i] <= 32767
    witness seq(89, _ => 7)

  /** steptbl is one. */
  lemma StepTableFits()
    ensures |StepTable()| == 89 && forall i | 0 <= i < 89 :: 7 <= StepTable()[i] <= 32767
  {
    forall i | 0 <= i < 89
      ensures 7 <= StepTable()[i] <= 32767
    {
      assert StepTable()[i] == RowEntry(i);
    }
  }

  /** Each step is a tenth more than the one before, rounded; the last one is cut to 16 bits. */
  ghost predicate Graded(t: Steps) {
    && t[0] == 7 && t[88] == 32767
    && forall i | 0 <= i < 88 :: t[i] < t[i + 1] && 10 * t[i + 1] <= 11 * t[i] + 8
                                 && (i < 87 ==> 11 * t[i] - 8 <= 10 * t[i + 1])
  }

  predicate Grows(a: int, b: int) { a < b && 11 * a - 8 <= 10 * b <= 11 * a + 8 }

  lemma RowsGrow(k: nat, j: nat)
    requires k < 8 && j < 9
    ensures Grows(STEP_ROWS[k][j], STEP_ROWS[k][j + 1])
    ensures j < 7 ==> Grows(STEP_ROWS[8][j], STEP_ROWS[8][j + 1])
  {
  }

  lemma RowsJoin(k: nat)
    requires k < 8
    ensures Grows(STEP_ROWS[k][9], STEP_ROWS[k + 1][0])
  {
  }

  lemma EntriesGrow(i: nat)
    requires i < 87
    ensures Grows(RowEntry(i), RowEntry(i + 1))
  {
    var k, j := i / 10, i % 10;
    if j == 9 {
      RowsJoin(k);
    } else {
      assert (i + 1) / 10 == k && (i + 1) % 10 == j + 1;
      RowsGrow(if k < 8 then k else 0, j);
    }
  }

  /** The table of the source. */
  function Table(): (t: Steps)
    ensures t == StepTable()
  {
    StepTableFits();
    StepTable()
  }

  lemma TableGraded()
    ensures Graded(Table())
  {
    var t := Table();
    forall i | 0 <= i < 88
      ensures t[i] < t[i + 1] && 10 * t[i + 1] <= 11 * t[i] + 8 && (i < 87 ==> 11 * t[i] - 8 <= 10 * t[i + 1])
    {
      assert t[i] == RowEntry(i) && t[i + 1] == RowEntry(i + 1);
      if i < 87 {
        EntriesGrow(i);
      } else {
        assert RowEntry(87) == 29794 && RowEntry(88) == 32767;
      }
    }
    assert RowEntry(0) == 7;
  }

  function StepTable(): seq<int> {
    seq(89, i requires 0 <= i < 89 => RowEntry(i))
  }

  function RowEntry(i: int): (step: int)
    requires 0 <= i < 89
    ensures 7 <= step <= 32767
  {
    assert i / 10 == 8 ==> i % 10 < 9;
    STEP_ROWS[i / 10][i % 10]
  }

  /** What is left of a difference after the parts the bits take, largest first. */
  function TakePart(left: int, part: int): int { if left >= part then left - part else left }

  /** The code of a sample: the sign, then each part that still fits in the difference. */
  function CodeFor(t: Steps, s: Predictor, sample: int): Code
    requires 0 <= s.idx <= 88
  {
    var step := t[s.idx];
    var diff := if sample - s.value >= 0 then sample - s.value else s.value - sample;
    var left := TakePart(diff, step);
    Code(sample - s.value < 0, diff >= step, left >= step / 2, TakePart(left, step / 2) >= step / 2 / 2)
  }

  /** The difference a code stands for, without its sign; both sides compute it this way. */
  function Difference(step: int, c: Code): int {
    step / 8
    + (if c.full then step else 0)
    + (if c.half then step / 2 else 0)
    + (if c.quarter then step / 2 / 2 else 0)
  }

  /** The index table, by magnitude; its second half repeats the first. */
  function IndexEntry(c: Code): int {
    if !c.full then -1
    else if !c.half then (if !c.quarter then 2 else 4)
    else if !c.quarter then 6
    else 8
  }

  function NextIndex(idx: int, c: Code): (i: int)
    ensures 0 <= i <= 88
  {
    var n := idx + IndexEntry(c);
    if n < 0 then 0 else if n > 88 then 88 else n
  }

  /** A larger magnitude never lowers the next index, and below a whole step it goes down by one. */
  lemma IndexGrows(idx: int, c: Code, d: Code)
    requires 0 <= idx <= 88 && ToNibble(c.(negative := false)) <= ToNibble(d.(negative := false))
    ensures NextIndex(idx, c) <= NextIndex(idx, d)
    ensures !c.full <==> IndexEntry(c) == -1
    ensures c.full ==> IndexEntry(c) == 2 * (ToNibble(c.(negative := false)) - 3)
  {
  }

  /** How the encoder follows its own code: each sign is clamped on its own side only. */
  function Follow(t: Steps, s: Predictor, c: Code): Predictor
    requires 0 <= s.idx <= 88
  {
    var d := Difference(t[s.idx], c);
    var p := if c.negative
             then if s.value - d < -32768 then -32768 else s.value - d
             else if s.value + d > 32766 then 32766 else s.value + d;
    Predictor(p, NextIndex(s.idx, c))
  }

  /** One sample of Adpcm2Pcm; the new predictor value is the sample written. */
  function Decode(t: Steps, s: Predictor, c: Code): Predictor
    requires 0 <= s.idx <= 88
  {
    var d := Difference(t[s.idx], c);
    var p := if c.negative then s.value - d else s.value + d;
    Predictor(if p > 32767 then 32767 else if p < -32768 then -32768 else p, NextIndex(s.idx, c))
  }

  /** A code as four bits of a word. */
  function ToNibble(c: Code): (n: int)
    ensures 0 <= n < 16
  {
    (if c.negative then 8 else 0) + (if c.full then 4 else 0) + (if c.half then 2 else 0) + (if c.quarter then 1 else 0)
  }

  /** The low four bits of a value, tested one by one. */
  function FromBits(n: int): Code {
    Code(n / 8 % 2 == 1, n / 4 % 2 == 1, n / 2 % 2 == 1, n % 2 == 1)
  }

  lemma HighBitsIgnored(n: int, high: int)
    requires 0 <= n < 16
    ensures FromBits(n + 16 * high) == FromBits(n)
  {
    assert (n + 16 * high) / 8 == n / 8 + 2 * high;
    assert (n + 16 * high) / 4 == n / 4 + 4 * high;
    assert (n + 16 * high) / 2 == n / 2 + 8 * high;
  }

  lemma NibbleBits(n: int)
    requires 0 <= n < 16
    ensures ToNibble(FromBits(n)) == n
  {
    assert n / 4 % 2 == 1 <==> n % 8 >= 4;
    assert n / 2 % 2 == 1 <==> n % 4 >= 2;
  }

  lemma BitsOfNibble(c: Code)
    ensures FromBits(ToNibble(c)) == c
  {
  }

  /** Testing the bits of anything whose low nibble is a code gives the code back. */
  lemma NibbleRoundTrip(c: Code, v: int)
    requires 0 <= v && v % 16 == ToNibble(c)
    ensures FromBits(v) == c
  {
    HighBitsIgnored(ToNibble(c), v / 16);
    BitsOfNibble(c);
  }

  lemma LowNibble(v: int)
    requires 0 <= v
    ensures v % 16 == ToNibble(FromBits(v))
  {
    HighBitsIgnored(v % 16, v / 16);
    NibbleBits(v % 16);
  }
}
