/** A sample out of reach of the step, and what becomes of a signal that stays constant. */
module AdpcmSettling {
  import opened Adpcm
  import opened AdpcmTracking

  function Distance(s: Predictor, sample: int): nat {
    if sample >= s.value then sample - s.value else s.value - sample
  }

  function Next(t: Steps, s: Predictor, sample: int): (r: Predictor)
    requires 0 <= s.idx <= 88
    ensures 0 <= r.idx <= 88
  {
    Follow(t, s, CodeFor(t, s, sample))
  }

  /** Beyond twice the step the encoder moves as far as a code can, towards the sample and not past it,
      and raises the index by eight. */
  lemma BeyondReach(t: Steps, s: Predictor, sample: int)
    requires s.Valid(32766) && -32768 <= sample <= 32767 && Distance(s, sample) >= 2 * t[s.idx]
    ensures var r := Next(t, s, sample);
      && (if sample > s.value then s.value < r.value < sample else sample < r.value < s.value)
      && Distance(r, sample) == Distance(s, sample) - (t[s.idx] / 8 + t[s.idx] + t[s.idx] / 2 + t[s.idx] / 2 / 2)
      && r.idx == if s.idx <= 80 then s.idx + 8 else 88
  {
  }

  /** Within reach it is off by an eighth of a step at most, plus rounding, afterwards. */
  lemma WithinReach(t: Steps, s: Predictor, sample: int)
    requires s.Valid(32766) && -32768 <= sample <= 32767 && Distance(s, sample) < 2 * t[s.idx]
    ensures var r := Next(t, s, sample); r.Valid(32766) && Distance(r, sample) <= t[s.idx] / 8 + 2
    ensures Next(t, s, sample).idx >= s.idx - 1
    ensures Distance(s, sample) < t[s.idx] ==> Next(t, s, sample).idx == if s.idx == 0 then 0 else s.idx - 1
  {
    FollowTracks(t, s, sample);
  }

  // ---------------------------------------------------------------- a constant signal

  /** The encoder after n times the same sample. */
  function Held(t: Steps, s: Predictor, sample: int, n: nat): (r: Predictor)
    requires 0 <= s.idx <= 88
    ensures 0 <= r.idx <= 88
  {
    if n == 0 then s else Next(t, Held(t, s, sample, n - 1), sample)
  }

  lemma {:induction false} HeldIsEncoded(t: Steps, s: Predictor, sample: int, n: nat)
    requires 0 <= s.idx <= 88
    ensures Held(t, s, sample, n) == FollowAll(t, s, Codes(t, s, seq(n, _ => sample)))
  {
    if n > 0 {
      HeldIsEncoded(t, s, sample, n - 1);
      var xs := seq(n, _ => sample);
      assert xs[..n - 1] == seq(n - 1, _ => sample);
      var cs := Codes(t, s, xs[..n - 1]);
      assert Codes(t, s, xs)[..n - 1] == cs;
    }
  }

  predicate InReach(t: Steps, s: Predictor, sample: int)
    requires 0 <= s.idx <= 88
  {
    Distance(s, sample) < 2 * t[s.idx]
  }

  /** Less than one step away: the code does without the whole step. */
  predicate Calm(t: Steps, s: Predictor, sample: int)
    requires 0 <= s.idx <= 88
  {
    Distance(s, sample) < t[s.idx]
  }

  /** The error that is left is less than the next step, even if that is one entry lower. */
  lemma ErrorFits(t: Steps, i: nat, j: nat)
    requires Graded(t) && i <= 88 && j <= 88 && j >= i - 1
    ensures t[i] / 8 + 2 < t[j]
  {
    var k := if i == 0 then 0 else i - 1;
    StepsOrdered(t, k, j);
    StepsOrdered(t, 0, k);
    if i > 0 {
      assert 10 * t[k + 1] <= 11 * t[k] + 8;
    }
  }

  lemma {:induction false} StepsOrdered(t: Steps, i: nat, j: nat)
    requires Graded(t) && i <= j <= 88
    ensures t[i] <= t[j]
    decreases j
  {
    if i < j {
      StepsOrdered(t, i, j - 1);
      assert t[j - 1] < t[j - 1 + 1];
    }
  }

  lemma ReachCalms(t: Steps, s: Predictor, sample: int)
    requires Graded(t) && s.Valid(32766) && -32768 <= sample <= 32767 && InReach(t, s, sample)
    ensures var r := Next(t, s, sample);
      && r.Valid(32766) && Calm(t, r, sample) && InReach(t, r, sample)
      && Distance(r, sample) <= t[s.idx] / 8 + 2
      && (Calm(t, s, sample) ==> r.idx == if s.idx == 0 then 0 else s.idx - 1)
  {
    var r := Next(t, s, sample);
    WithinReach(t, s, sample);
    ErrorFits(t, s.idx, r.idx);
  }

  /** Still out of reach after n samples, with an index that has risen with each of them. */
  predicate Climbing(t: Steps, s: Predictor, sample: int, n: nat)
    requires 0 <= s.idx <= 88
  {
    InReach(t, s, sample) || (n <= 11 && s.idx >= if n == 11 then 88 else 8 * n)
  }

  lemma ClimbStep(t: Steps, s: Predictor, sample: int, n: nat) returns (r: Predictor)
    requires Graded(t) && s.Valid(32766) && -32768 <= sample <= 32767 && Climbing(t, s, sample, n)
    ensures r == Next(t, s, sample) && r.Valid(32766) && Climbing(t, r, sample, n + 1)
  {
    r := Next(t, s, sample);
    if InReach(t, s, sample) {
      ReachCalms(t, s, sample);
    } else {
      BeyondReach(t, s, sample);
    }
  }

  /** Far from the sample the index climbs to the top, and from there one code brings it into reach. */
  lemma {:induction false} Climbs(t: Steps, s: Predictor, sample: int, n: nat)
    requires Graded(t) && s.Valid(32766) && -32768 <= sample <= 32767
    ensures Held(t, s, sample, n).Valid(32766) && Climbing(t, Held(t, s, sample, n), sample, n)
  {
    if n > 0 {
      Climbs(t, s, sample, n - 1);
      ClimbMore(t, s, sample, n - 1, Held(t, s, sample, n - 1));
    } else {
      assert Held(t, s, sample, 0) == s;
    }
  }

  lemma ClimbMore(t: Steps, s: Predictor, sample: int, n: nat, p: Predictor)
    requires Graded(t) && 0 <= s.idx <= 88 && p == Held(t, s, sample, n)
    requires p.Valid(32766) && -32768 <= sample <= 32767 && Climbing(t, p, sample, n)
    ensures var r := Held(t, s, sample, n + 1); r.Valid(32766) && Climbing(t, r, sample, n + 1)
  {
    var r := ClimbStep(t, p, sample, n);
    HeldMore(t, s, sample, n);
  }

  lemma HeldMore(t: Steps, s: Predictor, sample: int, n: nat)
    requires 0 <= s.idx <= 88
    ensures Held(t, s, sample, n + 1) == Next(t, Held(t, s, sample, n), sample)
  {
  }

  lemma {:induction false} Calms(t: Steps, s: Predictor, sample: int, n: nat)
    requires Graded(t) && s.Valid(32766) && -32768 <= sample <= 32767 && n >= 13
    ensures var r := Held(t, s, sample, n);
      r.Valid(32766) && Calm(t, r, sample) && r.idx <= if n <= 101 then 101 - n else 0
  {
    var p := Held(t, s, sample, n - 1);
    Climbs(t, s, sample, n - 1);
    ReachCalms(t, p, sample);
    if n > 13 {
      Calms(t, s, sample, n - 1);
    }
  }

  /** Whatever the encoder did before, a constant sample is in reach after twelve samples, and after a
      hundred and two the encoder stays within two of it. */
  lemma Settles(t: Steps, s: Predictor, sample: int, n: nat)
    requires Graded(t) && s.Valid(32766) && -32768 <= sample <= 32767
    ensures n >= 12 ==> InReach(t, Held(t, s, sample, n), sample)
    ensures n >= 13 ==> Distance(Held(t, s, sample, n), sample) <= t[Held(t, s, sample, n - 1).idx] / 8 + 2
    ensures n >= 102 ==> Distance(Held(t, s, sample, n), sample) <= 2
  {
    Climbs(t, s, sample, n);
    if n >= 13 {
      Climbs(t, s, sample, n - 1);
      ReachCalms(t, Held(t, s, sample, n - 1), sample);
    }
    if n >= 102 {
      Calms(t, s, sample, n - 1);
    }
  }

  /** A decoder that starts beside the encoder stays within three of it. */
  lemma DecoderSettles(t: Steps, s: Predictor, d: Predictor, sample: int, n: nat)
    requires Graded(t) && Near(s, d) && -32768 <= sample <= 32767 && n >= 102
    ensures var cs := Codes(t, s, seq(n, _ => sample));
      -2 <= DecodeAll(t, d, cs).value - sample <= 3
  {
    var cs := Codes(t, s, seq(n, _ => sample));
    HeldIsEncoded(t, s, sample, n);
    Settles(t, s, sample, n);
    NearForever(t, s, d, cs);
  }
}
