/** lvp/common/lvp_standby_ratio.c: the last seconds of system status in a ring, and the share of
    standby among them. */
module StandbyRatio {
  import opened Division

  const TWO32: nat := 0x1_0000_0000

  /** A 32-bit unsigned number. */
  function Wrap(x: int): (w: nat)
    ensures w < TWO32 && (0 <= x < TWO32 ==> w == x)
  {
    x % TWO32
  }

  function Repeat<T>(x: T, n: nat): (s: seq<T>)
    ensures |s| == n && forall i | 0 <= i < n :: s[i] == x
  {
    seq(n, i => x)
  }

  function Last<T>(s: seq<T>, n: nat): seq<T>
    requires n <= |s|
  {
    s[|s| - n..]
  }

  /** Seconds of standby (status 0) in a timeline. */
  function Standby(s: seq<nat>): (n: nat)
    ensures n <= |s|
  {
    if s == [] then 0 else Standby(s[..|s| - 1]) + if s[|s| - 1] == 0 then 1 else 0
  }

  lemma {:induction false} StandbyConcat(a: seq<nat>, b: seq<nat>)
    ensures Standby(a + b) == Standby(a) + Standby(b)
    decreases |b|
  {
    if b == [] {
      assert a + b == a;
    } else {
      assert (a + b)[..|a + b| - 1] == a + b[..|b| - 1];
      StandbyConcat(a, b[..|b| - 1]);
    }
  }

  lemma {:induction false} StandbyRepeat(status: nat, n: nat)
    ensures Standby(Repeat(status, n)) == if status == 0 then n else 0
  {
    if n > 0 {
      assert Repeat(status, n)[..n - 1] == Repeat(status, n - 1);
      StandbyRepeat(status, n - 1);
    }
  }

  /** A ring read from its index on. */
  function Unrolled<T>(ring: seq<T>, index: nat): seq<T>
    requires index <= |ring|
  {
    ring[index..] + ring[..index]
  }

  /** Overwriting d places from the index on and moving the index is appending to the timeline. */
  lemma WindowMoves<T>(ring: seq<T>, index: nat, x: T, d: nat, ring': seq<T>, index': nat)
    requires index < |ring| == |ring'| && d < |ring|
    requires index' == if index + d < |ring| then index + d else index + d - |ring|
    requires ring' == if index + d < |ring| then ring[..index] + Repeat(x, d) + ring[index + d..]
                      else Repeat(x, index + d - |ring|) + ring[index + d - |ring|..index] + Repeat(x, |ring| - index)
    ensures Unrolled(ring', index') == Last(Unrolled(ring, index) + Repeat(x, d), |ring|)
  {
  }

  /** r is the share of n seconds in a window, in thousandths, rounded down. */
  predicate InThousandths(r: int, n: nat, window: nat) {
    0 <= r <= 1000 && window * r <= 1000 * n < window * (r + 1)
  }

  /** The totals of a timeline, and of one that is a period longer. */
  lemma AroundEnd<T>(was: seq<T>, index: nat, end: seq<T>, remain: nat)
    requires remain <= index <= |was|
    ensures (was[..index] + end)[remain..] == was[remain..index] + end
  {
  }

  lemma TotalsMove(seconds: seq<nat>, x: nat, d: nat)
    ensures var more := seconds + Repeat(x, d);
      && Wrap(Standby(more)) == (if x == 0 then Wrap(Wrap(Standby(seconds)) + d) else Wrap(Standby(seconds)))
      && Wrap(|more| - Standby(more))
         == (if x == 0 then Wrap(|seconds| - Standby(seconds)) else Wrap(Wrap(|seconds| - Standby(seconds)) + d))
  {
    StandbyConcat(seconds, Repeat(x, d));
    StandbyRepeat(x, d);
    AddMod(Standby(seconds), d);
    AddMod(|seconds| - Standby(seconds), d);
  }

  lemma WindowGrows<T>(before: seq<T>, s: seq<T>, period: seq<T>, n: nat)
    requires n <= |before|
    ensures Last(Last(before + s, n) + period, n) == Last(before + (s + period), n)
  {
    assert (before + s) + period == before + (s + period);
  }

  class Ratio {
    /** CONFIG_CACULATE_STANDBY_RATIO_WINDOW_LENGTH, in seconds */
    const window: nat
    const status: array<nat>
    var index: nat
    var startTime: nat
    var runningTime: nat
    var standbyTime: nat
    /** The status of every second recorded so far. */
    ghost var seconds: seq<nat>

    ghost predicate Valid()
      reads this, status
    {
      startTime < TWO32 && Kept()
    }

    /** The ring holds the last window of the timeline, which starts in standby; the totals count
        its seconds, in 32 bits. */
    ghost predicate Kept()
      reads `index, `runningTime, `standbyTime, `seconds, status
    {
      && 0 < window == status.Length && index < window
      && Unrolled(status[..], index) == Last(Repeat(0, window) + seconds, window)
      && standbyTime == Wrap(Standby(seconds)) && runningTime == Wrap(|seconds| - Standby(seconds))
    }

    /** LvpStandbyRatioInit after a cold start */
    constructor (window: nat)
      requires window > 0
      ensures Valid() && this.window == window && seconds == [] && fresh(status)
    {
      this.window := window;
      status := new nat[window](i => 0);
      index, startTime, runningTime, standbyTime, seconds := 0, 0, 0, 0, [];
      new;
      assert Repeat(0, window) + [] == status[..];
    }

    /** The loops of _RecordSystemStatus. */
    method Fill(from: nat, to: nat, x: nat)
      requires from <= to <= status.Length
      modifies status
      ensures status[..] == old(status[..from]) + Repeat(x, to - from) + old(status[to..])
    {
      ghost var was := status[..];
      var i := from;
      while i < to
        invariant from <= i <= to
        invariant status[..] == was[..from] + Repeat(x, i - from) + was[i..]
      {
        status[i] := x;
        i := i + 1;
      }
    }

    /** The branches of _RecordSystemStatus on the length of the period. */
    method Write(duration: nat, x: nat)
      requires 0 < window == status.Length && index < window
      modifies `index, status
      ensures index < window
      ensures Unrolled(status[..], index) == Last(Unrolled(old(status[..]), old(index)) + Repeat(x, duration), window)
    {
      ghost var was := status[..];
      if duration >= window {
        Fill(0, window, x);
        index := 0;
      } else {
        WriteShort(duration, x);
      }
    }

    method WriteShort(duration: nat, x: nat)
      requires 0 < window == status.Length && index < window && duration < window
      modifies `index, status
      ensures index < window
      ensures Unrolled(status[..], index) == Last(Unrolled(old(status[..]), old(index)) + Repeat(x, duration), window)
    {
      ghost var was := status[..];
      WriteRing(duration, x);
      Wrapped(index + duration, window);
      index := (index + duration) % window;
      WindowMoves(was, old(index), x, duration, status[..], index);
    }

    /** One loop, or two around the end. */
    method WriteRing(duration: nat, x: nat)
      requires 0 < window == status.Length && index < window && duration < window
      modifies status
      ensures status[..] == if index + duration < window
        then old(status[..index]) + Repeat(x, duration) + old(status[index + duration..])
        else Repeat(x, index + duration - window) + old(status[index + duration - window..index])
             + Repeat(x, window - index)
    {
      if index + duration < window {
        Fill(index, index + duration, x);
      } else {
        ghost var was := status[..];
        var remain := index + duration - window;
        Fill(index, window, x);
        ghost var mid := status[..];
        assert mid == was[..index] + Repeat(x, window - index);
        Fill(0, remain, x);
        AroundEnd(was, index, Repeat(x, window - index), remain);
      }
    }

    /** The totals, with a period of duration seconds added. */
    method AddTime(duration: nat, x: nat)
      requires standbyTime == Wrap(Standby(seconds)) && runningTime == Wrap(|seconds| - Standby(seconds))
      modifies `runningTime, `standbyTime
      ensures var more := seconds + Repeat(x, duration);
        standbyTime == Wrap(Standby(more)) && runningTime == Wrap(|more| - Standby(more))
    {
      TotalsMove(seconds, x, duration);
      if x != 0 {
        runningTime := Wrap(runningTime + duration);
      } else {
        standbyTime := Wrap(standbyTime + duration);
      }
    }

    /** The period goes into the ring and the timeline. */
    method AddPeriod(duration: nat, x: nat)
      requires 0 < window == status.Length && index < window
      requires Unrolled(status[..], index) == Last(Repeat(0, window) + seconds, window)
      modifies `index, `seconds, status
      ensures index < window && seconds == old(seconds) + Repeat(x, duration)
      ensures Unrolled(status[..], index) == Last(Repeat(0, window) + seconds, window)
    {
      WindowGrows(Repeat(0, window), seconds, Repeat(x, duration), window);
      Write(duration, x);
      seconds := seconds + Repeat(x, duration);
    }

    /** _RecordSystemStatus: the period from start to end, on a 32-bit clock, was all x. */
    method Record(start: nat, end: nat, x: nat)
      requires Valid() && start < TWO32 && end < TWO32
      modifies `index, `runningTime, `standbyTime, `seconds, status
      ensures Valid() && seconds == old(seconds) + Repeat(x, Wrap(end - start))
    {
      var duration := Wrap(end - start);
      AddTime(duration, x);
      AddPeriod(duration, x);
    }

    /** LvpStandbyRatioSuspend at time now; what ran since the last record is not counted. */
    method Suspend(now: nat)
      requires Valid() && now < TWO32
      modifies `startTime
      ensures Valid() && startTime == now
    {
      startTime := now;
    }

    /** Record the time since the last look at the clock. */
    method RecordUntil(now: nat, x: nat)
      requires Valid() && now < TWO32
      modifies `index, `runningTime, `standbyTime, `seconds, `startTime, status
      ensures Valid() && startTime == now
      ensures seconds == old(seconds) + Repeat(x, Wrap(now - old(startTime)))
    {
      Record(startTime, now, x);
      startTime := now;
    }

    /** LvpStandbyRatioResume */
    method Resume(now: nat)
      requires Valid() && now < TWO32
      modifies `index, `runningTime, `standbyTime, `seconds, `startTime, status
      ensures Valid() && startTime == now
      ensures seconds == old(seconds) + Repeat(0, Wrap(now - old(startTime)))
    {
      RecordUntil(now, 0);
    }

    /** LvpCountRealTimeStandbyRatio: in thousandths, over the last window of seconds. */
    method CountRealTime(now: nat) returns (ratio: nat)
      requires Valid() && now < TWO32
      modifies `index, `runningTime, `standbyTime, `seconds, `startTime, status
      ensures Valid() && startTime == now
      ensures seconds == old(seconds) + Repeat(1, Wrap(now - old(startTime)))
      ensures InThousandths(ratio, Standby(Last(Repeat(0, window) + seconds, window)), window)
    {
      RecordUntil(now, 1);
      var count := CountStandby();
      ratio := Divide(count);
    }

    method Divide(count: nat) returns (ratio: nat)
      requires count <= window && window > 0
      ensures InThousandths(ratio, count, window)
    {
      AtMostAll(count, window);
      ratio := count * 1000 / window;
    }

    /** The counting loop; the order of the ring does not matter to it. */
    method CountStandby() returns (count: nat)
      requires Kept()
      ensures count == Standby(Last(Repeat(0, window) + seconds, window)) <= window
    {
      count := 0;
      var i := 0;
      while i < window
        invariant 0 <= i <= window && count == Standby(status[..i])
      {
        assert status[..i + 1][..i] == status[..i];
        if status[i] == 0 {
          count := count + 1;
        }
        i := i + 1;
      }
      StandbyConcat(status[..index], status[index..]);
      StandbyConcat(status[index..], status[..index]);
      assert status[..i] == status[..index] + status[index..];
    }
  }

  lemma LastRepeats(a: seq<nat>, b: seq<nat>, x: nat, d: nat, n: nat)
    requires n <= d
    ensures Last(a + (b + Repeat(x, d)), n) == Repeat(x, n)
  {
  }

  /** A device that was suspended for a whole window and resumed just now reports 1000. */
  method AfterStandby(r: Ratio, now: nat) returns (ratio: nat)
    requires r.Valid() && now < TWO32 && r.window <= Wrap(now - r.startTime)
    modifies r, r.status
    ensures ratio == 1000
  {
    ghost var d := Wrap(now - r.startTime);
    LastRepeats(Repeat(0, r.window), r.seconds, 0, d, r.window);
    r.Resume(now);
    ghost var was := r.seconds;
    ratio := r.CountRealTime(now);
    assert r.seconds == was;
    StandbyRepeat(0, r.window);
    AllAndNone(r.window, ratio);
  }

  /** One that has not been suspended for a whole window reports 0. */
  method AfterRunning(r: Ratio, now: nat) returns (ratio: nat)
    requires r.Valid() && now < TWO32 && r.window <= Wrap(now - r.startTime)
    modifies r, r.status
    ensures ratio == 0
  {
    ghost var d := Wrap(now - r.startTime);
    LastRepeats(Repeat(0, r.window), r.seconds, 1, d, r.window);
    ratio := r.CountRealTime(now);
    StandbyRepeat(1, r.window);
    AllAndNone(r.window, ratio);
  }

  lemma AllAndNone(window: nat, ratio: nat)
    requires window > 0
    ensures InThousandths(ratio, window, window) ==> ratio == 1000
    ensures InThousandths(ratio, 0, window) ==> ratio == 0
  {
    if ratio < 1000 {
      assert window * 1000 == window * (ratio + 1) + window * (999 - ratio);
    }
    if ratio > 0 {
      AtLeastOnce(window, ratio);
    }
  }

  lemma Wrapped(x: nat, window: nat)
    requires x < 2 * window
    ensures x % window == if x < window then x else x - window
  {
    DivModUnique(x, window, if x < window then 0 else 1, if x < window then x else x - window);
  }

  lemma AddMod(a: nat, b: nat)
    ensures Wrap(Wrap(a) + b) == Wrap(a + b)
  {
  }

  lemma AtMostAll(count: nat, window: nat)
    requires count <= window && window > 0
    ensures InThousandths(count * 1000 / window, count, window)
  {
    var q, r := count * 1000 / window, count * 1000 % window;
    assert window * q + r == count * 1000;
    Thousandths(count, window, q, r);
  }

  lemma Thousandths(n: nat, window: nat, q: nat, r: nat)
    requires n <= window && r < window && window * q + r == n * 1000
    ensures InThousandths(q, n, window)
  {
    assert window * (q + 1) == window * q + window;
    if q > 1000 {
      TimesMore(window, q);
    }
  }

  lemma TimesMore(window: nat, q: nat)
    requires q > 1000
    ensures window * q >= window * 1000 + window
  {
    assert window * q == window * 1000 + window * (q - 1000);
    AtLeastOnce(window, q - 1000);
  }
}
