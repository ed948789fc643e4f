/** The context indices of lvp/common/lvp_audio_in.c: the audio interrupt reports contexts, the
    consumer follows, and a full buffer holds the interrupt back. */
module AudioIn {
  import opened Division

  /** What a run is made of: an interrupt with the hardware at a context of its buffer, the consumer
      done with some contexts, the end of a standby. */
  datatype Event = Interrupt(hardware: nat) | Consume(offset: nat) | Startup

  function Range(from: nat, to: nat): (s: seq<nat>)
    requires from <= to
    ensures |s| == to - from && forall i | 0 <= i < |s| :: s[i] == from + i
  {
    seq(to - from, i => from + i)
  }

  /** How many contexts the writer is behind the hardware. */
  function Distance(write: nat, hardware: nat, ctxNumber: nat): (d: nat)
    requires ctxNumber > 0
    ensures d < ctxNumber
  {
    (hardware - write) % ctxNumber
  }

  /** The test of the loop, and what one round does to the distance. */
  lemma DistanceStep(write: nat, hardware: nat, ctxNumber: nat)
    requires hardware < ctxNumber
    ensures write % ctxNumber == hardware <==> Distance(write, hardware, ctxNumber) == 0
    ensures write % ctxNumber != hardware
        ==> Distance(write + 1, hardware, ctxNumber) == Distance(write, hardware, ctxNumber) - 1
  {
    var d := Distance(write, hardware, ctxNumber);
    var q := (hardware - write) / ctxNumber;
    assert hardware - write == ctxNumber * q + d;
    if d == 0 {
      assert write == ctxNumber * -q + hardware;
      DivModUnique(write, ctxNumber, -q, hardware);
    } else {
      DivModUnique(hardware - (write + 1), ctxNumber, q, d - 1);
      if write % ctxNumber == hardware {
        DivModUnique(hardware - write, ctxNumber, -(write / ctxNumber), 0);
      }
    }
  }

  class Capture {
    /** LvpGetContextNum, LvpGetContextGap, and the contexts in the hardware's buffer. */
    const contextNum: nat
    const gap: nat
    const ctxNumber: nat
    var readIndex: nat
    var writeIndex: nat
    var startIndex: nat
    var standbyStartup: bool
    /** The first index since the last startup, and the indices reported since then. */
    ghost var first: nat
    ghost var reports: seq<nat>

    /** The reader is never ahead; contexts are reported once each, in order; and after the first
        round through the contexts the writer stays clear of the reader. */
    ghost predicate Valid()
      reads this
    {
      && ctxNumber > 0 && gap <= contextNum
      && readIndex <= writeIndex && first <= writeIndex && reports == Range(first, writeIndex)
      && Clear(writeIndex)
    }

    /** A writer at index write is in its first round or clear of the reader. */
    predicate Clear(write: int)
      reads `readIndex
    {
      write <= contextNum + 1 || write - readIndex <= contextNum - gap
    }

    /** LvpAudioInInit */
    constructor (contextNum: nat, gap: nat, ctxNumber: nat)
      requires ctxNumber > 0 && gap <= contextNum
      ensures Valid() && readIndex == writeIndex == 0 && !standbyStartup && reports == []
      ensures this.contextNum == contextNum && this.gap == gap && this.ctxNumber == ctxNumber
    {
      this.contextNum, this.gap, this.ctxNumber := contextNum, gap, ctxNumber;
      readIndex, writeIndex, startIndex, standbyStartup := 0, 0, 0, false;
      first, reports := 0, [];
    }

    /** LvpAudioInStandbyToStartup */
    method StandbyToStartup()
      requires Valid()
      modifies `standbyStartup
      ensures Valid() && standbyStartup
    {
      standbyStartup := true;
    }

    /** LvpAudioInUpdateReadIndex: the consumer may not pass the writer.  The sum is unsigned, so one
        below zero is above every index.  Going back is allowed; it keeps the protocol exactly if the
        writer was not too far ahead for it. */
    method UpdateReadIndex(offset: int) returns (ret: int)
      requires Valid()
      modifies `readIndex
      ensures ret == if 0 <= old(readIndex) + offset <= writeIndex then 0 else -1
      ensures readIndex == if ret == 0 then old(readIndex) + offset else old(readIndex)
      ensures Valid() <==> ret == -1 || Clear(writeIndex)
      ensures offset >= 0 ==> Valid()
    {
      if readIndex + offset < 0 || readIndex + offset > writeIndex {
        return -1;
      }
      readIndex := readIndex + offset;
      ret := 0;
    }

    /** The branch for the first interrupt after a standby. */
    method Restart(hardware: nat)
      requires Valid()
      modifies this
      ensures Valid() && !standbyStartup && reports == []
      ensures readIndex == writeIndex == first == hardware + 2 && startIndex == hardware
    {
      standbyStartup := false;
      writeIndex := hardware + 2;
      readIndex := hardware + 2;
      startIndex := hardware;
      first, reports := hardware + 2, [];
    }

    /** _LvpAudioInRecordDefaultCallback, with the hardware at one of its contexts: contexts are
        reported up to the hardware position, or until one more would come too near the reader, and
        fewer of them than the hardware's buffer holds. */
    method RecordCallback(hardware: nat)
      requires Valid() && hardware < ctxNumber
      modifies this
      ensures Valid() && !standbyStartup
      ensures writeIndex % ctxNumber == hardware || !Clear(writeIndex + 1)
      ensures old(standbyStartup) ==> first == hardware + 2 && readIndex == first && startIndex == hardware
      ensures !old(standbyStartup) ==>
        first == old(first) && readIndex == old(readIndex) && startIndex == old(startIndex) && old(reports) <= reports
      ensures var from := if old(standbyStartup) then hardware + 2 else old(writeIndex);
        && from <= writeIndex
        && writeIndex - from <= Distance(from, hardware, ctxNumber)
        && (writeIndex - from == Distance(from, hardware, ctxNumber) <==> writeIndex % ctxNumber == hardware)
    {
      if standbyStartup {
        Restart(hardware);
      }
      CatchUp(hardware);
    }

    /** The loop: reports up to the hardware position, or until the reader is too far behind. */
    method CatchUp(hardware: nat)
      requires Valid() && hardware < ctxNumber
      modifies `writeIndex, `reports
      ensures Valid() && old(reports) <= reports
      ensures writeIndex % ctxNumber == hardware || !Clear(writeIndex + 1)
      ensures var d := Distance(old(writeIndex), hardware, ctxNumber);
        old(writeIndex) <= writeIndex <= old(writeIndex) + d
        && (writeIndex == old(writeIndex) + d <==> writeIndex % ctxNumber == hardware)
    {
      ghost var from := writeIndex;
      DistanceStep(writeIndex, hardware, ctxNumber);
      while writeIndex % ctxNumber != hardware
        invariant Valid() && from <= writeIndex && old(reports) <= reports
        invariant writeIndex - from + Distance(writeIndex, hardware, ctxNumber) == Distance(from, hardware, ctxNumber)
        invariant writeIndex % ctxNumber == hardware <==> Distance(writeIndex, hardware, ctxNumber) == 0
        decreases Distance(writeIndex, hardware, ctxNumber)
      {
        if writeIndex > contextNum && writeIndex - readIndex >= contextNum - gap {
          break;
        }
        DistanceStep(writeIndex, hardware, ctxNumber);
        DistanceStep(writeIndex + 1, hardware, ctxNumber);
        reports := reports + [writeIndex];
        writeIndex := writeIndex + 1;
      }
    }
  }

  /** Any interleaving of interrupts, consumer steps and standbys keeps the protocol. */
  method Run(c: Capture, events: seq<Event>)
    requires c.Valid()
    requires forall i | 0 <= i < |events| :: events[i].Interrupt? ==> events[i].hardware < c.ctxNumber
    modifies c
    ensures c.Valid()
  {
    for i := 0 to |events|
      invariant c.Valid()
    {
      match events[i]
      case Interrupt(hardware) => c.RecordCallback(hardware);
      case Consume(offset) =>
        var _ := c.UpdateReadIndex(offset);
      case Startup => c.StandbyToStartup();
    }
  }
}
