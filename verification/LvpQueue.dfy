/** lvp/common/lvp_queue.c: a ring of fixed-size members in a buffer the caller provides.

    The cell type is left open: bytes in general, whole packs (member size 1) for the pack queues. */
module LvpQueues {
  import opened Division

  // ---------------------------------------------------------------- the ring as a sequence

  /** The stored cells, oldest first. */
  function CellsOf<T>(b: seq<T>, size: nat, head: nat, tail: nat): (s: seq<T>)
    requires head < size <= |b| && tail < size
    ensures |s| == if tail >= head then tail - head else size - head + tail
  {
    if tail >= head then b[head..tail] else b[head..size] + b[..tail]
  }

  /** A position n cells further on. */
  function Advance(size: nat, pos: nat, n: nat): (r: nat)
    requires pos < size && n <= size
    ensures r < size || (r == size && pos == 0 && n == size)
  {
    if size - pos > n then pos + n else n - (size - pos)
  }

  /** b after v has been written from pos on, around the end if need be. */
  function Write<T>(b: seq<T>, size: nat, pos: nat, v: seq<T>): (r: seq<T>)
    requires pos < size <= |b| && |v| < size
    ensures |r| == |b|
  {
    if size - pos > |v| then b[..pos] + v + b[pos + |v|..]
    else v[size - pos..] + b[|v| - (size - pos)..pos] + v[..size - pos] + b[size..]
  }

  /** The cell at ring index i from pos. */
  function RingIndex(size: nat, pos: nat, i: nat): nat
    requires pos < size && i < size
  {
    if pos + i < size then pos + i else pos + i - size
  }

  lemma CellAt<T>(b: seq<T>, size: nat, head: nat, tail: nat, i: nat)
    requires head < size <= |b| && tail < size && i < |CellsOf(b, size, head, tail)|
    ensures CellsOf(b, size, head, tail)[i] == b[RingIndex(size, head, i)]
  {
  }

  /** Writing fewer cells than are free appends them. */
  lemma WriteAppends<T>(b: seq<T>, size: nat, head: nat, tail: nat, v: seq<T>)
    requires head < size <= |b| && tail < size && |CellsOf(b, size, head, tail)| + |v| < size
    ensures Advance(size, tail, |v|) < size
    ensures CellsOf(Write(b, size, tail, v), size, head, Advance(size, tail, |v|)) == CellsOf(b, size, head, tail) + v
  {
    var w, tail' := Write(b, size, tail, v), Advance(size, tail, |v|);
    var n := |CellsOf(b, size, head, tail)|;
    assert |CellsOf(w, size, head, tail')| == n + |v|;
    forall i | 0 <= i < n + |v|
      ensures CellsOf(w, size, head, tail')[i] == (CellsOf(b, size, head, tail) + v)[i]
    {
      CellAt(w, size, head, tail', i);
      if i < n {
        CellAt(b, size, head, tail, i);
      }
    }
  }

  lemma Appended<T>(b: seq<T>, size: nat, head: nat, tail: nat, v: seq<T>, b': seq<T>, tail': nat)
    requires head < size <= |b| && tail < size && |CellsOf(b, size, head, tail)| + |v| < size
    requires b' == Write(b, size, tail, v) && tail' == Advance(size, tail, |v|)
    ensures tail' < size && CellsOf(b', size, head, tail') == CellsOf(b, size, head, tail) + v
  {
    WriteAppends(b, size, head, tail, v);
  }

  /** Moving the head drops the oldest cells. */
  lemma AdvanceDrops<T>(b: seq<T>, size: nat, head: nat, tail: nat, n: nat)
    requires head < size <= |b| && tail < size && n <= |CellsOf(b, size, head, tail)|
    ensures Advance(size, head, n) < size
    ensures CellsOf(b, size, Advance(size, head, n), tail) == CellsOf(b, size, head, tail)[n..]
  {
  }

  // ---------------------------------------------------------------- positions of members

  lemma TimesMonotone(a: nat, b: nat, m: nat)
    requires a < b
    ensures a * m + m <= b * m
    decreases b - a
  {
    assert a * m + m == (a + 1) * m;
    if a + 1 < b {
      TimesMonotone(a + 1, b, m);
    }
  }

  lemma SmallMod(x: nat, y: nat)
    requires x < y
    ensures x % y == x
  {
  }

  lemma WrapUp(pos: nat, size: nat, m: nat)
    requires pos < size && 0 < m && pos + m <= size
    ensures m <= size && (pos + m) % size == if pos + m == size then 0 else pos + m
    ensures (pos + m) % size == Advance(size, pos, m)
  {
    if pos + m == size {
      assert size % size == 0;
    } else {
      SmallMod(pos + m, size);
    }
  }

  /** All positions are multiples of the member size. */
  predicate Multiple(x: nat, m: nat)
    requires m > 0
  {
    x == 0 || (x >= m && Multiple(x - m, m))
  }

  /** whole is Multiple, kept abstract where its definition is not needed. */
  ghost predicate Tells(whole: nat -> bool, m: nat)
    requires m > 0
  {
    forall x: nat {:trigger Multiple(x, m)} :: whole(x) == Multiple(x, m)
  }

  lemma {:induction false} MultipleIsMod(x: nat, m: nat)
    requires m > 0
    ensures Multiple(x, m) <==> x % m == 0
  {
    if x >= m {
      MultipleIsMod(x - m, m);
      assert x - m == m * (x / m - 1) + x % m;
      DivModUnique(x - m, m, x / m - 1, x % m);
    } else if x > 0 {
      SmallMod(x, m);
    }
  }

  lemma {:induction false} MultipleGap(x: nat, y: nat, m: nat)
    requires m > 0 && Multiple(x, m) && Multiple(y, m) && x < y
    ensures x + m <= y
  {
    if x > 0 {
      MultipleGap(x - m, y - m, m);
    }
  }

  lemma {:induction false} MultipleSum(x: nat, y: nat, m: nat)
    requires m > 0 && Multiple(x, m) && Multiple(y, m)
    ensures Multiple(x + y, m) && (x >= y ==> Multiple(x - y, m))
    decreases y
  {
    if y > 0 {
      assert Multiple(x + m, m);
      MultipleSum(x + m, y - m, m);
      if x > 0 {
        MultipleSum(x - m, y - m, m);
      }
    }
  }

  lemma OneMore(count: nat, m: nat)
    requires count > 0
    ensures count * m == (count - 1) * m + m && (count - 1) * m >= 0
  {
  }

  lemma {:induction false} ProductMultiple(i: nat, m: nat)
    requires m > 0
    ensures Multiple(i * m, m)
  {
    if i > 0 {
      OneMore(i, m);
      ProductMultiple(i - 1, m);
    }
  }

  function MapSeq<W, T>(f: W -> T, s: seq<W>): (r: seq<T>)
    ensures |r| == |s| && forall i | 0 <= i < |s| :: r[i] == f(s[i])
  {
    seq(|s|, i requires 0 <= i < |s| => f(s[i]))
  }

  function Same<T>(x: T): T { x }

  /** A copy loop into the ring; low is what the assignment keeps of a value. */
  method CopyIn<W, T>(dst: array<T>, at: nat, src: seq<W>, low: W -> T)
    requires at + |src| <= dst.Length
    modifies dst
    ensures dst[..] == old(dst[..at]) + MapSeq(low, src) + old(dst[at + |src|..])
  {
    ghost var was := dst[..];
    var i := 0;
    while i < |src|
      invariant 0 <= i <= |src|
      invariant dst[..at] == was[..at] && dst[at + i..] == was[at + i..]
      invariant forall j | 0 <= j < i :: dst[at + j] == low(src[j])
    {
      ghost var now := dst[..];
      dst[at + i] := low(src[i]);
      assert dst[..] == now[at + i := low(src[i])];
      i := i + 1;
    }
    assert dst[..] == dst[..at] + dst[at..at + |src|] + dst[at + |src|..];
    assert dst[at..at + |src|] == MapSeq(low, src);
  }

  /** A copy loop out of the ring. */
  method CopyOut<T>(src: array<T>, from: nat, n: nat, dst: array<T>, at: nat)
    requires from + n <= src.Length && at + n <= dst.Length && src != dst
    modifies dst
    ensures dst[..] == old(dst[..at]) + src[from..from + n] + old(dst[at + n..])
  {
    ghost var was := dst[..];
    var i := 0;
    while i < n
      invariant 0 <= i <= n
      invariant dst[..at] == was[..at] && dst[at + i..] == was[at + i..]
      invariant dst[at..at + i] == src[from..from + i]
    {
      ghost var now := dst[..];
      dst[at + i] := src[from + i];
      assert dst[..] == now[at + i := src[from + i]];
      i := i + 1;
    }
    assert dst[..] == dst[..at] + dst[at..at + n] + dst[at + n..];
  }

  // ---------------------------------------------------------------- blocks as runs of members

  /** What LvpQueuePut does to the cells. */
  function PutOne<T>(cells: seq<T>, size: nat, v: seq<T>): seq<T> {
    if |cells| + |v| < size then cells + v else cells
  }

  /** count calls of LvpQueuePut, on members of m cells taken from v one after the other. */
  function PutRun<T>(cells: seq<T>, size: nat, m: nat, v: seq<T>, count: nat): seq<T>
    requires count * m <= |v|
  {
    if count == 0 then cells
    else
      TimesMonotone(count - 1, count, m);
      PutOne(PutRun(cells, size, m, v, count - 1), size, v[(count - 1) * m..count * m])
  }

  /** The run stores the whole block, in order, exactly when LvpQueuePutBuffer accepts it. */
  lemma {:induction false} PutRunIsBlock<T>(cells: seq<T>, size: nat, m: nat, v: seq<T>, count: nat)
    requires m > 0 && count * m <= |v| && |cells| < size
    ensures |PutRun(cells, size, m, v, count)| <= |cells| + count * m
    ensures PutRun(cells, size, m, v, count) == cells + v[..count * m] <==> |cells| + count * m < size
  {
    if count > 0 {
      TimesMonotone(count - 1, count, m);
      assert count * m == (count - 1) * m + m;
      PutRunIsBlock(cells, size, m, v, count - 1);
      var before := PutRun(cells, size, m, v, count - 1);
      assert v[..count * m] == v[..(count - 1) * m] + v[(count - 1) * m..count * m];
      if |before| + m < size && |before| < |cells| + (count - 1) * m {
        assert |PutRun(cells, size, m, v, count)| < |cells| + count * m;
      }
    } else {
      assert count * m == 0;
    }
  }

  /** The members a run of count calls of LvpQueueGet delivers, and what it leaves. */
  function GetRun<T>(cells: seq<T>, m: nat, count: nat): (seq<T>, seq<T>) {
    if count == 0 then ([], cells)
    else
      var (got, left) := GetRun(cells, m, count - 1);
      if |left| >= m then (got + left[..m], left[m..]) else (got, left)
  }

  lemma TakeMore<T>(cells: seq<T>, k: nat, m: nat)
    requires k + m <= |cells|
    ensures cells[..k] + cells[k..][..m] == cells[..k + m] && cells[k..][m..] == cells[k + m..]
  {
  }

  /** A run of gets that does not run dry delivers the block LvpQueueGetBuffer delivers. */
  lemma {:induction false} GetRunIsBlock<T>(cells: seq<T>, m: nat, count: nat)
    requires count * m <= |cells|
    ensures GetRun(cells, m, count) == (cells[..count * m], cells[count * m..])
  {
    if count > 0 {
      OneMore(count, m);
      GetRunIsBlock(cells, m, count - 1);
      TakeMore(cells, (count - 1) * m, m);
    } else {
      assert count * m == 0;
    }
  }

  /** Writing the part up to the end and then the rest from the start is one ring write. */
  lemma WriteInTwo<T>(b: seq<T>, size: nat, pos: nat, v: seq<T>)
    requires pos < size <= |b| && size - pos <= |v| < size
    ensures var front := size - pos;
      var b1 := b[..pos] + v[..front] + b[size..];
      |b1| == |b| && v[front..] + b1[|v| - front..] == Write(b, size, pos, v)
  {
    var front := size - pos;
    var b1 := b[..pos] + v[..front] + b[size..];
    assert b1[|v| - front..] == b[|v| - front..pos] + v[..front] + b[size..];
  }

  /** The oldest n cells, where they lie. */
  lemma FrontCells<T>(b: seq<T>, size: nat, head: nat, tail: nat, n: nat)
    requires head < size <= |b| && tail < size && n <= |CellsOf(b, size, head, tail)|
    ensures CellsOf(b, size, head, tail)[..n] ==
            if size - head > n then b[head..head + n] else b[head..size] + b[..n - (size - head)]
  {
  }

  /** The two copies of a block that goes around the end. */
  lemma CopiedAround<W, T>(b: seq<T>, size: nat, pos: nat, words: seq<W>, low: W -> T, b1: seq<T>, b2: seq<T>)
    requires pos < size <= |b| && size - pos <= |words| < size
    requires b1 == b[..pos] + MapSeq(low, words[..size - pos]) + b[size..]
    requires b2 == b1[..0] + MapSeq(low, words[size - pos..]) + b1[|words| - (size - pos)..]
    ensures b2 == Write(b, size, pos, MapSeq(low, words))
  {
    var front, v := size - pos, MapSeq(low, words);
    assert MapSeq(low, words[..front]) == v[..front] && MapSeq(low, words[front..]) == v[front..];
    assert b1[..0] == [];
    WriteInTwo(b, size, pos, v);
  }

  /** The two copies of a block read around the end. */
  lemma CopiedOut<T>(b: seq<T>, size: nat, head: nat, tail: nat, n: nat, v: seq<T>, v1: seq<T>, v2: seq<T>)
    requires head < size <= |b| && tail < size && n <= |CellsOf(b, size, head, tail)| && n <= |v|
    requires size - head <= n
    requires v1 == v[..0] + b[head..size] + v[size - head..]
    requires v2 == v1[..size - head] + b[0..n - (size - head)] + v1[n..]
    ensures v2 == CellsOf(b, size, head, tail)[..n] + v[n..]
  {
    FrontCells(b, size, head, tail, n);
    assert v1[..size - head] == b[head..size] && v1[n..] == v[n..];
  }

  class LvpQueue<T(0)> {
    const buffer: array<T>
    const size: nat
    const memberSize: nat
    var tail: nat
    var head: nat
    /** Whether a position is a multiple of the member size. */
    ghost const whole: nat -> bool

    ghost predicate Valid()
      reads this
    {
      && 0 < memberSize && head < size <= buffer.Length && tail < size
      && Tells(whole, memberSize) && whole(size) && whole(head) && whole(tail)
    }

    /** The stored cells, oldest first. */
    ghost function Cells(): seq<T>
      requires Valid()
      reads this, buffer
    {
      CellsOf(buffer[..], size, head, tail)
    }

    /** LvpQueueInit; a size that holds no member is a caller error (the code would divide by zero). */
    constructor (buffer: array<T>, size: nat, memberSize: nat)
      requires 0 < memberSize <= size <= buffer.Length
      ensures Valid() && Cells() == []
      ensures this.buffer == buffer && this.memberSize == memberSize && this.size == size - size % memberSize
    {
      this.buffer := buffer;
      this.size := size - size % memberSize;
      this.memberSize := memberSize;
      this.whole := (x: nat) => Multiple(x, memberSize);
      this.tail, this.head := 0, 0;
      new;
      assert size - size % memberSize == size / memberSize * memberSize;
      ProductMultiple(size / memberSize, memberSize);
      AtLeastOnce(memberSize, size / memberSize);
    }

    /** Whole members are stored, and at least one more always fits or none does. */
    lemma WholeMembers()
      requires Valid()
      ensures tail + memberSize <= size && head + memberSize <= size
      ensures whole(|Cells()|) && |Cells()| + memberSize <= size
      ensures |Cells()| > 0 ==> |Cells()| >= memberSize
    {
      assert Multiple(tail, memberSize) && Multiple(head, memberSize) && Multiple(size, memberSize);
      MultipleGap(tail, size, memberSize);
      MultipleGap(head, size, memberSize);
      MultipleSum(tail, head, memberSize);
      MultipleSum(size, head, memberSize);
      MultipleSum(size - head, tail, memberSize);
      MultipleGap(|Cells()|, size, memberSize);
      if |Cells()| > 0 {
        MultipleGap(0, |Cells()|, memberSize);
      }
    }

    /** LvpQueueIsEmpty */
    function IsEmpty(): (r: bool)
      requires Valid()
      reads this, buffer
      ensures r <==> Cells() == []
    {
      head == tail
    }

    /** LvpQueueIsFull: one member always stays free. */
    function IsFull(): (r: bool)
      requires Valid()
      reads this, buffer
      ensures r <==> |Cells()| + memberSize == size
    {
      WholeMembers();
      WrapUp(tail, size, memberSize);
      (tail + memberSize) % size == head
    }

    /** LvpQueueGetDataSize */
    function GetDataSize(): (r: int)
      requires Valid()
      reads this, buffer
      ensures r == |Cells()|
    {
      if tail >= head then tail - head else size - head + tail
    }

    /** LvpQueueGetDataNum */
    function GetDataNum(): (r: int)
      requires Valid()
      reads this, buffer
      ensures r * memberSize == |Cells()|
    {
      WholeMembers();
      assert Multiple(|Cells()|, memberSize);
      MultipleIsMod(|Cells()|, memberSize);
      (if tail >= head then tail - head else size - head + tail) / memberSize
    }

    /** LvpQueueGetFreeSize: in cells, one of them never usable. */
    function GetFreeSize(): (r: int)
      requires Valid()
      reads this, buffer
      ensures r == size - |Cells()| - 1
    {
      if head > tail then head - tail - 1 else size - tail + head - 1
    }

    lemma NextPosition(pos: nat)
      requires Valid() && pos < size && whole(pos) && pos + memberSize <= size
      ensures (pos + memberSize) % size < size && whole((pos + memberSize) % size)
      ensures (pos + memberSize) % size == Advance(size, pos, memberSize)
    {
      WrapUp(pos, size, memberSize);
      assert Multiple(pos, memberSize);
      MultipleSum(pos, memberSize, memberSize);
      assert Multiple((pos + memberSize) % size, memberSize);
    }

    /** The copying of LvpQueuePut and LvpQueuePutBuffer, from the tail on. */
    method WriteWords<W>(words: seq<W>, low: W -> T)
      requires Valid() && |words| < size
      modifies buffer
      ensures buffer[..] == Write(old(buffer[..]), size, tail, MapSeq(low, words))
    {
      if size - tail > |words| {
        CopyIn(buffer, tail, words, low);
      } else {
        WriteAround(words, low);
      }
    }

    /** The two copy loops of a block that goes around the end. */
    method WriteAround<W>(words: seq<W>, low: W -> T)
      requires Valid() && size - tail <= |words| < size
      modifies buffer
      ensures buffer[..] == Write(old(buffer[..]), size, tail, MapSeq(low, words))
    {
      ghost var was := buffer[..];
      var front := size - tail;
      CopyIn(buffer, tail, words[..front], low);
      ghost var between := buffer[..];
      CopyIn(buffer, 0, words[front..], low);
      CopiedAround(was, size, tail, words, low, between, buffer[..]);
    }

    /** LvpQueuePut: appends one member unless the queue is full. */
    method Put(value: seq<T>) returns (ok: bool)
      requires Valid() && |value| >= memberSize
      modifies this`tail, buffer
      ensures Valid()
      ensures ok == (old(|Cells()|) + memberSize < size)
      ensures Cells() == if ok then old(Cells()) + value[..memberSize] else old(Cells())
    {
      WholeMembers();
      if IsFull() {
        return false;
      }
      NextPosition(tail);
      WriteWords(value[..memberSize], Same);
      tail := (tail + memberSize) % size;
      Appended(old(buffer[..]), size, head, old(tail), value[..memberSize], buffer[..], tail);
      ok := true;
    }

    /** Its copying: a member never goes around the end. */
    method CopyMember(value: array<T>)
      requires Valid() && Cells() != [] && value.Length >= memberSize && value != buffer
      modifies value
      ensures |Cells()| >= memberSize && value[..] == Cells()[..memberSize] + old(value[memberSize..])
    {
      WholeMembers();
      CopyOut(buffer, head, memberSize, value, 0);
    }

    /** LvpQueueGet: removes the oldest member, if there is one. */
    method Get(value: array<T>) returns (ok: bool)
      requires Valid() && value.Length >= memberSize && value != buffer
      modifies this`head, value
      ensures Valid()
      ensures ok == (old(Cells()) != [])
      ensures ok ==> |old(Cells())| >= memberSize && Cells() == old(Cells())[memberSize..]
      ensures ok ==> value[..] == old(Cells())[..memberSize] + old(value[memberSize..])
      ensures !ok ==> Cells() == old(Cells()) && value[..] == old(value[..])
    {
      WholeMembers();
      if IsEmpty() {
        return false;
      }
      CopyMember(value);
      AdvanceDrops(buffer[..], size, head, tail, memberSize);
      NextPosition(head);
      head := (head + memberSize) % size;
      ok := true;
    }

    lemma BlockPosition(pos: nat, count: nat)
      requires Valid() && pos < size && whole(pos) && count * memberSize < size
      ensures var p := Advance(size, pos, count * memberSize); p < size && whole(p)
    {
      assert Multiple(pos, memberSize) && Multiple(size, memberSize);
      var n := count * memberSize;
      ProductMultiple(count, memberSize);
      MultipleSum(pos, n, memberSize);
      MultipleSum(size, pos, memberSize);
      MultipleSum(n, size - pos, memberSize);
      assert Multiple(Advance(size, pos, n), memberSize);
    }

    /** LvpQueuePutBuffer: count members at once, all or nothing; low is the byte kept of a word. */
    method PutBuffer<W>(words: seq<W>, low: W -> T, count: nat) returns (done: int)
      requires Valid() && |words| >= count * memberSize
      modifies this`tail, buffer
      ensures Valid()
      ensures done == if old(|Cells()|) + count * memberSize < size then count * memberSize else 0
      ensures Cells() == if old(|Cells()|) + count * memberSize < size
                         then old(Cells()) + MapSeq(low, words[..count * memberSize]) else old(Cells())
    {
      var n := count * memberSize;
      if GetFreeSize() < n {
        return 0;
      }
      BlockPosition(tail, count);
      WriteAppends(buffer[..], size, head, tail, MapSeq(low, words[..n]));
      WriteWords(words[..n], low);
      var front := size - tail;
      tail := if front > n then tail + n else n - front;
      done := n;
    }

    /** The copying of LvpQueueGetBuffer and LvpQueuePeekBuffer: the oldest n cells. */
    method CopyFront(value: array<T>, n: nat)
      requires Valid() && n <= |Cells()| && value.Length >= n && value != buffer
      modifies value
      ensures value[..] == Cells()[..n] + old(value[n..])
    {
      var front := size - head;
      if front > n {
        FrontCells(buffer[..], size, head, tail, n);
        CopyOut(buffer, head, n, value, 0);
      } else {
        CopyAround(value, n);
      }
    }

    /** The two copy loops of a block that goes around the end. */
    method CopyAround(value: array<T>, n: nat)
      requires Valid() && size - head <= n <= |Cells()| && value.Length >= n && value != buffer
      modifies value
      ensures value[..] == Cells()[..n] + old(value[n..])
    {
      var front := size - head;
      ghost var was := value[..];
      CopyOut(buffer, head, front, value, 0);
      ghost var between := value[..];
      CopyOut(buffer, 0, n - front, value, front);
      CopiedOut(buffer[..], size, head, tail, n, was, between, value[..]);
    }

    /** LvpQueueGetBuffer: count members at once, all or nothing. */
    method GetBuffer(value: array<T>, count: nat) returns (done: int)
      requires Valid() && value.Length >= count * memberSize && value != buffer
      modifies this`head, value
      ensures Valid()
      ensures done == if old(|Cells()|) >= count * memberSize then count * memberSize else 0
      ensures if old(|Cells()|) >= count * memberSize
              then Cells() == old(Cells())[count * memberSize..]
                && value[..] == old(Cells())[..count * memberSize] + old(value[count * memberSize..])
              else Cells() == old(Cells()) && value[..] == old(value[..])
    {
      var n := count * memberSize;
      if GetDataSize() < n {
        return 0;
      }
      CopyFront(value, n);
      AdvanceDrops(buffer[..], size, head, tail, n);
      BlockPosition(head, count);
      var front := size - head;
      head := if front > n then head + n else n - front;
      done := n;
    }

    /** LvpQueuePeekBuffer: the oldest cells, left in place. */
    method PeekBuffer(value: array<T>, n: nat) returns (done: int)
      requires Valid() && value.Length >= n && value != buffer
      modifies value
      ensures done == if |Cells()| >= n then n else 0
      ensures value[..] == if |Cells()| >= n then Cells()[..n] + old(value[n..]) else old(value[..])
    {
      if GetDataSize() < n {
        return 0;
      }
      CopyFront(value, n);
      done := n;
    }
  }
}
