/** The code of base/src/crc32.c: the table generator and the word-at-a-time loop. */
module Crc32Code {
  import opened Registers
  import opened Crc32

  /** The terms of the polynomial, without x^32. */
  const TERMS: seq<bv32> := [0, 1, 2, 4, 5, 7, 8, 10, 11, 12, 16, 22, 23, 26]

  function AddTerm(p: Word, t: Word): Word
    requires t <= 31
  {
    p | (1 << (31 - t))
  }

  /** The exclusive-or pattern of the first n terms. */
  function Pattern(n: nat): Word
    requires n <= |TERMS|
  {
    if n == 0 then 0 else AddTerm(Pattern(n - 1), TERMS[n - 1])
  }

  lemma PatternIsPoly()
    ensures Pattern(|TERMS|) == POLY
  {
    assert Pattern(3) == 0xe0000000;
    assert Pattern(6) == 0xed000000;
    assert Pattern(9) == 0xedb00000;
    assert Pattern(12) == 0xedb88200;
  }

  /** Entry i of the table is byte i after eight bit steps. */
  ghost predicate IsTable(tab: seq<Word>) {
    |tab| == 256 && forall i | 0 <= i < 256 :: tab[i] == ByteStep(i as Word)
  }

  /** make_crc_table, the loop that collects the pattern. */
  method MakePattern() returns (poly: Word)
    ensures poly == POLY
  {
    poly := 0;
    var t := 0;
    while t < |TERMS|
      invariant 0 <= t <= |TERMS| && poly == Pattern(t)
    {
      poly := AddTerm(poly, TERMS[t]);
      t := t + 1;
    }
    PatternIsPoly();
  }

  /** make_crc_table, the inner loop. */
  method MakeEntry(poly: Word, n: Word) returns (c: Word)
    requires poly == POLY
    ensures c == ByteStep(n)
  {
    c := n;
    var k := 0;
    while k < 8
      invariant 0 <= k <= 8 && c == Iterate(BitStep, n, k)
    {
      c := if c & 1 == 1 then poly ^ (c >> 1) else c >> 1;
      k := k + 1;
    }
  }

  /** make_crc_table */
  method MakeCrcTable(tab: array<Word>)
    requires tab.Length == 256
    modifies tab
    ensures IsTable(tab[..])
  {
    var poly := MakePattern();
    var n := 0;
    while n < 256
      invariant 0 <= n <= 256
      invariant forall i | 0 <= i < n :: tab[i] == ByteStep(i as Word)
    {
      tab[n] := MakeEntry(poly, n as Word);
      n := n + 1;
    }
  }

  lemma TableIndex(w: Word)
    ensures 0 <= (w & 255) as int < 256
  {
  }

  /** The entry of the low byte of w, added to the rest of w moved down. */
  function Lookup(tab: seq<Word>, w: Word): Word
    requires |tab| == 256
  {
    TableIndex(w);
    tab[(w & 255) as int] ^ (w >> 8)
  }

  /** Looking up in tab is the byte step f. */
  ghost predicate Implements(tab: seq<Word>, f: Word -> Word) {
    |tab| == 256 && forall w: Word :: Lookup(tab, w) == f(w)
  }

  lemma AsIntAndBack(w: Word)
    ensures (w as int) as Word == w
  {
  }

  lemma TableLookup(tab: seq<Word>, w: Word)
    requires IsTable(tab)
    ensures Lookup(tab, w) == ByteStep(w)
  {
    AsIntAndBack(w & 255);
    TableIndex(w);
    ByteStepSplits(w);
  }

  /** The generated table implements eight bit steps at once, on the whole register. */
  lemma TableImplements(tab: seq<Word>)
    requires IsTable(tab)
    ensures Implements(tab, ByteStep)
  {
    forall w: Word
      ensures Lookup(tab, w) == ByteStep(w)
    {
      TableLookup(tab, w);
    }
  }

  lemma HighPart(crc: Word, x: Byte)
    ensures (crc ^ Widen(x)) >> 8 == crc >> 8
  {
  }

  /** The expression of DO_CRC(x) */
  function TableStep(tab: seq<Word>, crc: Word, x: Byte): Word
    requires |tab| == 256
  {
    TableIndex(crc ^ Widen(x));
    tab[((crc ^ Widen(x)) & 255) as int] ^ (crc >> 8)
  }

  lemma TableStepLooksUp(tab: seq<Word>, crc: Word, x: Byte)
    requires |tab| == 256
    ensures TableStep(tab, crc, x) == Lookup(tab, crc ^ Widen(x))
  {
    HighPart(crc, x);
  }

  lemma LookupSteps(tab: seq<Word>, f: Word -> Word, crc: Word, x: Byte)
    requires Implements(tab, f)
    ensures Lookup(tab, crc ^ Widen(x)) == f(Xor(crc, Widen(x)))
  {
  }

  /** DO_CRC(x) */
  method DoCrc(ghost f: Word -> Word, tab: array<Word>, crc: Word, x: Byte) returns (r: Word)
    requires Implements(tab[..], f)
    ensures r == f(Xor(crc, Widen(x)))
    ensures x == 0 ==> r == f(crc)
  {
    r := TableStep(tab[..], crc, x);
    TableStepLooksUp(tab[..], crc, x);
    LookupSteps(tab[..], f, crc, x);
  }

  lemma IterateFour<W>(f: W -> W, c0: W, c1: W, c2: W, c3: W, c4: W)
    requires c1 == f(c0) && c2 == f(c1) && c3 == f(c2) && c4 == f(c3)
    ensures Iterate(f, c0, 4) == c4
  {
    assert Iterate(f, c0, 1) == c1;
    assert Iterate(f, c0, 2) == c2;
    assert Iterate(f, c0, 3) == c3;
  }

  /** Adding a whole word and stepping four times is feeding its four bytes. */
  lemma WordStep(f: Word -> Word, crc: Word, s: seq<Byte>, i: nat, c0: Word, c1: Word, c2: Word, c3: Word, c4: Word)
    requires Shifts(f) && i + 4 <= |s|
    requires c0 == Xor(Feed(UpdateWith(f), crc, s[..i]), Load(s[i..i + 4]))
    requires c1 == f(c0) && c2 == f(c1) && c3 == f(c2) && c4 == f(c3)
    ensures c4 == Feed(UpdateWith(f), crc, s[..i + 4])
  {
    WordsPack(f);
    FeedWindow(UpdateWith(f), f, Xor, Cons, 0, Fits, Feed(UpdateWith(f), crc, s[..i]), s[i..i + 4]);
    IterateFour(f, c0, c1, c2, c3, c4);
    FeedMore(UpdateWith(f), crc, s, i, i + 4);
  }

  lemma FeedMore<W>(u: (W, Byte) -> W, crc: W, s: seq<Byte>, i: nat, j: nat)
    requires i <= j <= |s|
    ensures Feed(u, crc, s[..j]) == Feed(u, Feed(u, crc, s[..i]), s[i..j])
  {
    assert s[..j] == s[..i] + s[i..j];
    FeedConcat(u, crc, s[..i], s[i..j]);
  }

  lemma FeedOne<W>(u: (W, Byte) -> W, crc: W, s: seq<Byte>, i: nat)
    requires i < |s|
    ensures Feed(u, crc, s[..i + 1]) == u(Feed(u, crc, s[..i]), s[i])
  {
    FeedMore(u, crc, s, i, i + 1);
    assert s[i..i + 1] == [s[i]];
    assert [s[i]][1..] == [];
  }

  /** One byte of the first and the last loop. */
  method FeedByte(ghost f: Word -> Word, tab: array<Word>, ghost crc0: Word, crc: Word, buf: seq<Byte>, i: nat)
    returns (r: Word)
    requires Implements(tab[..], f) && i < |buf| && crc == Feed(UpdateWith(f), crc0, buf[..i])
    ensures r == Feed(UpdateWith(f), crc0, buf[..i + 1])
  {
    FeedOne(UpdateWith(f), crc0, buf, i);
    r := DoCrc(f, tab, crc, buf[i]);
  }

  /** One turn of the word loop. */
  method FeedWord(ghost f: Word -> Word, tab: array<Word>, ghost crc0: Word, crc: Word, buf: seq<Byte>, i: nat)
    returns (r: Word)
    requires Implements(tab[..], f) && Shifts(f) && i + 4 <= |buf|
    requires crc == Feed(UpdateWith(f), crc0, buf[..i])
    ensures r == Feed(UpdateWith(f), crc0, buf[..i + 4])
  {
    var c0 := Xor(crc, Load(buf[i..i + 4]));
    var c1 := DoCrc(f, tab, c0, 0);
    var c2 := DoCrc(f, tab, c1, 0);
    var c3 := DoCrc(f, tab, c2, 0);
    r := DoCrc(f, tab, c3, 0);
    WordStep(f, crc0, buf, i, c0, c1, c2, c3, r);
  }

  /** The last bytes. */
  method FeedLast(ghost f: Word -> Word, tab: array<Word>, ghost crc0: Word, crc: Word, buf: seq<Byte>, start: nat,
                  count: nat) returns (r: Word)
    requires Implements(tab[..], f) && start + count == |buf| && 0 < count
    requires crc == Feed(UpdateWith(f), crc0, buf[..start])
    ensures r == Feed(UpdateWith(f), crc0, buf)
  {
    r := crc;
    var i, len := start, count;
    while true
      invariant 0 <= i && 0 < len && i + len == |buf| && r == Feed(UpdateWith(f), crc0, buf[..i])
      decreases len
    {
      r := FeedByte(f, tab, crc0, r, buf, i);
      i, len := i + 1, len - 1;
      if len == 0 {
        break;
      }
    }
    assert buf[..i] == buf;
  }

  /** crc32_no_comp: single bytes up to a word boundary, whole words, then the last bytes.
      addr is the address of buf; tab may be any table that implements a shifting step f. */
  method Crc32NoComp(ghost f: Word -> Word, tab: array<Word>, crc0: Word, addr: nat, buf: seq<Byte>)
    returns (crc: Word)
    requires Implements(tab[..], f) && Shifts(f)
    ensures crc == Feed(UpdateWith(f), crc0, buf)
  {
    crc := crc0;
    var i, len := 0, |buf|;
    if addr % 4 != 0 && len != 0 {
      while true
        invariant 0 <= i && 0 < len && i + len == |buf| && crc == Feed(UpdateWith(f), crc0, buf[..i])
        decreases len
      {
        crc := FeedByte(f, tab, crc0, crc, buf, i);
        i, len := i + 1, len - 1;
        if len == 0 || (addr + i) % 4 == 0 {
          break;
        }
      }
    }
    var remLen := len % 4;
    len := len / 4;
    while len != 0
      invariant 0 <= i && 0 <= len && i + 4 * len + remLen == |buf|
      invariant crc == Feed(UpdateWith(f), crc0, buf[..i])
      decreases len
    {
      crc := FeedWord(f, tab, crc0, crc, buf, i);
      i, len := i + 4, len - 1;
    }
    len := remLen;
    if len != 0 {
      crc := FeedLast(f, tab, crc0, crc, buf, i, len);
    } else {
      assert buf[..i] == buf;
    }
  }

  /** crc32 */
  method ComputeCrc32(tab: array<Word>, crc0: Word, addr: nat, buf: seq<Byte>) returns (crc: Word)
    requires IsTable(tab[..])
    ensures crc == Crc(crc0, buf)
  {
    TableImplements(tab[..]);
    ByteStepShiftsAll();
    var c := Crc32NoComp(ByteStep, tab, Complement(crc0), addr, buf);
    crc := Complement(c);
  }
}
