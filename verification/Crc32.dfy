/** base/src/crc32.c: the CRC-32 of section 8 of RFC 1952. */
module Crc32 {
  import opened Registers

  type Word = bv32

  /** x^32 mod p, lowest power in the most significant bit. */
  const POLY: Word := 0xedb88320

  /** One step of the inner loop of make_crc_table: multiply by x. */
  function BitStep(c: Word): Word {
    if c & 1 == 1 then POLY ^ (c >> 1) else c >> 1
  }

  /** The table entry of byte c, and the effect of eight zero bits on any register. */
  function ByteStep(c: Word): Word { Iterate(BitStep, c, 8) }

  function Widen(b: Byte): Word { b as Word }

  /** A register with byte step f, fed with one byte. */
  function UpdateWith(f: Word -> Word): (Word, Byte) -> Word { (c: Word, b: Byte) => f(Xor(c, Widen(b))) }

  function Complement(c: Word): Word { c ^ 0xffffffff }

  /** crc32_no_comp as a function: eight bit steps for each byte. */
  function CrcNoComp(c: Word, s: seq<Byte>): Word { Feed(UpdateWith(ByteStep), c, s) }

  /** crc32 as a function: the register is complemented before and after. */
  function Crc(c: Word, s: seq<Byte>): Word { Complement(CrcNoComp(Complement(c), s)) }

  function Xor(a: Word, b: Word): Word { a ^ b }

  // ---------------------------------------------------------------- the steps

  lemma XorFacts(a: Word, b: Word)
    ensures (a ^ b) >> 1 == (a >> 1) ^ (b >> 1)
    ensures (a ^ b) & 1 == (a & 1) ^ (b & 1)
    ensures (a & 1 == 0 || a & 1 == 1) && (b & 1 == 0 || b & 1 == 1)
  {
  }

  /** The bit step is linear over exclusive or. */
  lemma BitStepLinear(a: Word, b: Word)
    ensures BitStep(a ^ b) == BitStep(a) ^ BitStep(b)
  {
    XorFacts(a, b);
  }

  lemma ByteStepLinear(a: Word, b: Word)
    ensures ByteStep(Xor(a, b)) == Xor(ByteStep(a), ByteStep(b))
  {
    assert Linear(Xor, BitStep) by {
      forall x: Word, y: Word
        ensures BitStep(Xor(x, y)) == Xor(BitStep(x), BitStep(y))
      {
        BitStepLinear(x, y);
      }
    }
    IterateLinear(Xor, BitStep, a, b, 8);
  }

  function UnstepBit(c: Word): Word {
    if c & 0x80000000 != 0 then ((c ^ POLY) << 1) | 1 else c << 1
  }

  /** The bit step loses nothing. */
  lemma UnstepBitCorrect(c: Word)
    ensures UnstepBit(BitStep(c)) == c
  {
  }

  function UnstepByte(c: Word): Word { Iterate(UnstepBit, c, 8) }

  lemma UnstepByteCorrect(c: Word)
    ensures UnstepByte(ByteStep(c)) == c
  {
    assert Inverts(UnstepBit, BitStep) by {
      forall x: Word
        ensures UnstepBit(BitStep(x)) == x
      {
        UnstepBitCorrect(x);
      }
    }
    IterateInverts(BitStep, UnstepBit, c, 8);
  }

  lemma EightBitsShift(c: Word)
    requires c & 0xff == 0
    ensures BitStep(BitStep(BitStep(BitStep(BitStep(BitStep(BitStep(BitStep(c)))))))) == c >> 8
  {
  }

  /** Eight steps move the upper three bytes down unchanged. */
  lemma ByteStepShifts(c: Word)
    requires c & 0xff == 0
    ensures ByteStep(c) == c >> 8
  {
    EightBitsShift(c);
    IterateEight(BitStep, c);
  }

  /** Bytes above the low one can be added before the step or, moved down, after it. */
  lemma StepThenAdd(x: Word, y: Word)
    requires y & 0xff == 0
    ensures ByteStep(Xor(x, y)) == Xor(ByteStep(x), y >> 8)
  {
    ByteStepLinear(x, y);
    ByteStepShifts(y);
  }

  lemma LowAndHigh(c: Word)
    ensures c == Xor(c & 0xff, c & 0xffffff00)
    ensures (c & 0xffffff00) & 0xff == 0 && (c & 0xffffff00) >> 8 == c >> 8
  {
  }

  /** The table lookup of DO_CRC: the low byte selects an entry, the rest moves down. */
  lemma ByteStepSplits(c: Word)
    ensures ByteStep(c) == Xor(ByteStep(c & 0xff), c >> 8)
  {
    LowAndHigh(c);
    StepThenAdd(c & 0xff, c & 0xffffff00);
  }

  // ---------------------------------------------------------------- four bytes at once

  function Cons(b: Byte, w: Word): Word { Widen(b) | (w << 8) }

  /** A little-endian load of up to four bytes. */
  function Load(s: seq<Byte>): Word { PackBytes(Cons, 0, s) }

  /** w holds n bytes. */
  predicate Fits(n: nat, w: Word) {
    match n
    case 0 => w == 0
    case 1 => w & 0xffffff00 == 0
    case 2 => w & 0xffff0000 == 0
    case 3 => w & 0xff000000 == 0
    case _ => true
  }

  lemma FitsLow(n: nat, w: Word)
    requires n < 4 && Fits(n, w)
    ensures w & 0xff000000 == 0
  {
    if n == 0 {
      assert w == 0;
    } else if n == 1 {
      assert w & 0xffffff00 == 0;
    } else if n == 2 {
      assert w & 0xffff0000 == 0;
    }
  }

  lemma ConsFits(n: nat, b: Byte, w: Word)
    requires n < 4 && Fits(n, w)
    ensures Fits(n + 1, Cons(b, w))
  {
    if n == 0 {
      assert (Widen(b) | (w << 8)) & 0xffffff00 == 0;
    } else if n == 1 {
      assert (Widen(b) | (w << 8)) & 0xffff0000 == 0;
    } else if n == 2 {
      assert (Widen(b) | (w << 8)) & 0xff000000 == 0;
    }
  }

  lemma ShiftFacts(w: Word)
    ensures (w << 8) & 0xff == 0
    ensures w & 0xff000000 == 0 ==> (w << 8) >> 8 == w
  {
  }

  lemma ConsIsXor(b: Byte, w: Word)
    ensures Cons(b, w) == Xor(Widen(b), w << 8)
  {
  }

  lemma XorGroups(r: Word, v: Word, y: Word)
    ensures Xor(r, Xor(v, y)) == Xor(Xor(r, v), y)
  {
    assert r ^ (v ^ y) == (r ^ v) ^ y;
  }

  lemma ConsXor(r: Word, b: Byte, w: Word)
    ensures Xor(r, Cons(b, w)) == Xor(Xor(r, Widen(b)), w << 8)
  {
    ConsIsXor(b, w);
    XorGroups(r, Widen(b), w << 8);
  }

  /** Bytes above the low one can be added before the step f or, moved down, after it. */
  ghost predicate Shifts(f: Word -> Word) {
    forall x: Word, y: Word {:trigger f(Xor(x, y))} :: y & 0xff == 0 ==> f(Xor(x, y)) == Xor(f(x), y >> 8)
  }

  lemma ByteStepShiftsAll()
    ensures Shifts(ByteStep)
  {
    forall x: Word, y: Word {:trigger ByteStep(Xor(x, y))} | y & 0xff == 0
      ensures ByteStep(Xor(x, y)) == Xor(ByteStep(x), y >> 8)
    {
      StepThenAdd(x, y);
    }
  }

  lemma ShiftsAt(f: Word -> Word, x: Word, w: Word)
    requires Shifts(f) && w & 0xff000000 == 0
    ensures f(Xor(x, w << 8)) == Xor(f(x), w)
  {
    ShiftFacts(w);
  }

  lemma ConsStep(f: Word -> Word, r: Word, b: Byte, w: Word)
    requires Shifts(f) && w & 0xff000000 == 0
    ensures f(Xor(r, Cons(b, w))) == Xor(f(Xor(r, Widen(b))), w)
  {
    ConsXor(r, b, w);
    ShiftsAt(f, Xor(r, Widen(b)), w);
  }

  lemma ConsInjective(b: Byte, w: Word, b': Byte, w': Word)
    requires w & 0xff000000 == 0 && w' & 0xff000000 == 0 && Cons(b, w) == Cons(b', w')
    ensures b == b' && w == w'
  {
  }

  lemma WordsPack(f: Word -> Word)
    requires Shifts(f)
    ensures PacksWindow(UpdateWith(f), f, Xor, Cons, 0, Fits)
  {
    var u := UpdateWith(f);
    forall r: Word
      ensures Xor(r, 0) == r
    {
    }
    forall n: nat, b: Byte, w: Word | n < 4 && Fits(n, w)
      ensures Fits(n + 1, Cons(b, w))
    {
      ConsFits(n, b, w);
    }
    forall n: nat, b: Byte, w: Word, r: Word | n < 4 && Fits(n, w)
      ensures f(Xor(r, Cons(b, w))) == Xor(u(r, b), w)
    {
      FitsLow(n, w);
      ConsStep(f, r, b, w);
    }
    forall n: nat, b: Byte, w: Word, b': Byte, w': Word |
      n < 4 && Fits(n, w) && Fits(n, w') && Cons(b, w) == Cons(b', w')
      ensures b == b' && w == w'
    {
      FitsLow(n, w);
      FitsLow(n, w');
      ConsInjective(b, w, b', w');
    }
    forall r: Word, w: Word, w': Word | Xor(r, w) == Xor(r, w')
      ensures w == w'
    {
    }
  }

  // ---------------------------------------------------------------- whole buffers

  lemma ComplementTwice(c: Word)
    ensures Complement(Complement(c)) == c
  {
  }

  /** crc32 can be continued: the crc of a ++ b is the crc of b started from the crc of a. */
  lemma CrcConcat(c: Word, a: seq<Byte>, b: seq<Byte>)
    ensures Crc(c, a + b) == Crc(Crc(c, a), b)
  {
    ComplementTwice(CrcNoComp(Complement(c), a));
    FeedConcat(UpdateWith(ByteStep), Complement(c), a, b);
  }

  function DowndateWith(g: Word -> Word): (Word, Byte) -> Word { (c: Word, b: Byte) => Xor(g(c), Widen(b)) }

  lemma XorTwice(c: Word, x: Word)
    ensures Xor(Xor(c, x), x) == c
  {
  }

  lemma UpdateUndone(f: Word -> Word, g: Word -> Word)
    requires Inverts(g, f)
    ensures UpdateInverts(DowndateWith(g), UpdateWith(f))
  {
    forall c: Word, b: Byte
      ensures DowndateWith(g)(UpdateWith(f)(c, b), b) == c
    {
      assert g(f(Xor(c, Widen(b)))) == Xor(c, Widen(b));
      XorTwice(c, Widen(b));
    }
  }

  lemma ByteStepInverts()
    ensures Inverts(UnstepByte, ByteStep)
  {
    forall x: Word
      ensures UnstepByte(ByteStep(x)) == x
    {
      UnstepByteCorrect(x);
    }
  }

  /** Two buffers that differ only within four consecutive bytes never have the same crc. */
  lemma LocalChangeDetected(c: Word, p: seq<Byte>, s: seq<Byte>, t: seq<Byte>, q: seq<Byte>)
    requires |s| == |t| <= 4 && s != t
    ensures Crc(c, p + s + q) != Crc(c, p + t + q)
  {
    if Crc(c, p + s + q) == Crc(c, p + t + q) {
      ComplementTwice(CrcNoComp(Complement(c), p + s + q));
      ComplementTwice(CrcNoComp(Complement(c), p + t + q));
      ByteStepInverts();
      UpdateUndone(ByteStep, UnstepByte);
      ByteStepShiftsAll();
      WordsPack(ByteStep);
      ChangeDetected(UpdateWith(ByteStep), DowndateWith(UnstepByte), ByteStep, UnstepByte, Xor, Cons, 0, Fits,
                     Complement(c), p, s, t, q);
    }
  }

  /** The crc of anything that is followed by its own crc. */
  function Residue(): Word { Complement(Iterate(ByteStep, 0xffffffff, 4)) }

  lemma ComplementIsOther(r: Word, w: Word)
    ensures Xor(r, w) == 0xffffffff <==> w == Complement(r)
  {
    XorAgain(r, w);
    XorAgain(r, 0xffffffff);
  }

  lemma XorAgain(r: Word, w: Word)
    ensures Xor(r, Xor(r, w)) == w
  {
  }

  /** Four bytes are the crc of what comes before them if and only if the crc of it all is that one
      number. */
  lemma SealedIff(c: Word, data: seq<Byte>, vef: seq<Byte>)
    requires |vef| == 4
    ensures Load(vef) == Crc(c, data) <==> Crc(c, data + vef) == Residue()
  {
    var r := CrcNoComp(Complement(c), data);
    ByteStepShiftsAll();
    WordsPack(ByteStep);
    FeedConcat(UpdateWith(ByteStep), Complement(c), data, vef);
    FeedWindow(UpdateWith(ByteStep), ByteStep, Xor, Cons, 0, Fits, r, vef);
    ComplementIsOther(r, Load(vef));
    StepFour(Xor(r, Load(vef)));
  }

  lemma StepFour(x: Word)
    ensures Complement(Iterate(ByteStep, x, 4)) == Residue() <==> x == 0xffffffff
  {
    if Complement(Iterate(ByteStep, x, 4)) == Residue() {
      ComplementTwice(Iterate(ByteStep, x, 4));
      ComplementTwice(Iterate(ByteStep, 0xffffffff, 4));
      ByteStepInverts();
      IterateInverts(ByteStep, UnstepByte, x, 4);
      IterateInverts(ByteStep, UnstepByte, 0xffffffff, 4);
    }
  }

  /** So data with its crc behind it cannot be changed within four consecutive bytes, those of the crc
      included, and still be data with its crc. */
  lemma SealBroken(c: Word, data: seq<Byte>, vef: seq<Byte>, data': seq<Byte>, vef': seq<Byte>,
                   p: seq<Byte>, s: seq<Byte>, t: seq<Byte>, q: seq<Byte>)
    requires |vef| == |vef'| == 4 && data + vef == p + s + q && data' + vef' == p + t + q
    requires |s| == |t| <= 4 && s != t && Load(vef) == Crc(c, data)
    ensures Load(vef') != Crc(c, data')
  {
    SealedIff(c, data, vef);
    SealedIff(c, data', vef');
    LocalChangeDetected(c, p, s, t, q);
  }
}
