/** The table base/src/crc32.c is built with: every entry is its byte after eight bit steps. */
module Crc32Table {
  import opened Registers
  import opened Crc32
  import opened Crc32Code

  /** A row is the first one with its own first entry added. */
  type TableRow = r: seq<Word> | |r| == 16 && forall l | 0 <= l < 16 :: r[l] == Xor(r[0], ROW0[l]) witness ROW0

  /** crc_table, sixteen entries at a time. */
  const ROW0: seq<Word> := [
    0x00000000, 0x77073096, 0xee0e612c, 0x990951ba, 0x076dc419, 0x706af48f, 0xe963a535, 0x9e6495a3,
    0x0edb8832, 0x79dcb8a4, 0xe0d5e91e, 0x97d2d988, 0x09b64c2b, 0x7eb17cbd, 0xe7b82d07, 0x90bf1d91]
  const ROW1: TableRow := [
    0x1db71064, 0x6ab020f2, 0xf3b97148, 0x84be41de, 0x1adad47d, 0x6ddde4eb, 0xf4d4b551, 0x83d385c7,
    0x136c9856, 0x646ba8c0, 0xfd62f97a, 0x8a65c9ec, 0x14015c4f, 0x63066cd9, 0xfa0f3d63, 0x8d080df5]
  const ROW2: TableRow := [
    0x3b6e20c8, 0x4c69105e, 0xd56041e4, 0xa2677172, 0x3c03e4d1, 0x4b04d447, 0xd20d85fd, 0xa50ab56b,
    0x35b5a8fa, 0x42b2986c, 0xdbbbc9d6, 0xacbcf940, 0x32d86ce3, 0x45df5c75, 0xdcd60dcf, 0xabd13d59]
  const ROW3: TableRow := [
    0x26d930ac, 0x51de003a, 0xc8d75180, 0xbfd06116, 0x21b4f4b5, 0x56b3c423, 0xcfba9599, 0xb8bda50f,
    0x2802b89e, 0x5f058808, 0xc60cd9b2, 0xb10be924, 0x2f6f7c87, 0x58684c11, 0xc1611dab, 0xb6662d3d]
  const ROW4: TableRow := [
    0x76dc4190, 0x01db7106, 0x98d220bc, 0xefd5102a, 0x71b18589, 0x06b6b51f, 0x9fbfe4a5, 0xe8b8d433,
    0x7807c9a2, 0x0f00f934, 0x9609a88e, 0xe10e9818, 0x7f6a0dbb, 0x086d3d2d, 0x91646c97, 0xe6635c01]
  const ROW5: TableRow := [
    0x6b6b51f4, 0x1c6c6162, 0x856530d8, 0xf262004e, 0x6c0695ed, 0x1b01a57b, 0x8208f4c1, 0xf50fc457,
    0x65b0d9c6, 0x12b7e950, 0x8bbeb8ea, 0xfcb9887c, 0x62dd1ddf, 0x15da2d49, 0x8cd37cf3, 0xfbd44c65]
  const ROW6: TableRow := [
    0x4db26158, 0x3ab551ce, 0xa3bc0074, 0xd4bb30e2, 0x4adfa541, 0x3dd895d7, 0xa4d1c46d, 0xd3d6f4fb,
    0x4369e96a, 0x346ed9fc, 0xad678846, 0xda60b8d0, 0x44042d73, 0x33031de5, 0xaa0a4c5f, 0xdd0d7cc9]
  const ROW7: TableRow := [
    0x5005713c, 0x270241aa, 0xbe0b1010, 0xc90c2086, 0x5768b525, 0x206f85b3, 0xb966d409, 0xce61e49f,
    0x5edef90e, 0x29d9c998, 0xb0d09822, 0xc7d7a8b4, 0x59b33d17, 0x2eb40d81, 0xb7bd5c3b, 0xc0ba6cad]
  const ROW8: TableRow := [
    0xedb88320, 0x9abfb3b6, 0x03b6e20c, 0x74b1d29a, 0xead54739, 0x9dd277af, 0x04db2615, 0x73dc1683,
    0xe3630b12, 0x94643b84, 0x0d6d6a3e, 0x7a6a5aa8, 0xe40ecf0b, 0x9309ff9d, 0x0a00ae27, 0x7d079eb1]
  const ROW9: TableRow := [
    0xf00f9344, 0x8708a3d2, 0x1e01f268, 0x6906c2fe, 0xf762575d, 0x806567cb, 0x196c3671, 0x6e6b06e7,
    0xfed41b76, 0x89d32be0, 0x10da7a5a, 0x67dd4acc, 0xf9b9df6f, 0x8ebeeff9, 0x17b7be43, 0x60b08ed5]
  const ROW10: TableRow := [
    0xd6d6a3e8, 0xa1d1937e, 0x38d8c2c4, 0x4fdff252, 0xd1bb67f1, 0xa6bc5767, 0x3fb506dd, 0x48b2364b,
    0xd80d2bda, 0xaf0a1b4c, 0x36034af6, 0x41047a60, 0xdf60efc3, 0xa867df55, 0x316e8eef, 0x4669be79]
  const ROW11: TableRow := [
    0xcb61b38c, 0xbc66831a, 0x256fd2a0, 0x5268e236, 0xcc0c7795, 0xbb0b4703, 0x220216b9, 0x5505262f,
    0xc5ba3bbe, 0xb2bd0b28, 0x2bb45a92, 0x5cb36a04, 0xc2d7ffa7, 0xb5d0cf31, 0x2cd99e8b, 0x5bdeae1d]
  const ROW12: TableRow := [
    0x9b64c2b0, 0xec63f226, 0x756aa39c, 0x026d930a, 0x9c0906a9, 0xeb0e363f, 0x72076785, 0x05005713,
    0x95bf4a82, 0xe2b87a14, 0x7bb12bae, 0x0cb61b38, 0x92d28e9b, 0xe5d5be0d, 0x7cdcefb7, 0x0bdbdf21]
  const ROW13: TableRow := [
    0x86d3d2d4, 0xf1d4e242, 0x68ddb3f8, 0x1fda836e, 0x81be16cd, 0xf6b9265b, 0x6fb077e1, 0x18b74777,
    0x88085ae6, 0xff0f6a70, 0x66063bca, 0x11010b5c, 0x8f659eff, 0xf862ae69, 0x616bffd3, 0x166ccf45]
  const ROW14: TableRow := [
    0xa00ae278, 0xd70dd2ee, 0x4e048354, 0x3903b3c2, 0xa7672661, 0xd06016f7, 0x4969474d, 0x3e6e77db,
    0xaed16a4a, 0xd9d65adc, 0x40df0b66, 0x37d83bf0, 0xa9bcae53, 0xdebb9ec5, 0x47b2cf7f, 0x30b5ffe9]
  const ROW15: TableRow := [
    0xbdbdf21c, 0xcabac28a, 0x53b39330, 0x24b4a3a6, 0xbad03605, 0xcdd70693, 0x54de5729, 0x23d967bf,
    0xb3667a2e, 0xc4614ab8, 0x5d681b02, 0x2a6f2b94, 0xb40bbe37, 0xc30c8ea1, 0x5a05df1b, 0x2d02ef8d]

  function Row(h: nat): TableRow
    requires h < 16
  {
    match h
    case 0 => ROW0
    case 1 => ROW1
    case 2 => ROW2
    case 3 => ROW3
    case 4 => ROW4
    case 5 => ROW5
    case 6 => ROW6
    case 7 => ROW7
    case 8 => ROW8
    case 9 => ROW9
    case 10 => ROW10
    case 11 => ROW11
    case 12 => ROW12
    case 13 => ROW13
    case 14 => ROW14
    case _ => ROW15
  }

  // ---------------------------------------------------------------- the single bits

  /** Half a byte is one bit step earlier, so its entry is one bit step later. */
  lemma Halved(c: Word, half: Word, e: Word)
    requires BitStep(c) == half && ByteStep(c) == e
    ensures ByteStep(half) == BitStep(e)
  {
    IterateFront(BitStep, c, 8);
    assert Iterate(BitStep, c, 9) == BitStep(Iterate(BitStep, c, 8));
  }

  lemma HighestBit()
    ensures ByteStep(0x80) == POLY
  {
    assert Iterate(BitStep, 0x80, 1) == 0x40;
    assert Iterate(BitStep, 0x80, 2) == 0x20;
    assert Iterate(BitStep, 0x80, 3) == 0x10;
    assert Iterate(BitStep, 0x80, 4) == 0x8;
    assert Iterate(BitStep, 0x80, 5) == 0x4;
    assert Iterate(BitStep, 0x80, 6) == 0x2;
    assert Iterate(BitStep, 0x80, 7) == 0x1;
  }

  lemma SingleBits()
    ensures ByteStep(0x80) == 0xedb88320
    ensures ByteStep(0x40) == 0x76dc4190
    ensures ByteStep(0x20) == 0x3b6e20c8
    ensures ByteStep(0x10) == 0x1db71064
    ensures ByteStep(0x8) == 0x0edb8832
    ensures ByteStep(0x4) == 0x076dc419
    ensures ByteStep(0x2) == 0xee0e612c
    ensures ByteStep(0x1) == 0x77073096
  {
    HighestBit();
    Halved(0x80, 0x40, 0xedb88320);
    Halved(0x40, 0x20, 0x76dc4190);
    Halved(0x20, 0x10, 0x3b6e20c8);
    Halved(0x10, 0x8, 0x1db71064);
    Halved(0x8, 0x4, 0x0edb8832);
    Halved(0x4, 0x2, 0x076dc419);
    Halved(0x2, 0x1, 0xee0e612c);
  }

  /** An entry made of two others. */
  lemma Sum(a: Word, b: Word, x: Word, y: Word)
    requires ByteStep(a) == x && ByteStep(b) == y
    ensures ByteStep(Xor(a, b)) == Xor(x, y)
  {
    ByteStepLinear(a, b);
  }

  lemma ZeroStep()
    ensures ByteStep(0) == 0
  {
    ByteStepLinear(0, 0);
  }

  /** The entries of the first row. */
  lemma LowNibbles()
    ensures ByteStep(0x0) == 0x00000000
    ensures ByteStep(0x1) == 0x77073096
    ensures ByteStep(0x2) == 0xee0e612c
    ensures ByteStep(0x3) == 0x990951ba
    ensures ByteStep(0x4) == 0x076dc419
    ensures ByteStep(0x5) == 0x706af48f
    ensures ByteStep(0x6) == 0xe963a535
    ensures ByteStep(0x7) == 0x9e6495a3
    ensures ByteStep(0x8) == 0x0edb8832
    ensures ByteStep(0x9) == 0x79dcb8a4
    ensures ByteStep(0xa) == 0xe0d5e91e
    ensures ByteStep(0xb) == 0x97d2d988
    ensures ByteStep(0xc) == 0x09b64c2b
    ensures ByteStep(0xd) == 0x7eb17cbd
    ensures ByteStep(0xe) == 0xe7b82d07
    ensures ByteStep(0xf) == 0x90bf1d91
  {
    SingleBits();
    ZeroStep();
    Sum(0x2, 0x1, 0xee0e612c, 0x77073096);
    Sum(0x4, 0x1, 0x076dc419, 0x77073096);
    Sum(0x4, 0x2, 0x076dc419, 0xee0e612c);
    Sum(0x4, 0x3, 0x076dc419, 0x990951ba);
    Sum(0x8, 0x1, 0x0edb8832, 0x77073096);
    Sum(0x8, 0x2, 0x0edb8832, 0xee0e612c);
    Sum(0x8, 0x3, 0x0edb8832, 0x990951ba);
    Sum(0x8, 0x4, 0x0edb8832, 0x076dc419);
    Sum(0x8, 0x5, 0x0edb8832, 0x706af48f);
    Sum(0x8, 0x6, 0x0edb8832, 0xe963a535);
    Sum(0x8, 0x7, 0x0edb8832, 0x9e6495a3);
  }

  /** The first entries of the rows. */
  lemma HighNibbles()
    ensures ByteStep(0x0) == 0x00000000
    ensures ByteStep(0x10) == 0x1db71064
    ensures ByteStep(0x20) == 0x3b6e20c8
    ensures ByteStep(0x30) == 0x26d930ac
    ensures ByteStep(0x40) == 0x76dc4190
    ensures ByteStep(0x50) == 0x6b6b51f4
    ensures ByteStep(0x60) == 0x4db26158
    ensures ByteStep(0x70) == 0x5005713c
    ensures ByteStep(0x80) == 0xedb88320
    ensures ByteStep(0x90) == 0xf00f9344
    ensures ByteStep(0xa0) == 0xd6d6a3e8
    ensures ByteStep(0xb0) == 0xcb61b38c
    ensures ByteStep(0xc0) == 0x9b64c2b0
    ensures ByteStep(0xd0) == 0x86d3d2d4
    ensures ByteStep(0xe0) == 0xa00ae278
    ensures ByteStep(0xf0) == 0xbdbdf21c
  {
    SingleBits();
    ZeroStep();
    Sum(0x20, 0x10, 0x3b6e20c8, 0x1db71064);
    Sum(0x40, 0x10, 0x76dc4190, 0x1db71064);
    Sum(0x40, 0x20, 0x76dc4190, 0x3b6e20c8);
    Sum(0x40, 0x30, 0x76dc4190, 0x26d930ac);
    Sum(0x80, 0x10, 0xedb88320, 0x1db71064);
    Sum(0x80, 0x20, 0xedb88320, 0x3b6e20c8);
    Sum(0x80, 0x30, 0xedb88320, 0x26d930ac);
    Sum(0x80, 0x40, 0xedb88320, 0x76dc4190);
    Sum(0x80, 0x50, 0xedb88320, 0x6b6b51f4);
    Sum(0x80, 0x60, 0xedb88320, 0x4db26158);
    Sum(0x80, 0x70, 0xedb88320, 0x5005713c);
  }

  // ---------------------------------------------------------------- the entries

  lemma FirstRow(b: Word, l: nat)
    requires l < 16 && b as int == l
    ensures ROW0[l] == ByteStep(b)
  {
    LowNibbles();
    AsIntAndBack(b);
  }

  /** The word of a row's first entry. */
  function RowWord(h: nat): (a: Word)
    requires h < 16
    ensures a as int == 16 * h
  {
    match h
    case 0 => 0x0
    case 1 => 0x10
    case 2 => 0x20
    case 3 => 0x30
    case 4 => 0x40
    case 5 => 0x50
    case 6 => 0x60
    case 7 => 0x70
    case 8 => 0x80
    case 9 => 0x90
    case 10 => 0xa0
    case 11 => 0xb0
    case 12 => 0xc0
    case 13 => 0xd0
    case 14 => 0xe0
    case _ => 0xf0
  }

  lemma FirstsLow()
    ensures ROW0[0] == 0x00000000
    ensures ROW1[0] == 0x1db71064
    ensures ROW2[0] == 0x3b6e20c8
    ensures ROW3[0] == 0x26d930ac
    ensures ROW4[0] == 0x76dc4190
    ensures ROW5[0] == 0x6b6b51f4
    ensures ROW6[0] == 0x4db26158
    ensures ROW7[0] == 0x5005713c
  {
  }

  /** f is right on the first word of every row. */
  ghost predicate OnRows(f: Word -> Word) {
    && f(0x0) == 0x00000000
    && f(0x10) == 0x1db71064
    && f(0x20) == 0x3b6e20c8
    && f(0x30) == 0x26d930ac
    && f(0x40) == 0x76dc4190
    && f(0x50) == 0x6b6b51f4
    && f(0x60) == 0x4db26158
    && f(0x70) == 0x5005713c
    && f(0x80) == 0xedb88320
    && f(0x90) == 0xf00f9344
    && f(0xa0) == 0xd6d6a3e8
    && f(0xb0) == 0xcb61b38c
    && f(0xc0) == 0x9b64c2b0
    && f(0xd0) == 0x86d3d2d4
    && f(0xe0) == 0xa00ae278
    && f(0xf0) == 0xbdbdf21c
  }

  lemma FirstOfRow(f: Word -> Word, h: nat)
    requires OnRows(f) && h < 16
    ensures Row(h)[0] == f(RowWord(h))
  {
    FirstsLow();
  }

  lemma FirstColumn(a: Word, h: nat)
    requires h < 16 && a as int == 16 * h
    ensures Row(h)[0] == ByteStep(a)
  {
    HighNibbles();
    FirstOfRow(ByteStep, h);
    AsIntAndBack(a);
    AsIntAndBack(RowWord(h));
  }

  lemma Nibbles(w: Word)
    requires w & 0xffffff00 == 0
    ensures (w & 15) as int == (w as int) % 16 && (w & 0xf0) as int == 16 * (w as int / 16)
    ensures w == Xor(w & 0xf0, w & 15)
  {
  }

  lemma OneByte(w: Word)
    requires w as int < 256
    ensures w & 0xffffff00 == 0
  {
  }

  function CountUp(n: nat): (w: Word)
    requires n < 256
    ensures w as int == n
  {
    if n == 0 then 0 else CountUp(n - 1) + 1
  }

  /** crc_table */
  function CrcTable(): (t: seq<Word>)
    ensures |t| == 256 && forall i | 0 <= i < 256 :: t[i] == Row(i / 16)[i % 16]
  {
    seq(256, i requires 0 <= i < 256 => Row(i / 16)[i % 16])
  }

  lemma EntryOfWord(w: Word, a: Word, b: Word, i: nat)
    requires i < 256 && a as int == 16 * (i / 16) && b as int == i % 16 && w == Xor(a, b)
    ensures Row(i / 16)[i % 16] == ByteStep(w)
  {
    FirstColumn(a, i / 16);
    FirstRow(b, i % 16);
    ByteStepLinear(a, b);
    RowAt(i / 16, i % 16, ByteStep(a), ByteStep(b));
  }

  lemma EntryRight(i: nat)
    requires i < 256
    ensures Row(i / 16)[i % 16] == ByteStep(i as Word)
  {
    var w := CountUp(i);
    AsIntAndBack(w);
    OneByte(w);
    Nibbles(w);
    EntryOfWord(w, w & 0xf0, w & 15, i);
  }

  lemma RowAt(h: nat, l: nat, x: Word, y: Word)
    requires h < 16 && l < 16 && Row(h)[0] == x && ROW0[l] == y
    ensures Row(h)[l] == Xor(x, y)
  {
  }

  /** The compiled-in table is the one make_crc_table would generate. */
  lemma CrcTableRight()
    ensures IsTable(CrcTable())
  {
    forall i | 0 <= i < 256
      ensures CrcTable()[i] == ByteStep(i as Word)
    {
      EntryRight(i);
    }
  }

  /** crc32 as it is built: no array is generated, and the table is this one. */
  method Crc32WithTable(crc0: Word, addr: nat, buf: seq<Byte>) returns (crc: Word)
    ensures crc == Crc(crc0, buf)
  {
    var table := CrcTable();
    var tab := new Word[256](i requires 0 <= i < 256 => table[i]);
    CrcTableRight();
    assert tab[..] == table;
    crc := ComputeCrc32(tab, crc0, addr, buf);
  }
}
