/** The frame of lvp/common/uart_message_v2.h and .c, as bytes.

    A header is its 14 bytes in memory: magic (4), cmd (2), seq, flags, length (2), crc32 (4),
    everything little-endian.  The checksum is a parameter of the link; UartCrcLink supplies
    the real one. */
module UartFrame {
  import opened Registers

  /** The magic word and the checksum both ends use. */
  datatype Link = Link(magic: seq<Byte>, crc: seq<Byte> -> seq<Byte>)
  {
    ghost predicate Valid() {
      && |magic| == 4 && magic != ZERO_WORD
      && forall data: seq<Byte> :: |crc(data)| == 4
    }
  }

  const ZERO_WORD: seq<Byte> := [0, 0, 0, 0]

  const HEADER_SIZE := 14

  type Header = h: seq<Byte> | |h| == HEADER_SIZE witness seq(HEADER_SIZE, _ => 0)

  function Value(b: Byte): (v: int)
    ensures 0 <= v < 256
  {
    b as int
  }

  function CountUp(n: nat): (b: Byte)
    requires n < 256
    ensures b as int == n
  {
    if n == 0 then 0 else CountUp(n - 1) + 1
  }

  lemma CastThere(b: Byte)
    ensures (b as int) as bv8 == b
  {
  }

  lemma CastBack(n: nat)
    requires n < 256
    ensures (n as bv8) as int == n
  {
    CastThere(CountUp(n));
  }

  function LowByte(n: nat): (b: Byte)
    ensures Value(b) == n % 256
  {
    CastBack(n % 256);
    (n % 256) as Byte
  }

  function MagicOf(h: Header): seq<Byte> { h[..4] }
  function CmdOf(h: Header): int { Value(h[4]) + 256 * Value(h[5]) }
  function SeqOf(h: Header): Byte { h[6] }
  function FlagsOf(h: Header): Byte { h[7] }
  function LengthOf(h: Header): nat { Value(h[8]) + 256 * Value(h[9]) }

  /** The bytes of the body checksum that length counts too. */
  function VefSize(h: Header): nat { if FlagsOf(h) != 0 then 4 else 0 }

  /** length - (flags ? 4 : 0) in an unsigned int. */
  function BodySize(h: Header): (n: nat)
    ensures LengthOf(h) >= VefSize(h) ==> n == LengthOf(h) - VefSize(h)
    ensures LengthOf(h) < VefSize(h) ==> n >= 0xffff_0000
  {
    (LengthOf(h) - VefSize(h)) % 0x1_0000_0000
  }

  predicate HeaderCrcOk(link: Link, h: Header) { link.crc(h[..10]) == h[10..] }

  /** MSG_TYPE: the upper byte of a message id. */
  const REQ: nat := 0x1
  const RSP: nat := 0x2
  const NTF: nat := 0x3

  /** NEW_MSG */
  function NewMsg(msgType: nat, nr: nat): nat { msgType * 256 + nr }

  /** The ids of one type. */
  predicate IsType(cmd: nat, msgType: nat) { NewMsg(msgType, 0) <= cmd < NewMsg(msgType + 1, 0) }

  /** A message as the caller of UartMessageAsyncSend describes it; the body is the memory that
      body_addr points at. */
  datatype Message = Message(cmd: nat, seqNo: Byte, flags: Byte, body: seq<Byte>)
  {
    /** The 16-bit fields can hold the message. */
    predicate Fits() { cmd < 0x1_0000 && LengthField(this) < 0x1_0000 }
  }

  function LengthField(m: Message): nat { |m.body| + if m.flags != 0 then 4 else 0 }

  function HeaderStart(link: Link, m: Message): (h: seq<Byte>)
    requires |link.magic| == 4
    ensures |h| == 10
  {
    link.magic
    + [LowByte(m.cmd), LowByte(m.cmd / 256), m.seqNo, m.flags]
    + [LowByte(LengthField(m)), LowByte(LengthField(m) / 256)]
  }

  /** The header UartMessageAsyncSend fills in. */
  function HeaderFor(link: Link, m: Message): (h: Header)
    requires link.Valid()
    ensures MagicOf(h) == link.magic && h[..10] == HeaderStart(link, m) && HeaderCrcOk(link, h)
  {
    var start := HeaderStart(link, m);
    start + link.crc(start)
  }

  lemma Base256(n: nat)
    requires n < 0x1_0000
    ensures n % 256 + 256 * (n / 256 % 256) == n
  {
  }

  lemma TwoBytes(n: nat)
    requires n < 0x1_0000
    ensures Value(LowByte(n)) + 256 * Value(LowByte(n / 256)) == n
  {
    Base256(n);
  }

  /** Every field can be read back from the header. */
  lemma HeaderForFields(link: Link, m: Message)
    requires link.Valid()
    ensures SeqOf(HeaderFor(link, m)) == m.seqNo && FlagsOf(HeaderFor(link, m)) == m.flags
    ensures m.Fits() ==>
      && CmdOf(HeaderFor(link, m)) == m.cmd
      && LengthOf(HeaderFor(link, m)) == LengthField(m)
      && BodySize(HeaderFor(link, m)) == |m.body|
  {
    var h, start := HeaderFor(link, m), HeaderStart(link, m);
    assert forall i | 0 <= i < 10 :: h[i] == h[..10][i];
    if m.Fits() {
      TwoBytes(m.cmd);
      TwoBytes(LengthField(m));
    }
  }

  /** The checksum that follows the body when flags are set. */
  function Trailer(m: Message, vef: seq<Byte>): seq<Byte> { if m.flags != 0 then vef else [] }

  /** A frame with these checksum bytes, right or wrong. */
  function FrameWith(link: Link, m: Message, vef: seq<Byte>): seq<Byte>
    requires link.Valid()
  {
    HeaderFor(link, m) + m.body + Trailer(m, vef)
  }

  /** What goes over the wire for one message. */
  function Frame(link: Link, m: Message): seq<Byte>
    requires link.Valid()
  {
    FrameWith(link, m, link.crc(m.body))
  }

  function Frames(link: Link, ms: seq<Message>): seq<Byte>
    requires link.Valid()
  {
    if ms == [] then [] else Frame(link, ms[0]) + Frames(link, ms[1..])
  }
}
