/** TCP segments on the wire (section 3.1 of RFC 793). */
module TcpCodec {
  import opened MachineIntegers
  import opened Options
  import opened TcpSegments
  import opened NetParsers
  import opened Checksum

  // ------------------------------------------------------------------ parsing

  lemma IntFits(p: Input, len: nat)
    ensures p.Int(len) < Pow256(len)
  {
    if len <= |p.buffer| {
      UnparseParse(p.buffer[..len]);
    }
  }

  function Read8(p: Input): byte { IntFits(p, 1); assert Pow256(1) == 0x100; p.Int(1) }

  function Read16(p: Input): u16 { IntFits(p, 2); assert Pow256(2) == 0x1_0000; p.Int(2) }

  function Read32(p: Input): u32 {
    IntFits(p, 4);
    assert Pow256(2) == 0x1_0000 && Pow256(4) == 0x1_0000_0000;
    p.Int(4)
  }

  /** Whether bit `2^k` of a byte is set, `bit` being that power. */
  predicate Bit(b: byte, bit: nat)
    requires 0 < bit
  {
    b / bit % 2 == 1
  }

  /** The header fields at the front of the input, and what is left after them. */
  function ParseHeader(p0: Input): (TcpHeader, Input, ParseResult) {
    var p1 := p0.Drop(2);
    var p2 := p1.Drop(2);
    var p3 := p2.Drop(4);
    var p4 := p3.Drop(4);
    var p5 := p4.Drop(1);
    var p6 := p5.Drop(1);
    var p7 := p6.Drop(2);
    var p8 := p7.Drop(2);
    var p9 := p8.Drop(2);
    var doff: byte, flags := Read8(p4) / 16, Read8(p5);
    var header := TcpHeader(Read16(p0), Read16(p1), Read32(p2), Read32(p3), doff,
                            Bit(flags, 32), Bit(flags, 16), Bit(flags, 8), Bit(flags, 4), Bit(flags, 2), Bit(flags, 1),
                            Read16(p6), Read16(p7), Read16(p8));
    if doff < 5 then (header, p9, HeaderTooShort)
    else
      var p10 := p9.Drop(doff * 4 - 20);
      (header, p10, p10.error)
  }

  /** The outcome of parsing a segment whose bytes and pseudo-header sum are given. */
  function ParseSegment(bytes: seq<byte>, pseudoSum: u32): (ParseResult, Option<TcpSegment>) {
    if Fold(U32(pseudoSum + WordSum(bytes, false))) != 0xFFFF then (BadChecksum, None)
    else
      var (header, rest, _) := ParseHeader(Input(bytes, NoError));
      (rest.error, Some(TcpSegment(header, rest.buffer)))
  }

  // ------------------------------------------------------------------ serializing

  function Flags(h: TcpHeader): byte {
    (if h.urg then 32 else 0) + (if h.ack then 16 else 0) + (if h.psh then 8 else 0)
    + (if h.rst then 4 else 0) + (if h.syn then 2 else 0) + (if h.fin then 1 else 0)
  }

  function Zeros(n: nat): seq<byte> { seq(n, _ => 0) }

  /** The twenty bytes every header has, in front of `tail`. */
  function Fixed(h: TcpHeader, tail: seq<byte>): seq<byte> {
    Unparse(h.sport, 2) + (Unparse(h.dport, 2) + (Unparse(h.seqno, 4) + (Unparse(h.ackno, 4)
    + ([(h.doff * 16) % 256, Flags(h)] + (Unparse(h.win, 2)
    + (Unparse(h.cksum, 2) + (Unparse(h.uptr, 2) + tail)))))))
  }

  /** The header, padded to its advertised size, in front of `tail`. */
  function Layout(h: TcpHeader, tail: seq<byte>): seq<byte>
    requires 5 <= h.doff
  {
    Fixed(h, Zeros(4 * h.doff - 20) + tail)
  }

  /** The checksum field that makes the fixed bytes and what follows them check out. */
  function Complement(h: TcpHeader, tail: seq<byte>, pseudoSum: u32): u16 {
    0xFFFF - Fold(U32(pseudoSum + WordSum(Fixed(h.(cksum := 0), tail), false)))
  }

  function ChecksumOf(h: TcpHeader, payload: seq<byte>, pseudoSum: u32): u16
    requires 5 <= h.doff
  {
    Complement(h, Zeros(4 * h.doff - 20) + payload, pseudoSum)
  }

  /** The segment on the wire; too small a data offset cannot be serialized. */
  function SerializeSegment(seg: TcpSegment, pseudoSum: u32): Option<seq<byte>> {
    if seg.header.doff < 5 then None
    else Some(Layout(seg.header.(cksum := ChecksumOf(seg.header, seg.payload, pseudoSum)), seg.payload))
  }

  // ------------------------------------------------------------------ the round trip

  lemma TakeFront(v: nat, len: nat, rest: seq<byte>)
    requires v < Pow256(len)
    ensures var p := Input(Unparse(v, len) + rest, NoError);
            p.Int(len) == v && p.Drop(len) == Input(rest, NoError)
  {
  }

  lemma TakeByte(b: byte, rest: seq<byte>)
    ensures var p := Input([b] + rest, NoError);
            p.Int(1) == b && p.Drop(1) == Input(rest, NoError)
  {
    assert Unparse(b, 1) == [b] by { assert Unparse(b / 256, 0) == []; }
    assert Pow256(1) == 0x100;
    TakeFront(b, 1, rest);
  }

  lemma TakeZeros(n: nat, rest: seq<byte>)
    ensures Input(Zeros(n) + rest, NoError).Drop(n) == Input(rest, NoError)
  {
  }

  lemma FlagsRoundTrip(h: TcpHeader)
    ensures var f := Flags(h);
            && Bit(f, 32) == h.urg && Bit(f, 16) == h.ack && Bit(f, 8) == h.psh
            && Bit(f, 4) == h.rst && Bit(f, 2) == h.syn && Bit(f, 1) == h.fin
  {
  }

  /** The fixed fields come back from any input that starts with them; only a data offset of
      at least five makes the parser skip what follows. */
  lemma FixedRoundTrip(h: TcpHeader, tail: seq<byte>)
    requires h.doff <= 15
    ensures ParseHeader(Input(Fixed(h, tail), NoError)) ==
            if h.doff < 5 then (h, Input(tail, NoError), HeaderTooShort)
            else var p := Input(tail, NoError).Drop(h.doff * 4 - 20); (h, p, p.error)
  {
    hide Unparse, BigEndian, Pow256, Zeros, Flags, Bit, Input.Drop, Input.Int;
    Powers();
    var t8 := Unparse(h.uptr, 2) + tail;
    var t7 := Unparse(h.cksum, 2) + t8;
    var t6 := Unparse(h.win, 2) + t7;
    var t5 := [Flags(h)] + t6;
    var t4 := [(h.doff * 16) % 256] + t5;
    var t3 := Unparse(h.ackno, 4) + t4;
    var t2 := Unparse(h.seqno, 4) + t3;
    var t1 := Unparse(h.dport, 2) + t2;
    assert t4 == [(h.doff * 16) % 256, Flags(h)] + t6;
    TakeFront(h.sport, 2, t1);
    TakeFront(h.dport, 2, t2);
    TakeFront(h.seqno, 4, t3);
    TakeFront(h.ackno, 4, t4);
    TakeByte((h.doff * 16) % 256, t5);
    assert (h.doff * 16) % 256 / 16 == h.doff;
    TakeByte(Flags(h), t6);
    TakeFront(h.win, 2, t7);
    TakeFront(h.cksum, 2, t8);
    TakeFront(h.uptr, 2, tail);
    FlagsRoundTrip(h);
  }

  lemma HeaderRoundTrip(h: TcpHeader, tail: seq<byte>)
    requires 5 <= h.doff <= 15
    ensures ParseHeader(Input(Layout(h, tail), NoError)) == (h, Input(tail, NoError), NoError)
  {
    hide Fixed, ParseHeader, Zeros;
    FixedRoundTrip(h, Zeros(4 * h.doff - 20) + tail);
    TakeZeros(4 * h.doff - 20, tail);
  }

  lemma Powers()
    ensures Pow256(1) == 0x100 && Pow256(2) == 0x1_0000 && Pow256(4) == 0x1_0000_0000
  {
  }

  lemma EvenSum(a: seq<byte>, b: seq<byte>)
    requires |a| % 2 == 0
    ensures WordSum(a + b, false) == WordSum(a, false) + WordSum(b, false)
  {
    WordSumConcat(a, b, false);
  }

  lemma WordValue(v: u16)
    ensures WordSum(Unparse(v, 2), false) == v
  {
    var bytes := Unparse(v, 2);
    assert Unparse(v / 256, 1) == Unparse(v / 256 / 256, 0) + [v / 256 % 256];
    assert bytes == [v / 256, v % 256];
    assert bytes[1..] == [v % 256] && bytes[1..][1..] == [];
    assert WordSum(bytes[1..], true) == v % 256 + WordSum([], false);
  }

  /** The checksum field counts as one word of the sum. */
  lemma ChecksumIsOneWord(h: TcpHeader, c: u16, tail: seq<byte>)
    ensures WordSum(Fixed(h.(cksum := c), tail), false) == WordSum(Fixed(h.(cksum := 0), tail), false) + c
  {
    hide Unparse, WordSum;
    WordValue(0);
    WordValue(c);
    var t8 := Unparse(h.uptr, 2) + tail;
    EvenSum(Unparse(c, 2), t8);
    EvenSum(Unparse(0, 2), t8);
    WordAfter(h, Unparse(c, 2) + t8);
    WordAfter(h, Unparse(0, 2) + t8);
  }

  /** The fields before the checksum contribute the same whatever follows. */
  lemma WordAfter(h: TcpHeader, rest: seq<byte>)
    ensures WordSum(Unparse(h.sport, 2) + (Unparse(h.dport, 2) + (Unparse(h.seqno, 4) + (Unparse(h.ackno, 4)
                    + ([(h.doff * 16) % 256, Flags(h)] + (Unparse(h.win, 2) + rest))))), false)
            == WordSum(Unparse(h.sport, 2), false) + WordSum(Unparse(h.dport, 2), false)
               + WordSum(Unparse(h.seqno, 4), false) + WordSum(Unparse(h.ackno, 4), false)
               + WordSum([(h.doff * 16) % 256, Flags(h)], false) + WordSum(Unparse(h.win, 2), false)
               + WordSum(rest, false)
  {
    hide Unparse, WordSum, Flags;
    var t6 := Unparse(h.win, 2) + rest;
    var t4 := [(h.doff * 16) % 256, Flags(h)] + t6;
    var t3 := Unparse(h.ackno, 4) + t4;
    var t2 := Unparse(h.seqno, 4) + t3;
    var t1 := Unparse(h.dport, 2) + t2;
    EvenSum(Unparse(h.win, 2), rest);
    EvenSum([(h.doff * 16) % 256, Flags(h)], t6);
    EvenSum(Unparse(h.ackno, 4), t4);
    EvenSum(Unparse(h.seqno, 4), t3);
    EvenSum(Unparse(h.dport, 2), t2);
    EvenSum(Unparse(h.sport, 2), t1);
  }

  /** With the computed checksum filled in, any header and whatever follows it check out. */
  lemma ChecksOut(h: TcpHeader, tail: seq<byte>, pseudoSum: u32)
    ensures var h' := h.(cksum := Complement(h, tail, pseudoSum));
            Fold(U32(pseudoSum + WordSum(Fixed(h', tail), false))) == 0xFFFF
  {
    hide Fixed, WordSum, Fold, U32;
    var sum := pseudoSum + WordSum(Fixed(h.(cksum := 0), tail), false);
    var c := Complement(h, tail, pseudoSum);
    ChecksumIsOneWord(h, c, tail);
    ComplementFolds(U32(sum));
    ComplementFits(U32(sum));
    U32Absorbs(sum, c);
    U32Same(U32(sum) + c);
  }

  /** Every segment with a legal data offset survives the trip, but for the checksum field:
      whatever its length and the pseudo-header sum. */
  lemma SegmentRoundTrip(seg: TcpSegment, pseudoSum: u32)
    requires 5 <= seg.header.doff <= 15
    ensures var h := seg.header.(cksum := ChecksumOf(seg.header, seg.payload, pseudoSum));
            var wire := SerializeSegment(seg, pseudoSum);
            wire.Some? && ParseSegment(wire.value, pseudoSum) == (NoError, Some(seg.(header := h)))
  {
    hide Fixed, WordSum, Fold, ParseHeader, Complement, Zeros;
    ChecksOut(seg.header, Zeros(4 * seg.header.doff - 20) + seg.payload, pseudoSum);
    HeaderRoundTrip(seg.header.(cksum := ChecksumOf(seg.header, seg.payload, pseudoSum)), seg.payload);
  }

  /** Bytes with a data offset below five and a good checksum exist for every header and
      payload; they are accepted, though the header parser rejects them, and what they parse
      to cannot be serialized. */
  lemma ShortOffsetAccepted(h: TcpHeader, payload: seq<byte>, pseudoSum: u32)
    requires h.doff < 5
    ensures var h' := h.(cksum := Complement(h, payload, pseudoSum));
            var bytes, seg := Fixed(h', payload), TcpSegment(h', payload);
            && ParseHeader(Input(bytes, NoError)).2 == HeaderTooShort
            && ParseSegment(bytes, pseudoSum) == (NoError, Some(seg))
            && SerializeSegment(seg, pseudoSum) == None
  {
    hide Fixed, WordSum, Fold, ParseHeader, Complement, U32;
    ChecksOut(h, payload, pseudoSum);
    FixedRoundTrip(h.(cksum := Complement(h, payload, pseudoSum)), payload);
  }

  /** The data offset has four bits on the wire. */
  lemma OffsetOnWire(h: TcpHeader, tail: seq<byte>)
    requires 5 <= h.doff
    ensures var wire := Layout(h, tail);
            |wire| == 4 * h.doff + |tail| && wire[12] == (h.doff * 16) % 256
  {
  }

  lemma ZerosSize(n: nat)
    ensures |Zeros(n)| == n
  {
  }

  /** No other segment survives it: a data offset below five is not serialized, and one
      above fifteen loses its upper bits. */
  lemma RoundTripExactly(seg: TcpSegment, pseudoSum: u32)
    ensures var wire := SerializeSegment(seg, pseudoSum);
            5 <= seg.header.doff <= 15 <==>
            wire.Some? && var (result, parsed) := ParseSegment(wire.value, pseudoSum);
                          && result == NoError && parsed.Some? && parsed.value.payload == seg.payload
                          && parsed.value.header.(cksum := seg.header.cksum) == seg.header
  {
    hide Layout, WordSum, Fold, ParseHeader, ChecksumOf, U32;
    if 5 <= seg.header.doff <= 15 {
      SegmentRoundTrip(seg, pseudoSum);
    } else if 15 < seg.header.doff {
      var wire := SerializeSegment(seg, pseudoSum).value;
      OffsetOnWire(seg.header.(cksum := ChecksumOf(seg.header, seg.payload, pseudoSum)), seg.payload);
      FixedFields(wire);
    }
  }

  // ------------------------------------------------------------------ what is accepted

  /** The outcome of parsing, for every input: a bad checksum is always found, a data offset
      beyond the end too, but one below the minimum is not, and then all after the
      fixed fields counts as payload. */
  lemma ParseOutcome(bytes: seq<byte>, pseudoSum: u32)
    ensures var (result, seg) := ParseSegment(bytes, pseudoSum);
            var doff := if |bytes| > 12 then bytes[12] / 16 else 0;
            if Fold(U32(pseudoSum + WordSum(bytes, false))) != 0xFFFF then result == BadChecksum
            else if |bytes| < 20 || |bytes| < 4 * doff then result == PacketTooShort
            else result == NoError && seg.Some? && seg.value.payload == bytes[if doff < 5 then 20 else 4 * doff..]
  {
    hide WordSum, Fold, U32;
    if |bytes| >= 20 {
      FixedFields(bytes);
    } else {
      TooShort(bytes);
    }
  }

  /** The number in the `len` bytes from index `at`. */
  function Field(bytes: seq<byte>, at: nat, len: nat): nat
    requires at + len <= |bytes|
  {
    BigEndian(bytes[at..at + len])
  }

  predicate HasFlags(h: TcpHeader, b: byte) {
    && h.urg == Bit(b, 32) && h.ack == Bit(b, 16) && h.psh == Bit(b, 8)
    && h.rst == Bit(b, 4) && h.syn == Bit(b, 2) && h.fin == Bit(b, 1)
  }

  lemma FixedFields(bytes: seq<byte>)
    requires |bytes| >= 20
    ensures var (h, rest, _) := ParseHeader(Input(bytes, NoError));
            && h.sport == Field(bytes, 0, 2) && h.dport == Field(bytes, 2, 2)
            && h.seqno == Field(bytes, 4, 4) && h.ackno == Field(bytes, 8, 4)
            && h.doff == bytes[12] / 16 && HasFlags(h, bytes[13])
            && h.win == Field(bytes, 14, 2) && h.cksum == Field(bytes, 16, 2) && h.uptr == Field(bytes, 18, 2)
            && rest == (if bytes[12] / 16 < 5 then Input(bytes[20..], NoError)
                        else Input(bytes[20..], NoError).Drop(4 * (bytes[12] / 16) - 20))
  {
    hide Bit, BigEndian, Field, Input.Drop, Input.Int;
    TakesField(bytes, 0, 2);
    TakesField(bytes, 2, 2);
    TakesField(bytes, 4, 4);
    TakesField(bytes, 8, 4);
    TakesField(bytes, 12, 1);
    TakesField(bytes, 13, 1);
    TakesField(bytes, 14, 2);
    TakesField(bytes, 16, 2);
    TakesField(bytes, 18, 2);
    assert bytes[0..] == bytes;
    OneByte(bytes, 12);
    OneByte(bytes, 13);
  }

  lemma OneByte(bytes: seq<byte>, at: nat)
    requires at < |bytes|
    ensures Field(bytes, at, 1) == bytes[at]
  {
    assert bytes[at..at + 1] == [bytes[at]] && [bytes[at]][..0] == [];
    assert BigEndian([bytes[at]]) == 256 * BigEndian([]) + bytes[at];
  }

  lemma TakesField(bytes: seq<byte>, at: nat, n: nat)
    requires at + n <= |bytes|
    ensures Input(bytes[at..], NoError).Int(n) == Field(bytes, at, n)
    ensures Input(bytes[at..], NoError).Drop(n) == Input(bytes[at + n..], NoError)
  {
    assert bytes[at..][..n] == bytes[at..at + n];
  }

  lemma TooShort(bytes: seq<byte>)
    requires |bytes| < 20
    ensures ParseHeader(Input(bytes, NoError)).1.error == PacketTooShort
  {
    hide Bit, BigEndian;
  }

  // ------------------------------------------------------------------ the other way round

  /** Reserved and option bits are zero, and the checksum field is the one a sender computes:
      no carry out of the 32-bit sum, and all ones only where everything else is zero. */
  ghost predicate Canonical(bytes: seq<byte>, pseudoSum: u32) {
    && |bytes| >= 20 && 5 <= bytes[12] / 16 && bytes[12] % 16 == 0 && bytes[13] < 64
    && (forall i :: 20 <= i < 4 * (bytes[12] / 16) && i < |bytes| ==> bytes[i] == 0)
    && var cksum := Field(bytes, 16, 2);
       var others := U32(pseudoSum + WordSum(bytes, false) - cksum);
       others + cksum < 0x1_0000_0000 && (cksum == 0xFFFF ==> others == 0)
  }

  lemma Halves(b: nat)
    ensures b == 2 * (b / 2) + b % 2 && b / 2 / 2 == b / 4 && b / 4 / 2 == b / 8
  {
  }

  lemma ThreeBits(b: nat)
    ensures b == 8 * (b / 8) + 4 * (b / 4 % 2) + 2 * (b / 2 % 2) + b % 2
  {
    Halves(b);
    assert b / 2 == 2 * (b / 4) + b / 2 % 2 by { Halves(b / 2); }
    assert b / 4 == 2 * (b / 8) + b / 4 % 2 by { Halves(b / 4); }
  }

  lemma Eighths(b: nat)
    ensures b / 8 / 2 == b / 16 && b / 8 / 4 == b / 32 && b / 8 / 8 == b / 64
  {
  }

  lemma BitsOfByte(b: nat)
    requires b < 64
    ensures b == 32 * (b / 32 % 2) + 16 * (b / 16 % 2) + 8 * (b / 8 % 2) + 4 * (b / 4 % 2) + 2 * (b / 2 % 2) + b % 2
  {
    ThreeBits(b);
    ThreeBits(b / 8);
    Eighths(b);
  }

  lemma BitValue(b: byte, bit: nat)
    requires 0 < bit
    ensures b / bit % 2 == if Bit(b, bit) then 1 else 0
  {
  }

  /** A flag byte without reserved bits is the one its flags make up. */
  lemma FlagsBack(h: TcpHeader, b: byte)
    requires b < 64 && HasFlags(h, b)
    ensures Flags(h) == b
  {
    hide Bit;
    BitValue(b, 32);
    BitValue(b, 16);
    BitValue(b, 8);
    BitValue(b, 4);
    BitValue(b, 2);
    BitValue(b, 1);
    BitsOfByte(b);
  }

  /** Without reserved bits, the fixed fields unparse to the bytes they were parsed from. */
  lemma FixedBack(bytes: seq<byte>)
    requires |bytes| >= 20 && bytes[12] % 16 == 0 && bytes[13] < 64
    ensures Fixed(ParseHeader(Input(bytes, NoError)).0, bytes[20..]) == bytes
  {
    hide HasFlags, ParseHeader, Flags, Unparse, BigEndian, Field, Fixed;
    var h := ParseHeader(Input(bytes, NoError)).0;
    FixedFields(bytes);
    FlagsBack(h, bytes[13]);
    OffsetBack(bytes[12]);
    FieldBack(bytes, 18, 2);
    FieldBack(bytes, 16, 2);
    FieldBack(bytes, 14, 2);
    PairBack(bytes, 12);
    FieldBack(bytes, 8, 4);
    FieldBack(bytes, 4, 4);
    FieldBack(bytes, 2, 2);
    FieldBack(bytes, 0, 2);
    FixedIs(h, bytes[20..], bytes[18..], bytes[16..], bytes[14..], bytes[12..], bytes[8..], bytes[4..], bytes[2..], bytes);
  }

  /** The layout of the fixed fields, one suffix at a time. */
  lemma FixedIs(h: TcpHeader, t20: seq<byte>, t18: seq<byte>, t16: seq<byte>, t14: seq<byte>, t12: seq<byte>,
                t8: seq<byte>, t4: seq<byte>, t2: seq<byte>, t0: seq<byte>)
    requires Unparse(h.uptr, 2) + t20 == t18 && Unparse(h.cksum, 2) + t18 == t16 && Unparse(h.win, 2) + t16 == t14
    requires [(h.doff * 16) % 256, Flags(h)] + t14 == t12 && Unparse(h.ackno, 4) + t12 == t8
    requires Unparse(h.seqno, 4) + t8 == t4 && Unparse(h.dport, 2) + t4 == t2 && Unparse(h.sport, 2) + t2 == t0
    ensures Fixed(h, t20) == t0
  {
    hide Unparse, Flags;
  }

  lemma PairBack(bytes: seq<byte>, at: nat)
    requires at + 2 <= |bytes|
    ensures [bytes[at], bytes[at + 1]] + bytes[at + 2..] == bytes[at..] && bytes[0..] == bytes
  {
  }

  lemma OffsetBack(b: byte)
    requires b % 16 == 0
    ensures (b / 16 * 16) % 256 == b
  {
  }

  lemma FieldBack(bytes: seq<byte>, at: nat, len: nat)
    requires at + len <= |bytes|
    ensures Unparse(Field(bytes, at, len), len) + bytes[at + len..] == bytes[at..]
  {
    hide Unparse, BigEndian;
    UnparseParse(bytes[at..at + len]);
  }

  /** The padded header and its payload are the bytes they were parsed from. */
  lemma LayoutBack(bytes: seq<byte>, h: TcpHeader)
    requires |bytes| >= 20 && bytes[12] % 16 == 0 && bytes[13] < 64
    requires h == ParseHeader(Input(bytes, NoError)).0 && 5 <= h.doff && 4 * h.doff <= |bytes|
    requires forall i :: 20 <= i < 4 * h.doff ==> bytes[i] == 0
    ensures Layout(h, bytes[4 * h.doff..]) == bytes
  {
    hide Fixed, ParseHeader;
    FixedBack(bytes);
    assert Zeros(4 * h.doff - 20) + bytes[4 * h.doff..] == bytes[20..];
  }

  /** The computed checksum is the one in the bytes exactly if that one is canonical. */
  lemma ChecksumBack(h: TcpHeader, tail: seq<byte>, pseudoSum: u32)
    requires Fold(U32(pseudoSum + WordSum(Fixed(h, tail), false))) == 0xFFFF
    ensures var others := U32(pseudoSum + WordSum(Fixed(h, tail), false) - h.cksum);
            Complement(h, tail, pseudoSum) == h.cksum <==>
            others + h.cksum < 0x1_0000_0000 && (h.cksum == 0xFFFF ==> others == 0)
  {
    hide Fixed, WordSum, Fold, U32;
    var sum := pseudoSum + WordSum(Fixed(h.(cksum := 0), tail), false);
    ChecksumIsOneWord(h, h.cksum, tail);
    assert h.(cksum := h.cksum) == h;
    U32Absorbs(sum, h.cksum);
    ComplementIsCanonical(U32(sum), h.cksum);
  }

  /** The bytes of a serialized header. */
  lemma LayoutBytes(h: TcpHeader, tail: seq<byte>)
    requires 5 <= h.doff <= 15
    ensures var bytes := Layout(h, tail);
            && |bytes| >= 4 * h.doff && bytes[12] == 16 * h.doff && bytes[13] == Flags(h) < 64
            && forall i :: 20 <= i < 4 * h.doff ==> bytes[i] == 0
  {
    hide Unparse;
  }

  /** Accepted bytes are serialized back to themselves if and only if they are canonical. */
  lemma SerializesBackExactly(bytes: seq<byte>, pseudoSum: u32)
    requires ParseSegment(bytes, pseudoSum).0 == NoError
    ensures SerializeSegment(ParseSegment(bytes, pseudoSum).1.value, pseudoSum) == Some(bytes) <==>
            Canonical(bytes, pseudoSum)
  {
    hide Layout, Fixed, WordSum, Fold, ParseHeader, Complement, U32, Field, HasFlags, Zeros, Flags;
    ParseOutcome(bytes, pseudoSum);
    FixedFields(bytes);
    var seg := ParseSegment(bytes, pseudoSum).1.value;
    var h := seg.header;
    if Canonical(bytes, pseudoSum) {
      LayoutBack(bytes, h);
      LayoutIsFixed(h, seg.payload);
      ChecksumBack(h, Zeros(4 * h.doff - 20) + seg.payload, pseudoSum);
      assert h.(cksum := h.cksum) == h;
    } else if SerializeSegment(seg, pseudoSum) == Some(bytes) {
      SegmentRoundTrip(seg, pseudoSum);
      LayoutBytes(h, seg.payload);
      LayoutIsFixed(h, seg.payload);
      ChecksumBack(h, Zeros(4 * h.doff - 20) + seg.payload, pseudoSum);
    }
  }

  lemma LayoutIsFixed(h: TcpHeader, tail: seq<byte>)
    requires 5 <= h.doff
    ensures Layout(h, tail) == Fixed(h, Zeros(4 * h.doff - 20) + tail)
  {
  }

  // ------------------------------------------------------------------ the program

  /** Fills a header from the parser. */
  method ReadHeader(p: NetParser) returns (header: TcpHeader, result: ParseResult)
    modifies p
    ensures (header, p.View(), result) == ParseHeader(old(p.View()))
  {
    hide BigEndian, Bit, Input.Int, Input.Drop;
    Powers();
    var sport := p.ParseInt(2);
    var dport := p.ParseInt(2);
    var seqno := p.ParseInt(4);
    var ackno := p.ParseInt(4);
    var offset := p.ParseInt(1);
    var doff: byte := offset / 16;
    var flags: byte := p.ParseInt(1);
    var win := p.ParseInt(2);
    var cksum := p.ParseInt(2);
    var uptr := p.ParseInt(2);
    header := TcpHeader(sport, dport, seqno, ackno, doff,
                        Bit(flags, 32), Bit(flags, 16), Bit(flags, 8), Bit(flags, 4), Bit(flags, 2), Bit(flags, 1),
                        win, cksum, uptr);
    if doff < 5 {
      return header, HeaderTooShort;
    }
    p.RemovePrefix(doff * 4 - 20);
    result := p.error;
  }

  /** Writes a header field by field and pads it; a data offset below five is an error. */
  method WriteHeader(h: TcpHeader) returns (bytes: Option<seq<byte>>)
    ensures bytes == if h.doff < 5 then None else Some(Layout(h, []))
  {
    if h.doff < 5 {
      return None;
    }
    hide Unparse, Zeros;
    ghost var t9 := Zeros(4 * h.doff - 20) + [];
    ghost var t8 := Unparse(h.uptr, 2) + t9;
    ghost var t7 := Unparse(h.cksum, 2) + t8;
    ghost var t6 := Unparse(h.win, 2) + t7;
    ghost var t5 := [Flags(h)] + t6;
    ghost var t4 := [(h.doff * 16) % 256] + t5;
    ghost var t3 := Unparse(h.ackno, 4) + t4;
    ghost var t2 := Unparse(h.seqno, 4) + t3;
    ghost var t1 := Unparse(h.dport, 2) + t2;
    assert t4 == [(h.doff * 16) % 256, Flags(h)] + t6;
    ghost var whole := Unparse(h.sport, 2) + t1;
    assert Layout(h, []) == whole;
    hide Layout, Flags;
    var ret := UnparseInt([], h.sport, 2);
    assert ret + t1 == whole by { Reassociate([], Unparse(h.sport, 2), t1); }
    ret := Append(ret, h.dport, 2, t1, t2, whole);
    ret := Append(ret, h.seqno, 4, t2, t3, whole);
    ret := Append(ret, h.ackno, 4, t3, t4, whole);
    Reassociate(ret, [(h.doff * 16) % 256], t5);
    ret := ret + [(h.doff * 16) % 256];
    Reassociate(ret, [Flags(h)], t6);
    ret := ret + [Flags(h)];
    ret := Append(ret, h.win, 2, t6, t7, whole);
    ret := Append(ret, h.cksum, 2, t7, t8, whole);
    ret := Append(ret, h.uptr, 2, t8, t9, whole);
    Reassociate(Zeros(4 * h.doff - 20), [], []);
    ret := ret + Zeros(4 * h.doff - 20);
    bytes := Some(ret);
  }

  /** Writes the next field, given what is to follow it. */
  method Append(s: seq<byte>, val: nat, len: nat, ghost before: seq<byte>, ghost after: seq<byte>, ghost whole: seq<byte>)
    returns (s': seq<byte>)
    requires before == Unparse(val, len) + after && s + before == whole
    ensures s' == s + Unparse(val, len) && s' + after == whole
  {
    hide Unparse;
    s' := UnparseInt(s, val, len);
    Reassociate(s, Unparse(val, len), after);
  }

  lemma Reassociate(a: seq<byte>, b: seq<byte>, c: seq<byte>)
    ensures a + (b + c) == (a + b) + c && [] + a == a && a + [] == a
  {
  }

  lemma LayoutAppends(h: TcpHeader, tail: seq<byte>)
    requires 5 <= h.doff
    ensures Layout(h, []) + tail == Layout(h, tail)
    ensures |Layout(h, [])| % 2 == 0
  {
    hide Unparse, Zeros;
    ZerosSize(4 * h.doff - 20);
  }

  class TCPSegment {
    var header: TcpHeader
    var payload: seq<byte>

    ghost function View(): TcpSegment
      reads this
    {
      TcpSegment(header, payload)
    }

    constructor ()
      ensures View() == TcpSegment(BLANK_HEADER, [])
    {
      header, payload := BLANK_HEADER, [];
    }

    /** The header parser's own verdict is not looked at. */
    method Parse(buffer: seq<byte>, pseudoSum: u32) returns (result: ParseResult)
      modifies this
      ensures var (res, seg) := ParseSegment(buffer, pseudoSum);
              result == res && View() == if seg.Some? then seg.value else old(View())
    {
      hide WordSum, ParseHeader, U32;
      var check := new InternetChecksum(pseudoSum);
      check.Add(buffer);
      var value := check.Value();
      if value != 0 {
        return BadChecksum;
      }
      var p := new NetParser(buffer);
      var parsed, _ := ReadHeader(p);
      header := parsed;
      payload := p.buffer;
      result := p.error;
    }

    method Serialize(pseudoSum: u32) returns (wire: Option<seq<byte>>)
      ensures wire == SerializeSegment(View(), pseudoSum)
    {
      hide WordSum, Fixed, Zeros, Fold, U32;
      var headerOut := header.(cksum := 0);
      var check := new InternetChecksum(pseudoSum);
      var bytes := WriteHeader(headerOut);
      if bytes.None? {
        return None;
      }
      check.Add(bytes.value);
      check.Add(payload);
      LayoutAppends(headerOut, payload);
      EvenSum(bytes.value, payload);
      U32Absorbs(pseudoSum + WordSum(bytes.value, false), WordSum(payload, false));
      var cksum := check.Value();
      headerOut := headerOut.(cksum := cksum);
      bytes := WriteHeader(headerOut);
      LayoutAppends(headerOut, payload);
      wire := Some(bytes.value + payload);
    }
  }
}
