/** TCP headers and segments on the wire (section 3.1 of RFC 793). */
module TcpWire {
  import opened ByteStreams
  import opened WrappingIntegers
  import opened TcpSegments
  import opened Checksums
  import opened Parsers

  const LENGTH: nat := 20

  function FlagByte(h: TcpHeader): (b: Byte) {
    32 * One(h.urg) + 16 * One(h.ack) + 8 * One(h.psh) + 4 * One(h.rst) + 2 * One(h.syn) + One(h.fin)
  }

  function WithFlags(h: TcpHeader, b: Byte): (r: TcpHeader) {
    h.(urg := HasBit(b, 32), ack := HasBit(b, 16), psh := HasBit(b, 8), rst := HasBit(b, 4), syn := HasBit(b, 2),
       fin := HasBit(b, 1))
  }

  lemma FlagsRoundTrip(h: TcpHeader, k: TcpHeader)
    ensures WithFlags(k, FlagByte(h)) == k.(urg := h.urg, ack := h.ack, psh := h.psh, rst := h.rst, syn := h.syn, fin := h.fin)
  {
  }

  /** The header up to the checksum field. */
  function Front(h: TcpHeader): (bytes: seq<Byte>)
    ensures |bytes| == 16
  {
    Bytes(h.sport, 2) + Bytes(h.dport, 2) + Bytes(h.seqno, 4) + Bytes(h.ackno, 4)
    + Bytes(h.doff * 16, 1) + Bytes(FlagByte(h), 1) + Bytes(h.win, 2)
  }

  /** The header, padded to the length it announces. */
  function HeaderBytes(h: TcpHeader): (bytes: seq<Byte>)
    requires h.doff >= 5
    ensures |bytes| == 4 * h.doff
  {
    Front(h) + Bytes(h.cksum, 2) + Bytes(h.uptr, 2) + Zeros(4 * h.doff - LENGTH)
  }

  function SerializeHeader(h: TcpHeader): (r: Outcome<seq<Byte>>) {
    if h.doff < 5 then Throws else Done(HeaderBytes(h))
  }

  /** The header, what the parser of headers returns, and the rest. */
  function ParseHeader(p0: Parser): (r: (TcpHeader, ParseResult, Parser)) {
    var (sport, p1) := p0.U16();
    var (dport, p2) := p1.U16();
    var (seqno, p3) := p2.U32();
    var (ackno, p4) := p3.U32();
    var (first, p5) := p4.U8();
    var (flags, p6) := p5.U8();
    var (win, p7) := p6.U16();
    var (cksum, p8) := p7.U16();
    var (uptr, p9) := p8.U16();
    var doff: Byte := first / 16;
    var h := WithFlags(DEFAULT_HEADER.(sport := sport, dport := dport, seqno := seqno, ackno := ackno, doff := doff,
                                       win := win, cksum := cksum, uptr := uptr), flags);
    if doff < 5 then (h, HeaderTooShort, p9)
    else
      var p := p9.RemovePrefix(doff * 4 - LENGTH);
      (h, p.error, p)
  }

  /** The bytes of a header, one field after the other. */
  function Image(h: TcpHeader, rest: seq<Byte>): (bytes: seq<Byte>)
    requires h.doff >= 5
  {
    Bytes(h.sport, 2) + (Bytes(h.dport, 2) + (Bytes(h.seqno, 4) + (Bytes(h.ackno, 4)
    + (Bytes(h.doff * 16, 1) + (Bytes(FlagByte(h), 1) + (Bytes(h.win, 2)
    + (Bytes(h.cksum, 2) + (Bytes(h.uptr, 2) + (Zeros(4 * h.doff - LENGTH) + rest)))))))))
  }

  lemma HeaderImage(h: TcpHeader, rest: seq<Byte>)
    requires h.doff >= 5
    ensures HeaderBytes(h) + rest == Image(h, rest)
  {
    hide Bytes, Zeros, FlagByte;
    var s2 := Bytes(h.sport, 2) + Bytes(h.dport, 2);
    var s3 := s2 + Bytes(h.seqno, 4);
    var s4 := s3 + Bytes(h.ackno, 4);
    var s5 := s4 + Bytes(h.doff * 16, 1);
    var s6 := s5 + Bytes(FlagByte(h), 1);
    var s7 := s6 + Bytes(h.win, 2);
    var s8 := s7 + Bytes(h.cksum, 2);
    var s9 := s8 + Bytes(h.uptr, 2);
    var r9 := Zeros(4 * h.doff - LENGTH) + rest;
    var r8 := Bytes(h.uptr, 2) + r9;
    var r7 := Bytes(h.cksum, 2) + r8;
    var r6 := Bytes(h.win, 2) + r7;
    var r5 := Bytes(FlagByte(h), 1) + r6;
    var r4 := Bytes(h.doff * 16, 1) + r5;
    var r3 := Bytes(h.ackno, 4) + r4;
    var r2 := Bytes(h.seqno, 4) + r3;
    JoinThree(s9, Zeros(4 * h.doff - LENGTH), rest);
    JoinThree(s8, Bytes(h.uptr, 2), r9);
    JoinThree(s7, Bytes(h.cksum, 2), r8);
    JoinThree(s6, Bytes(h.win, 2), r7);
    JoinThree(s5, Bytes(FlagByte(h), 1), r6);
    JoinThree(s4, Bytes(h.doff * 16, 1), r5);
    JoinThree(s3, Bytes(h.ackno, 4), r4);
    JoinThree(s2, Bytes(h.seqno, 4), r3);
    JoinThree(Bytes(h.sport, 2), Bytes(h.dport, 2), r2);
  }

  /** Parsing a serialized header gives the header back and leaves what follows. */
  lemma HeaderRoundTrip(h: TcpHeader, rest: seq<Byte>)
    requires 5 <= h.doff <= 15
    ensures ParseHeader(Parser(HeaderBytes(h) + rest, NoError)) == (h, NoError, Parser(rest, NoError))
  {
    hide Bytes, Zeros, Parser.U8, Parser.U16, Parser.U32, Parser.RemovePrefix, FlagByte, HasBit, HeaderBytes, WithFlags;
    HeaderImage(h, rest);
    var r9 := Zeros(4 * h.doff - LENGTH) + rest;
    var r8 := Bytes(h.uptr, 2) + r9;
    var r7 := Bytes(h.cksum, 2) + r8;
    var r6 := Bytes(h.win, 2) + r7;
    var r5 := Bytes(FlagByte(h), 1) + r6;
    var r4 := Bytes(h.doff * 16, 1) + r5;
    var r3 := Bytes(h.ackno, 4) + r4;
    var r2 := Bytes(h.seqno, 4) + r3;
    var r1 := Bytes(h.dport, 2) + r2;
    U16RoundTrip(h.sport, r1);
    U16RoundTrip(h.dport, r2);
    U32RoundTrip(h.seqno, r3);
    U32RoundTrip(h.ackno, r4);
    U8RoundTrip(h.doff * 16, r5);
    U8RoundTrip(FlagByte(h), r6);
    U16RoundTrip(h.win, r7);
    U16RoundTrip(h.cksum, r8);
    U16RoundTrip(h.uptr, r9);
    ZerosSkipped(4 * h.doff - LENGTH, rest);
    FlagsRoundTrip(h, DEFAULT_HEADER.(sport := h.sport, dport := h.dport, seqno := h.seqno, ackno := h.ackno,
                                      doff := h.doff, win := h.win, cksum := h.cksum, uptr := h.uptr));
  }

  // ---------- segments ----------

  /** The checksum over a segment, starting from that of the layer below. */
  function SumOf(h: TcpHeader, payload: seq<Byte>, pseudo: U32): (c: Checksum)
    requires h.doff >= 5
  {
    Checksum(pseudo, false).Add(HeaderBytes(h)).Add(payload)
  }

  /** The header with the checksum that goes out. */
  function Sealed(g: Segment, pseudo: U32): (h: TcpHeader)
    requires g.header.doff >= 5
  {
    g.header.(cksum := SumOf(g.header.(cksum := 0), g.payload, pseudo).Value())
  }

  function Serialize(g: Segment, pseudo: U32): (r: Outcome<seq<Byte>>) {
    if g.header.doff < 5 then Throws else Done(HeaderBytes(Sealed(g, pseudo)) + g.payload)
  }

  /** What parsing returns, and the segment then; a bad checksum leaves it as it was. */
  function Parse(before: Segment, buffer: seq<Byte>, pseudo: U32): (r: (ParseResult, Segment)) {
    if Checksum(pseudo, false).Add(buffer).Value() != 0 then (BadChecksum, before)
    else
      var (h, _, p) := ParseHeader(Parser(buffer, NoError));
      (p.error, Segment(h, p.buffer))
  }

  lemma HeaderAddsUp(h: TcpHeader, x: U16)
    requires h.doff >= 5
    ensures WordSum(HeaderBytes(h.(cksum := x)), false) == WordSum(HeaderBytes(h.(cksum := 0)), false) + x
  {
    assert Front(h.(cksum := x)) == Front(h) == Front(h.(cksum := 0));
    hide Bytes, WordSum, Zeros, Front;
    var front, tail := Front(h), Bytes(h.uptr, 2) + Zeros(4 * h.doff - LENGTH);
    JoinThree(front + Bytes(x, 2), Bytes(h.uptr, 2), Zeros(4 * h.doff - LENGTH));
    JoinThree(front + Bytes(0, 2), Bytes(h.uptr, 2), Zeros(4 * h.doff - LENGTH));
    FieldAddsUp(front, x, tail);
  }

  /** No carry is lost in a segment of less than 2^16 bytes. */
  lemma SumIsExact(h: TcpHeader, payload: seq<Byte>, pseudo: U32)
    requires h.doff >= 5 && 4 * h.doff + |payload| < 0x1_0000 && pseudo < TWO31
    ensures SumOf(h, payload, pseudo).sum == pseudo + WordSum(HeaderBytes(h), false) + WordSum(payload, false)
    ensures !SumOf(h, payload, pseudo).parity == (|payload| % 2 == 0)
  {
    var b := HeaderBytes(h);
    hide HeaderBytes, WordSum, Checksum.Add;
    WordSumAppend(b, payload, false);
    WordSumBound(b + payload, false);
    AddExact(Checksum(pseudo, false), b);
    AddExact(Checksum(pseudo, false).Add(b), payload);
  }

  /** The receiver's checksum over what the sender puts out comes out as zero. */
  lemma SealedIsGood(g: Segment, pseudo: U32)
    requires g.header.doff >= 5 && 4 * g.header.doff + |g.payload| < 0x1_0000 && pseudo < TWO31
    ensures Checksum(pseudo, false).Add(HeaderBytes(Sealed(g, pseudo)) + g.payload).Value() == 0
  {
    hide HeaderBytes, Checksum.Add, WordSum, Fold;
    var h := Sealed(g, pseudo);
    var zero := g.header.(cksum := 0);
    AddSplit(Checksum(pseudo, false), HeaderBytes(h), g.payload);
    SumIsExact(h, g.payload, pseudo);
    SumIsExact(zero, g.payload, pseudo);
    HeaderAddsUp(g.header, h.cksum);
    ValueCompletes(SumOf(zero, g.payload, pseudo), SumOf(h, g.payload, pseudo));
  }

  /** A segment goes over the wire unchanged: parsing what was serialized succeeds and gives back every
      field and the payload, with the checksum filled in. */
  lemma SegmentRoundTrip(g: Segment, pseudo: U32, before: Segment)
    requires 5 <= g.header.doff <= 15 && 4 * g.header.doff + |g.payload| < 0x1_0000 && pseudo < TWO31
    ensures var r := Serialize(g, pseudo);
            r.Done? && Parse(before, r.value, pseudo) == (NoError, Segment(Sealed(g, pseudo), g.payload))
  {
    hide HeaderBytes, Checksum.Add, ParseHeader, SumOf, Checksum.Value;
    SealedIsGood(g, pseudo);
    HeaderRoundTrip(Sealed(g, pseudo), g.payload);
  }

  // ---------- the code ----------

  method UnparseHeader(h: TcpHeader) returns (r: Outcome<seq<Byte>>)
    ensures r == SerializeHeader(h)
  {
    hide Bytes, FlagByte;
    if h.doff < 5 {
      return Throws;
    }
    var ret := Unparse([], h.sport, 2);
    assert ret == Bytes(h.sport, 2);
    ret := Unparse(ret, h.dport, 2);
    ret := Unparse(ret, h.seqno, 4);
    ret := Unparse(ret, h.ackno, 4);
    ret := Unparse(ret, h.doff * 16, 1);
    ret := Unparse(ret, FlagByte(h), 1);
    ret := Unparse(ret, h.win, 2);
    ret := Unparse(ret, h.cksum, 2);
    ret := Unparse(ret, h.uptr, 2);
    ret := ret + Zeros(4 * h.doff - |ret|);
    return Done(ret);
  }

  method ReadHeader(p: NetParser) returns (h: TcpHeader, r: ParseResult)
    modifies p
    ensures (h, r, p.View()) == ParseHeader(old(p.View()))
  {
    hide Parser.U8, Parser.U16, Parser.U32, Parser.RemovePrefix, HasBit;
    h := DEFAULT_HEADER;
    var sport := p.U16();
    var dport := p.U16();
    var seqno := p.U32();
    var ackno := p.U32();
    var doff := p.U8();
    var flags := p.U8();
    var win := p.U16();
    var cksum := p.U16();
    var uptr := p.U16();
    h := h.(sport := sport, dport := dport, seqno := seqno, ackno := ackno, doff := doff / 16,
            win := win, cksum := cksum, uptr := uptr);
    h := WithFlags(h, flags);
    if h.doff < 5 {
      return h, HeaderTooShort;
    }
    p.RemovePrefix(h.doff * 4 - LENGTH);
    return h, p.error;
  }

  method ParseSegment(before: Segment, buffer: seq<Byte>, pseudo: U32) returns (r: ParseResult, g: Segment)
    ensures (r, g) == Parse(before, buffer, pseudo)
  {
    hide Checksum.Add, ParseHeader, Fold;
    g := before;
    var check := new InternetChecksum(pseudo);
    check.Add(buffer);
    var v := check.Value();
    if v != 0 {
      return BadChecksum, g;
    }
    var p := new NetParser(buffer);
    var h, _ := ReadHeader(p);
    g := Segment(h, p.buffer);
    return p.error, g;
  }

  method SerializeSegment(g: Segment, pseudo: U32) returns (r: Outcome<seq<Byte>>)
    ensures r == Serialize(g, pseudo)
  {
    hide Checksum.Add, HeaderBytes, Fold;
    var header := g.header.(cksum := 0);
    var check := new InternetChecksum(pseudo);
    var bytes := UnparseHeader(header);
    if bytes.Throws? {
      return Throws;
    }
    check.Add(bytes.value);
    check.Add(g.payload);
    var v := check.Value();
    bytes := UnparseHeader(header.(cksum := v));
    return Done(bytes.value + g.payload);
  }
}
