/** IPv4 headers and datagrams on the wire (section 3.1 of RFC 791). */
module Ipv4Wire {
  import opened ByteStreams
  import opened WrappingIntegers
  import opened TcpSegments
  import opened Checksums
  import opened Parsers
  import TcpWire

  const LENGTH: nat := 20

  datatype Ipv4Header = Ipv4Header(
    ver: Byte, hlen: Byte, tos: Byte, len: U16, id: U16, df: bool, mf: bool, offset: U16,
    ttl: Byte, proto: Byte, cksum: U16, src: U32, dst: U32)
  {
    /** An unsigned 16-bit difference. */
    function PayloadLength(): (n: U16) {
      (len - 4 * hlen) % 0x1_0000
    }

    /** What the header contributes to the checksum of the segment inside. */
    function PseudoCksum(): (n: U32)
      ensures n < TWO31
    {
      src / 0x1_0000 + src % 0x1_0000 + dst / 0x1_0000 + dst % 0x1_0000 + proto + PayloadLength()
    }
  }

  datatype Datagram = Datagram(header: Ipv4Header, payload: seq<Byte>)

  const DEFAULT_HEADER: Ipv4Header := Ipv4Header(4, 5, 0, 0, 0, true, false, 0, 128, 6, 0, 0, 0)

  function FirstByte(h: Ipv4Header): (b: Byte) {
    h.ver * 16 % 256 + h.hlen % 16
  }

  function FragmentWord(h: Ipv4Header): (w: U16) {
    0x4000 * One(h.df) + 0x2000 * One(h.mf) + h.offset % 0x2000
  }

  function WithFragment(h: Ipv4Header, w: U16): (k: Ipv4Header) {
    h.(df := HasBit(w, 0x4000), mf := HasBit(w, 0x2000), offset := w % 0x2000)
  }

  /** The header up to the checksum field. */
  function Front(h: Ipv4Header): (bytes: seq<Byte>)
    ensures |bytes| == 10
  {
    Bytes(FirstByte(h), 1) + Bytes(h.tos, 1) + Bytes(h.len, 2) + Bytes(h.id, 2) + Bytes(FragmentWord(h), 2)
    + Bytes(h.ttl, 1) + Bytes(h.proto, 1)
  }

  /** The header, padded to the length it announces. */
  function HeaderBytes(h: Ipv4Header): (bytes: seq<Byte>)
    requires h.hlen >= 5
    ensures |bytes| == 4 * h.hlen
  {
    Front(h) + Bytes(h.cksum, 2) + Bytes(h.src, 4) + Bytes(h.dst, 4) + Zeros(4 * h.hlen - LENGTH)
  }

  function SerializeHeader(h: Ipv4Header): (r: Outcome<seq<Byte>>) {
    if h.ver != 4 || h.hlen < 5 then Throws else Done(HeaderBytes(h))
  }

  /** The fields, and the rest. */
  function ParseFields(p0: Parser): (r: (Ipv4Header, Parser)) {
    var (first, p1) := p0.U8();
    var (tos, p2) := p1.U8();
    var (len, p3) := p2.U16();
    var (id, p4) := p3.U16();
    var (fragment, p5) := p4.U16();
    var (ttl, p6) := p5.U8();
    var (proto, p7) := p6.U8();
    var (cksum, p8) := p7.U16();
    var (src, p9) := p8.U32();
    var (dst, p10) := p9.U32();
    (WithFragment(DEFAULT_HEADER.(ver := first / 16, hlen := first % 16, tos := tos, len := len, id := id, ttl := ttl,
                                  proto := proto, cksum := cksum, src := src, dst := dst), fragment), p10)
  }

  /** The header, what the parser of headers returns, and the rest; `before` is the header there was. */
  function ParseHeader(before: Ipv4Header, p0: Parser): (r: (Ipv4Header, ParseResult, Parser)) {
    var size := |p0.buffer|;
    if size < LENGTH then (before, PacketTooShort, p0)
    else
      var (h, p1) := ParseFields(p0);
      if size < 4 * h.hlen then (h, PacketTooShort, p1)
      else if h.ver != 4 then (h, WrongIPVersion, p1)
      else if h.hlen < 5 then (h, HeaderTooShort, p1)
      else if size != h.len then (h, TruncatedPacket, p1)
      else
        var p := p1.RemovePrefix(4 * h.hlen - LENGTH);
        if p.error != NoError then (h, p.error, p)
        else if Checksum(0, false).Add(p0.buffer[..4 * h.hlen]).Value() != 0 then (h, BadChecksum, p)
        else (h, NoError, p)
  }

  /** The bytes of a header, one field after the other. */
  function Image(h: Ipv4Header, rest: seq<Byte>): (bytes: seq<Byte>)
    requires h.hlen >= 5
  {
    Bytes(FirstByte(h), 1) + (Bytes(h.tos, 1) + (Bytes(h.len, 2) + (Bytes(h.id, 2) + (Bytes(FragmentWord(h), 2)
    + (Bytes(h.ttl, 1) + (Bytes(h.proto, 1) + (Bytes(h.cksum, 2) + (Bytes(h.src, 4) + (Bytes(h.dst, 4)
    + (Zeros(4 * h.hlen - LENGTH) + rest))))))))))
  }

  lemma HeaderImage(h: Ipv4Header, rest: seq<Byte>)
    requires h.hlen >= 5
    ensures HeaderBytes(h) + rest == Image(h, rest)
  {
    hide Bytes, Zeros, FirstByte, FragmentWord;
    var s2 := Bytes(FirstByte(h), 1) + Bytes(h.tos, 1);
    var s3 := s2 + Bytes(h.len, 2);
    var s4 := s3 + Bytes(h.id, 2);
    var s5 := s4 + Bytes(FragmentWord(h), 2);
    var s6 := s5 + Bytes(h.ttl, 1);
    var s7 := s6 + Bytes(h.proto, 1);
    var s8 := s7 + Bytes(h.cksum, 2);
    var s9 := s8 + Bytes(h.src, 4);
    var s10 := s9 + Bytes(h.dst, 4);
    var r10 := Zeros(4 * h.hlen - LENGTH) + rest;
    var r9 := Bytes(h.dst, 4) + r10;
    var r8 := Bytes(h.src, 4) + r9;
    var r7 := Bytes(h.cksum, 2) + r8;
    var r6 := Bytes(h.proto, 1) + r7;
    var r5 := Bytes(h.ttl, 1) + r6;
    var r4 := Bytes(FragmentWord(h), 2) + r5;
    var r3 := Bytes(h.id, 2) + r4;
    var r2 := Bytes(h.len, 2) + r3;
    JoinThree(s10, Zeros(4 * h.hlen - LENGTH), rest);
    JoinThree(s9, Bytes(h.dst, 4), r10);
    JoinThree(s8, Bytes(h.src, 4), r9);
    JoinThree(s7, Bytes(h.cksum, 2), r8);
    JoinThree(s6, Bytes(h.proto, 1), r7);
    JoinThree(s5, Bytes(h.ttl, 1), r6);
    JoinThree(s4, Bytes(FragmentWord(h), 2), r5);
    JoinThree(s3, Bytes(h.id, 2), r4);
    JoinThree(s2, Bytes(h.len, 2), r3);
    JoinThree(Bytes(FirstByte(h), 1), Bytes(h.tos, 1), r2);
  }

  /** A header whose fields fit their places. */
  predicate Fits(h: Ipv4Header) {
    h.ver == 4 && 5 <= h.hlen <= 15 && h.offset < 0x2000
  }

  lemma FragmentRoundTrip(h: Ipv4Header, k: Ipv4Header)
    requires h.offset < 0x2000
    ensures WithFragment(k, FragmentWord(h)) == k.(df := h.df, mf := h.mf, offset := h.offset)
  {
  }

  lemma FirstByteRoundTrip(h: Ipv4Header)
    requires Fits(h)
    ensures FirstByte(h) / 16 == h.ver && FirstByte(h) % 16 == h.hlen
  {
  }

  lemma FieldsRoundTrip(h: Ipv4Header, rest: seq<Byte>)
    requires Fits(h)
    ensures ParseFields(Parser(HeaderBytes(h) + rest, NoError)) == (h, Parser(Zeros(4 * h.hlen - LENGTH) + rest, NoError))
  {
    FirstByteRoundTrip(h);
    hide Bytes, Zeros, Parser.U8, Parser.U16, Parser.U32, FirstByte, FragmentWord, WithFragment, HeaderBytes;
    HeaderImage(h, rest);
    var r10 := Zeros(4 * h.hlen - LENGTH) + rest;
    var r9 := Bytes(h.dst, 4) + r10;
    var r8 := Bytes(h.src, 4) + r9;
    var r7 := Bytes(h.cksum, 2) + r8;
    var r6 := Bytes(h.proto, 1) + r7;
    var r5 := Bytes(h.ttl, 1) + r6;
    var r4 := Bytes(FragmentWord(h), 2) + r5;
    var r3 := Bytes(h.id, 2) + r4;
    var r2 := Bytes(h.len, 2) + r3;
    var r1 := Bytes(h.tos, 1) + r2;
    U8RoundTrip(FirstByte(h), r1);
    U8RoundTrip(h.tos, r2);
    U16RoundTrip(h.len, r3);
    U16RoundTrip(h.id, r4);
    U16RoundTrip(FragmentWord(h), r5);
    U8RoundTrip(h.ttl, r6);
    U8RoundTrip(h.proto, r7);
    U16RoundTrip(h.cksum, r8);
    U32RoundTrip(h.src, r9);
    U32RoundTrip(h.dst, r10);
    FragmentRoundTrip(h, DEFAULT_HEADER.(ver := h.ver, hlen := h.hlen, tos := h.tos, len := h.len, id := h.id,
                                         ttl := h.ttl, proto := h.proto, cksum := h.cksum, src := h.src, dst := h.dst));
  }

  // ---------- datagrams ----------

  /** The header with the checksum that goes out. */
  function Sealed(h: Ipv4Header): (k: Ipv4Header)
    requires h.hlen >= 5
  {
    h.(cksum := Checksum(0, false).Add(HeaderBytes(h.(cksum := 0))).Value())
  }

  function Serialize(d: Datagram): (r: Outcome<seq<Byte>>) {
    if |d.payload| != d.header.PayloadLength() || d.header.ver != 4 || d.header.hlen < 5 then Throws
    else Done(HeaderBytes(Sealed(d.header)) + d.payload)
  }

  /** What parsing returns, and the datagram then. What the parser of headers returns is ignored. */
  function Parse(before: Datagram, buffer: seq<Byte>): (r: (ParseResult, Datagram)) {
    var (h, _, p) := ParseHeader(before.header, Parser(buffer, NoError));
    var d := Datagram(h, p.buffer);
    (if |p.buffer| != h.PayloadLength() then PacketTooShort else p.error, d)
  }

  lemma HeaderAddsUp(h: Ipv4Header, x: U16)
    requires h.hlen >= 5
    ensures WordSum(HeaderBytes(h.(cksum := x)), false) == WordSum(HeaderBytes(h.(cksum := 0)), false) + x
  {
    assert Front(h.(cksum := x)) == Front(h) == Front(h.(cksum := 0));
    hide Bytes, WordSum, Zeros, Front;
    var front, a, b, c := Front(h), Bytes(h.src, 4), Bytes(h.dst, 4), Zeros(4 * h.hlen - LENGTH);
    var tail := a + (b + c);
    JoinThree(front + Bytes(x, 2) + a, b, c);
    JoinThree(front + Bytes(x, 2), a, b + c);
    JoinThree(front + Bytes(0, 2) + a, b, c);
    JoinThree(front + Bytes(0, 2), a, b + c);
    FieldAddsUp(front, x, tail);
  }

  /** The checksum over a header that was sealed comes out as zero. */
  lemma SealedIsGood(h: Ipv4Header)
    requires h.hlen >= 5
    ensures Checksum(0, false).Add(HeaderBytes(Sealed(h))).Value() == 0
  {
    hide HeaderBytes, Checksum.Add, WordSum, Fold;
    var zero, k := h.(cksum := 0), Sealed(h);
    WordSumBound(HeaderBytes(zero), false);
    WordSumBound(HeaderBytes(k), false);
    AddExact(Checksum(0, false), HeaderBytes(zero));
    AddExact(Checksum(0, false), HeaderBytes(k));
    HeaderAddsUp(h, k.cksum);
    ValueCompletes(Checksum(0, false).Add(HeaderBytes(zero)), Checksum(0, false).Add(HeaderBytes(k)));
  }

  /** Parsing a sealed header in front of the payload it announces succeeds. */
  lemma HeaderRoundTrip(before: Ipv4Header, h: Ipv4Header, payload: seq<Byte>)
    requires Fits(h) && h.len == 4 * h.hlen + |payload| && Sealed(h) == h
    ensures ParseHeader(before, Parser(HeaderBytes(h) + payload, NoError)) == (h, NoError, Parser(payload, NoError))
  {
    var b := HeaderBytes(h) + payload;
    assert b[..4 * h.hlen] == HeaderBytes(h);
    hide HeaderBytes, Checksum.Add, ParseFields, Checksum.Value, Parser.RemovePrefix, Zeros;
    FieldsRoundTrip(h, payload);
    ZerosSkipped(4 * h.hlen - LENGTH, payload);
    SealedIsGood(h);
  }

  /** A datagram goes over the wire unchanged: parsing what was serialized succeeds and gives back every
      field and the payload, with the checksum filled in. */
  lemma DatagramRoundTrip(d: Datagram, before: Datagram)
    requires Fits(d.header) && d.header.len == 4 * d.header.hlen + |d.payload|
    ensures var r := Serialize(d);
            r.Done? && Parse(before, r.value) == (NoError, Datagram(Sealed(d.header), d.payload))
  {
    hide HeaderBytes, ParseHeader, Checksum.Add, Checksum.Value;
    HeaderRoundTrip(before.header, Sealed(d.header), d.payload);
  }

  /** A segment inside a datagram, its checksum covering the addresses, makes it through both layers. */
  lemma StackRoundTrip(g: Segment, h: Ipv4Header, beforeGram: Datagram, before: Segment)
    requires Fits(h) && 5 <= g.header.doff <= 15 && h.len == 4 * h.hlen + 4 * g.header.doff + |g.payload|
    ensures var inner := TcpWire.Serialize(g, h.PseudoCksum());
            && inner.Done?
            && var outer := Serialize(Datagram(h, inner.value));
            && outer.Done?
            && var (r, d) := Parse(beforeGram, outer.value);
            && r == NoError && d.header == h.(cksum := d.header.cksum)
            && var (q, s) := TcpWire.Parse(before, d.payload, d.header.PseudoCksum());
            && q == NoError && s.payload == g.payload && s.header == g.header.(cksum := s.header.cksum)
  {
    hide TcpWire.Parse, Parse, TcpWire.HeaderBytes, HeaderBytes, Checksum.Add, Checksum.Value;
    TcpWire.SegmentRoundTrip(g, h.PseudoCksum(), before);
    var inner := TcpWire.Serialize(g, h.PseudoCksum()).value;
    DatagramRoundTrip(Datagram(h, inner), beforeGram);
  }

  // ---------- the code ----------

  method UnparseHeader(h: Ipv4Header) returns (r: Outcome<seq<Byte>>)
    ensures r == SerializeHeader(h)
  {
    hide Bytes, FirstByte, FragmentWord;
    if h.ver != 4 {
      return Throws;
    }
    if 4 * h.hlen < LENGTH {
      return Throws;
    }
    var ret := Unparse([], FirstByte(h), 1);
    assert ret == Bytes(FirstByte(h), 1);
    ret := Unparse(ret, h.tos, 1);
    ret := Unparse(ret, h.len, 2);
    ret := Unparse(ret, h.id, 2);
    ret := Unparse(ret, FragmentWord(h), 2);
    ret := Unparse(ret, h.ttl, 1);
    ret := Unparse(ret, h.proto, 1);
    ret := Unparse(ret, h.cksum, 2);
    ret := Unparse(ret, h.src, 4);
    ret := Unparse(ret, h.dst, 4);
    ret := ret + Zeros(4 * h.hlen - |ret|);
    return Done(ret);
  }

  method ReadFields(p: NetParser) returns (h: Ipv4Header)
    modifies p
    ensures (h, p.View()) == ParseFields(old(p.View()))
  {
    hide Parser.U8, Parser.U16, Parser.U32, HasBit;
    h := DEFAULT_HEADER;
    var firstByte := p.U8();
    var tos := p.U8();
    var len := p.U16();
    var id := p.U16();
    var foVal := p.U16();
    var ttl := p.U8();
    var proto := p.U8();
    var cksum := p.U16();
    var src := p.U32();
    var dst := p.U32();
    h := h.(ver := firstByte / 16, hlen := firstByte % 16, tos := tos, len := len, id := id, ttl := ttl,
            proto := proto, cksum := cksum, src := src, dst := dst);
    h := WithFragment(h, foVal);
  }

  method ReadHeader(before: Ipv4Header, p: NetParser) returns (h: Ipv4Header, r: ParseResult)
    modifies p
    ensures (h, r, p.View()) == ParseHeader(before, old(p.View()))
  {
    hide ParseFields, Parser.RemovePrefix, Checksum.Add, Fold;
    var original := p.buffer;
    var dataSize := |p.buffer|;
    if dataSize < LENGTH {
      return before, PacketTooShort;
    }
    h := ReadFields(p);
    if dataSize < 4 * h.hlen {
      return h, PacketTooShort;
    }
    if h.ver != 4 {
      return h, WrongIPVersion;
    }
    if h.hlen < 5 {
      return h, HeaderTooShort;
    }
    if dataSize != h.len {
      return h, TruncatedPacket;
    }
    p.RemovePrefix(h.hlen * 4 - LENGTH);
    if p.error != NoError {
      return h, p.error;
    }
    var check := new InternetChecksum(0);
    check.Add(original[..4 * h.hlen]);
    var v := check.Value();
    if v != 0 {
      return h, BadChecksum;
    }
    return h, NoError;
  }

  method ParseDatagram(before: Datagram, buffer: seq<Byte>) returns (r: ParseResult, d: Datagram)
    ensures (r, d) == Parse(before, buffer)
  {
    hide ParseHeader;
    var p := new NetParser(buffer);
    var h, _ := ReadHeader(before.header, p);
    d := Datagram(h, p.buffer);
    if |d.payload| != h.PayloadLength() {
      return PacketTooShort, d;
    }
    return p.error, d;
  }

  method SerializeDatagram(d: Datagram) returns (r: Outcome<seq<Byte>>)
    ensures r == Serialize(d)
  {
    hide Checksum.Add, HeaderBytes, Fold;
    if |d.payload| != d.header.PayloadLength() {
      return Throws;
    }
    var header := d.header.(cksum := 0);
    var zeroChecksum := UnparseHeader(header);
    if zeroChecksum.Throws? {
      return Throws;
    }
    var check := new InternetChecksum(0);
    check.Add(zeroChecksum.value);
    var v := check.Value();
    var bytes := UnparseHeader(header.(cksum := v));
    return Done(bytes.value + d.payload);
  }
}
