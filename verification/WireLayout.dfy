/** What is on the wire, byte by byte, and exactly which bytes are accepted from it (section 3.1 of RFC 791
    and section 3.1 of RFC 793). */
module WireLayouts {
  import opened ByteStreams
  import opened WrappingIntegers
  import opened TcpSegments
  import opened Checksums
  import opened Parsers
  import T = TcpWire
  import I = Ipv4Wire

  /** The 16-bit number at offset `i`. */
  function Word(b: seq<Byte>, i: nat): (n: nat)
    requires i + 2 <= |b|
  {
    var high: nat := b[i];
    256 * high + b[i + 1]
  }

  /** The 32-bit number at offset `i`. */
  function Long(b: seq<Byte>, i: nat): (n: nat)
    requires i + 4 <= |b|
  {
    0x1_0000 * Word(b, i) + Word(b, i + 2)
  }

  // ---------- numbers as bytes ----------

  lemma TwoBytes(x: U16)
    ensures Bytes(x, 2) == [x / 256, x % 256]
  {
    assert Bytes(x, 2) == Bytes(x / 256, 1) + [x % 256];
    assert Bytes(x / 256, 1) == [x / 256 % 256];
  }

  lemma FourBytes(x: U32)
    ensures Bytes(x, 4) == [x / 0x100_0000, x / 0x1_0000 % 256, x / 256 % 256, x % 256]
  {
    assert Bytes(x, 4) == Bytes(x / 256, 3) + [x % 256];
    assert Bytes(x / 256, 3) == Bytes(x / 256 / 256, 2) + [x / 256 % 256];
    assert x / 256 / 256 == x / 0x1_0000;
    TwoBytes(x / 0x1_0000);
  }

  lemma OneByte(x: Byte)
    ensures Bytes(x, 1) == [x]
  {
  }

  predicate Put2(b: seq<Byte>, i: nat, x: U16) {
    i + 2 <= |b| && b[i] == x / 256 && b[i + 1] == x % 256
  }

  predicate Put4(b: seq<Byte>, i: nat, x: U32) {
    i + 4 <= |b| && Put2(b, i, x / 0x1_0000) && Put2(b, i + 2, x % 0x1_0000)
  }

  /** Bytes where they were put make up the number again. */
  lemma WordPut(b: seq<Byte>, i: nat, x: U16)
    requires Put2(b, i, x)
    ensures Word(b, i) == x
  {
  }

  lemma LongPut(b: seq<Byte>, i: nat, x: U32)
    requires Put4(b, i, x)
    ensures Long(b, i) == x
  {
    WordPut(b, i, x / 0x1_0000);
    WordPut(b, i + 2, x % 0x1_0000);
    hide Word;
  }

  lemma Appended2(a: seq<Byte>, x: U16)
    ensures Put2(a + Bytes(x, 2), |a|, x)
  {
    TwoBytes(x);
  }

  lemma Appended4(a: seq<Byte>, x: U32)
    ensures Put4(a + Bytes(x, 4), |a|, x)
  {
    FourBytes(x);
    var high, low := x / 0x1_0000, x % 0x1_0000;
    TwoBytes(high);
    TwoBytes(low);
    Halves(x);
  }

  lemma Halves(x: U32)
    ensures x / 0x1_0000 / 256 == x / 0x100_0000 && x % 0x1_0000 / 256 == x / 256 % 256
    ensures x % 0x1_0000 % 256 == x % 256
  {
  }

  /** What comes later does not move it. */
  lemma StaysPut(a: seq<Byte>, b: seq<Byte>)
    ensures forall i: nat, x: U16 :: Put2(a, i, x) ==> Put2(a + b, i, x)
    ensures forall i: nat, x: U32 :: Put4(a, i, x) ==> Put4(a + b, i, x)
  {
  }

  // ---------- TCP headers ----------

  predicate FlagsAt(h: TcpHeader, b: Byte) {
    && (h.urg <==> b / 32 % 2 == 1) && (h.ack <==> b / 16 % 2 == 1) && (h.psh <==> b / 8 % 2 == 1)
    && (h.rst <==> b / 4 % 2 == 1) && (h.syn <==> b / 2 % 2 == 1) && (h.fin <==> b % 2 == 1)
  }

  /** The header `h` laid out: ports, sequence and acknowledgment number, data offset in the high half of
      byte 12, the flags in the low six bits of byte 13, window, checksum, urgent pointer. */
  predicate TcpAt(h: TcpHeader, b: seq<Byte>)
    requires |b| >= 20
  {
    && Word(b, 0) == h.sport && Word(b, 2) == h.dport && Long(b, 4) == h.seqno && Long(b, 8) == h.ackno
    && b[12] / 16 == h.doff
    && FlagsAt(h, b[13])
    && Word(b, 14) == h.win && Word(b, 16) == h.cksum && Word(b, 18) == h.uptr
  }

  /** What is sent: the fields in their places, and zeros everywhere else. */
  lemma TcpSent(h: TcpHeader)
    requires 5 <= h.doff <= 15
    ensures var b := T.HeaderBytes(h);
            && TcpAt(h, b)
            && b[12] % 16 == 0 && b[13] < 64
            && forall i | 20 <= i < |b| :: b[i] == 0
  {
    TcpBytes(h);
    TcpFlags(h);
    var b := T.HeaderBytes(h);
    hide T.HeaderBytes, T.FlagByte, Word, Long, FlagsAt;
    WordPut(b, 0, h.sport);
    WordPut(b, 2, h.dport);
    LongPut(b, 4, h.seqno);
    LongPut(b, 8, h.ackno);
    WordPut(b, 14, h.win);
    WordPut(b, 16, h.cksum);
    WordPut(b, 18, h.uptr);
  }

  lemma TcpFlags(h: TcpHeader)
    ensures FlagsAt(h, T.FlagByte(h)) && T.FlagByte(h) < 64
  {
    T.FlagsRoundTrip(h, h);
    assert T.FlagByte(h) < 64;
    hide T.FlagByte;
  }

  lemma TcpBytes(h: TcpHeader)
    requires 5 <= h.doff <= 15
    ensures var b := T.HeaderBytes(h);
            && Put2(b, 0, h.sport) && Put2(b, 2, h.dport) && Put4(b, 4, h.seqno) && Put4(b, 8, h.ackno)
            && b[12] == h.doff * 16 && b[13] == T.FlagByte(h)
            && Put2(b, 14, h.win) && Put2(b, 16, h.cksum) && Put2(b, 18, h.uptr)
            && forall i | 20 <= i < |b| :: b[i] == 0
  {
    hide Bytes, T.FlagByte, Put2, Put4;
    var b2 := Bytes(h.sport, 2);
    assert [] + b2 == b2;
    Appended2([], h.sport);
    var b4 := b2 + Bytes(h.dport, 2);
    Appended2(b2, h.dport);
    StaysPut(b2, Bytes(h.dport, 2));
    var b8 := b4 + Bytes(h.seqno, 4);
    Appended4(b4, h.seqno);
    StaysPut(b4, Bytes(h.seqno, 4));
    var b12 := b8 + Bytes(h.ackno, 4);
    Appended4(b8, h.ackno);
    StaysPut(b8, Bytes(h.ackno, 4));
    var b14 := b12 + Bytes(h.doff * 16, 1) + Bytes(T.FlagByte(h), 1);
    OneByte(h.doff * 16);
    OneByte(T.FlagByte(h));
    assert b14 == b12 + [h.doff * 16, T.FlagByte(h)];
    StaysPut(b12, [h.doff * 16, T.FlagByte(h)]);
    var b16 := b14 + Bytes(h.win, 2);
    Appended2(b14, h.win);
    StaysPut(b14, Bytes(h.win, 2));
    var b18 := b16 + Bytes(h.cksum, 2);
    Appended2(b16, h.cksum);
    StaysPut(b16, Bytes(h.cksum, 2));
    var b20 := b18 + Bytes(h.uptr, 2);
    Appended2(b18, h.uptr);
    StaysPut(b18, Bytes(h.uptr, 2));
    StaysPut(b20, Zeros(4 * h.doff - 20));
  }

  // ---------- taking fields off ----------

  lemma OneTaken(b: seq<Byte>, i: nat)
    requires i + 1 <= |b|
    ensures Parser(b[i..], NoError).U8() == (b[i], Parser(b[i + 1..], NoError))
  {
    var rest := b[i..];
    assert rest[..1] == [b[i]] && rest[1..] == b[i + 1..];
    assert Number([b[i]]) == b[i];
  }

  lemma TwoTaken(b: seq<Byte>, i: nat)
    requires i + 2 <= |b|
    ensures Word(b, i) < 0x1_0000 && Parser(b[i..], NoError).U16() == (Word(b, i), Parser(b[i + 2..], NoError))
  {
    var rest := b[i..];
    assert rest[..2] == [b[i], b[i + 1]] && rest[2..] == b[i + 2..];
    NumberOfTwo(b[i], b[i + 1]);
  }

  lemma NumberOfTwo(x: Byte, y: Byte)
    ensures var high: nat := x; Number([x, y]) == 256 * high + y
  {
    assert [x, y][..1] == [x] && [x][..0] == [];
    assert Number([x]) == x;
  }

  lemma FourTaken(b: seq<Byte>, i: nat)
    requires i + 4 <= |b|
    ensures Long(b, i) < TWO32 && Parser(b[i..], NoError).U32() == (Long(b, i), Parser(b[i + 4..], NoError))
  {
    var rest := b[i..];
    assert rest[..4] == [b[i], b[i + 1], b[i + 2], b[i + 3]] && rest[4..] == b[i + 4..];
    NumberOfFour(b[i], b[i + 1], b[i + 2], b[i + 3]);
  }

  lemma NumberOfFour(x: Byte, y: Byte, z: Byte, w: Byte)
    ensures var a: nat, b: nat, c: nat := x, y, z; Number([x, y, z, w]) == 0x1_0000 * (256 * a + b) + (256 * c + w)
  {
    assert [x, y, z, w][..3] == [x, y, z] && [x, y, z][..2] == [x, y];
    assert Number([x, y, z, w]) == 256 * Number([x, y, z]) + w;
    assert Number([x, y, z]) == 256 * Number([x, y]) + z;
    NumberOfTwo(x, y);
  }

  /** A field is taken off a buffer that has it; otherwise the error is set, and stays. */
  lemma Takes(p: Parser, n: nat)
    requires p.error == NoError || p.error == PacketTooShort
    ensures var q := p.ParseInt(n).1;
            && (q.error == NoError || q.error == PacketTooShort)
            && (q.error == NoError ==> p.error == NoError && |p.buffer| == |q.buffer| + n)
  {
  }

  // ---------- TCP headers that come in ----------

  /** Whatever the bytes are: the fields are read off their places, options are skipped. */
  lemma TcpRead(b: seq<Byte>)
    requires |b| >= 20
    ensures var (h, _, p) := T.ParseHeader(Parser(b, NoError));
            && TcpAt(h, b)
            && p == if h.doff < 5 then Parser(b[20..], NoError)
                    else if |b| < 4 * h.doff then Parser(b[20..], PacketTooShort)
                    else Parser(b[4 * h.doff..], NoError)
  {
    hide Parser.U8, Parser.U16, Parser.U32, T.WithFlags, FlagsAt;
    assert b[0..] == b;
    FlagsRead(b[13]);
    TwoTaken(b, 0);
    TwoTaken(b, 2);
    FourTaken(b, 4);
    FourTaken(b, 8);
    OneTaken(b, 12);
    OneTaken(b, 13);
    TwoTaken(b, 14);
    TwoTaken(b, 16);
    TwoTaken(b, 18);
    hide Word, Long;
  }

  lemma FlagsRead(b: Byte)
    ensures forall h :: FlagsAt(T.WithFlags(h, b), b) && T.WithFlags(h, b) == h.(
              urg := T.WithFlags(h, b).urg, ack := T.WithFlags(h, b).ack, psh := T.WithFlags(h, b).psh,
              rst := T.WithFlags(h, b).rst, syn := T.WithFlags(h, b).syn, fin := T.WithFlags(h, b).fin)
  {
  }

  lemma TcpShort(b: seq<Byte>)
    requires |b| < 20
    ensures T.ParseHeader(Parser(b, NoError)).2.error == PacketTooShort
  {
    hide Parser.ParseInt;
    var p0 := Parser(b, NoError);
    Takes(p0, 2);
    var p1 := p0.U16().1;
    Takes(p1, 2);
    var p2 := p1.U16().1;
    Takes(p2, 4);
    var p3 := p2.U32().1;
    Takes(p3, 4);
    var p4 := p3.U32().1;
    Takes(p4, 1);
    var p5 := p4.U8().1;
    Takes(p5, 1);
    var p6 := p5.U8().1;
    Takes(p6, 2);
    var p7 := p6.U16().1;
    Takes(p7, 2);
    var p8 := p7.U16().1;
    Takes(p8, 2);
  }

  /** The header can be read off: it is all there, or announces less than the minimum, which goes unnoticed. */
  predicate TcpComplete(b: seq<Byte>) {
    |b| >= 20 && (b[12] / 16 < 5 || 4 * (b[12] / 16) <= |b|)
  }

  /** A segment is accepted exactly if its checksum comes out right and its header can be read off. Then the
      fields are those on the wire, and the payload is what follows the header, options skipped. */
  lemma TcpAccepted(before: Segment, b: seq<Byte>, pseudo: U32)
    ensures var (r, g) := T.Parse(before, b, pseudo);
            var good := Checksum(pseudo, false).Add(b).Value() == 0;
            && (r == NoError <==> good && TcpComplete(b))
            && (r == BadChecksum <==> !good)
            && (!good ==> g == before)
            && (r == NoError ==> TcpAt(g.header, b) && g.payload == b[4 * (if g.header.doff < 5 then 5 else g.header.doff)..])
  {
    hide Checksum.Add, Checksum.Value, T.ParseHeader, Word, Long, FlagsAt;
    if |b| >= 20 {
      TcpRead(b);
    } else {
      TcpShort(b);
    }
  }

  // ---------- IPv4 headers ----------

  /** The header `h` laid out: version and header length, type of service, length, identification, the two
      flags over the fragment offset, time to live, protocol, checksum, addresses. */
  predicate Ipv4At(h: I.Ipv4Header, b: seq<Byte>)
    requires |b| >= 20
  {
    && b[0] / 16 == h.ver && b[0] % 16 == h.hlen && b[1] == h.tos && Word(b, 2) == h.len && Word(b, 4) == h.id
    && FragmentAt(h, Word(b, 6))
    && b[8] == h.ttl && b[9] == h.proto && Word(b, 10) == h.cksum && Long(b, 12) == h.src && Long(b, 16) == h.dst
  }

  predicate FragmentAt(h: I.Ipv4Header, w: nat) {
    (h.df <==> w / 0x4000 % 2 == 1) && (h.mf <==> w / 0x2000 % 2 == 1) && w % 0x2000 == h.offset
  }

  /** What is sent: the fields in their places, and zeros everywhere else. */
  lemma Ipv4Sent(h: I.Ipv4Header)
    requires I.Fits(h)
    ensures var b := I.HeaderBytes(h); Ipv4At(h, b) && b[6] < 128 && forall i | 20 <= i < |b| :: b[i] == 0
  {
    Ipv4Bytes(h);
    I.FirstByteRoundTrip(h);
    FragmentSent(h);
    var b := I.HeaderBytes(h);
    assert b[6] < 128;
    hide I.HeaderBytes, I.FirstByte, I.FragmentWord, Word, Long, FragmentAt;
    WordPut(b, 2, h.len);
    WordPut(b, 4, h.id);
    WordPut(b, 6, I.FragmentWord(h));
    WordPut(b, 10, h.cksum);
    LongPut(b, 12, h.src);
    LongPut(b, 16, h.dst);
  }

  lemma FragmentSent(h: I.Ipv4Header)
    requires h.offset < 0x2000
    ensures FragmentAt(h, I.FragmentWord(h)) && I.FragmentWord(h) < 0x8000
  {
    I.FragmentRoundTrip(h, h);
    assert I.FragmentWord(h) < 0x8000;
    hide I.FragmentWord;
  }

  lemma Ipv4Bytes(h: I.Ipv4Header)
    requires 5 <= h.hlen
    ensures var b := I.HeaderBytes(h);
            && b[0] == I.FirstByte(h) && b[1] == h.tos && Put2(b, 2, h.len) && Put2(b, 4, h.id)
            && Put2(b, 6, I.FragmentWord(h)) && b[8] == h.ttl && b[9] == h.proto
            && Put2(b, 10, h.cksum) && Put4(b, 12, h.src) && Put4(b, 16, h.dst)
            && forall i | 20 <= i < |b| :: b[i] == 0
  {
    hide Bytes, I.FirstByte, I.FragmentWord, Put2, Put4;
    OneByte(I.FirstByte(h));
    OneByte(h.tos);
    OneByte(h.ttl);
    OneByte(h.proto);
    var b2 := [I.FirstByte(h), h.tos];
    assert Bytes(I.FirstByte(h), 1) + Bytes(h.tos, 1) == b2;
    var b4 := b2 + Bytes(h.len, 2);
    Appended2(b2, h.len);
    var b6 := b4 + Bytes(h.id, 2);
    Appended2(b4, h.id);
    StaysPut(b4, Bytes(h.id, 2));
    var b8 := b6 + Bytes(I.FragmentWord(h), 2);
    Appended2(b6, I.FragmentWord(h));
    StaysPut(b6, Bytes(I.FragmentWord(h), 2));
    var b10 := b8 + [h.ttl, h.proto];
    assert b8 + Bytes(h.ttl, 1) + Bytes(h.proto, 1) == b10;
    StaysPut(b8, [h.ttl, h.proto]);
    var b12 := b10 + Bytes(h.cksum, 2);
    Appended2(b10, h.cksum);
    StaysPut(b10, Bytes(h.cksum, 2));
    var b16 := b12 + Bytes(h.src, 4);
    Appended4(b12, h.src);
    StaysPut(b12, Bytes(h.src, 4));
    var b20 := b16 + Bytes(h.dst, 4);
    Appended4(b16, h.dst);
    StaysPut(b16, Bytes(h.dst, 4));
    StaysPut(b20, Zeros(4 * h.hlen - 20));
  }

  // ---------- IPv4 headers that come in ----------

  lemma Ipv4Read(b: seq<Byte>)
    requires |b| >= 20
    ensures var (h, p) := I.ParseFields(Parser(b, NoError)); Ipv4At(h, b) && p == Parser(b[20..], NoError)
  {
    hide Parser.U8, Parser.U16, Parser.U32, I.WithFragment, FragmentAt;
    assert b[0..] == b;
    OneTaken(b, 0);
    OneTaken(b, 1);
    TwoTaken(b, 2);
    TwoTaken(b, 4);
    TwoTaken(b, 6);
    OneTaken(b, 8);
    OneTaken(b, 9);
    TwoTaken(b, 10);
    FourTaken(b, 12);
    FourTaken(b, 16);
    hide Word, Long;
    FragmentRead(Word(b, 6));
  }

  lemma FragmentRead(w: U16)
    ensures forall h :: FragmentAt(I.WithFragment(h, w), w) && I.WithFragment(h, w) == h.(
              df := I.WithFragment(h, w).df, mf := I.WithFragment(h, w).mf, offset := I.WithFragment(h, w).offset)
  {
  }

  /** The checks that the parser of headers makes before it skips the options. */
  predicate Ipv4Checked(b: seq<Byte>) {
    |b| >= 20 && b[0] / 16 == 4 && b[0] % 16 >= 5 && 4 * (b[0] % 16) <= |b| && |b| == Word(b, 2)
  }

  /** The result of the header's parser: no error exactly if all is well, checksum included. */
  lemma Ipv4HeaderAccepted(before: I.Ipv4Header, b: seq<Byte>)
    ensures var (h, r, p) := I.ParseHeader(before, Parser(b, NoError));
            && (r == NoError <==> Ipv4Checked(b) && Checksum(0, false).Add(b[..4 * (b[0] % 16)]).Value() == 0)
            && (|b| < 20 ==> h == before && p == Parser(b, NoError))
            && (|b| >= 20 ==> Ipv4At(h, b) && p == Parser(b[if Ipv4Checked(b) then 4 * h.hlen else 20..], NoError))
  {
    hide I.ParseFields, Checksum.Add, Checksum.Value, Long, FragmentAt;
    if |b| >= 20 {
      Ipv4Read(b);
    }
  }

  /** A datagram is accepted exactly if its lengths agree: that of the payload with the one announced, the
      difference taken modulo 2^16. Neither the version nor the checksum matters. */
  lemma Ipv4Accepted(before: I.Datagram, b: seq<Byte>)
    ensures var (r, d) := I.Parse(before, b);
            && (r == NoError <==>
                  if |b| < 20 then |b| == before.header.PayloadLength()
                  else Ipv4Checked(b) || |b| - 20 == (Word(b, 2) - 4 * (b[0] % 16)) % 0x1_0000)
            && (|b| >= 20 ==> Ipv4At(d.header, b) && d.payload == b[if Ipv4Checked(b) then 4 * d.header.hlen else 20..])
  {
    hide I.ParseHeader, Checksum.Add, Checksum.Value, Long, FragmentAt;
    Ipv4HeaderAccepted(before.header, b);
  }

  /** So a header goes through whatever its checksum is. */
  lemma ChecksumUnchecked(h: I.Ipv4Header, payload: seq<Byte>, before: I.Datagram)
    requires I.Fits(h) && h.len == 4 * h.hlen + |payload|
    ensures var (r, d) := I.Parse(before, I.HeaderBytes(h) + payload); r == NoError && d == I.Datagram(h, payload)
  {
    var b := I.HeaderBytes(h) + payload;
    Ipv4Sent(h);
    hide I.HeaderBytes, I.ParseHeader, Checksum.Add, Checksum.Value, Long, FragmentAt;
    assert Word(b, 2) == h.len;
    Ipv4Accepted(before, b);
    FieldsKept(before.header, h, payload);
    assert b[4 * h.hlen..] == payload;
  }

  lemma FieldsKept(before: I.Ipv4Header, h: I.Ipv4Header, payload: seq<Byte>)
    requires I.Fits(h)
    ensures I.ParseHeader(before, Parser(I.HeaderBytes(h) + payload, NoError)).0 == h
  {
    hide I.HeaderBytes, I.ParseFields, Checksum.Add, Checksum.Value, Parser.RemovePrefix;
    I.FieldsRoundTrip(h, payload);
  }

  /** What is sent at all: a datagram whose payload has the length the header announces, in a header of version 4
      and at least the minimum length; otherwise the program throws. The checksum over the header then comes out
      right. */
  lemma Ipv4Serialized(d: I.Datagram)
    ensures var r, h := I.Serialize(d), d.header;
            && (r.Done? <==> |d.payload| == (h.len - 4 * h.hlen) % 0x1_0000 && h.ver == 4 && h.hlen >= 5)
            && (r.Done? ==>
                  exists c: U16 :: r.value == I.HeaderBytes(h.(cksum := c)) + d.payload
                                   && Checksum(0, false).Add(I.HeaderBytes(h.(cksum := c))).Value() == 0)
  {
    hide I.HeaderBytes, Checksum.Add, Checksum.Value;
    if d.header.hlen >= 5 {
      I.SealedIsGood(d.header);
      assert I.Sealed(d.header) == d.header.(cksum := I.Sealed(d.header).cksum);
    }
  }

  // ---------- the pseudo header ----------

  /** What the checksum of a segment covers of the datagram around it. */
  function PseudoHeader(h: I.Ipv4Header): (bytes: seq<Byte>) {
    Bytes(h.src, 4) + Bytes(h.dst, 4) + [0, h.proto] + Bytes(h.PayloadLength(), 2)
  }

  lemma LongAddsUp(x: U32)
    ensures WordSum(Bytes(x, 4), false) == x / 0x1_0000 + x % 0x1_0000
  {
    FourBytes(x);
    Halves(x);
    TwoBytes(x / 0x1_0000);
    TwoBytes(x % 0x1_0000);
    assert Bytes(x, 4) == Bytes(x / 0x1_0000, 2) + Bytes(x % 0x1_0000, 2);
    WordSumAppend(Bytes(x / 0x1_0000, 2), Bytes(x % 0x1_0000, 2), false);
    WordOfBytes(x / 0x1_0000);
    WordOfBytes(x % 0x1_0000);
    hide Bytes, WordSum;
  }

  /** The number the header contributes is the sum of the words of the pseudo header. */
  lemma PseudoAddsUp(h: I.Ipv4Header)
    ensures h.PseudoCksum() == WordSum(PseudoHeader(h), false)
  {
    var a, b, c, d := Bytes(h.src, 4), Bytes(h.dst, 4), [0, h.proto], Bytes(h.PayloadLength(), 2);
    LongAddsUp(h.src);
    LongAddsUp(h.dst);
    WordOfBytes(h.PayloadLength());
    assert c[1..] == [h.proto] && WordSum([h.proto], true) == h.proto;
    assert WordSum(c, false) == h.proto;
    WordSumAppend(a + b + c, d, false);
    WordSumAppend(a + b, c, false);
    WordSumAppend(a, b, false);
    hide Bytes, WordSum;
  }

  lemma HeaderIsPositive(h: TcpHeader)
    requires 5 <= h.doff <= 15
    ensures WordSum(T.HeaderBytes(h), false) > 0
  {
    TcpBytes(h);
    var b := T.HeaderBytes(h);
    assert b == b[..12] + b[12..];
    WordSumAppend(b[..12], b[12..], false);
    hide T.HeaderBytes, Put2, Put4;
  }

  /** A segment made out for one pseudo sum, parsed against another: refused exactly if the two differ
      modulo 65535. */
  lemma MadeOutForAnother(g: Segment, p: U32, q: U32, before: Segment)
    requires 5 <= g.header.doff <= 15 && 4 * g.header.doff + |g.payload| < 0x1_0000 && p < TWO31 && q < TWO31
    ensures T.Serialize(g, p).Done?
    ensures T.Parse(before, T.Serialize(g, p).value, q).0 == BadChecksum <==> p % 65535 != q % 65535
  {
    var k := T.Sealed(g, p);
    T.SealedIsGood(g, p);
    HeaderIsPositive(k);
    hide T.HeaderBytes, Checksum.Add, WordSum, Fold, T.ParseHeader;
    AddSplit(Checksum(p, false), T.HeaderBytes(k), g.payload);
    AddSplit(Checksum(q, false), T.HeaderBytes(k), g.payload);
    T.SumIsExact(k, g.payload, p);
    T.SumIsExact(k, g.payload, q);
    ValueZero(T.SumOf(k, g.payload, p));
    ValueZero(T.SumOf(k, g.payload, q));
    hide T.SumOf, Checksum.Value;
    SameModulo(p, q, WordSum(T.HeaderBytes(k), false) + WordSum(g.payload, false));
  }

  lemma SameModulo(p: nat, q: nat, w: nat)
    requires (p + w) % 65535 == 0
    ensures (q + w) % 65535 == 0 <==> p % 65535 == q % 65535
  {
    var m := 65535;
    assert p + w == m * ((p + w) / m);
    assert p == m * (p / m) + p % m && q == m * (q / m) + q % m;
    if p % m == q % m {
      assert q + w == m * ((p + w) / m - p / m + q / m);
    } else if (q + w) % m == 0 {
      assert q + w == m * ((q + w) / m);
      assert p - q == m * ((p + w) / m - (q + w) / m);
      SmallMultiple(p % m - q % m, (p + w) / m - (q + w) / m - p / m + q / m);
    }
  }

  lemma SmallMultiple(d: int, k: int)
    requires -65535 < d < 65535 && d == 65535 * k
    ensures d == 0
  {
  }

  /** A segment that was made out for other addresses, another protocol or another length is refused exactly
      if the words of the two pseudo headers add up differently modulo 65535. */
  lemma WrongPseudoHeader(g: Segment, h: I.Ipv4Header, k: I.Ipv4Header, before: Segment)
    requires 5 <= g.header.doff <= 15 && 4 * g.header.doff + |g.payload| < 0x1_0000
    ensures T.Serialize(g, h.PseudoCksum()).Done?
    ensures T.Parse(before, T.Serialize(g, h.PseudoCksum()).value, k.PseudoCksum()).0 == BadChecksum
            <==> WordSum(PseudoHeader(h), false) % 65535 != WordSum(PseudoHeader(k), false) % 65535
  {
    hide T.Parse, WordSum, PseudoHeader;
    PseudoAddsUp(h);
    PseudoAddsUp(k);
    MadeOutForAnother(g, h.PseudoCksum(), k.PseudoCksum(), before);
  }
}
