/** Integers in network byte order: taking them off a buffer and appending them to one. */
module Parsers {
  import opened ByteStreams
  import opened WrappingIntegers
  import opened TcpSegments
  import opened Checksums

  datatype ParseResult =
    | NoError | BadChecksum | PacketTooShort | WrongIPVersion | HeaderTooShort | TruncatedPacket | Unsupported

  /** A value, or the exception that the program throws instead. */
  datatype Outcome<T> = Done(value: T) | Throws

  datatype Parser = Parser(buffer: seq<Byte>, error: ParseResult) {

    function CheckSize(n: nat): (p: Parser) {
      if n > |buffer| then this.(error := PacketTooShort) else this
    }

    /** The next `n` bytes as one number; 0 after an error. */
    function ParseInt(n: nat): (r: (nat, Parser))
      ensures r.0 < Pow256(n)
    {
      var p := CheckSize(n);
      if p.error != NoError then (0, p) else (Number(buffer[..n]), p.(buffer := buffer[n..]))
    }

    function U8(): (r: (Byte, Parser)) {
      Pow256s();
      ParseInt(1)
    }

    function U16(): (r: (U16, Parser)) {
      Pow256s();
      ParseInt(2)
    }

    function U32(): (r: (U32, Parser)) {
      Pow256s();
      ParseInt(4)
    }

    function RemovePrefix(n: nat): (p: Parser) {
      var p := CheckSize(n);
      if p.error != NoError then p else p.(buffer := buffer[n..])
    }
  }

  function Pow256(n: nat): (r: nat)
    ensures r >= 1
  {
    if n == 0 then 1 else 256 * Pow256(n - 1)
  }

  /** The number that the bytes stand for, most significant first. */
  function Number(bytes: seq<Byte>): (n: nat)
    ensures n < Pow256(|bytes|)
  {
    if bytes == [] then 0 else 256 * Number(bytes[..|bytes| - 1]) + bytes[|bytes| - 1]
  }

  /** The low `len` bytes of `val`, most significant first. */
  function Bytes(val: nat, len: nat): (bytes: seq<Byte>)
    ensures |bytes| == len
  {
    if len == 0 then [] else Bytes(val / 256, len - 1) + [val % 256]
  }

  /** The two are inverse. */
  lemma {:induction false} NumberOfBytes(val: nat, len: nat)
    requires val < Pow256(len)
    ensures Number(Bytes(val, len)) == val
  {
    if len > 0 {
      NumberOfBytes(val / 256, len - 1);
      var b := Bytes(val, len);
      assert b[..|b| - 1] == Bytes(val / 256, len - 1);
    }
  }

  lemma {:induction false} BytesOfNumber(bytes: seq<Byte>)
    ensures Bytes(Number(bytes), |bytes|) == bytes
  {
    if bytes != [] {
      var front, last := bytes[..|bytes| - 1], bytes[|bytes| - 1];
      BytesOfNumber(front);
      LastByte(Number(front), last);
      assert bytes == front + [last];
    }
  }

  lemma LastByte(a: nat, b: Byte)
    ensures (256 * a + b) / 256 == a && (256 * a + b) % 256 == b
  {
  }

  /** What was appended is what is taken off. */
  lemma FieldRoundTrip(val: nat, len: nat, rest: seq<Byte>)
    requires val < Pow256(len)
    ensures Parser(Bytes(val, len) + rest, NoError).ParseInt(len) == (val, Parser(rest, NoError))
  {
    NumberOfBytes(val, len);
    var b := Bytes(val, len) + rest;
    assert b[..len] == Bytes(val, len) && b[len..] == rest;
  }

  lemma U8RoundTrip(val: Byte, rest: seq<Byte>)
    ensures Parser(Bytes(val, 1) + rest, NoError).U8() == (val, Parser(rest, NoError))
  {
    Pow256s();
    FieldRoundTrip(val, 1, rest);
  }

  lemma U16RoundTrip(val: U16, rest: seq<Byte>)
    ensures Parser(Bytes(val, 2) + rest, NoError).U16() == (val, Parser(rest, NoError))
  {
    Pow256s();
    FieldRoundTrip(val, 2, rest);
  }

  lemma U32RoundTrip(val: U32, rest: seq<Byte>)
    ensures Parser(Bytes(val, 4) + rest, NoError).U32() == (val, Parser(rest, NoError))
  {
    Pow256s();
    FieldRoundTrip(val, 4, rest);
  }

  lemma Pow256s()
    ensures Pow256(1) == 256 && Pow256(2) == 0x1_0000 && Pow256(4) == TWO32
  {
    assert Pow256(2) == 256 * Pow256(1);
    assert Pow256(3) == 256 * Pow256(2);
    assert Pow256(4) == 256 * Pow256(3);
  }

  class NetParser {
    var buffer: seq<Byte>
    var error: ParseResult

    ghost function View(): (p: Parser)
      reads this
    {
      Parser(buffer, error)
    }

    constructor (data: seq<Byte>)
      ensures View() == Parser(data, NoError)
    {
      buffer := data;
      error := NoError;
    }

    method CheckSize(n: nat)
      modifies this
      ensures View() == old(View()).CheckSize(n)
    {
      if n > |buffer| {
        error := PacketTooShort;
      }
    }

    method ParseInt(len: nat) returns (ret: nat)
      modifies this
      ensures (ret, View()) == old(View()).ParseInt(len)
    {
      CheckSize(len);
      if error != NoError {
        return 0;
      }
      ret := 0;
      for i := 0 to len
        invariant error == NoError && buffer == old(buffer) && len <= |buffer|
        invariant ret == Number(buffer[..i])
      {
        assert buffer[..i + 1][..i] == buffer[..i];
        ret := 256 * ret + buffer[i];
      }
      buffer := buffer[len..];
    }

    method U8() returns (v: Byte)
      modifies this
      ensures (v, View()) == old(View()).U8()
    {
      Pow256s();
      v := ParseInt(1);
    }

    method U16() returns (v: U16)
      modifies this
      ensures (v, View()) == old(View()).U16()
    {
      Pow256s();
      v := ParseInt(2);
    }

    method U32() returns (v: U32)
      modifies this
      ensures (v, View()) == old(View()).U32()
    {
      Pow256s();
      v := ParseInt(4);
    }

    method RemovePrefix(n: nat)
      modifies this
      ensures View() == old(View()).RemovePrefix(n)
    {
      CheckSize(n);
      if error != NoError {
        return;
      }
      buffer := buffer[n..];
    }
  }

  /** Appends the low `len` bytes of `val`, most significant first. */
  method Unparse(s: seq<Byte>, val: nat, len: nat) returns (ret: seq<Byte>)
    ensures ret == s + Bytes(val, len)
  {
    ret := s;
    for i := 0 to len
      invariant ret == s + Bytes(val, len)[..i]
    {
      var theByte := Shifted(val, len - i - 1) % 256;
      ByteAt(val, len, i);
      ret := ret + [theByte];
    }
  }

  /** `val` shifted right by `8 * n` bits. */
  function Shifted(val: nat, n: nat): (r: nat) {
    if n == 0 then val else Shifted(val / 256, n - 1)
  }

  lemma {:induction false} ByteAt(val: nat, len: nat, i: nat)
    requires i < len
    ensures Bytes(val, len)[i] == Shifted(val, len - i - 1) % 256
  {
    if i < len - 1 {
      ByteAt(val / 256, len - 1, i);
    }
  }

  // ---------- bits and bytes of headers ----------

  /** Whether the bit with the value `bit` is set. */
  predicate HasBit(n: nat, bit: nat)
    requires bit > 0
  {
    n / bit % 2 == 1
  }

  function Zeros(n: nat): (s: seq<Byte>) {
    seq<Byte>(n, i => 0)
  }

  lemma ZerosSkipped(n: nat, rest: seq<Byte>)
    ensures Parser(Zeros(n) + rest, NoError).RemovePrefix(n) == Parser(rest, NoError)
  {
    assert (Zeros(n) + rest)[n..] == rest;
  }

  lemma WordOfBytes(x: U16)
    ensures WordSum(Bytes(x, 2), false) == x
  {
    assert Bytes(x, 2) == [x / 256 % 256, x % 256];
    assert Bytes(x, 2)[1..] == [x % 256];
    assert WordSum([x % 256], true) == x % 256;
  }

  /** The checksum field takes up one whole word, so its value adds to the sum as it is. */
  lemma FieldAddsUp(front: seq<Byte>, x: U16, tail: seq<Byte>)
    requires |front| % 2 == 0
    ensures WordSum(front + Bytes(x, 2) + tail, false) == WordSum(front + Bytes(0, 2) + tail, false) + x
  {
    WordOfBytes(x);
    WordOfBytes(0);
    hide WordSum, Bytes;
    WordSumAppend(front + Bytes(x, 2), tail, false);
    WordSumAppend(front, Bytes(x, 2), false);
    WordSumAppend(front + Bytes(0, 2), tail, false);
    WordSumAppend(front, Bytes(0, 2), false);
  }
}
