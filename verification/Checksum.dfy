/** The Internet checksum (RFC 1071). */
module Checksums {
  import opened ByteStreams
  import opened WrappingIntegers
  import opened TcpSegments

  datatype Checksum = Checksum(sum: U32, parity: bool) {

    function AddByte(b: Byte): (c: Checksum) {
      Checksum((sum + if parity then b else 256 * b) % TWO32, !parity)
    }

    function Add(data: seq<Byte>): (c: Checksum)
      decreases data
    {
      if data == [] then this else AddByte(data[0]).Add(data[1..])
    }

    function Value(): (v: U16) {
      0xffff - Fold(sum)
    }
  }

  /** Adds the upper half to the lower until nothing is left above 16 bits. */
  function Fold(n: nat): (r: nat)
    ensures r <= 0xffff
  {
    if n > 0xffff then Fold(n / 0x1_0000 + n % 0x1_0000) else n
  }

  // ---------- what is added up ----------

  /** The sum of the big-endian 16-bit words of `data`, the first byte being the low half of a word if
      `odd`, and a missing last byte counting as zero. */
  function WordSum(data: seq<Byte>, odd: bool): (n: nat)
    decreases data
  {
    if data == [] then 0 else (if odd then data[0] else 256 * data[0]) + WordSum(data[1..], !odd)
  }

  /** Whether the byte after `data` is the low half of a word. */
  function OddAfter(data: seq<Byte>, odd: bool): (b: bool) {
    odd != (|data| % 2 == 1)
  }

  lemma {:induction false} WordSumAppend(a: seq<Byte>, b: seq<Byte>, odd: bool)
    ensures WordSum(a + b, odd) == WordSum(a, odd) + WordSum(b, OddAfter(a, odd))
    decreases a
  {
    if a == [] {
      assert a + b == b;
    } else {
      assert (a + b)[1..] == a[1..] + b;
      WordSumAppend(a[1..], b, !odd);
    }
  }

  lemma {:induction false} WordSumBound(data: seq<Byte>, odd: bool)
    ensures 2 * WordSum(data, odd) <= 65535 * |data| + if odd then 0 else 65025
    decreases data
  {
    if data != [] {
      WordSumBound(data[1..], !odd);
    }
  }

  /** The checksum adds up the words of the data, modulo 2^32. */
  lemma {:induction false} AddIsWordSum(c: Checksum, data: seq<Byte>)
    ensures c.Add(data) == Checksum((c.sum + WordSum(data, c.parity)) % TWO32, OddAfter(data, c.parity))
    decreases data
  {
    if data != [] {
      AddIsWordSum(c.AddByte(data[0]), data[1..]);
      var w: nat := data[0];
      AddMod(c.sum + if c.parity then w else 256 * w, WordSum(data[1..], !c.parity));
    }
  }

  lemma AddMod(a: nat, b: nat)
    ensures (a % TWO32 + b) % TWO32 == (a + b) % TWO32
  {
  }

  lemma AddExact(c: Checksum, data: seq<Byte>)
    requires c.sum + WordSum(data, c.parity) < TWO32
    ensures c.Add(data) == Checksum(c.sum + WordSum(data, c.parity), OddAfter(data, c.parity))
  {
    AddIsWordSum(c, data);
  }

  /** How the bytes are split between calls makes no difference. */
  lemma {:induction false} AddSplit(c: Checksum, a: seq<Byte>, b: seq<Byte>)
    ensures c.Add(a + b) == c.Add(a).Add(b)
    decreases a
  {
    if a == [] {
      assert a + b == b;
    } else {
      assert (a + b)[1..] == a[1..] + b;
      AddSplit(c.AddByte(a[0]), a[1..], b);
    }
  }

  // ---------- the fold ----------

  /** Folding keeps the value modulo 65535, and only zero folds to zero. */
  lemma {:induction false} FoldKeepsSum(n: nat)
    ensures Fold(n) % 65535 == n % 65535
    ensures Fold(n) == 0 <==> n == 0
  {
    if n > 0xffff {
      var q, r := n / 0x1_0000, n % 0x1_0000;
      FoldKeepsSum(q + r);
      SameResidue(q + r, q);
    }
  }

  lemma SameResidue(m: nat, q: nat)
    ensures (m + 65535 * q) % 65535 == m % 65535
  {
  }

  /** The checksum comes out as zero exactly when the words add up to a positive multiple of 65535. */
  lemma ValueZero(c: Checksum)
    ensures c.Value() == 0 <==> c.sum > 0 && c.sum % 65535 == 0
  {
    FoldKeepsSum(c.sum);
  }

  /** Adding the checksum of a sum to it makes it come out as zero. */
  lemma ValueCompletes(c: Checksum, d: Checksum)
    requires d.sum == c.sum + c.Value()
    ensures d.Value() == 0
  {
    FoldKeepsSum(c.sum);
    FoldKeepsSum(d.sum);
    var f, g := Fold(c.sum), Fold(d.sum);
    hide Fold;
    Complement(c.sum, f);
    OnlyMultiple(g);
  }

  lemma OnlyMultiple(g: nat)
    requires g % 65535 == 0 && 0 < g <= 65535
    ensures g == 65535
  {
  }

  lemma Complement(s: nat, f: nat)
    requires f <= 65535 && f % 65535 == s % 65535
    ensures (s + (65535 - f)) % 65535 == 0
  {
    var k := s / 65535;
    assert s == 65535 * k + s % 65535;
    if f == 65535 {
      assert s % 65535 == 0;
    } else {
      assert s % 65535 == f;
      assert s + (65535 - f) == 65535 * (k + 1);
    }
  }

  // ---------- the class ----------

  class InternetChecksum {
    var sum: U32
    var parity: bool

    ghost function View(): (c: Checksum)
      reads this
    {
      Checksum(sum, parity)
    }

    constructor (initialSum: U32)
      ensures View() == Checksum(initialSum, false)
    {
      sum := initialSum;
      parity := false;
    }

    method Add(data: seq<Byte>)
      modifies this
      ensures View() == old(View()).Add(data)
    {
      for i := 0 to |data|
        invariant View().Add(data[i..]) == old(View()).Add(data)
      {
        var val: U16 := data[i];
        if !parity {
          val := 256 * val;
        }
        sum := (sum + val) % TWO32;
        parity := !parity;
        assert data[i..][1..] == data[i + 1..];
      }
    }

    method Value() returns (v: U16)
      ensures v == View().Value()
    {
      var ret: U32 := sum;
      while ret > 0xffff
        invariant Fold(ret) == Fold(sum)
        decreases ret
      {
        ret := ret / 0x1_0000 + ret % 0x1_0000;
      }
      return 0xffff - ret;
    }
  }
}
