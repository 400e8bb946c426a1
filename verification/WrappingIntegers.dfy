/** 32-bit sequence numbers on the wire and the 64-bit numbers they stand for
    (section 3.3 of RFC 793). */
module WrappingIntegers {

  const TWO31: int := 0x8000_0000
  const TWO32: int := 0x1_0000_0000
  const TWO64: int := 0x1_0000_0000_0000_0000

  /** A raw 32-bit value. */
  type U32 = n: int | 0 <= n < TWO32

  /** Subtraction of unsigned 64-bit integers, which wraps below zero. */
  function Sub64(a: int, b: int): (r: nat) {
    (a - b) % TWO64
  }

  lemma Sub64Exact(a: nat, b: nat)
    requires b <= a < TWO64
    ensures Sub64(a, b) == a - b
  {
  }

  lemma Sub64Wraps(a: nat, b: nat)
    requires a < b <= TWO64
    ensures Sub64(a, b) == TWO64 + a - b
  {
  }

  function Distance(a: int, b: int): (d: nat) {
    if a < b then b - a else a - b
  }

  function Wrap(n: nat, isn: U32): (r: U32) {
    ((n + isn) % TWO64) % TWO32
  }

  /** The offset of `n` from `isn` modulo 2^32. */
  function Offset(n: U32, isn: U32): (r: U32) {
    (n - isn) % TWO32
  }

  function Unwrap(n: U32, isn: U32, checkpoint: nat): (r: nat) {
    var a := Offset(n, isn);
    var offset := checkpoint % TWO32;
    var base := checkpoint / TWO32;
    var base' :=
      if a >= offset && a - offset >= TWO31 && checkpoint >= TWO32 then base - 1
      else if a < offset && offset - a >= TWO31 then base + 1
      else base;
    (base' * TWO32 + a) % TWO64
  }

  /** `v` is a 64-bit number that wraps to `n`, and no other one is nearer to `checkpoint`. */
  ghost predicate IsNearest(v: nat, n: U32, isn: U32, checkpoint: nat) {
    && v < TWO64
    && Wrap(v, isn) == n
    && forall u: nat | u < TWO64 && Wrap(u, isn) == n :: Distance(v, checkpoint) <= Distance(u, checkpoint)
  }

  /** The one case in which stepping to the next multiple of 2^32 leaves the 64-bit range. */
  predicate StepsPastTop(n: U32, isn: U32, checkpoint: nat) {
    && checkpoint / TWO32 == TWO32 - 1
    && checkpoint % TWO32 - Offset(n, isn) >= TWO31
  }

  /** The numbers that wrap to `n` are those congruent to its offset from `isn`. */
  lemma WrapIsCongruence(u: nat, n: U32, isn: U32)
    ensures Wrap(u, isn) == n <==> u % TWO32 == Offset(n, isn)
  {
    assert Wrap(u, isn) == (u + isn) % TWO32 by {
      var s := u + isn;
      assert s == TWO64 * (s / TWO64) + s % TWO64;
      assert s == TWO32 * (TWO32 * (s / TWO64) + (s % TWO64) / TWO32) + (s % TWO64) % TWO32;
      ModUnique(s, TWO32 * (s / TWO64) + (s % TWO64) / TWO32, (s % TWO64) % TWO32);
    }
    assert u == TWO32 * (u / TWO32) + u % TWO32;
    var r := u % TWO32 + isn;
    if r < TWO32 {
      ModUnique(u + isn, u / TWO32, r);
    } else {
      ModUnique(u + isn, u / TWO32 + 1, r - TWO32);
    }
    if n >= isn {
      ModUnique(n - isn, 0, n - isn);
    } else {
      ModUnique(n - isn, -1, n - isn + TWO32);
    }
  }

  lemma ModUnique(x: int, q: int, r: int)
    requires x == TWO32 * q + r && 0 <= r < TWO32
    ensures x % TWO32 == r && x / TWO32 == q
  {
  }

  /** The value of `Unwrap` before reduction modulo 2^64. */
  lemma UnwrapValue(n: U32, isn: U32, checkpoint: nat)
    requires checkpoint < TWO64
    ensures var v := Unwrap(n, isn, checkpoint);
            && v < TWO64
            && v % TWO32 == Offset(n, isn)
            && (!StepsPastTop(n, isn, checkpoint) ==>
                  || Distance(v, checkpoint) <= TWO31
                  || (checkpoint < TWO32 && v >= checkpoint && v < TWO32))
            && (StepsPastTop(n, isn, checkpoint) ==> v == Offset(n, isn))
  {
    var a := Offset(n, isn);
    var offset := checkpoint % TWO32;
    var base := checkpoint / TWO32;
    assert checkpoint == TWO32 * base + offset;
    if a >= offset && a - offset >= TWO31 && checkpoint >= TWO32 {
      assert base >= 1;
      ModUnique((base - 1) * TWO32 + a, base - 1, a);
    } else if a < offset && offset - a >= TWO31 {
      ModUnique((base + 1) * TWO32 + a, base + 1, a);
      ModUnique(a, 0, a);
    } else {
      ModUnique(base * TWO32 + a, base, a);
    }
  }

  lemma UnwrapWrapsBack(n: U32, isn: U32, checkpoint: nat)
    requires checkpoint < TWO64
    ensures Wrap(Unwrap(n, isn, checkpoint), isn) == n
  {
    UnwrapValue(n, isn, checkpoint);
    WrapIsCongruence(Unwrap(n, isn, checkpoint), n, isn);
  }

  /** Two numbers in the same residue class are equal or at least 2^32 apart. */
  lemma ResiduesApart(u: nat, v: nat)
    requires u % TWO32 == v % TWO32
    ensures u == v || Distance(u, v) >= TWO32
  {
    assert u == TWO32 * (u / TWO32) + u % TWO32;
    assert v == TWO32 * (v / TWO32) + v % TWO32;
  }

  /** `Unwrap` finds the nearest candidate for every 64-bit checkpoint, except in the last
      stretch of 2^32 numbers when the nearest multiple lies past the top of the range. */
  lemma UnwrapNearest(n: U32, isn: U32, checkpoint: nat)
    requires checkpoint < TWO64
    ensures IsNearest(Unwrap(n, isn, checkpoint), n, isn, checkpoint) <==> !StepsPastTop(n, isn, checkpoint)
  {
    var v := Unwrap(n, isn, checkpoint);
    UnwrapValue(n, isn, checkpoint);
    UnwrapWrapsBack(n, isn, checkpoint);
    if StepsPastTop(n, isn, checkpoint) {
      var u := TWO64 - TWO32 + Offset(n, isn);
      ModUnique(u, TWO32 - 1, Offset(n, isn));
      WrapIsCongruence(u, n, isn);
      assert checkpoint == TWO32 * (checkpoint / TWO32) + checkpoint % TWO32;
      assert Distance(u, checkpoint) < TWO32 <= Distance(v, checkpoint);
    } else {
      forall u: nat | u < TWO64 && Wrap(u, isn) == n
        ensures Distance(v, checkpoint) <= Distance(u, checkpoint)
      {
        WrapIsCongruence(u, n, isn);
        ResiduesApart(u, v);
      }
    }
  }

  /** Unwrapping undoes wrapping for any number within 2^31 of the checkpoint, up to the very top
      of the 64-bit range. */
  lemma UnwrapWrap(v: nat, isn: U32, checkpoint: nat)
    requires v < TWO64 && checkpoint < TWO64
    requires Distance(v, checkpoint) < TWO31
    ensures Unwrap(Wrap(v, isn), isn, checkpoint) == v
  {
    var n := Wrap(v, isn);
    var u := Unwrap(n, isn, checkpoint);
    WrapIsCongruence(v, n, isn);
    UnwrapValue(n, isn, checkpoint);
    if StepsPastTop(n, isn, checkpoint) {
      assert checkpoint == TWO32 * (checkpoint / TWO32) + checkpoint % TWO32;
      var w := TWO64 - TWO32 + Offset(n, isn);
      ModUnique(w, TWO32 - 1, Offset(n, isn));
      ResiduesApart(v, w);
      assert false;
    }
    ResiduesApart(u, v);
  }

  /** A concrete checkpoint at the top of the range for which the result is 2^64 - 1 away. */
  lemma UnwrapAtTheTop()
    ensures Unwrap(0, 0, TWO64 - 1) == 0
    ensures Wrap(TWO64 - TWO32, 0) == 0 && Distance(TWO64 - TWO32, TWO64 - 1) == TWO32 - 1
    ensures !IsNearest(Unwrap(0, 0, TWO64 - 1), 0, 0, TWO64 - 1)
  {
    UnwrapNearest(0, 0, TWO64 - 1);
  }
}
