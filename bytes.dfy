/** Little-endian, two's complement encoding of fixed-width integers.
    The encoders copy the native memory of `int64_t` and `int32_t` fields,
    and the ESP32 is little-endian: the least significant byte comes first. */
module Bytes {

  /** 256^n: the number of distinct values of n bytes. */
  function Pow256(n: nat): (r: nat)
    ensures r > 0
  {
    if n == 0 then 1 else 256 * Pow256(n - 1)
  }

  /** Half the range of n bytes: the bound of an n-byte signed integer. */
  function Half(n: nat): nat
    requires n > 0
  {
    128 * Pow256(n - 1)
  }

  /** v fits in a signed integer of n bytes. */
  predicate InSignedRange(v: int, n: nat)
    requires n > 0
  {
    -(Half(n) as int) <= v < Half(n)
  }

  /** An unsigned 8-bit value: the source's `byte` (`uint8_t`). */
  newtype Byte = b: int | 0 <= b < 256

  type Int64 = v: int | -0x8000_0000_0000_0000 <= v < 0x8000_0000_0000_0000
  type Int32 = v: int | -0x8000_0000 <= v < 0x8000_0000

  lemma WidthBounds()
    ensures Half(4) == 0x8000_0000
    ensures Half(8) == 0x8000_0000_0000_0000
  {
    assert Pow256(3) == 0x100_0000;
    assert Pow256(7) == 0x100_0000_0000_0000;
  }

  /** The n low-order bytes of u, least significant first. */
  function UnsignedLE(u: nat, n: nat): (r: seq<Byte>)
    ensures |r| == n
  {
    if n == 0 then [] else [(u % 256) as Byte] + UnsignedLE(u / 256, n - 1)
  }

  /** The unsigned value of a little-endian byte string. */
  function UnsignedValue(s: seq<Byte>): (v: nat)
    ensures v < Pow256(|s|)
  {
    if s == [] then 0 else s[0] as int + 256 * UnsignedValue(s[1..])
  }

  /** The n-byte two's complement representation of v. */
  function SignedLE(v: int, n: nat): (r: seq<Byte>)
    requires n > 0 && InSignedRange(v, n)
    ensures |r| == n
  {
    UnsignedLE(if v < 0 then v + Pow256(n) else v, n)
  }

  /** The signed value of a little-endian two's complement byte string. */
  function SignedValue(s: seq<Byte>): (v: int)
    requires |s| > 0
    ensures InSignedRange(v, |s|)
  {
    var u := UnsignedValue(s);
    if u < Half(|s|) then u else u - Pow256(|s|)
  }

  lemma {:induction false} UnsignedRoundTrip(u: nat, n: nat)
    requires u < Pow256(n)
    ensures UnsignedValue(UnsignedLE(u, n)) == u
  {
    if n > 0 {
      var r := UnsignedLE(u, n);
      var low := u % 256;
      assert r[1..] == UnsignedLE(u / 256, n - 1);
      UnsignedRoundTrip(u / 256, n - 1);
      assert u == low + 256 * (u / 256);
    }
  }

  /** A value below 256 * 256 occupies the two low-order bytes; the rest are zero. */
  lemma {:induction false} UnsignedLEOfSmall(u: nat, n: nat)
    requires u < 256 * 256 && n >= 2
    ensures UnsignedLE(u, n) == [(u % 256) as Byte, (u / 256) as Byte] + seq(n - 2, _ => 0 as Byte)
  {
    assert UnsignedLE(u, n) == [(u % 256) as Byte] + UnsignedLE(u / 256, n - 1);
    assert UnsignedLE(u / 256, n - 1) == [(u / 256) as Byte] + UnsignedLE(0, n - 2);
    UnsignedLEOfZero(n - 2);
  }

  lemma {:induction false} UnsignedLEOfZero(n: nat)
    ensures UnsignedLE(0, n) == seq(n, _ => 0 as Byte)
  {
    if n > 0 {
      UnsignedLEOfZero(n - 1);
    }
  }

  /** Decoding the encoding of an in-range integer gives the integer back. */
  lemma SignedRoundTrip(v: int, n: nat)
    requires n > 0 && InSignedRange(v, n)
    ensures SignedValue(SignedLE(v, n)) == v
  {
    UnsignedRoundTrip(if v < 0 then v + Pow256(n) else v, n);
  }

  /** Two integers of the same width have the same encoding only if they are equal. */
  lemma SignedInjective(v: int, w: int, n: nat)
    requires n > 0 && InSignedRange(v, n) && InSignedRange(w, n)
    requires SignedLE(v, n) == SignedLE(w, n)
    ensures v == w
  {
    SignedRoundTrip(v, n);
    SignedRoundTrip(w, n);
  }
}
