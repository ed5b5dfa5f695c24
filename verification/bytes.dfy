/** Byte-level number formats used by the wire protocol: unsigned big-endian
    integers (the default byte order of java.nio.ByteBuffer) and the two's
    complement reading of them that Java's signed `byte`, `int` and `long` apply. */
module Bytes {

  /** One octet of a datagram, as its unsigned value. */
  type byte = x: int | 0 <= x < 256

  const TWO_31: int := 0x8000_0000
  const TWO_32: int := 0x1_0000_0000
  const TWO_63: int := 0x8000_0000_0000_0000
  const TWO_64: int := 0x1_0000_0000_0000_0000

  /** Java `int`. */
  type int32 = x: int | -TWO_31 <= x < TWO_31

  /** The IEEE 754 bit pattern of a Java `float`, read as an unsigned number and
      never interpreted as a floating-point value. */
  type FloatBits = x: int | 0 <= x < TWO_32

  /** Java `long`. */
  type int64 = x: int | -TWO_63 <= x < TWO_63

  /** Number of distinct values of an unsigned integer `n` bytes wide. */
  function Pow256(n: nat): (r: nat)
    ensures r > 0
  {
    if n == 0 then 1 else 256 * Pow256(n - 1)
  }

  /** Half the range of a signed integer `width` bytes wide: its bound in magnitude. */
  function HalfRange(width: nat): (r: nat)
    requires width > 0
    ensures 2 * r == Pow256(width)
  {
    128 * Pow256(width - 1)
  }

  lemma WidthBounds()
    ensures Pow256(4) == TWO_32 && HalfRange(4) == TWO_31
    ensures Pow256(8) == TWO_64 && HalfRange(8) == TWO_63
  {
  }

  /** Unsigned value of a big-endian byte string: the first byte is the most significant. */
  function BeUint(s: seq<byte>): (r: nat)
    ensures r < Pow256(|s|)
  {
    if |s| == 0 then 0 else BeUint(s[..|s| - 1]) * 256 + s[|s| - 1]
  }

  /** The `len` bytes that hold `n` big-endian. */
  function BeBytes(n: nat, len: nat): (r: seq<byte>)
    requires n < Pow256(len)
    ensures |r| == len
  {
    if len == 0 then [] else BeBytes(n / 256, len - 1) + [n % 256]
  }

  lemma {:induction false} BeUintOfBeBytes(n: nat, len: nat)
    requires n < Pow256(len)
    ensures BeUint(BeBytes(n, len)) == n
  {
    if len > 0 {
      var high, low := n / 256, n % 256;
      var s := BeBytes(n, len);
      assert s[..len - 1] == BeBytes(high, len - 1);
      assert s[len - 1] == low;
      BeUintOfBeBytes(high, len - 1);
      assert BeUint(s) == high * 256 + low;
    }
  }

  lemma {:induction false} BeBytesOfBeUint(s: seq<byte>)
    ensures BeBytes(BeUint(s), |s|) == s
  {
    if |s| > 0 {
      var n := BeUint(s);
      var init := s[..|s| - 1];
      assert n / 256 == BeUint(init);
      assert n % 256 == s[|s| - 1];
      BeBytesOfBeUint(init);
      assert s == init + [s[|s| - 1]];
    }
  }

  /** A big-endian number is zero exactly when every byte of it is. */
  lemma {:induction false} BeUintZero(s: seq<byte>)
    ensures BeUint(s) == 0 <==> forall i | 0 <= i < |s| :: s[i] == 0
  {
    if |s| > 0 {
      var init := s[..|s| - 1];
      BeUintZero(init);
      assert (forall i | 0 <= i < |s| :: s[i] == 0)
        <==> (forall i | 0 <= i < |init| :: init[i] == 0) && s[|s| - 1] == 0;
    }
  }

  /** Two's complement value of a big-endian byte string, as Java's `ByteBuffer`
      reads a signed integer of that width. */
  function SignedOf(s: seq<byte>): (r: int)
    requires |s| > 0
    ensures -(HalfRange(|s|) as int) <= r < HalfRange(|s|)
    ensures r >= 0 <==> BeUint(s) < HalfRange(|s|)
    ensures r == BeUint(s) || r == BeUint(s) - Pow256(|s|)
  {
    var u := BeUint(s);
    if u < HalfRange(|s|) then u else u - Pow256(|s|)
  }

  /** The `width` bytes that hold the signed value `i` in two's complement, big-endian. */
  function SignedBytes(i: int, width: nat): (r: seq<byte>)
    requires width > 0 && -(HalfRange(width) as int) <= i < HalfRange(width)
    ensures |r| == width
  {
    BeBytes(if i < 0 then i + Pow256(width) else i, width)
  }

  lemma SignedOfSignedBytes(i: int, width: nat)
    requires width > 0 && -(HalfRange(width) as int) <= i < HalfRange(width)
    ensures SignedOf(SignedBytes(i, width)) == i
  {
    BeUintOfBeBytes(if i < 0 then i + Pow256(width) else i, width);
  }

  lemma SignedBytesOfSignedOf(s: seq<byte>)
    requires |s| > 0
    ensures SignedBytes(SignedOf(s), |s|) == s
  {
    BeBytesOfBeUint(s);
  }

  /** Java's widening of a signed `byte` to `int`. */
  function ByteValue(b: byte): (r: int)
    ensures -128 <= r < 128
    ensures r == SignedOf([b])
  {
    if b < 0x80 then b else b - 256
  }

  /** Java `int` addition and narrowing: the value of `x` modulo 2^32, in the `int` range. */
  function Wrap32(x: int): (r: int32)
    ensures (r - x) % TWO_32 == 0
    ensures -TWO_31 <= x < TWO_31 ==> r == x
  {
    (x + TWO_31) % TWO_32 - TWO_31
  }

}
