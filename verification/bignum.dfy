/** Integers written as byte strings: the big-endian unsigned reading used by
    CBOR bignums (section 2.4.2 of RFC 7049) and the little-endian two's
    complement reading of the arbitrary-precision integer library. */
module ByteIntegers {

  import opened Powers

  type byte = x: int | 0 <= x < 256

  /** The big-endian unsigned value of a byte string: the bignum content `n`. */
  function BEValue(s: seq<byte>): int {
    if s == [] then 0 else BEValue(s[..|s| - 1]) * 256 + s[|s| - 1]
  }

  /** The little-endian unsigned value of a byte string. */
  function LEUnsigned(s: seq<byte>): int {
    if s == [] then 0 else s[0] + 256 * LEUnsigned(s[1..])
  }

  /** The little-endian two's complement value: the top bit of the last byte is
      the sign, and an empty string is zero. */
  function TwosComplementLE(s: seq<byte>): int {
    LEUnsigned(s) - (if |s| > 0 && s[|s| - 1] >= 128 then Pow(256, |s|) else 0)
  }

  lemma {:induction false} BEValueRange(s: seq<byte>)
    ensures 0 <= BEValue(s) < Pow(256, |s|)
  {
    if s != [] {
      BEValueRange(s[..|s| - 1]);
    }
  }

  lemma {:induction false} LEUnsignedRange(s: seq<byte>)
    ensures 0 <= LEUnsigned(s) < Pow(256, |s|)
  {
    if s != [] {
      LEUnsignedRange(s[1..]);
    }
  }

  /** One more byte, most significant, in little-endian order. */
  lemma {:induction false} LEUnsignedAppend(s: seq<byte>, x: byte)
    ensures LEUnsigned(s + [x]) == LEUnsigned(s) + x * Pow(256, |s|)
  {
    if s == [] {
      assert [x][1..] == [];
    } else {
      assert (s + [x])[1..] == s[1..] + [x];
      LEUnsignedAppend(s[1..], x);
    }
  }

  /** Reading the reversal of `s` little-endian gives the big-endian value of
      `s`; reading the reversed complement gives `256^|s| - 1` minus it. */
  lemma {:induction false} ReversedBytes(s: seq<byte>, t: seq<byte>, complement: bool)
    requires |t| == |s|
    requires forall i :: 0 <= i < |s| ==>
      t[i] == if complement then 255 - s[|s| - 1 - i] else s[|s| - 1 - i]
    ensures LEUnsigned(t) == if complement then Pow(256, |s|) - 1 - BEValue(s) else BEValue(s)
  {
    if s != [] {
      var init := s[..|s| - 1];
      forall i | 0 <= i < |init|
        ensures t[1..][i] == if complement then 255 - init[|init| - 1 - i] else init[|init| - 1 - i]
      {
        assert t[1..][i] == t[i + 1];
      }
      ReversedBytes(init, t[1..], complement);
    }
  }
}
