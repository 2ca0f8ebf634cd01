/** UTF-16 as section 2.2 of RFC 2781 defines it: surrogate pairs, the encoding
    of a scalar value, well-formed code unit strings, and the paired reading of
    a string the C# tokenizer performs. */
module Utf16 {

  import opened Utf8

  type unit16 = x: int | 0 <= x < 0x10000

  predicate IsHigh(u: int) {
    0xD800 <= u <= 0xDBFF
  }

  predicate IsLow(u: int) {
    0xDC00 <= u <= 0xDFFF
  }

  predicate IsSurrogate(u: int) {
    0xD800 <= u <= 0xDFFF
  }

  /** The code point a high and a low surrogate stand for together. */
  function Combine(hi: int, lo: int): int {
    0x10000 + (hi - 0xD800) * 0x400 + (lo - 0xDC00)
  }

  /** The UTF-16 encoding of a scalar value. The high unit is the top ten bits of
      `c - 0x10000` and the low unit its bottom ten bits; for a scalar value the
      source's masking with 0x3FF of the top ten bits changes nothing. */
  function Encode16(c: int): (e: seq<unit16>)
    requires IsScalar(c)
    ensures |e| == if c <= 0xFFFF then 1 else 2
  {
    if c <= 0xFFFF then [c]
    else [0xD800 + (c - 0x10000) / 0x400, 0xDC00 + (c - 0x10000) % 0x400]
  }

  lemma Encode16Parts(c: int)
    requires IsScalar(c)
    ensures c <= 0xFFFF ==> !IsSurrogate(Encode16(c)[0])
    ensures c > 0xFFFF ==> IsHigh(Encode16(c)[0]) && IsLow(Encode16(c)[1])
    ensures c > 0xFFFF ==> Combine(Encode16(c)[0], Encode16(c)[1]) == c
  {
  }

  /** Every high surrogate is followed by a low one and every low surrogate
      follows a high one. */
  predicate WellFormed16(u: seq<unit16>) {
    && (forall i :: 0 <= i < |u| && IsHigh(u[i]) ==> i + 1 < |u| && IsLow(u[i + 1]))
    && (forall i :: 0 <= i < |u| && IsLow(u[i]) ==> 0 < i && IsHigh(u[i - 1]))
  }

  lemma WellFormedAppend(u: seq<unit16>, c: int)
    requires WellFormed16(u)
    requires IsScalar(c)
    ensures WellFormed16(u + Encode16(c))
  {
    Encode16Parts(c);
    var v := u + Encode16(c);
    forall i | 0 <= i < |v| && IsLow(v[i]) ensures 0 < i && IsHigh(v[i - 1]) {
      if i < |u| {
        assert v[i] == u[i];
      }
    }
  }

  /** Reads one code point of a string at `p`, as the C# tokenizer does: a high
      surrogate immediately followed by a low one is combined and both are
      consumed, any other surrogate is an error, and every other unit is itself. */
  function PairedCharAt(u: seq<unit16>, p: nat): (r: Decoded)
    ensures r.Char? ==> p < r.next <= |u|
  {
    if p >= |u| then Eof
    else if IsHigh(u[p]) && p + 1 < |u| && IsLow(u[p + 1]) then Char(Combine(u[p], u[p + 1]), p + 2)
    else if IsSurrogate(u[p]) then Invalid
    else Char(u[p], p + 1)
  }

  /** The paired reading yields only scalar values, each exactly as encoded. */
  lemma PairedCharIsEncoding(u: seq<unit16>, p: nat)
    requires PairedCharAt(u, p).Char?
    ensures IsScalar(PairedCharAt(u, p).c)
    ensures u[p..PairedCharAt(u, p).next] == Encode16(PairedCharAt(u, p).c)
  {
    var r := PairedCharAt(u, p);
    if r.next == p + 2 {
      var c := r.c;
      assert (c - 0x10000) / 0x400 == u[p] - 0xD800;
      assert (c - 0x10000) % 0x400 == u[p + 1] - 0xDC00;
      assert u[p..p + 2] == [u[p], u[p + 1]];
    } else {
      assert u[p..p + 1] == [u[p]];
    }
  }

  /** The encoding of a scalar value is read back as that value. */
  lemma PairedCharOfEncoding(c: int, u: seq<unit16>, p: nat)
    requires IsScalar(c)
    requires p + |Encode16(c)| <= |u|
    requires u[p..p + |Encode16(c)|] == Encode16(c)
    ensures PairedCharAt(u, p) == Char(c, p + |Encode16(c)|)
  {
    Encode16Parts(c);
    assert u[p] == u[p..p + |Encode16(c)|][0];
    if c > 0xFFFF {
      assert u[p + 1] == u[p..p + 2][1];
    }
  }

  /** The bits 10 to 20 of a natural number, which is what masking it with
      0x1FFC00 keeps. */
  function Mask1FFC00(c: nat): nat {
    (c / 0x400) % 0x800 * 0x400
  }

  /** In 32-bit arithmetic the mask is the same division, remainder and
      multiplication that `Mask1FFC00` performs on naturals. */
  lemma MaskIsBitwiseAnd(c: bv32)
    ensures (c & 0x1FFC00) == ((c / 0x400) % 0x800) * 0x400
  {
  }

  /** Below 0x200000 the mask singles out exactly the high surrogates (0xD800)
      and the low surrogates (0xDC00). */
  lemma MaskClassifiesSurrogates(c: nat)
    requires c < 0x200000
    ensures Mask1FFC00(c) == 0xD800 <==> IsHigh(c)
    ensures Mask1FFC00(c) == 0xDC00 <==> IsLow(c)
  {
  }
}
