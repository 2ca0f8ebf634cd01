/** UTF-8 as section 4 of RFC 3629 defines it: the table of well-formed byte
    sequences, the encoding of a scalar value, and the byte-at-a-time decoder
    both tokenizers use to read a stream. */
module Utf8 {

  import opened ByteIntegers

  /** A Unicode scalar value: a code point that is not a surrogate. */
  predicate IsScalar(c: int) {
    0 <= c <= 0x10FFFF && !(0xD800 <= c <= 0xDFFF)
  }

  /** The outcome of reading one character at a position: the end of the input,
      a character and the position after it, or malformed input. */
  datatype Decoded = Eof | Char(c: int, next: nat) | Invalid

  /** The number of continuation bytes a lead byte announces, or -1 when the
      byte cannot start a well-formed sequence. */
  function Needed(b: byte): int {
    if b <= 0x7F then 0
    else if 0xC2 <= b <= 0xDF then 1
    else if 0xE0 <= b <= 0xEF then 2
    else if 0xF0 <= b <= 0xF4 then 3
    else -1
  }

  /** The payload bits of a lead byte. */
  function LeadBits(b: byte): int {
    if b <= 0xDF then b - 0xC0 else if b <= 0xEF then b - 0xE0 else b - 0xF0
  }

  /** The smallest allowed value of continuation byte `k` (counting from 1) after
      lead byte `b`: only the first continuation byte has narrowed bounds. */
  function ContLower(b: byte, k: nat): int {
    if k == 1 && b == 0xE0 then 0xA0 else if k == 1 && b == 0xF0 then 0x90 else 0x80
  }

  function ContUpper(b: byte, k: nat): int {
    if k == 1 && b == 0xED then 0x9F else if k == 1 && b == 0xF4 then 0x8F else 0xBF
  }

  /** Continuation byte `k` of the sequence starting at `p` is present and in range. */
  predicate ContOk(s: seq<byte>, p: nat, k: nat) {
    p < |s| && p + k < |s| && ContLower(s[p], k) <= s[p + k] <= ContUpper(s[p], k)
  }

  /** Continuation bytes 1 to `n` (at most 3) are all present and in range. */
  predicate ContsOk(s: seq<byte>, p: nat, n: int) {
    && (n < 1 || ContOk(s, p, 1))
    && (n < 2 || ContOk(s, p, 2))
    && (n < 3 || ContOk(s, p, 3))
  }

  /** `64^j` for the shifts of the decoder. */
  function Pow64(j: int): int {
    if j <= 0 then 1 else if j == 1 then 64 else if j == 2 then 4096 else 262144
  }

  /** The code point bits gathered from the lead byte and the first `k` of the
      `n` continuation bytes of the sequence at `p`. */
  function Assemble(s: seq<byte>, p: nat, n: nat, k: nat): int
    requires p + k < |s|
  {
    if n == 1 then
      LeadBits(s[p]) * 64 + (if k >= 1 then s[p + 1] as int - 0x80 else 0)
    else if n == 2 then
      LeadBits(s[p]) * 4096
      + (if k >= 1 then (s[p + 1] as int - 0x80) * 64 else 0)
      + (if k >= 2 then s[p + 2] as int - 0x80 else 0)
    else if n == 3 then
      LeadBits(s[p]) * 262144
      + (if k >= 1 then (s[p + 1] as int - 0x80) * 4096 else 0)
      + (if k >= 2 then (s[p + 2] as int - 0x80) * 64 else 0)
      + (if k >= 3 then s[p + 3] as int - 0x80 else 0)
    else LeadBits(s[p])
  }

  /** The table of well-formed UTF-8 sequences, read at position `p`. */
  function DecodeAt(s: seq<byte>, p: nat): Decoded {
    if p >= |s| then Eof
    else
      var n := Needed(s[p]);
      if n == 0 then Char(s[p], p + 1)
      else if n < 0 then Invalid
      else if ContsOk(s, p, n) then
        assert ContOk(s, p, n);
        Char(Assemble(s, p, n, n), p + n + 1)
      else Invalid
  }

  /** The UTF-8 encoding of a scalar value. */
  function Encode(c: int): (e: seq<byte>)
    requires IsScalar(c)
    ensures 1 <= |e| <= 4
  {
    if c < 0x80 then [c]
    else if c < 0x800 then [0xC0 + c / 64, 0x80 + c % 64]
    else if c < 0x10000 then [0xE0 + c / 64 / 64, 0x80 + c / 64 % 64, 0x80 + c % 64]
    else [0xF0 + c / 64 / 64 / 64, 0x80 + c / 64 / 64 % 64, 0x80 + c / 64 % 64, 0x80 + c % 64]
  }

  lemma DivMod64(x: int, q: int, r: int)
    requires x == 64 * q + r && 0 <= r < 64
    ensures x / 64 == q && x % 64 == r
  {
  }

  /** The bytes `s[p..p + |e|]` are `e`. */
  predicate BytesAt(s: seq<byte>, p: nat, e: seq<byte>) {
    p + |e| <= |s| && forall i :: 0 <= i < |e| ==> s[p + i] == e[i]
  }

  lemma DecodeEncodeTwo(c: int, s: seq<byte>, p: nat)
    requires 0x80 <= c < 0x800
    requires BytesAt(s, p, Encode(c))
    ensures DecodeAt(s, p) == Char(c, p + 2)
  {
    var e := Encode(c);
    assert s[p] == e[0] && s[p + 1] == e[1];
    assert ContOk(s, p, 1);
  }

  lemma DecodeEncodeThree(c: int, s: seq<byte>, p: nat)
    requires 0x800 <= c < 0x10000 && IsScalar(c)
    requires BytesAt(s, p, Encode(c))
    ensures DecodeAt(s, p) == Char(c, p + 3)
  {
    var e := Encode(c);
    assert s[p] == e[0] && s[p + 1] == e[1] && s[p + 2] == e[2];
    assert ContOk(s, p, 1);
    assert ContOk(s, p, 2);
  }

  lemma DecodeEncodeFour(c: int, s: seq<byte>, p: nat)
    requires 0x10000 <= c <= 0x10FFFF
    requires BytesAt(s, p, Encode(c))
    ensures DecodeAt(s, p) == Char(c, p + 4)
  {
    var e := Encode(c);
    assert s[p] == e[0] && s[p + 1] == e[1] && s[p + 2] == e[2] && s[p + 3] == e[3];
    assert ContOk(s, p, 1);
    assert ContOk(s, p, 2);
    assert ContOk(s, p, 3);
  }

  /** Every scalar value's encoding is read back as that value. */
  lemma DecodeEncode(c: int, s: seq<byte>, p: nat)
    requires IsScalar(c)
    requires p + |Encode(c)| <= |s|
    requires s[p..p + |Encode(c)|] == Encode(c)
    ensures DecodeAt(s, p) == Char(c, p + |Encode(c)|)
  {
    var e := Encode(c);
    forall i | 0 <= i < |e| ensures s[p + i] == e[i] {
      assert s[p..p + |e|][i] == s[p + i];
    }
    assert BytesAt(s, p, e);
    if c < 0x80 {
    } else if c < 0x800 {
      DecodeEncodeTwo(c, s, p);
    } else if c < 0x10000 {
      DecodeEncodeThree(c, s, p);
    } else {
      DecodeEncodeFour(c, s, p);
    }
  }

  lemma EncodeDecodeTwo(s: seq<byte>, p: nat)
    requires p < |s| && Needed(s[p]) == 1 && ContOk(s, p, 1)
    ensures IsScalar(Assemble(s, p, 1, 1)) && 0x80 <= Assemble(s, p, 1, 1) < 0x800
    ensures BytesAt(s, p, Encode(Assemble(s, p, 1, 1)))
  {
    var c := Assemble(s, p, 1, 1);
    DivMod64(c, s[p] - 0xC0, s[p + 1] - 0x80);
  }

  lemma EncodeDecodeThree(s: seq<byte>, p: nat)
    requires p < |s| && Needed(s[p]) == 2 && ContOk(s, p, 1) && ContOk(s, p, 2)
    ensures IsScalar(Assemble(s, p, 2, 2)) && 0x800 <= Assemble(s, p, 2, 2) < 0x10000
    ensures BytesAt(s, p, Encode(Assemble(s, p, 2, 2)))
  {
    var c := Assemble(s, p, 2, 2);
    var t: int := (s[p] as int - 0xE0) * 64 + (s[p + 1] as int - 0x80);
    DivMod64(c, t, s[p + 2] - 0x80);
    DivMod64(t, s[p] - 0xE0, s[p + 1] - 0x80);
  }

  lemma EncodeDecodeFour(s: seq<byte>, p: nat)
    requires p < |s| && Needed(s[p]) == 3 && ContOk(s, p, 1) && ContOk(s, p, 2) && ContOk(s, p, 3)
    ensures IsScalar(Assemble(s, p, 3, 3)) && 0x10000 <= Assemble(s, p, 3, 3)
    ensures BytesAt(s, p, Encode(Assemble(s, p, 3, 3)))
  {
    var c := Assemble(s, p, 3, 3);
    var u: int := (s[p] as int - 0xF0) * 64 + (s[p + 1] as int - 0x80);
    var t: int := u * 64 + (s[p + 2] - 0x80);
    DivMod64(c, t, s[p + 3] - 0x80);
    DivMod64(t, u, s[p + 2] - 0x80);
    DivMod64(u, s[p] - 0xF0, s[p + 1] - 0x80);
  }

  /** Everything the table accepts is the encoding of a scalar value: the
      decoder admits only well-formed sequences. */
  lemma EncodeDecode(s: seq<byte>, p: nat)
    requires DecodeAt(s, p).Char?
    ensures IsScalar(DecodeAt(s, p).c)
    ensures DecodeAt(s, p).next == p + |Encode(DecodeAt(s, p).c)| <= |s|
    ensures s[p..DecodeAt(s, p).next] == Encode(DecodeAt(s, p).c)
  {
    var n := Needed(s[p]);
    var d := DecodeAt(s, p);
    if n == 1 {
      assert ContOk(s, p, 1);
      EncodeDecodeTwo(s, p);
    } else if n == 2 {
      assert ContOk(s, p, 1) && ContOk(s, p, 2);
      EncodeDecodeThree(s, p);
    } else if n == 3 {
      assert ContOk(s, p, 1) && ContOk(s, p, 2) && ContOk(s, p, 3);
      EncodeDecodeFour(s, p);
    }
    var e := Encode(d.c);
    assert s[p..d.next] == e by {
      forall i | 0 <= i < |e| ensures s[p..d.next][i] == e[i] {
        assert s[p..d.next][i] == s[p + i];
      }
    }
  }

  /** Reads one character from a UTF-8 byte stream at `pos`, one byte at a time:
      a lead byte fixes how many continuation bytes follow and the bounds of the
      first of them, and any byte out of bounds, or the end of the stream inside
      a sequence, is an error. The result is the table's reading. */
  method ReadChar(s: seq<byte>, pos: nat) returns (r: Decoded)
    requires pos <= |s|
    ensures r == DecodeAt(s, pos)
  {
    var cp, bytesSeen, bytesNeeded, lower, upper := 0, 0, 0, 0, 0;
    var i := pos;
    while true
      invariant pos <= i <= |s|
      invariant bytesNeeded == 0 ==> i == pos && bytesSeen == 0
      invariant bytesNeeded != 0 ==>
        && pos < |s|
        && 1 <= bytesNeeded <= 3
        && bytesNeeded == Needed(s[pos])
        && 0 <= bytesSeen < bytesNeeded
        && i == pos + 1 + bytesSeen
        && ContsOk(s, pos, bytesSeen)
        && cp == Assemble(s, pos, bytesNeeded, bytesSeen)
        && lower == ContLower(s[pos], bytesSeen + 1)
        && upper == ContUpper(s[pos], bytesSeen + 1)
      decreases |s| - i
    {
      var b := if i < |s| then s[i] else -1;
      if b < 0 {
        if bytesNeeded != 0 {
          assert !ContOk(s, pos, bytesSeen + 1);
          return Invalid;
        } else {
          return Eof;
        }
      }
      i := i + 1;
      if bytesNeeded == 0 {
        // `(b & 0x7F) == b` holds exactly for the bytes up to 0x7F
        if b <= 0x7F {
          return Char(b, i);
        } else if 0xC2 <= b <= 0xDF {
          bytesNeeded := 1;
          lower, upper := 0x80, 0xBF;
          cp := (b - 0xC0) * 64;
        } else if 0xE0 <= b <= 0xEF {
          lower := if b == 0xE0 then 0xA0 else 0x80;
          upper := if b == 0xED then 0x9F else 0xBF;
          bytesNeeded := 2;
          cp := (b - 0xE0) * 4096;
        } else if 0xF0 <= b <= 0xF4 {
          lower := if b == 0xF0 then 0x90 else 0x80;
          upper := if b == 0xF4 then 0x8F else 0xBF;
          bytesNeeded := 3;
          cp := (b - 0xF0) * 262144;
        } else {
          return Invalid;
        }
        continue;
      }
      if b < lower || b > upper {
        assert !ContOk(s, pos, bytesSeen + 1);
        return Invalid;
      }
      lower, upper := 0x80, 0xBF;
      bytesSeen := bytesSeen + 1;
      cp := cp + (b - 0x80) * Pow64(bytesNeeded - bytesSeen);
      if bytesSeen != bytesNeeded {
        continue;
      }
      return Char(cp, i);
    }
  }
}
