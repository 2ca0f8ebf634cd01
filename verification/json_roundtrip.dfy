/** What the JSON tokenizer reads back from text written in a known way: a
    string whose code units need no escaping, and a string whose every code
    unit is written as a `\u` escape. Both readings give back exactly the code
    units written, surrogate pairs included. */
module JsonRoundTrip {

  import opened Wrappers
  import opened Utf8
  import opened Utf16
  import opened JsonTokener

  /** A code unit that may stand unescaped inside a double-quoted string. */
  predicate PlainUnit(x: int) {
    x >= Space && x != QuoteMark && x != Backslash
  }

  predicate AllPlain(w: seq<unit16>) {
    forall i :: 0 <= i < |w| ==> PlainUnit(w[i])
  }

  /** The loop state a well-formed prefix `sb` leaves: a high surrogate pending
      exactly when `sb` ends with one. */
  lemma PendingIsLastHigh(sb: seq<unit16>, surrogate: bool)
    requires PendingWellFormed(sb, surrogate)
    ensures surrogate <==> |sb| > 0 && IsHigh(sb[|sb| - 1])
  {
  }

  /** Java, raw code units: one plain unit that keeps the pairing state
      consistent is appended and the loop goes on. */
  lemma StringLoopPlainStep(o: Options, u: seq<unit16>, pos: nat, sb: seq<unit16>, surrogate: bool)
    requires pos < |u| && PlainUnit(u[pos])
    requires PendingWellFormed(sb, surrogate)
    requires surrogate <==> IsLow(u[pos])
    ensures PendingWellFormed(sb + [u[pos]], !surrogate && IsHigh(u[pos]))
    ensures StringLoop(Java(o), Utf16Text(u), QuoteMark, pos, sb, surrogate, false)
         == StringLoop(Java(o), Utf16Text(u), QuoteMark, pos + 1, sb + [u[pos]], !surrogate && IsHigh(u[pos]), false)
  {
    var c := u[pos];
    MaskClassifiesSurrogates(c);
    if surrogate {
      CompletePair(sb, c);
    } else if IsHigh(c) {
      StartPair(sb, c);
    } else {
      assert Encode16(c) == [c];
      WellFormedAppend(sb, c);
    }
  }

  /** Java, raw code units: an unescaped closing quote ends the loop when no
      high surrogate is pending. */
  lemma StringLoopAtQuote(o: Options, u: seq<unit16>, pos: nat, sb: seq<unit16>)
    requires pos < |u| && u[pos] == QuoteMark
    requires WellFormed16(sb)
    ensures StringLoop(Java(o), Utf16Text(u), QuoteMark, pos, sb, false, false) == Ok((sb, pos + 1))
  {
    MaskClassifiesSurrogates(QuoteMark);
  }

  /** Java, raw code units: the loop reads the plain units `w` that run from
      `pos` to the closing quote at `end` and appends them to what it holds. */
  lemma {:induction false} StringLoopReadsPlain(o: Options, u: seq<unit16>, pos: nat, end: nat,
                                                sb: seq<unit16>, surrogate: bool, w: seq<unit16>)
    requires pos <= end < |u| && u[end] == QuoteMark
    requires u[pos..end] == w
    requires AllPlain(w)
    requires PendingWellFormed(sb, surrogate)
    requires WellFormed16(sb + w)
    ensures StringLoop(Java(o), Utf16Text(u), QuoteMark, pos, sb, surrogate, false)
         == Ok((sb + w, end + 1))
    decreases |w|
  {
    if |w| == 0 {
      PairingAtBoundary(sb, surrogate, w);
      assert sb + w == sb;
      StringLoopAtQuote(o, u, pos, sb);
    } else {
      StringLoopPlainHead(o, u, pos, end, sb, surrogate, w);
      StringLoopReadsPlain(o, u, pos + 1, end, sb + [w[0]], !surrogate && IsHigh(w[0]), w[1..]);
    }
  }

  /** Java, raw code units: the first plain unit is read as itself, and what
      follows is the rest of the plain units. */
  lemma StringLoopPlainHead(o: Options, u: seq<unit16>, pos: nat, end: nat,
                            sb: seq<unit16>, surrogate: bool, w: seq<unit16>)
    requires |w| > 0 && pos <= end <= |u|
    requires u[pos..end] == w
    requires AllPlain(w)
    requires PendingWellFormed(sb, surrogate)
    requires WellFormed16(sb + w)
    ensures pos + 1 <= end && u[pos + 1..end] == w[1..] && AllPlain(w[1..])
    ensures (sb + [w[0]]) + w[1..] == sb + w
    ensures PendingWellFormed(sb + [w[0]], !surrogate && IsHigh(w[0]))
    ensures StringLoop(Java(o), Utf16Text(u), QuoteMark, pos, sb, surrogate, false)
         == StringLoop(Java(o), Utf16Text(u), QuoteMark, pos + 1, sb + [w[0]], !surrogate && IsHigh(w[0]), false)
  {
    PairingAtBoundary(sb, surrogate, w);
    assert u[pos] == w[0] by {
      assert u[pos..end][0] == u[pos];
    }
    assert u[pos + 1..end] == w[1..] by {
      assert u[pos + 1..end] == u[pos..end][1..];
    }
    StringLoopPlainStep(o, u, pos, sb, surrogate);
  }

  /** Where a well-formed prefix meets the rest of a well-formed string, a high
      surrogate is pending exactly when the rest starts with a low one. */
  lemma PairingAtBoundary(sb: seq<unit16>, surrogate: bool, w: seq<unit16>)
    requires PendingWellFormed(sb, surrogate)
    requires WellFormed16(sb + w)
    ensures |w| == 0 ==> !surrogate
    ensures |w| > 0 ==> (surrogate <==> IsLow(w[0]))
    ensures |w| > 0 ==> (sb + [w[0]]) + w[1..] == sb + w
  {
    PendingIsLastHigh(sb, surrogate);
    var v := sb + w;
    if |sb| > 0 {
      assert v[|sb| - 1] == sb[|sb| - 1];
    }
    if |w| > 0 {
      assert v[|sb|] == w[0];
      assert (sb + [w[0]]) + w[1..] == v;
    }
  }

  /** Java, raw code units: a well-formed string of plain units followed by a
      closing quote is read back exactly, the quote consumed. */
  lemma NextStringReadsPlain(o: Options, u: seq<unit16>, pos: nat, w: seq<unit16>)
    requires pos + |w| < |u|
    requires u[pos..pos + |w|] == w && u[pos + |w|] == QuoteMark
    requires AllPlain(w)
    requires WellFormed16(w)
    ensures NextString(Java(o), Utf16Text(u), QuoteMark, pos) == Ok((w, pos + |w| + 1))
  {
    var end := pos + |w|;
    assert [] + w == w;
    assert PendingWellFormed([], false);
    StringLoopReadsPlain(o, u, pos, end, [], false, w);
  }

  /** A well-formed string stays well formed when a prefix that does not split a
      surrogate pair is taken off. */
  lemma WellFormedDrop(w: seq<unit16>, k: nat)
    requires WellFormed16(w) && k <= |w|
    requires k == |w| || !IsLow(w[k])
    ensures WellFormed16(w[k..])
  {
    var v := w[k..];
    forall i | 0 <= i < |v| && IsHigh(v[i]) ensures i + 1 < |v| && IsLow(v[i + 1]) {
      assert v[i] == w[k + i];
      assert v[i + 1] == w[k + i + 1];
    }
    forall i | 0 <= i < |v| && IsLow(v[i]) ensures 0 < i && IsHigh(v[i - 1]) {
      assert v[i] == w[k + i];
      if i > 0 {
        assert v[i - 1] == w[k + i - 1];
      }
    }
  }

  /** C#, paired reading: a code point that is read as a whole, is no
      surrogate and needs no escaping is appended as its encoding and the loop
      goes on after it. */
  lemma StringLoopPairedStep(nd: bool, u: seq<unit16>, pos: nat, sb: seq<unit16>, c: int)
    requires pos < |u| && PairedCharAt(u, pos).Char? && PairedCharAt(u, pos).c == c
    requires IsScalar(c) && !IsSurrogate(c) && PlainUnit(c)
    requires WellFormed16(sb)
    ensures WellFormed16(sb + Encode16(c))
    ensures StringLoop(CSharp(nd), Utf16Text(u), QuoteMark, pos, sb, false, false)
         == StringLoop(CSharp(nd), Utf16Text(u), QuoteMark, PairedCharAt(u, pos).next, sb + Encode16(c), false, false)
  {
    MaskClassifiesSurrogates(c);
    WellFormedAppend(sb, c);
    if c <= 0xFFFF {
      assert Encode16(c) == [c];
    }
  }

  /** C#, paired reading: the first code point of a well-formed plain string is
      a single plain unit or a surrogate pair, read as a whole, and the rest of
      the string is again well formed and plain. */
  lemma PairedHead(u: seq<unit16>, pos: nat, end: nat, w: seq<unit16>) returns (k: nat, c: int)
    requires pos < end <= |u| && u[pos..end] == w
    requires AllPlain(w) && WellFormed16(w)
    ensures 1 <= k <= |w| && w == w[..k] + w[k..]
    ensures PairedCharAt(u, pos) == Char(c, pos + k)
    ensures IsScalar(c) && !IsSurrogate(c) && PlainUnit(c)
    ensures w[..k] == Encode16(c)
    ensures u[pos + k..end] == w[k..]
    ensures AllPlain(w[k..]) && WellFormed16(w[k..])
  {
    assert u[pos] == w[0];
    k := if IsHigh(u[pos]) then 2 else 1;
    if k == 2 {
      assert u[pos + 1] == w[1];
    }
    PairedCharIsEncoding(u, pos);
    c := PairedCharAt(u, pos).c;
    assert w[..k] == u[pos..pos + k];
    WellFormedDrop(w, k);
    assert w[k..] == u[pos + k..end];
  }

  /** Taking the first `k` units of `w` onto `sb` leaves the rest to append. */
  lemma AppendHead(sb: seq<unit16>, w: seq<unit16>, k: nat, head: seq<unit16>)
    requires k <= |w| && w[..k] == head
    ensures (sb + head) + w[k..] == sb + w
  {
    assert w == w[..k] + w[k..];
  }

  /** C#, paired reading: the loop reads the plain units `w` that run from
      `pos` to the closing quote at `end` and appends them to what it holds. */
  lemma {:induction false} StringLoopReadsPlainPaired(nd: bool, u: seq<unit16>, pos: nat, end: nat,
                                                      sb: seq<unit16>, w: seq<unit16>)
    requires pos <= end < |u| && u[end] == QuoteMark
    requires u[pos..end] == w
    requires AllPlain(w) && WellFormed16(w)
    requires WellFormed16(sb)
    ensures StringLoop(CSharp(nd), Utf16Text(u), QuoteMark, pos, sb, false, false)
         == Ok((sb + w, end + 1))
    decreases |w|
  {
    if |w| == 0 {
      StringLoopAtQuoteAnyDialect(CSharp(nd), u, pos, sb, false);
      assert sb + w == sb;
    } else {
      var k, c := PairedHead(u, pos, end, w);
      StringLoopPairedStep(nd, u, pos, sb, c);
      var sb' := sb + Encode16(c);
      AppendHead(sb, w, k, Encode16(c));
      StringLoopReadsPlainPaired(nd, u, pos + k, end, sb', w[k..]);
    }
  }

  /** C#, paired reading: a well-formed string of plain units followed by a
      closing quote is read back exactly, the quote consumed. */
  lemma NextStringReadsPlainPaired(nd: bool, u: seq<unit16>, pos: nat, w: seq<unit16>)
    requires pos + |w| < |u|
    requires u[pos..pos + |w|] == w && u[pos + |w|] == QuoteMark
    requires AllPlain(w)
    requires WellFormed16(w)
    ensures NextString(CSharp(nd), Utf16Text(u), QuoteMark, pos) == Ok((w, pos + |w| + 1))
  {
    var end := pos + |w|;
    assert [] + w == w;
    assert PendingWellFormed([], false);
    StringLoopReadsPlainPaired(nd, u, pos, end, [], w);
  }

  // ------------------------------------------------------------ escaped strings

  /** The four hexadecimal digit values of a code unit, most significant first. */
  function Nibbles(x: unit16): (n: (int, int, int, int))
    ensures 0 <= n.0 < 16 && 0 <= n.1 < 16 && 0 <= n.2 < 16 && 0 <= n.3 < 16
    ensures HexUnit(n.0, n.1, n.2, n.3) == x
  {
    (x / 16 / 16 / 16, x / 16 / 16 % 16, x / 16 % 16, x % 16)
  }

  /** A code unit written as a `\u` escape with upper-case hexadecimal digits. */
  function EscapeUnit(x: unit16): (e: seq<unit16>)
    ensures |e| == 6 && e[0] == Backslash && e[1] == 0x75
    ensures forall i :: 0 <= i < 6 ==> !IsSurrogate(e[i]) && e[i] != QuoteMark
  {
    var n := Nibbles(x);
    [Backslash, 0x75, HexDigit(n.0), HexDigit(n.1), HexDigit(n.2), HexDigit(n.3)]
  }

  /** Every code unit of a string written as an escape. */
  function EscapeAll(w: seq<unit16>): (e: seq<unit16>)
    ensures |e| == 6 * |w|
  {
    if w == [] then [] else EscapeUnit(w[0]) + EscapeAll(w[1..])
  }

  /** A code unit that is no surrogate is one character to either tokenizer. */
  lemma NextCharOfBmpUnit(d: Dialect, u: seq<unit16>, pos: nat)
    requires pos < |u| && !IsSurrogate(u[pos])
    ensures NextChar(d, Utf16Text(u), pos) == Ok(Ch(u[pos], pos + 1))
  {
  }

  /** The Java reading of four upper-case hexadecimal digits gives back the
      number they write. */
  lemma HexDigitsAtOnceOfDigits(d: Dialect, u: seq<unit16>, pos: nat, n: (int, int, int, int))
    requires 0 <= n.0 < 16 && 0 <= n.1 < 16 && 0 <= n.2 < 16 && 0 <= n.3 < 16
    requires pos + 4 <= |u|
    requires u[pos] == HexDigit(n.0) && u[pos + 1] == HexDigit(n.1)
    requires u[pos + 2] == HexDigit(n.2) && u[pos + 3] == HexDigit(n.3)
    ensures HexDigitsAtOnce(d, Utf16Text(u), pos) == Ok((HexUnit(n.0, n.1, n.2, n.3), pos + 4))
  {
    GetHexValueCorrect(0, n.0);
    GetHexValueCorrect(0, n.1);
    GetHexValueCorrect(0, n.2);
    GetHexValueCorrect(0, n.3);
    NextCharOfBmpUnit(d, u, pos);
    NextCharOfBmpUnit(d, u, pos + 1);
    NextCharOfBmpUnit(d, u, pos + 2);
    NextCharOfBmpUnit(d, u, pos + 3);
  }

  /** The units of an escape, one by one. */
  lemma EscapeUnitAt(u: seq<unit16>, pos: nat, x: unit16)
    requires pos + 6 <= |u| && u[pos..pos + 6] == EscapeUnit(x)
    ensures u[pos] == Backslash && u[pos + 1] == 0x75
    ensures var n := Nibbles(x);
      && u[pos + 2] == HexDigit(n.0) && u[pos + 3] == HexDigit(n.1)
      && u[pos + 4] == HexDigit(n.2) && u[pos + 5] == HexDigit(n.3)
  {
    forall i | 0 <= i < 6 ensures u[pos + i] == EscapeUnit(x)[i] {
      assert u[pos..pos + 6][i] == u[pos + i];
    }
  }

  /** Either tokenizer reads an escape back as its code unit, marked escaped;
      `pos` is after the backslash. */
  lemma ReadEscapeOfUnit(d: Dialect, u: seq<unit16>, pos: nat, x: unit16)
    requires 1 <= pos && pos + 5 <= |u|
    requires u[pos - 1..pos + 5] == EscapeUnit(x)
    ensures ReadEscape(d, Utf16Text(u), pos) == Ok(Esc(x, true, pos + 5))
  {
    EscapeUnitAt(u, pos - 1, x);
    HexDigitsAtOnceOfDigits(d, u, pos + 1, Nibbles(x));
    HexReadingsAgree(d, Utf16Text(u), pos + 1);
    NextCharOfBmpUnit(d, u, pos);
    ReadUnicodeEscape(d, u, pos, (x, pos + 5));
  }

  /** A `u` followed by four digits that read as `h` is the escape of `h`, in
      either tokenizer. */
  lemma ReadUnicodeEscape(d: Dialect, u: seq<unit16>, pos: nat, h: (int, nat))
    requires pos + 1 <= |u|
    requires NextChar(d, Utf16Text(u), pos) == Ok(Ch(0x75, pos + 1))
    requires HexDigitsAtOnce(d, Utf16Text(u), pos + 1) == Ok(h)
    requires HexDigitsSequential(d, Utf16Text(u), pos + 1) == Ok(h)
    ensures ReadEscape(d, Utf16Text(u), pos) == Ok(Esc(h.0, true, h.1))
  {
    if d.CSharp? {
      assert ReadEscape(d, Utf16Text(u), pos) == Ok(Esc(h.0, true, h.1));
    }
  }

  /** One escaped unit that keeps the pairing state consistent is appended and
      the loop goes on. */
  lemma StringLoopEscapedStep(d: Dialect, u: seq<unit16>, pos: nat, sb: seq<unit16>,
                              surrogate: bool, surrogateEscaped: bool, x: unit16)
    requires pos + 6 <= |u| && u[pos..pos + 6] == EscapeUnit(x)
    requires PendingWellFormed(sb, surrogate)
    requires surrogate ==> surrogateEscaped
    requires surrogate <==> IsLow(x)
    ensures PendingWellFormed(sb + [x], !surrogate && IsHigh(x))
    ensures StringLoop(d, Utf16Text(u), QuoteMark, pos, sb, surrogate, surrogateEscaped)
         == StringLoop(d, Utf16Text(u), QuoteMark, pos + 6, sb + [x], !surrogate && IsHigh(x),
                       if !surrogate && IsHigh(x) then true else surrogateEscaped)
  {
    assert u[pos] == Backslash by {
      assert u[pos..pos + 6][0] == u[pos];
    }
    ReadEscapeOfUnit(d, u, pos + 1, x);
    MaskClassifiesSurrogates(x);
    if surrogate {
      CompletePair(sb, x);
    } else if IsHigh(x) {
      StartPair(sb, x);
    } else {
      assert Encode16(x) == [x];
      WellFormedAppend(sb, x);
    }
  }

  /** An unescaped closing quote ends the loop when no high surrogate is
      pending, in either tokenizer. */
  lemma StringLoopAtQuoteAnyDialect(d: Dialect, u: seq<unit16>, pos: nat, sb: seq<unit16>, surrogateEscaped: bool)
    requires pos < |u| && u[pos] == QuoteMark
    requires WellFormed16(sb)
    ensures StringLoop(d, Utf16Text(u), QuoteMark, pos, sb, false, surrogateEscaped) == Ok((sb, pos + 1))
  {
    MaskClassifiesSurrogates(QuoteMark);
  }

  /** The loop reads the escapes that run from `pos` to an unescaped quote at
      `end` as the code units they stand for. */
  lemma {:induction false} StringLoopReadsEscaped(d: Dialect, u: seq<unit16>, pos: nat, end: nat,
                                                  sb: seq<unit16>, surrogate: bool, surrogateEscaped: bool,
                                                  w: seq<unit16>)
    requires pos <= end < |u| && u[end] == QuoteMark
    requires u[pos..end] == EscapeAll(w)
    requires PendingWellFormed(sb, surrogate)
    requires surrogate ==> surrogateEscaped
    requires WellFormed16(sb + w)
    ensures StringLoop(d, Utf16Text(u), QuoteMark, pos, sb, surrogate, surrogateEscaped)
         == Ok((sb + w, end + 1))
    decreases |w|
  {
    if |w| == 0 {
      PairingAtBoundary(sb, surrogate, w);
      assert sb + w == sb;
      StringLoopAtQuoteAnyDialect(d, u, pos, sb, surrogateEscaped);
    } else {
      StringLoopEscapedHead(d, u, pos, end, sb, surrogate, surrogateEscaped, w);
      var s' := !surrogate && IsHigh(w[0]);
      StringLoopReadsEscaped(d, u, pos + 6, end, sb + [w[0]], s', if s' then true else surrogateEscaped, w[1..]);
    }
  }

  /** The first escape of a string written in escapes is read as its first
      code unit, and what follows is the rest written in escapes. */
  lemma StringLoopEscapedHead(d: Dialect, u: seq<unit16>, pos: nat, end: nat, sb: seq<unit16>,
                              surrogate: bool, surrogateEscaped: bool, w: seq<unit16>)
    requires |w| > 0 && pos <= end <= |u|
    requires u[pos..end] == EscapeAll(w)
    requires PendingWellFormed(sb, surrogate)
    requires surrogate ==> surrogateEscaped
    requires WellFormed16(sb + w)
    ensures pos + 6 <= end && u[pos + 6..end] == EscapeAll(w[1..])
    ensures (sb + [w[0]]) + w[1..] == sb + w
    ensures PendingWellFormed(sb + [w[0]], !surrogate && IsHigh(w[0]))
    ensures StringLoop(d, Utf16Text(u), QuoteMark, pos, sb, surrogate, surrogateEscaped)
         == StringLoop(d, Utf16Text(u), QuoteMark, pos + 6, sb + [w[0]], !surrogate && IsHigh(w[0]),
                       if !surrogate && IsHigh(w[0]) then true else surrogateEscaped)
  {
    PairingAtBoundary(sb, surrogate, w);
    EscapeAllSplit(u, pos, end, w);
    StringLoopEscapedStep(d, u, pos, sb, surrogate, surrogateEscaped, w[0]);
  }

  /** The escapes of a string are the escape of its first unit followed by the
      escapes of the rest. */
  lemma EscapeAllSplit(u: seq<unit16>, pos: nat, end: nat, w: seq<unit16>)
    requires |w| > 0 && pos <= end <= |u|
    requires u[pos..end] == EscapeAll(w)
    ensures pos + 6 <= end
    ensures u[pos..pos + 6] == EscapeUnit(w[0])
    ensures u[pos + 6..end] == EscapeAll(w[1..])
  {
    SliceOfConcat(u, pos, end, EscapeUnit(w[0]), EscapeAll(w[1..]));
  }

  lemma SliceOfConcat(u: seq<unit16>, pos: nat, end: nat, a: seq<unit16>, b: seq<unit16>)
    requires pos <= end <= |u| && u[pos..end] == a + b
    ensures pos + |a| <= end && u[pos..pos + |a|] == a && u[pos + |a|..end] == b
  {
    assert u[pos..pos + |a|] == u[pos..end][..|a|];
    assert u[pos + |a|..end] == u[pos..end][|a|..];
  }

  /** Either tokenizer reads a well-formed string written entirely in `\u`
      escapes back as the code units written, up to and including the closing
      quote at `end`. */
  lemma NextStringReadsEscaped(d: Dialect, u: seq<unit16>, pos: nat, end: nat, w: seq<unit16>)
    requires pos <= end < |u| && u[end] == QuoteMark
    requires u[pos..end] == EscapeAll(w)
    requires WellFormed16(w)
    ensures NextString(d, Utf16Text(u), QuoteMark, pos) == Ok((w, end + 1))
  {
    assert [] + w == w;
    assert PendingWellFormed([], false);
    StringLoopReadsEscaped(d, u, pos, end, [], false, false, w);
  }
}
