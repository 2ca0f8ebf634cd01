/** The JSON tokenizer of the CBOR library, in its C# and its Java form, as
    functions over an immutable input and a cursor position.

    The input is either a UTF-8 byte stream or a string of UTF-16 code units.
    Reading a character yields a code point and the position after it, or -1
    at the end of the input (the cursor then stays where it is). The C# form
    pairs surrogates when it reads a string; the Java form reads raw code units
    and has option flags for comments, trailing commas, empty array elements,
    single quotes and escaped slashes. The grammar is that of RFC 8259; numbers
    are recognised by a parser outside this model, passed in as a function. */
module JsonTokener {

  import opened Wrappers
  import opened Powers
  import opened ByteIntegers
  import opened Utf8
  import opened Utf16
  import opened CborNumbers

  // Characters the tokenizer looks for.
  const Tab := 0x09
  const LineFeed := 0x0A
  const CarriageReturn := 0x0D
  const Space := 0x20
  const QuoteMark := 0x22
  const Hash := 0x23
  const Apostrophe := 0x27
  const Plus := 0x2B
  const Comma := 0x2C
  const Minus := 0x2D
  const Dot := 0x2E
  const Slash := 0x2F
  const Colon := 0x3A
  const Star := 0x2A
  const Backslash := 0x5C
  const OpenBracket := 0x5B
  const CloseBracket := 0x5D
  const OpenBrace := 0x7B
  const CloseBrace := 0x7D

  datatype Input = Utf8Stream(bytes: seq<byte>) | Utf16Text(units: seq<unit16>)

  function Len(src: Input): nat {
    match src
    case Utf8Stream(b) => |b|
    case Utf16Text(u) => |u|
  }

  /** The Java tokenizer's option flags. */
  datatype Options = Options(
    noDuplicates: bool,
    shellComments: bool,
    trailingCommas: bool,
    emptyArrayElements: bool,
    singleQuotes: bool,
    escapedSlashes: bool,
    allowComments: bool)

  const OptionNoDuplicates: bv32 := 1
  const OptionShellComments: bv32 := 2
  const OptionTrailingCommas: bv32 := 8
  const OptionEmptyArrayElements: bv32 := 16
  const OptionSingleQuotes: bv32 := 32
  const OptionEscapedSlashes: bv32 := 64
  const OptionAllowComments: bv32 := 128

  /** The options an integer of flags selects. */
  function OptionsFromFlags(flags: bv32): Options {
    Options(
      flags & OptionNoDuplicates != 0,
      flags & OptionShellComments != 0,
      flags & OptionTrailingCommas != 0,
      flags & OptionEmptyArrayElements != 0,
      flags & OptionSingleQuotes != 0,
      flags & OptionEscapedSlashes != 0,
      flags & OptionAllowComments != 0)
  }

  /** Which tokenizer: the C# one, whose only option is the rejection of
      duplicate keys, or the Java one with its option flags. */
  datatype Dialect = CSharp(noDuplicates: bool) | Java(opts: Options)

  predicate NoDuplicates(d: Dialect) {
    match d
    case CSharp(nd) => nd
    case Java(o) => o.noDuplicates
  }

  predicate TrailingCommasAllowed(d: Dialect) {
    d.Java? && d.opts.trailingCommas
  }

  /** A character read (-1 at the end of the input) and the position after it. */
  datatype Ch = Ch(c: int, pos: nat)

  /** A JSON value as the tokenizer builds it. */
  datatype JValue =
    | JString(s: seq<unit16>)
    | JNumber(n: Number)
    | JTrue
    | JFalse
    | JNull
    | JArray(items: seq<JValue>)
    | JObject(members: map<seq<unit16>, JValue>)

  /** Reads the next character. A stream is decoded as UTF-8 by both forms; a
      string is read with surrogate pairing by the C# form and as raw code
      units by the Java form. */
  function NextChar(d: Dialect, src: Input, pos: nat): (r: Result<Ch>)
    requires pos <= Len(src)
    ensures r.Ok? ==> pos <= r.value.pos <= Len(src)
    ensures r.Ok? ==> (r.value.c >= 0 <==> r.value.pos > pos)
    ensures r.Ok? ==> -1 <= r.value.c <= 0x10FFFF
  {
    match src
    case Utf8Stream(s) =>
      var dec := DecodeAt(s, pos);
      if dec.Eof? then Ok(Ch(-1, pos))
      else if dec.Invalid? then Err("Invalid UTF-8")
      else
        EncodeDecode(s, pos);
        Ok(Ch(dec.c, dec.next))
    case Utf16Text(u) =>
      if d.CSharp? then
        var dec := PairedCharAt(u, pos);
        if dec.Eof? then Ok(Ch(-1, pos))
        else if dec.Invalid? then Err("Unpaired surrogate code point")
        else
          PairedCharIsEncoding(u, pos);
          Ok(Ch(dec.c, dec.next))
      else if pos < |u| then Ok(Ch(u[pos], pos + 1))
      else Ok(Ch(-1, pos))
  }

  // ---------------------------------------------------------------- whitespace

  /** The four whitespace characters of section 2 of RFC 8259. */
  predicate IsJsonSpace(c: int) {
    c == Space || c == LineFeed || c == CarriageReturn || c == Tab
  }

  /** C# `NextSyntaxChar`: the next character that is not JSON whitespace. */
  function SyntaxChar(d: Dialect, src: Input, pos: nat): (r: Result<Ch>)
    requires pos <= Len(src)
    ensures r.Ok? ==> pos <= r.value.pos <= Len(src)
    ensures r.Ok? ==> r.value.c == -1 || !IsJsonSpace(r.value.c)
    ensures r.Ok? && r.value.c >= 0 ==> r.value.pos > pos
    decreases Len(src) - pos
  {
    var ch :- NextChar(d, src, pos);
    if ch.c == -1 || !IsJsonSpace(ch.c) then Ok(ch) else SyntaxChar(d, src, ch.pos)
  }

  /** C# `NextSyntaxChar2`: like `SyntaxChar`, but starting from a character
      already read (-1 for none); that character may not open a comment. */
  function SyntaxCharAfter(d: Dialect, src: Input, lastChar: int, pos: nat): (r: Result<Ch>)
    requires pos <= Len(src)
    ensures r.Ok? ==> pos <= r.value.pos <= Len(src)
    ensures r.Ok? ==> r.value.c == -1 || !IsJsonSpace(r.value.c)
    ensures (lastChar == Slash || lastChar == Hash) ==> r.Err?
  {
    if lastChar == Slash || lastChar == Hash then Err("Comments not allowed")
    else if lastChar >= 0 && !IsJsonSpace(lastChar) then Ok(Ch(lastChar, pos))
    else SyntaxChar(d, src, pos)
  }

  // ------------------------------------------------------------------ comments

  /** The rest of a line comment: the position after the next line feed, or the
      end of the input. */
  function LineComment(d: Dialect, src: Input, pos: nat): (r: Result<nat>)
    requires pos <= Len(src)
    ensures r.Ok? ==> pos <= r.value <= Len(src)
    decreases Len(src) - pos
  {
    var ch :- NextChar(d, src, pos);
    if ch.c != LineFeed && ch.c != -1 then LineComment(d, src, ch.pos) else Ok(ch.pos)
  }

  /** The rest of a block comment after its opening; the position after the
      closing star and slash. */
  function BlockBody(d: Dialect, src: Input, pos: nat): (r: Result<nat>)
    requires pos <= Len(src)
    ensures r.Ok? ==> pos < r.value <= Len(src)
    decreases Len(src) - pos
  {
    var ch :- NextChar(d, src, pos);
    if ch.c == -1 then Err("Unclosed comment.")
    else if ch.c == Star then AfterStar(d, src, ch.pos)
    else BlockBody(d, src, ch.pos)
  }

  /** Inside a block comment, right after a star: runs of stars are allowed
      before the closing slash. */
  function AfterStar(d: Dialect, src: Input, pos: nat): (r: Result<nat>)
    requires pos <= Len(src)
    ensures r.Ok? ==> pos < r.value <= Len(src)
    decreases Len(src) - pos
  {
    var ch :- NextChar(d, src, pos);
    if ch.c == Slash then Ok(ch.pos)
    else if ch.c == Star then AfterStar(d, src, ch.pos)
    // at the end of the input the outer loop reads the end again
    else if ch.c == -1 then Err("Unclosed comment.")
    else BlockBody(d, src, ch.pos)
  }

  /** The Java comment-skipping loop, starting from a pending character (-1 for
      none): skips comments and control characters and returns the next
      character above a space, or -1; a slash not starting a comment yields the
      character after it. */
  function CommentLoop(d: Dialect, src: Input, pending: int, pos: nat): (r: Result<Ch>)
    requires d.Java? && d.opts.allowComments
    requires pos <= Len(src)
    ensures r.Ok? ==> pos <= r.value.pos <= Len(src)
    ensures r.Ok? && pending < 0 && r.value.c != -1 ==> r.value.pos > pos
    decreases Len(src) - pos, if pending >= 0 then 1 else 0
  {
    var ch :- if pending >= 0 then Ok(Ch(pending, pos)) else NextChar(d, src, pos);
    if ch.c == Hash && d.opts.shellComments then
      var q :- LineComment(d, src, ch.pos);
      CommentLoop(d, src, -1, q)
    else if ch.c == Slash then
      var next :- NextChar(d, src, ch.pos);
      if next.c == Slash then
        var q :- LineComment(d, src, next.pos);
        CommentLoop(d, src, -1, q)
      else if next.c == Star then
        var q :- BlockBody(d, src, next.pos);
        CommentLoop(d, src, -1, q)
      else Ok(next)
    else if ch.c == -1 then Ok(ch)
    else if ch.c > Space then Ok(ch)
    else CommentLoop(d, src, -1, ch.pos)
  }

  /** Java `NextParseComment`. Without the comment option, a character that
      would open a comment is an error and nothing is skipped. */
  function ParseComment(d: Dialect, src: Input, firstChar: int, pos: nat): (r: Result<Ch>)
    requires d.Java?
    requires pos <= Len(src)
    ensures r.Ok? ==> pos <= r.value.pos <= Len(src)
    ensures r.Ok? && firstChar == -1 && r.value.c != -1 ==> r.value.pos > pos
    ensures !d.opts.allowComments && (firstChar == Slash || firstChar == Hash) ==> r.Err?
    ensures !d.opts.allowComments && firstChar >= 0 ==> r.Err? || r.value == Ch(firstChar, pos)
  {
    if !d.opts.allowComments then
      if firstChar == -1 then NextChar(d, src, pos)
      else if firstChar == Slash || firstChar == Hash then Err("Comments not allowed")
      else Ok(Ch(firstChar, pos))
    else CommentLoop(d, src, firstChar, pos)
  }

  /** Java `NextClean`: the next character above a space, or -1. */
  function NextClean(d: Dialect, src: Input, lastChar: int, pos: nat): (r: Result<Ch>)
    requires d.Java?
    requires pos <= Len(src)
    ensures r.Ok? ==> pos <= r.value.pos <= Len(src)
    ensures r.Ok? ==> r.value.c == -1 || r.value.c > Space
    ensures r.Ok? && lastChar == -1 && r.value.c != -1 ==> r.value.pos > pos
    decreases Len(src) - pos, if lastChar != -1 then 1 else 0
  {
    var ch :- ParseComment(d, src, lastChar, pos);
    if ch.c == -1 || ch.c > Space then Ok(ch) else NextClean(d, src, -1, ch.pos)
  }

  /** The next significant character, in either form, starting from a
      character already read (-1 for none). */
  function Clean(d: Dialect, src: Input, lastChar: int, pos: nat): (r: Result<Ch>)
    requires pos <= Len(src)
    ensures r.Ok? ==> pos <= r.value.pos <= Len(src)
    ensures r.Ok? && lastChar == -1 && r.value.c >= 0 ==> r.value.pos > pos
    ensures r.Ok? ==> r.value.c == -1 || (d.CSharp? && !IsJsonSpace(r.value.c)) || (d.Java? && r.value.c > Space)
  {
    if d.CSharp? then SyntaxCharAfter(d, src, lastChar, pos) else NextClean(d, src, lastChar, pos)
  }

  // ------------------------------------------------------------------- strings

  /** Java `GetHexValue`. */
  function GetHexValue(c: int): int {
    if 0x30 <= c <= 0x39 then c - 0x30
    else if 0x41 <= c <= 0x46 then c + 10 - 0x41
    else if 0x61 <= c <= 0x66 then c + 10 - 0x61
    else -1
  }

  /** The upper-case hexadecimal digit of a value below 16. */
  function HexDigit(v: int): int
    requires 0 <= v < 16
  {
    if v < 10 then 0x30 + v else 0x41 + v - 10
  }

  /** `GetHexValue` recognises exactly the 22 hexadecimal digits, and reads both
      cases of every digit as its value. */
  lemma GetHexValueCorrect(c: int, v: int)
    ensures 0 <= GetHexValue(c) < 16 || GetHexValue(c) == -1
    ensures GetHexValue(c) >= 0 <==> (0x30 <= c <= 0x39 || 0x41 <= c <= 0x46 || 0x61 <= c <= 0x66)
    ensures 0 <= v < 16 ==> GetHexValue(HexDigit(v)) == v
    ensures 10 <= v < 16 ==> GetHexValue(HexDigit(v) + 0x20) == v
  {
  }

  /** An unescaped or escaped character of a string and the position after it. */
  datatype Esc = Esc(c: int, escaped: bool, pos: nat)

  /** One hexadecimal digit and the position after it. */
  function HexChar(d: Dialect, src: Input, pos: nat): (r: Result<(int, nat)>)
    requires pos <= Len(src)
    ensures r.Ok? ==> pos < r.value.1 <= Len(src) && 0 <= r.value.0 < 16
  {
    var ch :- NextChar(d, src, pos);
    var v := GetHexValue(ch.c);
    if v < 0 then Err("Invalid Unicode escaped character") else Ok((v, ch.pos))
  }

  /** C# `\u`: four hexadecimal digits read one at a time, each shifting the
      value left by four bits; the first non-digit is an error. */
  function HexDigitsSequential(d: Dialect, src: Input, pos: nat): (r: Result<(int, nat)>)
    requires pos <= Len(src)
    ensures r.Ok? ==> pos <= r.value.1 <= Len(src) && 0 <= r.value.0 < 0x10000
  {
    var h1 :- HexChar(d, src, pos);
    var h2 :- HexChar(d, src, h1.1);
    var h3 :- HexChar(d, src, h2.1);
    var h4 :- HexChar(d, src, h3.1);
    Ok((HexUnit(h1.0, h2.0, h3.0, h4.0), h4.1))
  }

  /** The code unit four hexadecimal digit values stand for, first digit most
      significant. */
  function HexUnit(c1: int, c2: int, c3: int, c4: int): (u: int)
    requires 0 <= c1 < 16 && 0 <= c2 < 16 && 0 <= c3 < 16 && 0 <= c4 < 16
    ensures 0 <= u < 0x10000
  {
    c1 * 4096 + c2 * 256 + c3 * 16 + c4
  }

  /** Java `\u`: four characters are read, then all must be hexadecimal digits;
      the four digits occupy disjoint bits, so the or of their shifts is a sum. */
  function HexDigitsAtOnce(d: Dialect, src: Input, pos: nat): (r: Result<(int, nat)>)
    requires pos <= Len(src)
    ensures r.Ok? ==> pos <= r.value.1 <= Len(src) && 0 <= r.value.0 < 0x10000
  {
    var h1 :- NextChar(d, src, pos);
    var h2 :- NextChar(d, src, h1.pos);
    var h3 :- NextChar(d, src, h2.pos);
    var h4 :- NextChar(d, src, h3.pos);
    var c1, c2, c3, c4 := GetHexValue(h1.c), GetHexValue(h2.c), GetHexValue(h3.c), GetHexValue(h4.c);
    if c1 < 0 || c2 < 0 || c3 < 0 || c4 < 0 then Err("Invalid Unicode escaped character")
    else Ok((HexUnit(c1, c2, c3, c4), h4.pos))
  }

  /** The character an escape sequence stands for; `pos` is after the backslash. */
  function ReadEscape(d: Dialect, src: Input, pos: nat): (r: Result<Esc>)
    requires pos <= Len(src)
    ensures r.Ok? ==> pos <= r.value.pos <= Len(src) && r.value.escaped
    ensures r.Ok? ==> 0 <= r.value.c < 0x10000
  {
    var ch :- NextChar(d, src, pos);
    var c := ch.c;
    if c == Backslash || c == QuoteMark then Ok(Esc(c, true, ch.pos))
    else if c == Slash then
      if d.CSharp? || d.opts.escapedSlashes then Ok(Esc(Slash, true, ch.pos))
      else Err("Invalid escaped character")
    else if c == 0x62 then Ok(Esc(0x08, true, ch.pos))
    else if c == 0x66 then Ok(Esc(0x0C, true, ch.pos))
    else if c == 0x6E then Ok(Esc(LineFeed, true, ch.pos))
    else if c == 0x72 then Ok(Esc(CarriageReturn, true, ch.pos))
    else if c == 0x74 then Ok(Esc(Tab, true, ch.pos))
    else if c == 0x75 then
      var h :- if d.CSharp? then HexDigitsSequential(d, src, ch.pos) else HexDigitsAtOnce(d, src, ch.pos);
      Ok(Esc(h.0, true, h.1))
    else Err("Invalid escaped character")
  }

  /** One character of a string body, already read: an escape after a
      backslash, otherwise the character itself. */
  function StringUnit(d: Dialect, src: Input, ch: Ch): (r: Result<Esc>)
    requires ch.pos <= Len(src)
    requires 0 <= ch.c <= 0x10FFFF
    ensures r.Ok? ==> ch.pos <= r.value.pos <= Len(src)
    ensures r.Ok? ==> 0 <= r.value.c <= 0x10FFFF
    ensures r.Ok? ==> (r.value.escaped <==> ch.c == Backslash)
    ensures ch.c != Backslash ==> r == Ok(Esc(ch.c, false, ch.pos))
  {
    if ch.c == Backslash then ReadEscape(d, src, ch.pos) else Ok(Esc(ch.c, false, ch.pos))
  }

  /** The code units of a string read so far are well formed, except that a high
      surrogate still waiting for its low partner may end them. */
  predicate PendingWellFormed(sb: seq<unit16>, surrogate: bool) {
    if surrogate then |sb| > 0 && IsHigh(sb[|sb| - 1]) && WellFormed16(sb[..|sb| - 1])
    else WellFormed16(sb)
  }

  lemma CompletePair(sb: seq<unit16>, lo: unit16)
    requires PendingWellFormed(sb, true)
    requires IsLow(lo)
    ensures WellFormed16(sb + [lo])
  {
    var v := sb + [lo];
    var init := sb[..|sb| - 1];
    forall i | 0 <= i < |v| && IsHigh(v[i]) ensures i + 1 < |v| && IsLow(v[i + 1]) {
      if i < |init| {
        assert v[i] == init[i];
        assert v[i + 1] == init[i + 1];
      }
    }
    forall i | 0 <= i < |v| && IsLow(v[i]) ensures 0 < i && IsHigh(v[i - 1]) {
      if i < |init| {
        assert v[i] == init[i];
        assert v[i - 1] == init[i - 1];
      }
    }
  }

  lemma StartPair(sb: seq<unit16>, hi: unit16)
    requires WellFormed16(sb)
    requires IsHigh(hi)
    ensures PendingWellFormed(sb + [hi], true)
  {
    assert (sb + [hi])[..|sb|] == sb;
  }

  /** The surrogate checks on one character of a string body: with a high
      surrogate pending, the character must be a low surrogate written the same
      way, escaped or not; with none pending, a low surrogate is unpaired.
      Yields whether a high surrogate is pending afterwards and whether it was
      escaped. The checks test bits 10 to 20 of the character. */
  function CheckSurrogate(surrogate: bool, surrogateEscaped: bool, e: Esc): (r: Result<(bool, bool)>)
    requires 0 <= e.c <= 0x10FFFF
    ensures surrogate && !IsLow(e.c) ==> r == Err("Unpaired surrogate code point")
    ensures surrogate && IsLow(e.c) && e.escaped != surrogateEscaped ==>
      r == Err("Pairing escaped surrogate with unescaped surrogate")
    ensures !surrogate && IsLow(e.c) ==> r == Err("Unpaired surrogate code point")
    ensures r.Ok? <==> (surrogate ==> IsLow(e.c) && e.escaped == surrogateEscaped) && (!surrogate ==> !IsLow(e.c))
    ensures r.Ok? ==> (r.value.0 <==> !surrogate && IsHigh(e.c))
    ensures r.Ok? && r.value.0 ==> r.value.1 == e.escaped
  {
    MaskClassifiesSurrogates(e.c);
    if surrogate && Mask1FFC00(e.c) != 0xDC00 then Err("Unpaired surrogate code point")
    else if surrogate && e.escaped != surrogateEscaped then
      Err("Pairing escaped surrogate with unescaped surrogate")
    else if !surrogate && Mask1FFC00(e.c) == 0xDC00 then Err("Unpaired surrogate code point")
    else
      var surrogate' := !surrogate && Mask1FFC00(e.c) == 0xD800;
      Ok((surrogate', if surrogate' then e.escaped else surrogateEscaped))
  }

  /** The loop of `NextString` after the opening quote. `surrogate` says a high
      surrogate waits for its low partner, `surrogateEscaped` whether it was
      written as an escape. */
  function StringLoop(d: Dialect, src: Input, quote: int, pos: nat, sb: seq<unit16>,
                      surrogate: bool, surrogateEscaped: bool): (r: Result<(seq<unit16>, nat)>)
    requires quote == QuoteMark || quote == Apostrophe
    requires pos <= Len(src)
    requires PendingWellFormed(sb, surrogate)
    ensures r.Ok? ==> pos < r.value.1 <= Len(src)
    ensures r.Ok? ==> WellFormed16(r.value.0)
    decreases Len(src) - pos
  {
    var ch :- NextChar(d, src, pos);
    if ch.c == -1 || ch.c < Space then Err("Unterminated string")
    else
      var e :- StringUnit(d, src, ch);
      var st :- CheckSurrogate(surrogate, surrogateEscaped, e);
      var c := e.c;
      if c == quote && !e.escaped then Ok((sb, e.pos))
      else
        var sb' := if c <= 0xFFFF then sb + [c] else sb + Encode16(c);
        assert PendingWellFormed(sb', st.0) by {
          if surrogate {
            CompletePair(sb, c);
          } else if st.0 {
            StartPair(sb, c);
          } else {
            WellFormedAppend(sb, c);
          }
        }
        StringLoop(d, src, quote, e.pos, sb', st.0, st.1)
  }

  /** `NextString`: the code units of a string up to its closing quote, which is
      consumed; `pos` is after the opening quote. */
  function NextString(d: Dialect, src: Input, quote: int, pos: nat): (r: Result<(seq<unit16>, nat)>)
    requires quote == QuoteMark || quote == Apostrophe
    requires pos <= Len(src)
    ensures r.Ok? ==> pos < r.value.1 <= Len(src)
    ensures r.Ok? ==> WellFormed16(r.value.0)
  {
    StringLoop(d, src, quote, pos, [], false, false)
  }

  /** A character that opens a string: the double quote, and for the Java form
      with the option the single quote. */
  predicate OpensString(d: Dialect, c: int) {
    c == QuoteMark || (d.Java? && d.opts.singleQuotes && c == Apostrophe)
  }

  /** An object key: a string, opened by the character already read. */
  function ReadKey(d: Dialect, src: Input, c: int, pos: nat): (r: Result<(seq<unit16>, nat)>)
    requires pos <= Len(src)
    ensures r.Ok? ==> OpensString(d, c) && pos < r.value.1 <= Len(src)
  {
    if c < 0 then Err("Unexpected end of data")
    else if !OpensString(d, c) then Err("Expected a string as a key")
    else NextString(d, src, c, pos)
  }

  // ---------------------------------------------------------- literals, numbers

  /** The rest of a literal word must follow character by character. */
  function ExpectChars(d: Dialect, src: Input, pos: nat, rest: seq<int>): (r: Result<nat>)
    requires pos <= Len(src)
    ensures r.Ok? ==> pos <= r.value <= Len(src)
    decreases rest
  {
    if rest == [] then Ok(pos)
    else
      var ch :- NextChar(d, src, pos);
      if ch.c != rest[0] then Err("Value can't be parsed.")
      else ExpectChars(d, src, ch.pos, rest[1..])
  }

  /** The characters a number token is made of. */
  predicate IsNumberChar(c: int) {
    c == Minus || c == Plus || c == Dot || c == 0x65 || c == 0x45 || (0x30 <= c <= 0x39)
  }

  /** Collects a number token greedily, starting from its first character; yields
      the token and the first character after it, already read. */
  function NumberToken(d: Dialect, src: Input, c: int, pos: nat, sb: seq<char>): (r: Result<(seq<char>, Ch)>)
    requires pos <= Len(src)
    ensures r.Ok? ==> pos <= r.value.1.pos <= Len(src) && !IsNumberChar(r.value.1.c)
    ensures r.Ok? ==> |r.value.0| >= |sb| + (if IsNumberChar(c) then 1 else 0)
    decreases Len(src) - pos + (if IsNumberChar(c) then 1 else 0)
  {
    if IsNumberChar(c) then
      var ch :- NextChar(d, src, pos);
      NumberToken(d, src, ch.c, ch.pos, sb + [c as char])
    else Ok((sb, Ch(c, pos)))
  }

  // -------------------------------------------------------------------- values

  /** A value and the significant character after it. */
  datatype Parsed = Parsed(v: JValue, next: Ch)

  /** `NextJSONValue`: the value that starts with the character `c`, already
      read, and the next significant character after it. */
  function NextJSONValue(d: Dialect, parseNumber: seq<char> -> Option<Number>, src: Input,
                         c: int, pos: nat): (r: Result<Parsed>)
    requires pos <= Len(src)
    ensures r.Ok? ==> pos <= r.value.next.pos <= Len(src)
    ensures c < 0 ==> r.Err?
    decreases Len(src) - pos, 2
  {
    if c < 0 then Err("Unexpected end of data")
    else if OpensString(d, c) then
      var s :- NextString(d, src, c, pos);
      var n :- Clean(d, src, -1, s.1);
      Ok(Parsed(JString(s.0), n))
    else if c == OpenBrace then
      var o :- ParseObject(d, parseNumber, src, pos, map[], false);
      var n :- Clean(d, src, -1, o.1);
      Ok(Parsed(o.0, n))
    else if c == OpenBracket then
      var a :- ParseArray(d, parseNumber, src, pos, [], false);
      var n :- Clean(d, src, -1, a.1);
      Ok(Parsed(a.0, n))
    else if c == 0x74 then
      var p :- ExpectChars(d, src, pos, [0x72, 0x75, 0x65]);
      var n :- Clean(d, src, -1, p);
      Ok(Parsed(JTrue, n))
    else if c == 0x66 then
      var p :- ExpectChars(d, src, pos, [0x61, 0x6C, 0x73, 0x65]);
      var n :- Clean(d, src, -1, p);
      Ok(Parsed(JFalse, n))
    else if c == 0x6E then
      var p :- ExpectChars(d, src, pos, [0x75, 0x6C, 0x6C]);
      var n :- Clean(d, src, -1, p);
      // the Java form yields False for the literal null
      Ok(Parsed(if d.CSharp? then JNull else JFalse, n))
    else if c == Minus || (0x30 <= c <= 0x39) then
      var t :- NumberToken(d, src, c, pos, []);
      var num := parseNumber(t.0);
      if num.None? then Err("JSON number can't be parsed.")
      else
        var n :- Clean(d, src, t.1.c, t.1.pos);
        Ok(Parsed(JNumber(num.value), n))
    else Err("Value can't be parsed.")
  }

  /** The members of an object after its opening brace, gathered into `acc`; the
      object and the position after its closing brace. A later duplicate key
      replaces the earlier value unless duplicates are rejected. */
  function ParseObject(d: Dialect, parseNumber: seq<char> -> Option<Number>, src: Input, pos: nat,
                       acc: map<seq<unit16>, JValue>, seenComma: bool): (r: Result<(JValue, nat)>)
    requires pos <= Len(src)
    ensures r.Ok? ==> pos < r.value.1 <= Len(src) && r.value.0.JObject?
    ensures r.Ok? ==> acc.Keys <= r.value.0.members.Keys
    decreases Len(src) - pos, 1
  {
    var ch :- Clean(d, src, -1, pos);
    if ch.c == -1 then Err("A JSONObject must end with '}'")
    else if ch.c == CloseBrace then
      if seenComma && !TrailingCommasAllowed(d) then Err("Trailing comma")
      else Ok((JObject(acc), ch.pos))
    else
      var key :- ReadKey(d, src, ch.c, ch.pos);
      if NoDuplicates(d) && key.0 in acc then Err("Key already exists")
      else
        var colon :- Clean(d, src, -1, key.1);
        if colon.c != Colon then Err("Expected a ':' after a key")
        else
          var first :- Clean(d, src, -1, colon.pos);
          if first.c < 0 then Err("Unexpected end of data")
          else
            var pv :- NextJSONValue(d, parseNumber, src, first.c, first.pos);
            var acc' := acc[key.0 := pv.v];
            if pv.next.c == Comma then ParseObject(d, parseNumber, src, pv.next.pos, acc', true)
            else if pv.next.c == CloseBrace then Ok((JObject(acc'), pv.next.pos))
            else Err("Expected a ',' or '}'")
  }

  /** The elements of an array after its opening bracket, appended to `acc`; the
      array and the position after its closing bracket. */
  function ParseArray(d: Dialect, parseNumber: seq<char> -> Option<Number>, src: Input, pos: nat,
                      acc: seq<JValue>, seenComma: bool): (r: Result<(JValue, nat)>)
    requires pos <= Len(src)
    ensures r.Ok? ==> pos < r.value.1 <= Len(src) && r.value.0.JArray?
    ensures r.Ok? ==> acc <= r.value.0.items
    decreases Len(src) - pos, 1
  {
    var ch :- Clean(d, src, -1, pos);
    if ch.c == Comma then
      if d.CSharp? then Err("Empty array element")
      else if !d.opts.emptyArrayElements then Err("Two commas one after the other")
      // an empty element is Null, and the comma is then read as the separator
      else ParseArray(d, parseNumber, src, ch.pos, acc + [JNull], true)
    else if ch.c == CloseBracket then
      if seenComma && !TrailingCommasAllowed(d) then Err("Trailing comma")
      else Ok((JArray(acc), ch.pos))
    else if ch.c < 0 then Err("Unexpected end of data")
    else
      var pv :- NextJSONValue(d, parseNumber, src, ch.c, ch.pos);
      var acc' := acc + [pv.v];
      if pv.next.c == Comma then ParseArray(d, parseNumber, src, pv.next.pos, acc', true)
      else if pv.next.c == CloseBracket then Ok((JArray(acc'), pv.next.pos))
      else Err("Expected a ',' or ']'")
  }

  /** `ParseJSONObjectOrArray`: a JSON text must be an array or an object; what
      follows it is not read. */
  function ParseJSONObjectOrArray(d: Dialect, parseNumber: seq<char> -> Option<Number>, src: Input): (r: Result<JValue>)
    ensures r.Ok? ==> r.value.JArray? || r.value.JObject?
  {
    var ch :- Clean(d, src, -1, 0);
    if ch.c == OpenBracket then
      var a :- ParseArray(d, parseNumber, src, ch.pos, [], false);
      Ok(a.0)
    else if ch.c == OpenBrace then
      var o :- ParseObject(d, parseNumber, src, ch.pos, map[], false);
      Ok(o.0)
    else Err("A JSON object must begin with '{' or '['")
  }

  // ------------------------------------------------------------ properties

  /** The two ways of reading the digits of a `\u` escape accept the same
      inputs and yield the same code unit and position. */
  lemma HexReadingsAgree(d: Dialect, src: Input, pos: nat)
    requires pos <= Len(src)
    ensures HexDigitsSequential(d, src, pos).Ok? <==> HexDigitsAtOnce(d, src, pos).Ok?
    ensures HexDigitsAtOnce(d, src, pos).Ok? ==> HexDigitsSequential(d, src, pos) == HexDigitsAtOnce(d, src, pos)
  {
    if src.Utf8Stream? {
      HexReadingsAgreeOnStream(d, src, pos);
    } else {
      HexReadingsAgreeOnText(d, src, pos);
    }
  }

  lemma HexReadingsAgreeOnStream(d: Dialect, src: Input, pos: nat)
    requires src.Utf8Stream? && pos <= Len(src)
    ensures HexDigitsSequential(d, src, pos).Ok? <==> HexDigitsAtOnce(d, src, pos).Ok?
    ensures HexDigitsAtOnce(d, src, pos).Ok? ==> HexDigitsSequential(d, src, pos) == HexDigitsAtOnce(d, src, pos)
  {
  }

  lemma HexReadingsAgreeOnText(d: Dialect, src: Input, pos: nat)
    requires src.Utf16Text? && pos <= Len(src)
    ensures HexDigitsSequential(d, src, pos).Ok? <==> HexDigitsAtOnce(d, src, pos).Ok?
    ensures HexDigitsAtOnce(d, src, pos).Ok? ==> HexDigitsSequential(d, src, pos) == HexDigitsAtOnce(d, src, pos)
  {
  }

  /** Where the first star-slash pair at or after `from` begins, if any. */
  function FirstClose(u: seq<unit16>, from: nat): (r: Option<nat>)
    ensures r.Some? ==> from <= r.value && r.value + 1 < |u| && u[r.value] == Star && u[r.value + 1] == Slash
    decreases |u| - from
  {
    if from + 1 >= |u| then None
    else if u[from] == Star && u[from + 1] == Slash then Some(from)
    else FirstClose(u, from + 1)
  }

  /** With raw code units, a block comment ends right after the first star-slash
      pair following its opening, and is an error when there is none. */
  lemma {:induction false} BlockBodyEndsAtFirstClose(o: Options, u: seq<unit16>, p: nat)
    requires p <= |u|
    ensures BlockBody(Java(o), Utf16Text(u), p).Ok? <==> FirstClose(u, p).Some?
    ensures FirstClose(u, p).Some? ==> BlockBody(Java(o), Utf16Text(u), p).value == FirstClose(u, p).value + 2
    decreases |u| - p, 1
  {
    if p < |u| {
      if u[p] == Star {
        AfterStarEndsAtFirstClose(o, u, p + 1);
      } else {
        BlockBodyEndsAtFirstClose(o, u, p + 1);
      }
    }
  }

  lemma {:induction false} AfterStarEndsAtFirstClose(o: Options, u: seq<unit16>, p: nat)
    requires 1 <= p <= |u| && u[p - 1] == Star
    ensures AfterStar(Java(o), Utf16Text(u), p).Ok? <==> FirstClose(u, p - 1).Some?
    ensures FirstClose(u, p - 1).Some? ==>
      AfterStar(Java(o), Utf16Text(u), p).value == FirstClose(u, p - 1).value + 2
    decreases |u| - p, 0
  {
    if p < |u| && u[p] != Slash {
      if u[p] == Star {
        AfterStarEndsAtFirstClose(o, u, p + 1);
      } else {
        BlockBodyEndsAtFirstClose(o, u, p + 1);
      }
    }
  }

  /** Where the first line feed at or after `from` is, or the end. */
  function LineEnd(u: seq<unit16>, from: nat): (r: nat)
    requires from <= |u|
    ensures from <= r <= |u|
    ensures r < |u| ==> u[r] == LineFeed
    decreases |u| - from
  {
    if from == |u| || u[from] == LineFeed then from else LineEnd(u, from + 1)
  }

  /** With raw code units, a line comment runs up to and including the next line
      feed, or to the end of the input. */
  lemma {:induction false} LineCommentEndsAtLineFeed(o: Options, u: seq<unit16>, p: nat)
    requires p <= |u|
    ensures LineComment(Java(o), Utf16Text(u), p)
         == Ok(if LineEnd(u, p) < |u| then LineEnd(u, p) + 1 else |u|)
    ensures forall i :: p <= i < LineEnd(u, p) ==> u[i] != LineFeed
    decreases |u| - p
  {
    if p < |u| && u[p] != LineFeed {
      LineCommentEndsAtLineFeed(o, u, p + 1);
    }
  }

  /** `NextSyntaxChar` as the C# code runs it: a loop advancing a cursor past
      whitespace, which reads the same character as the recursive reading. */
  method SkipWhitespace(d: Dialect, src: Input, pos: nat) returns (r: Result<Ch>)
    requires pos <= Len(src)
    ensures r == SyntaxChar(d, src, pos)
  {
    var p := pos;
    while true
      invariant p <= Len(src)
      invariant SyntaxChar(d, src, p) == SyntaxChar(d, src, pos)
      decreases Len(src) - p
    {
      var ch := NextChar(d, src, p);
      if ch.Err? {
        return Err(ch.msg);
      }
      if ch.value.c == -1 || !IsJsonSpace(ch.value.c) {
        return ch;
      }
      p := ch.value.pos;
    }
  }

  /** The first code unit above a space at or after `from`, if any. */
  function FirstAboveSpace(u: seq<unit16>, from: nat): (r: Option<nat>)
    ensures r.Some? ==> from <= r.value < |u| && u[r.value] > Space
    ensures r.Some? ==> forall j :: from <= j < r.value ==> u[j] <= Space
    ensures r.None? ==> forall j :: from <= j < |u| ==> u[j] <= Space
    decreases |u| - from
  {
    if from >= |u| then None
    else if u[from] > Space then Some(from)
    else FirstAboveSpace(u, from + 1)
  }

  /** Without comments, Java `NextClean` over raw code units skips every unit up
      to and including a space and stops right after the first unit above it. */
  lemma {:induction false} NextCleanSkipsControls(o: Options, u: seq<unit16>, p: nat)
    requires !o.allowComments && p <= |u|
    ensures NextClean(Java(o), Utf16Text(u), -1, p)
         == match FirstAboveSpace(u, p)
            case Some(k) => Ok(Ch(u[k], k + 1))
            case None => Ok(Ch(-1, |u|))
    decreases |u| - p
  {
    if p < |u| && u[p] <= Space {
      NextCleanSkipsControls(o, u, p + 1);
    }
  }

  // ------------------------------------------------------------------ escapes

  /** The escapes of section 7 of RFC 8259 other than `\u`: the character after
      the backslash and the one it stands for. */
  const SimpleEscapes: map<int, int> := map[
    QuoteMark := QuoteMark, Backslash := Backslash, Slash := Slash,
    0x62 := 0x08, 0x66 := 0x0C, 0x6E := LineFeed, 0x72 := CarriageReturn, 0x74 := Tab]

  /** A simple escape the tokenizer accepts: the Java form accepts `\/` only with
      the option for escaped slashes. */
  predicate SimpleEscapeAllowed(d: Dialect, c: int) {
    c in SimpleEscapes && (c != Slash || d.CSharp? || d.opts.escapedSlashes)
  }

  /** `ReadEscape` case by case: each accepted simple escape stands for its
      character of the table; `\u` succeeds exactly when its four hexadecimal
      digits are read; anything else after the backslash, and the end of the
      input, is an error. */
  lemma ReadEscapeCases(d: Dialect, src: Input, pos: nat)
    requires pos <= Len(src)
    ensures NextChar(d, src, pos).Err? ==> ReadEscape(d, src, pos).Err?
    ensures NextChar(d, src, pos).Ok? && SimpleEscapeAllowed(d, NextChar(d, src, pos).value.c) ==>
      ReadEscape(d, src, pos)
        == Ok(Esc(SimpleEscapes[NextChar(d, src, pos).value.c], true, NextChar(d, src, pos).value.pos))
    ensures NextChar(d, src, pos).Ok? && NextChar(d, src, pos).value.c == 0x75 ==>
      (ReadEscape(d, src, pos).Ok? <==>
        (if d.CSharp? then HexDigitsSequential(d, src, NextChar(d, src, pos).value.pos)
         else HexDigitsAtOnce(d, src, NextChar(d, src, pos).value.pos)).Ok?)
    ensures ReadEscape(d, src, pos).Ok? <==>
      NextChar(d, src, pos).Ok? &&
      (SimpleEscapeAllowed(d, NextChar(d, src, pos).value.c) || NextChar(d, src, pos).value.c == 0x75) &&
      (NextChar(d, src, pos).value.c == 0x75 ==>
        (if d.CSharp? then HexDigitsSequential(d, src, NextChar(d, src, pos).value.pos)
         else HexDigitsAtOnce(d, src, NextChar(d, src, pos).value.pos)).Ok?)
  {
  }

  // ------------------------------------------------------------ string errors

  /** Inside a string, the end of the input or a control character is an
      unterminated string, and a character that cannot be read is an error. */
  lemma StringLoopUnterminated(d: Dialect, src: Input, quote: int, pos: nat, sb: seq<unit16>,
                               surrogate: bool, surrogateEscaped: bool)
    requires quote == QuoteMark || quote == Apostrophe
    requires pos <= Len(src)
    requires PendingWellFormed(sb, surrogate)
    ensures NextChar(d, src, pos).Err? ==> StringLoop(d, src, quote, pos, sb, surrogate, surrogateEscaped).Err?
    ensures NextChar(d, src, pos).Ok? && NextChar(d, src, pos).value.c < Space ==>
      StringLoop(d, src, quote, pos, sb, surrogate, surrogateEscaped) == Err("Unterminated string")
  {
  }

  /** A character of a string body that fails the surrogate checks ends the
      loop with the error of the check. */
  lemma StringLoopSurrogateErrors(d: Dialect, src: Input, quote: int, pos: nat, sb: seq<unit16>,
                                  surrogate: bool, surrogateEscaped: bool)
    requires quote == QuoteMark || quote == Apostrophe
    requires pos <= Len(src)
    requires PendingWellFormed(sb, surrogate)
    requires NextChar(d, src, pos).Ok? && NextChar(d, src, pos).value.c >= Space
    requires StringUnit(d, src, NextChar(d, src, pos).value).Ok?
    ensures var e := StringUnit(d, src, NextChar(d, src, pos).value).value;
      CheckSurrogate(surrogate, surrogateEscaped, e).Err? ==>
        StringLoop(d, src, quote, pos, sb, surrogate, surrogateEscaped)
          == Err(CheckSurrogate(surrogate, surrogateEscaped, e).msg)
  {
  }

  /** Java, raw code units: a `\uD800` escape followed by a raw low surrogate is
      refused, though the two would make a pair. */
  lemma EscapedHighRawLowRefused(o: Options, u: seq<unit16>, pos: nat)
    requires pos + 7 <= |u|
    requires u[pos..pos + 7] == [Backslash, 0x75, 0x44, 0x38, 0x30, 0x30, 0xDC00]
    ensures NextString(Java(o), Utf16Text(u), QuoteMark, pos)
         == Err("Pairing escaped surrogate with unescaped surrogate")
  {
    var w := u[pos..pos + 7];
    assert u[pos] == w[0] && u[pos + 1] == w[1] && u[pos + 2] == w[2] && u[pos + 3] == w[3];
    assert u[pos + 4] == w[4] && u[pos + 5] == w[5] && u[pos + 6] == w[6];
    var src := Utf16Text(u);
    assert ReadEscape(Java(o), src, pos + 1) == Ok(Esc(0xD800, true, pos + 6));
    MaskClassifiesSurrogates(0xD800);
    assert StringLoop(Java(o), src, QuoteMark, pos, [], false, false)
        == StringLoop(Java(o), src, QuoteMark, pos + 6, [0xD800], true, true);
    MaskClassifiesSurrogates(0xDC00);
  }

  // ------------------------------------------------------------------ numbers

  /** A number in the value position: its token is collected from the lead
      character; a token the number parser refuses is an error; otherwise the
      value is that number and the next significant character follows it, so
      that in the C# form a `/` or `#` right after a parsed number is an error. */
  lemma NextJSONValueNumber(d: Dialect, parseNumber: seq<char> -> Option<Number>, src: Input, c: int, pos: nat)
    requires pos <= Len(src)
    requires c == Minus || 0x30 <= c <= 0x39
    ensures NumberToken(d, src, c, pos, []).Err? ==> NextJSONValue(d, parseNumber, src, c, pos).Err?
    ensures NumberToken(d, src, c, pos, []).Ok? ==>
      var t := NumberToken(d, src, c, pos, []).value;
      var r := NextJSONValue(d, parseNumber, src, c, pos);
      && |t.0| >= 1 && t.0[0] as int == c
      && (parseNumber(t.0).None? ==> r == Err("JSON number can't be parsed."))
      && (r.Ok? ==> parseNumber(t.0).Some? && r.value.v == JNumber(parseNumber(t.0).value))
      && (parseNumber(t.0).Some? ==>
            (r.Ok? <==> Clean(d, src, t.1.c, t.1.pos).Ok?) &&
            (r.Ok? ==> r.value.next == Clean(d, src, t.1.c, t.1.pos).value))
      && (parseNumber(t.0).Some? && d.CSharp? && (t.1.c == Slash || t.1.c == Hash) ==>
            r == Err("Comments not allowed"))
  {
    NumberTokenKeepsPrefix(d, src, c, pos, []);
    var t := NumberToken(d, src, c, pos, []);
    if t.Ok? {
      if parseNumber(t.value.0).Some? {
        if d.CSharp? {
          assert Clean(d, src, t.value.1.c, t.value.1.pos) == SyntaxCharAfter(d, src, t.value.1.c, t.value.1.pos);
        }
      }
    }
  }

  /** The collected token starts with what was held and the lead character. */
  lemma {:induction false} NumberTokenKeepsPrefix(d: Dialect, src: Input, c: int, pos: nat, sb: seq<char>)
    requires pos <= Len(src)
    ensures NumberToken(d, src, c, pos, sb).Ok? && IsNumberChar(c) ==>
      |NumberToken(d, src, c, pos, sb).value.0| > |sb| &&
      NumberToken(d, src, c, pos, sb).value.0[..|sb|] == sb &&
      NumberToken(d, src, c, pos, sb).value.0[|sb|] as int == c
    decreases Len(src) - pos + (if IsNumberChar(c) then 1 else 0)
  {
    if IsNumberChar(c) {
      var ch := NextChar(d, src, pos);
      if ch.Ok? {
        var sb' := sb + [c as char];
        NumberTokenKeepsPrefix(d, src, ch.value.c, ch.value.pos, sb');
        var t := NumberToken(d, src, ch.value.c, ch.value.pos, sb');
        if t.Ok? {
          assert t.value.0[..|sb'|] == sb';
          assert t.value.0[..|sb|] == sb'[..|sb|];
          assert t.value.0[|sb|] == sb'[|sb|];
        }
      }
    }
  }

  /** The end of the run of number characters at or after `from`. */
  function NumberRunEnd(u: seq<unit16>, from: nat): (r: nat)
    requires from <= |u|
    ensures from <= r <= |u|
    ensures forall j :: from <= j < r ==> IsNumberChar(u[j])
    ensures r < |u| ==> !IsNumberChar(u[r])
    decreases |u| - from
  {
    if from < |u| && IsNumberChar(u[from]) then NumberRunEnd(u, from + 1) else from
  }

  /** Java, raw code units: the token is greedy, made of the lead character and
      every number character up to the first other unit, which is the character
      handed on. */
  lemma {:induction false} NumberTokenIsRun(o: Options, u: seq<unit16>, c: int, pos: nat, sb: seq<char>)
    requires pos <= |u| && IsNumberChar(c)
    ensures var k := NumberRunEnd(u, pos);
      var r := NumberToken(Java(o), Utf16Text(u), c, pos, sb);
      && r.Ok?
      && |r.value.0| == |sb| + 1 + (k - pos)
      && r.value.0[..|sb|] == sb
      && r.value.0[|sb|] as int == c
      && (forall j :: pos <= j < k ==> r.value.0[|sb| + 1 + (j - pos)] as int == u[j])
      && r.value.1 == (if k < |u| then Ch(u[k], k + 1) else Ch(-1, |u|))
    decreases |u| - pos
  {
    var src := Utf16Text(u);
    var sb' := sb + [c as char];
    if pos < |u| && IsNumberChar(u[pos]) {
      NumberTokenIsRun(o, u, u[pos], pos + 1, sb');
      var r := NumberToken(Java(o), src, u[pos], pos + 1, sb');
      assert NumberToken(Java(o), src, c, pos, sb) == r;
      assert r.value.0[..|sb|] == sb'[..|sb|];
      assert r.value.0[|sb|] == sb'[|sb|];
    } else {
      assert NumberToken(Java(o), src, c, pos, sb)
          == Ok((sb', if pos < |u| then Ch(u[pos], pos + 1) else Ch(-1, pos)));
      assert sb'[..|sb|] == sb;
    }
  }

  // --------------------------------------------------------- syntax characters

  /** The first code unit at or after `from` that is not JSON whitespace, if any. */
  function FirstNonSpace(u: seq<unit16>, from: nat): (r: Option<nat>)
    ensures r.Some? ==> from <= r.value < |u| && !IsJsonSpace(u[r.value])
    ensures r.Some? ==> forall j :: from <= j < r.value ==> IsJsonSpace(u[j])
    ensures r.None? ==> forall j :: from <= j < |u| ==> IsJsonSpace(u[j])
    decreases |u| - from
  {
    if from >= |u| then None
    else if !IsJsonSpace(u[from]) then Some(from)
    else FirstNonSpace(u, from + 1)
  }

  /** Over a string, `SyntaxChar` skips exactly the whitespace units before the
      first other unit and reads the character there, or reaches the end. */
  lemma {:induction false} SyntaxCharSkipsOnlySpaces(d: Dialect, u: seq<unit16>, p: nat)
    requires p <= |u|
    ensures SyntaxChar(d, Utf16Text(u), p)
         == match FirstNonSpace(u, p)
            case Some(k) => NextChar(d, Utf16Text(u), k)
            case None => Ok(Ch(-1, |u|))
    decreases |u| - p
  {
    if p < |u| && IsJsonSpace(u[p]) {
      SyntaxCharSkipsOnlySpaces(d, u, p + 1);
    }
  }
}
