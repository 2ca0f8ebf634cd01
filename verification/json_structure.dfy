/** What the JSON tokenizer reads back from arrays and objects written in a
    known way: compact text, literal values, and object keys written entirely
    in `\u` escapes. The readings settle the structural rules of sections 4
    and 5 of RFC 8259 as each tokenizer applies them: empty array elements,
    trailing commas, duplicate keys, and the last value winning. */
module JsonStructure {

  import opened Wrappers
  import opened Utf16
  import opened JsonTokener
  import opened JsonRoundTrip
  import opened CborNumbers

  /** The three literal names. */
  datatype Lit = LTrue | LFalse | LNull

  function LitText(l: Lit): (t: seq<unit16>)
    ensures |t| >= 4 && Significant(t[0])
  {
    match l
    case LTrue => [0x74, 0x72, 0x75, 0x65]
    case LFalse => [0x66, 0x61, 0x6C, 0x73, 0x65]
    case LNull => [0x6E, 0x75, 0x6C, 0x6C]
  }

  /** What a literal means: the Java tokenizer reads `null` as false. */
  function LitValue(d: Dialect, l: Lit): JValue {
    match l
    case LTrue => JTrue
    case LFalse => JFalse
    case LNull => if d.CSharp? then JNull else JFalse
  }

  /** A character that ends a value and is read as it is by `Clean` in either
      tokenizer: above a space, no surrogate, and opening no comment. */
  predicate Significant(c: int) {
    Space < c < 0xD800 && c != Slash && c != Hash
  }

  // ------------------------------------------------------------ characters

  /** A significant character is the next character to either form of `Clean`. */
  lemma CleanOfSignificant(d: Dialect, u: seq<unit16>, pos: nat)
    requires pos < |u| && Significant(u[pos])
    ensures Clean(d, Utf16Text(u), -1, pos) == Ok(Ch(u[pos], pos + 1))
  {
    NextCharOfBmpUnit(d, u, pos);
    if d.Java? && d.opts.allowComments {
      assert CommentLoop(d, Utf16Text(u), -1, pos) == Ok(Ch(u[pos], pos + 1));
    }
  }

  /** `CleanOfSignificant` with the character named. */
  lemma CleanAt(d: Dialect, u: seq<unit16>, pos: nat, c: int)
    requires pos < |u| && u[pos] == c && Significant(c)
    ensures Clean(d, Utf16Text(u), -1, pos) == Ok(Ch(c, pos + 1))
  {
    CleanOfSignificant(d, u, pos);
  }

  /** The rest of a literal written out is matched character by character. */
  lemma {:induction false} ExpectCharsOfText(d: Dialect, u: seq<unit16>, pos: nat, rest: seq<int>)
    requires pos + |rest| <= |u|
    requires forall i :: 0 <= i < |rest| ==> u[pos + i] == rest[i] && rest[i] < 0xD800
    ensures ExpectChars(d, Utf16Text(u), pos, rest) == Ok(pos + |rest|)
    decreases |rest|
  {
    if rest != [] {
      assert u[pos + 0] == rest[0];
      NextCharOfBmpUnit(d, u, pos);
      forall i | 0 <= i < |rest[1..]|
        ensures u[pos + 1 + i] == rest[1..][i] && rest[1..][i] < 0xD800
      {
        assert u[pos + (i + 1)] == rest[i + 1];
      }
      ExpectCharsOfText(d, u, pos + 1, rest[1..]);
    }
  }

  /** A literal name whose rest matches and whose next significant character
      is `n` is read as its value. */
  lemma ValueStepLiteral(d: Dialect, parseNumber: seq<char> -> Option<Number>, src: Input, pos: nat,
                         l: Lit, p: nat, n: Ch)
    requires pos <= Len(src)
    requires ExpectChars(d, src, pos, LitText(l)[1..]) == Ok(p)
    requires Clean(d, src, -1, p) == Ok(n)
    ensures NextJSONValue(d, parseNumber, src, LitText(l)[0], pos) == Ok(Parsed(LitValue(d, l), n))
  {
    match l
    case LTrue =>
      assert LitText(l)[1..] == [0x72, 0x75, 0x65];
      ValueStepTrue(d, parseNumber, src, pos, p, n);
    case LFalse =>
      assert LitText(l)[1..] == [0x61, 0x6C, 0x73, 0x65];
      ValueStepFalse(d, parseNumber, src, pos, p, n);
    case LNull =>
      assert LitText(l)[1..] == [0x75, 0x6C, 0x6C];
      ValueStepNull(d, parseNumber, src, pos, p, n);
  }

  lemma ValueStepTrue(d: Dialect, parseNumber: seq<char> -> Option<Number>, src: Input, pos: nat, p: nat, n: Ch)
    requires pos <= Len(src)
    requires ExpectChars(d, src, pos, [0x72, 0x75, 0x65]) == Ok(p)
    requires Clean(d, src, -1, p) == Ok(n)
    ensures NextJSONValue(d, parseNumber, src, 0x74, pos) == Ok(Parsed(JTrue, n))
  {
    assert !OpensString(d, 0x74);
  }

  lemma ValueStepFalse(d: Dialect, parseNumber: seq<char> -> Option<Number>, src: Input, pos: nat, p: nat, n: Ch)
    requires pos <= Len(src)
    requires ExpectChars(d, src, pos, [0x61, 0x6C, 0x73, 0x65]) == Ok(p)
    requires Clean(d, src, -1, p) == Ok(n)
    ensures NextJSONValue(d, parseNumber, src, 0x66, pos) == Ok(Parsed(JFalse, n))
  {
    assert !OpensString(d, 0x66);
  }

  /** The Java form reads `null` as false. */
  lemma ValueStepNull(d: Dialect, parseNumber: seq<char> -> Option<Number>, src: Input, pos: nat, p: nat, n: Ch)
    requires pos <= Len(src)
    requires ExpectChars(d, src, pos, [0x75, 0x6C, 0x6C]) == Ok(p)
    requires Clean(d, src, -1, p) == Ok(n)
    ensures NextJSONValue(d, parseNumber, src, 0x6E, pos) == Ok(Parsed(if d.CSharp? then JNull else JFalse, n))
  {
    NullBranch(d, parseNumber, src, pos);
  }

  /** What the value reader does on an `n`. */
  lemma NullBranch(d: Dialect, parseNumber: seq<char> -> Option<Number>, src: Input, pos: nat)
    requires pos <= Len(src)
    ensures NextJSONValue(d, parseNumber, src, 0x6E, pos)
         == match ExpectChars(d, src, pos, [0x75, 0x6C, 0x6C])
            case Err(e) => Err(e)
            case Ok(p) =>
              match Clean(d, src, -1, p)
              case Err(e) => Err(e)
              case Ok(n) => Ok(Parsed(if d.CSharp? then JNull else JFalse, n))
  {
    assert !OpensString(d, 0x6E);
  }


  /** The literal `l` is written at `pos`, and `next` is the first significant
      character after it, as either tokenizer reads them. */
  predicate LiteralAt(d: Dialect, src: Input, pos: nat, l: Lit, next: Ch) {
    && src.Utf16Text?
    && pos + |LitText(l)| <= Len(src)
    && Clean(d, src, -1, pos) == Ok(Ch(LitText(l)[0], pos + 1))
    && ExpectChars(d, src, pos + 1, LitText(l)[1..]) == Ok(pos + |LitText(l)|)
    && Clean(d, src, -1, pos + |LitText(l)|) == Ok(next)
  }

  /** A literal read as `LiteralAt` says is the literal's value, with `next`
      as the lookahead. */
  lemma LiteralStep(d: Dialect, parseNumber: seq<char> -> Option<Number>, src: Input, pos: nat, l: Lit, next: Ch)
    requires LiteralAt(d, src, pos, l, next)
    ensures NextJSONValue(d, parseNumber, src, LitText(l)[0], pos + 1) == Ok(Parsed(LitValue(d, l), next))
  {
    ValueStepLiteral(d, parseNumber, src, pos + 1, l, pos + |LitText(l)|, next);
  }

  /** Some value `v` is written at `pos`, and `next` is the first significant
      character after it. */
  predicate ValueAt(d: Dialect, parseNumber: seq<char> -> Option<Number>, src: Input, pos: nat, v: JValue, next: Ch) {
    pos <= Len(src) && ReadValue(d, parseNumber, src, pos) == Ok(Parsed(v, next))
  }

  /** A value as the tokenizers read it from `pos`: the next significant
      character, then the value it opens. */
  function ReadValue(d: Dialect, parseNumber: seq<char> -> Option<Number>, src: Input, pos: nat): Result<Parsed>
    requires pos <= Len(src)
  {
    var first :- Clean(d, src, -1, pos);
    if first.c < 0 then Err("Unexpected end of data")
    else NextJSONValue(d, parseNumber, src, first.c, first.pos)
  }

  /** A literal read as `LiteralAt` says is a value written there. */
  lemma LiteralValueAt(d: Dialect, parseNumber: seq<char> -> Option<Number>, src: Input, pos: nat, l: Lit, next: Ch)
    requires LiteralAt(d, src, pos, l, next)
    ensures ValueAt(d, parseNumber, src, pos, LitValue(d, l), next)
  {
    LiteralStep(d, parseNumber, src, pos, l, next);
  }

  /** A literal written out and followed by a significant character is read
      as `LiteralAt` says. */
  lemma LiteralFacts(d: Dialect, u: seq<unit16>, pos: nat, l: Lit, next: Ch)
    requires pos + |LitText(l)| < |u|
    requires u[pos..pos + |LitText(l)|] == LitText(l)
    requires Significant(u[pos + |LitText(l)|])
    requires next == Ch(u[pos + |LitText(l)|], pos + |LitText(l)| + 1)
    ensures LiteralAt(d, Utf16Text(u), pos, l, next)
  {
    LiteralHeadAt(d, u, pos, l);
    LiteralBodyAt(d, u, pos, l);
    CleanOfSignificant(d, u, pos + |LitText(l)|);
  }

  /** The first character of a literal written out is the next character. */
  lemma LiteralHeadAt(d: Dialect, u: seq<unit16>, pos: nat, l: Lit)
    requires pos + |LitText(l)| <= |u| && u[pos..pos + |LitText(l)|] == LitText(l)
    ensures Clean(d, Utf16Text(u), -1, pos) == Ok(Ch(LitText(l)[0], pos + 1))
  {
    SliceCons(u, pos, pos + |LitText(l)|, LitText(l));
    CleanOfSignificant(d, u, pos);
  }

  /** The rest of a literal written out follows its first character. */
  lemma LiteralBodyAt(d: Dialect, u: seq<unit16>, pos: nat, l: Lit)
    requires pos + |LitText(l)| <= |u| && u[pos..pos + |LitText(l)|] == LitText(l)
    ensures ExpectChars(d, Utf16Text(u), pos + 1, LitText(l)[1..]) == Ok(pos + |LitText(l)|)
  {
    var t := LitText(l);
    var q := pos + |t|;
    forall i | 0 <= i < |t[1..]| ensures u[pos + 1 + i] == t[1..][i] && t[1..][i] < 0xD800 {
      assert u[pos..q][i + 1] == u[pos + 1 + i];
    }
    ExpectCharsOfText(d, u, pos + 1, t[1..]);
  }

  // ---------------------------------------------------------------- arrays

  /** An array element: a literal, or nothing between two commas. */
  datatype Elem = Value(l: Lit) | Hole

  /** What an element stands for once accepted: a hole is null. */
  function ElemValue(d: Dialect, e: Elem): JValue {
    match e
    case Value(l) => LitValue(d, l)
    case Hole => JNull
  }

  function ElemValues(d: Dialect, es: seq<Elem>): (vs: seq<JValue>)
    ensures |vs| == |es|
  {
    if es == [] then [] else [ElemValue(d, es[0])] + ElemValues(d, es[1..])
  }

  /** The closing of an array or object, after a comma when `trailing`. */
  function Closing(close: unit16, trailing: bool): seq<unit16> {
    if trailing then [Comma, close] else [close]
  }

  /** The elements of a nonempty array after its opening bracket: separated by
      commas, with a comma before the closing bracket when `trailing`. */
  function ElementsText(es: seq<Elem>, trailing: bool): seq<unit16>
    requires |es| > 0
    decreases |es|
  {
    match es[0]
    case Hole => [Comma] + if |es| == 1 then [CloseBracket] else ElementsText(es[1..], trailing)
    case Value(l) =>
      LitText(l) + if |es| == 1 then Closing(CloseBracket, trailing) else [Comma] + ElementsText(es[1..], trailing)
  }

  /** A whole array. */
  function ArrayText(es: seq<Elem>, trailing: bool): seq<unit16>
    requires es == [] ==> !trailing
  {
    [OpenBracket] + if es == [] then [CloseBracket] else ElementsText(es, trailing)
  }

  predicate HasHole(es: seq<Elem>)
    decreases |es|
  {
    es != [] && (es[0].Hole? || HasHole(es[1..]))
  }

  /** The array rules: a hole needs the Java option for empty elements, and a
      trailing comma the Java option for trailing commas; a hole last in the
      array leaves a trailing comma behind it. */
  predicate ArrayAccepted(d: Dialect, es: seq<Elem>, trailing: bool) {
    && (HasHole(es) ==> d.Java? && d.opts.emptyArrayElements)
    && (trailing || (es != [] && es[|es| - 1].Hole?) ==> TrailingCommasAllowed(d))
  }
  lemma ArrayStepComma(d: Dialect, parseNumber: seq<char> -> Option<Number>, src: Input, pos: nat,
                       acc: seq<JValue>, seenComma: bool, p: nat)
    requires pos <= Len(src) && Clean(d, src, -1, pos) == Ok(Ch(Comma, p))
    ensures ParseArray(d, parseNumber, src, pos, acc, seenComma)
         == if d.CSharp? then Err("Empty array element")
            else if !d.opts.emptyArrayElements then Err("Two commas one after the other")
            else ParseArray(d, parseNumber, src, p, acc + [JNull], true)
  {
  }

  lemma ArrayStepClose(d: Dialect, parseNumber: seq<char> -> Option<Number>, src: Input, pos: nat,
                       acc: seq<JValue>, seenComma: bool, p: nat)
    requires pos <= Len(src) && Clean(d, src, -1, pos) == Ok(Ch(CloseBracket, p))
    ensures ParseArray(d, parseNumber, src, pos, acc, seenComma)
         == if seenComma && !TrailingCommasAllowed(d) then Err("Trailing comma") else Ok((JArray(acc), p))
  {
  }

  /** The first unit of a slice, and the slice after it. */
  lemma SliceCons(u: seq<unit16>, pos: nat, end: nat, a: seq<unit16>)
    requires pos <= end <= |u| && u[pos..end] == a && |a| > 0
    ensures pos < end && u[pos] == a[0] && u[pos + 1..end] == a[1..]
  {
    assert u[pos..end][0] == u[pos];
  }

  /** The position right after a literal written at `pos`, the rest following. */
  lemma LiteralThen(u: seq<unit16>, pos: nat, end: nat, l: Lit, rest: seq<unit16>)
    requires pos <= end <= |u| && u[pos..end] == LitText(l) + rest && |rest| > 0
    ensures pos + |LitText(l)| < end
    ensures u[pos..pos + |LitText(l)|] == LitText(l)
    ensures u[pos + |LitText(l)|] == rest[0] && u[pos + |LitText(l)| + 1..end] == rest[1..]
  {
    SliceOfConcat(u, pos, end, LitText(l), rest);
    SliceCons(u, pos + |LitText(l)|, end, rest);
  }

  /** A literal that opens the rest, with a significant character after it,
      is read as `LiteralAt` says. */
  lemma LiteralTextFacts(d: Dialect, parseNumber: seq<char> -> Option<Number>, u: seq<unit16>, pos: nat, end: nat, l: Lit, rest: seq<unit16>, next: Ch)
    requires pos <= end <= |u| && u[pos..end] == LitText(l) + rest
    requires |rest| > 0 && Significant(rest[0]) && next == Ch(rest[0], AfterLiteral(pos, l))
    ensures next.pos <= end && u[next.pos..end] == rest[1..]
    ensures ValueAt(d, parseNumber, Utf16Text(u), pos, LitValue(d, l), next)
  {
    LiteralThen(u, pos, end, l, rest);
    LiteralFacts(d, u, pos, l, next);
    LiteralValueAt(d, parseNumber, Utf16Text(u), pos, l, next);
  }

  /** Where the character after the one that follows a literal written at
      `pos` lies. */
  function AfterLiteral(pos: nat, l: Lit): (q: nat)
  {
    pos + |LitText(l)| + 1
  }

  /** The elements `es` are written from `pos`, the closing bracket ending at
      `end`, as the tokenizer reads them character by character. */
  predicate ElementsAt(d: Dialect, parseNumber: seq<char> -> Option<Number>, src: Input, pos: nat, end: nat, es: seq<Elem>, trailing: bool)
    requires |es| > 0
    decreases |es|
  {
    && src.Utf16Text?
    && pos <= Len(src)
    && match es[0]
       case Hole =>
         && Clean(d, src, -1, pos) == Ok(Ch(Comma, pos + 1))
         && if |es| == 1 then Clean(d, src, -1, pos + 1) == Ok(Ch(CloseBracket, end))
            else ElementsAt(d, parseNumber, src, pos + 1, end, es[1..], trailing)
       case Value(l) =>
         var q := AfterLiteral(pos, l);
         if |es| == 1 && !trailing then ValueAt(d, parseNumber, src, pos, LitValue(d, l), Ch(CloseBracket, end))
         else
           && ValueAt(d, parseNumber, src, pos, LitValue(d, l), Ch(Comma, q))
           && if |es| == 1 then Clean(d, src, -1, q) == Ok(Ch(CloseBracket, end))
              else ElementsAt(d, parseNumber, src, q, end, es[1..], trailing)
  }

  /** `ElementsAt` for a hole followed by more elements. */
  lemma ElementsAtHole(d: Dialect, parseNumber: seq<char> -> Option<Number>, src: Input, pos: nat, end: nat, es: seq<Elem>, trailing: bool)
    requires |es| > 1 && es[0].Hole? && ElementsAt(d, parseNumber, src, pos, end, es, trailing)
    ensures pos + 1 <= Len(src) && ElementsAt(d, parseNumber, src, pos + 1, end, es[1..], trailing)
  {
  }

  /** `ElementsAt` for a literal followed by more elements. */
  lemma ElementsAtValue(d: Dialect, parseNumber: seq<char> -> Option<Number>, src: Input, pos: nat, end: nat, es: seq<Elem>, trailing: bool, l: Lit)
    requires |es| > 1 && es[0] == Value(l) && ElementsAt(d, parseNumber, src, pos, end, es, trailing)
    ensures ValueAt(d, parseNumber, src, pos, LitValue(d, l), Ch(Comma, AfterLiteral(pos, l)))
    ensures ElementsAt(d, parseNumber, src, AfterLiteral(pos, l), end, es[1..], trailing)
  {
  }

  /** A literal followed by more elements: one step of `ParseArray`. */
  lemma ValueThenElements(d: Dialect, parseNumber: seq<char> -> Option<Number>, src: Input, pos: nat, end: nat,
                          acc: seq<JValue>, seenComma: bool, es: seq<Elem>, trailing: bool, l: Lit)
    requires |es| > 1 && es[0] == Value(l) && ElementsAt(d, parseNumber, src, pos, end, es, trailing)
    ensures ElementsAt(d, parseNumber, src, AfterLiteral(pos, l), end, es[1..], trailing)
    ensures ParseArray(d, parseNumber, src, pos, acc, seenComma)
         == ParseArray(d, parseNumber, src, AfterLiteral(pos, l), acc + [LitValue(d, l)], true)
  {
    ElementsAtValue(d, parseNumber, src, pos, end, es, trailing, l);
    ArrayStepElement(d, parseNumber, src, pos, acc, seenComma, LitValue(d, l), Ch(Comma, AfterLiteral(pos, l)));
  }

  /** The values of elements after `acc`, the first one split off. */
  lemma ElemValuesCons(d: Dialect, acc: seq<JValue>, es: seq<Elem>)
    requires |es| > 0
    ensures acc + ElemValues(d, es) == (acc + [ElemValue(d, es[0])]) + ElemValues(d, es[1..])
  {
  }

  /** An element read as the value `v`, followed by `next`. */
  lemma ArrayStepElement(d: Dialect, parseNumber: seq<char> -> Option<Number>, src: Input, pos: nat,
                         acc: seq<JValue>, seenComma: bool, v: JValue, next: Ch)
    requires ValueAt(d, parseNumber, src, pos, v, next)
    ensures next.pos <= Len(src)
    ensures ParseArray(d, parseNumber, src, pos, acc, seenComma)
         == if next.c == Comma then ParseArray(d, parseNumber, src, next.pos, acc + [v], true)
            else if next.c == CloseBracket then Ok((JArray(acc + [v]), next.pos))
            else Err("Expected a ',' or ']'")
  {
  }

  /** The array rules after a leading hole: the hole needs the empty-element
      option, and the rest must be admitted. */
  lemma AcceptedAfterHole(d: Dialect, es: seq<Elem>, trailing: bool)
    requires |es| > 1 && es[0].Hole?
    ensures ArrayAccepted(d, es, trailing)
        <==> d.Java? && d.opts.emptyArrayElements && ArrayAccepted(d, es[1..], trailing)
  {
    assert es[1..][|es[1..]| - 1] == es[|es| - 1];
  }

  /** The array rules after a leading literal: the rest must be admitted. */
  lemma AcceptedAfterValue(d: Dialect, es: seq<Elem>, trailing: bool)
    requires |es| > 1 && es[0].Value?
    ensures ArrayAccepted(d, es, trailing) <==> ArrayAccepted(d, es[1..], trailing)
  {
    assert es[1..][|es[1..]| - 1] == es[|es| - 1];
  }

  /** Either tokenizer reads elements laid out as `ElementsAt` says as their
      values appended to `acc` when the array rules admit them, and fails
      otherwise. */
  lemma {:induction false} ParseArrayReadsElements(d: Dialect, parseNumber: seq<char> -> Option<Number>, src: Input, pos: nat, end: nat,
                                                   acc: seq<JValue>, seenComma: bool,
                                                   es: seq<Elem>, trailing: bool)
    requires |es| > 0 && ElementsAt(d, parseNumber, src, pos, end, es, trailing)
    ensures var r := ParseArray(d, parseNumber, src, pos, acc, seenComma);
      if ArrayAccepted(d, es, trailing) then r == Ok((JArray(acc + ElemValues(d, es)), end)) else r.Err?
    decreases |es|, 1
  {
    match es[0]
    case Hole =>
      if |es| == 1 {
        ReadsLastHole(d, parseNumber, src, pos, end, acc, seenComma, es, trailing);
      } else {
        ReadsHole(d, parseNumber, src, pos, end, acc, seenComma, es, trailing);
      }
    case Value(l) =>
      if |es| == 1 {
        ReadsLastValue(d, parseNumber, src, pos, end, acc, seenComma, es, trailing, l);
      } else {
        ReadsValue(d, parseNumber, src, pos, end, acc, seenComma, es, trailing, l);
      }
  }

  lemma ReadsLastHole(d: Dialect, parseNumber: seq<char> -> Option<Number>, src: Input, pos: nat, end: nat,
                      acc: seq<JValue>, seenComma: bool, es: seq<Elem>, trailing: bool)
    requires |es| == 1 && es[0].Hole? && ElementsAt(d, parseNumber, src, pos, end, es, trailing)
    ensures var r := ParseArray(d, parseNumber, src, pos, acc, seenComma);
      if ArrayAccepted(d, es, trailing) then r == Ok((JArray(acc + ElemValues(d, es)), end)) else r.Err?
  {
    assert ElemValues(d, es) == [JNull];
    ArrayStepComma(d, parseNumber, src, pos, acc, seenComma, pos + 1);
    if d.Java? && d.opts.emptyArrayElements {
      ArrayStepClose(d, parseNumber, src, pos + 1, acc + [JNull], true, end);
    }
  }

  lemma {:induction false} ReadsHole(d: Dialect, parseNumber: seq<char> -> Option<Number>, src: Input, pos: nat, end: nat,
                                     acc: seq<JValue>, seenComma: bool, es: seq<Elem>, trailing: bool)
    requires |es| > 1 && es[0].Hole? && ElementsAt(d, parseNumber, src, pos, end, es, trailing)
    ensures var r := ParseArray(d, parseNumber, src, pos, acc, seenComma);
      if ArrayAccepted(d, es, trailing) then r == Ok((JArray(acc + ElemValues(d, es)), end)) else r.Err?
    decreases |es|, 0
  {
    ElemValuesCons(d, acc, es);
    AcceptedAfterHole(d, es, trailing);
    ElementsAtHole(d, parseNumber, src, pos, end, es, trailing);
    ArrayStepComma(d, parseNumber, src, pos, acc, seenComma, pos + 1);
    if d.Java? && d.opts.emptyArrayElements {
      ParseArrayReadsElements(d, parseNumber, src, pos + 1, end, acc + [JNull], true, es[1..], trailing);
    }
  }

  lemma ReadsLastValue(d: Dialect, parseNumber: seq<char> -> Option<Number>, src: Input, pos: nat, end: nat,
                       acc: seq<JValue>, seenComma: bool, es: seq<Elem>, trailing: bool, l: Lit)
    requires |es| == 1 && es[0] == Value(l) && ElementsAt(d, parseNumber, src, pos, end, es, trailing)
    ensures var r := ParseArray(d, parseNumber, src, pos, acc, seenComma);
      if ArrayAccepted(d, es, trailing) then r == Ok((JArray(acc + ElemValues(d, es)), end)) else r.Err?
  {
    assert ElemValues(d, es) == [LitValue(d, l)];
    assert !HasHole(es);
    if trailing {
      var q := AfterLiteral(pos, l);
      ArrayStepElement(d, parseNumber, src, pos, acc, seenComma, LitValue(d, l), Ch(Comma, q));
      ArrayStepClose(d, parseNumber, src, q, acc + [LitValue(d, l)], true, end);
    } else {
      ArrayStepElement(d, parseNumber, src, pos, acc, seenComma, LitValue(d, l), Ch(CloseBracket, end));
    }
  }

  lemma {:induction false} ReadsValue(d: Dialect, parseNumber: seq<char> -> Option<Number>, src: Input, pos: nat, end: nat,
                                      acc: seq<JValue>, seenComma: bool, es: seq<Elem>, trailing: bool, l: Lit)
    requires |es| > 1 && es[0] == Value(l) && ElementsAt(d, parseNumber, src, pos, end, es, trailing)
    ensures var r := ParseArray(d, parseNumber, src, pos, acc, seenComma);
      if ArrayAccepted(d, es, trailing) then r == Ok((JArray(acc + ElemValues(d, es)), end)) else r.Err?
    decreases |es|, 0
  {
    var q := AfterLiteral(pos, l);
    ElemValuesCons(d, acc, es);
    AcceptedAfterValue(d, es, trailing);
    ValueThenElements(d, parseNumber, src, pos, end, acc, seenComma, es, trailing, l);
    ParseArrayReadsElements(d, parseNumber, src, q, end, acc + [LitValue(d, l)], true, es[1..], trailing);
  }

  /** `ElementsAt` built from a leading hole and the rest. */
  lemma ElementsAtHoleIntro(d: Dialect, parseNumber: seq<char> -> Option<Number>, src: Input, pos: nat, end: nat, es: seq<Elem>, trailing: bool)
    requires src.Utf16Text? && pos <= Len(src) && |es| > 1 && es[0].Hole?
    requires Clean(d, src, -1, pos) == Ok(Ch(Comma, pos + 1))
    requires ElementsAt(d, parseNumber, src, pos + 1, end, es[1..], trailing)
    ensures ElementsAt(d, parseNumber, src, pos, end, es, trailing)
  {
  }

  /** `ElementsAt` built from a leading literal and the rest. */
  lemma ElementsAtValueIntro(d: Dialect, parseNumber: seq<char> -> Option<Number>, src: Input, pos: nat, end: nat, es: seq<Elem>, trailing: bool, l: Lit)
    requires src.Utf16Text? && pos <= Len(src) && |es| > 1 && es[0] == Value(l)
    requires ValueAt(d, parseNumber, src, pos, LitValue(d, l), Ch(Comma, AfterLiteral(pos, l)))
    requires ElementsAt(d, parseNumber, src, AfterLiteral(pos, l), end, es[1..], trailing)
    ensures ElementsAt(d, parseNumber, src, pos, end, es, trailing)
  {
  }

  /** Compact text of the elements is laid out as `ElementsAt` says. */
  lemma {:induction false} ElementsTextAt(d: Dialect, parseNumber: seq<char> -> Option<Number>, u: seq<unit16>, pos: nat, end: nat, es: seq<Elem>, trailing: bool)
    requires |es| > 0 && pos <= end <= |u| && u[pos..end] == ElementsText(es, trailing)
    ensures ElementsAt(d, parseNumber, Utf16Text(u), pos, end, es, trailing)
    decreases |es|, 2
  {
    match es[0]
    case Hole =>
      if |es| == 1 {
        LastHoleText(d, parseNumber, u, pos, end, es, trailing);
      } else {
        HoleText(d, parseNumber, u, pos, end, es, trailing);
      }
    case Value(l) =>
      if |es| == 1 {
        LastValueText(d, parseNumber, u, pos, end, es, trailing, l);
      } else {
        ValueText(d, parseNumber, u, pos, end, es, trailing, l);
      }
  }

  lemma LastHoleText(d: Dialect, parseNumber: seq<char> -> Option<Number>, u: seq<unit16>, pos: nat, end: nat, es: seq<Elem>, trailing: bool)
    requires |es| == 1 && es[0].Hole? && pos <= end <= |u| && u[pos..end] == ElementsText(es, trailing)
    ensures ElementsAt(d, parseNumber, Utf16Text(u), pos, end, es, trailing)
  {
    assert ElementsText(es, trailing) == [Comma] + [CloseBracket];
    SliceCons(u, pos, end, [Comma] + [CloseBracket]);
    SliceCons(u, pos + 1, end, [CloseBracket]);
    CleanOfSignificant(d, u, pos);
    CleanOfSignificant(d, u, pos + 1);
  }

  lemma {:induction false} HoleText(d: Dialect, parseNumber: seq<char> -> Option<Number>, u: seq<unit16>, pos: nat, end: nat, es: seq<Elem>, trailing: bool)
    requires |es| > 1 && es[0].Hole? && pos <= end <= |u| && u[pos..end] == ElementsText(es, trailing)
    ensures ElementsAt(d, parseNumber, Utf16Text(u), pos, end, es, trailing)
    decreases |es|, 1
  {
    var rest := ElementsText(es[1..], trailing);
    SliceCons(u, pos, end, [Comma] + rest);
    assert ([Comma] + rest)[1..] == rest;
    CleanOfSignificant(d, u, pos);
    ElementsTextAt(d, parseNumber, u, pos + 1, end, es[1..], trailing);
    ElementsAtHoleIntro(d, parseNumber, Utf16Text(u), pos, end, es, trailing);
  }

  lemma LastValueText(d: Dialect, parseNumber: seq<char> -> Option<Number>, u: seq<unit16>, pos: nat, end: nat, es: seq<Elem>, trailing: bool, l: Lit)
    requires |es| == 1 && es[0] == Value(l) && pos <= end <= |u| && u[pos..end] == ElementsText(es, trailing)
    ensures ElementsAt(d, parseNumber, Utf16Text(u), pos, end, es, trailing)
  {
    var rest := Closing(CloseBracket, trailing);
    var q := AfterLiteral(pos, l);
    if trailing {
      LiteralTextFacts(d, parseNumber, u, pos, end, l, rest, Ch(Comma, q));
      assert rest[1..] == [CloseBracket];
      CloseAt(d, u, q, end, CloseBracket);
    } else {
      LiteralTextFacts(d, parseNumber, u, pos, end, l, rest, Ch(CloseBracket, end));
    }
    LastElementsAtIntro(d, parseNumber, Utf16Text(u), pos, end, es, trailing, l);
  }

  /** `ElementsAt` for a lone literal. */
  lemma LastElementsAtIntro(d: Dialect, parseNumber: seq<char> -> Option<Number>, src: Input, pos: nat, end: nat,
                            es: seq<Elem>, trailing: bool, l: Lit)
    requires src.Utf16Text? && pos <= Len(src) && |es| == 1 && es[0] == Value(l)
    requires trailing ==>
      && ValueAt(d, parseNumber, src, pos, LitValue(d, l), Ch(Comma, AfterLiteral(pos, l)))
      && AfterLiteral(pos, l) <= Len(src)
      && Clean(d, src, -1, AfterLiteral(pos, l)) == Ok(Ch(CloseBracket, end))
    requires !trailing ==> ValueAt(d, parseNumber, src, pos, LitValue(d, l), Ch(CloseBracket, end))
    ensures ElementsAt(d, parseNumber, src, pos, end, es, trailing)
  {
  }

  lemma {:induction false} ValueText(d: Dialect, parseNumber: seq<char> -> Option<Number>, u: seq<unit16>, pos: nat, end: nat, es: seq<Elem>, trailing: bool, l: Lit)
    requires |es| > 1 && es[0] == Value(l) && pos <= end <= |u| && u[pos..end] == ElementsText(es, trailing)
    ensures ElementsAt(d, parseNumber, Utf16Text(u), pos, end, es, trailing)
    decreases |es|, 1
  {
    var rest := [Comma] + ElementsText(es[1..], trailing);
    LiteralTextFacts(d, parseNumber, u, pos, end, l, rest, Ch(Comma, AfterLiteral(pos, l)));
    assert rest[1..] == ElementsText(es[1..], trailing);
    ValueThenText(d, parseNumber, u, pos, end, es, trailing, l);
  }

  lemma {:induction false} ValueThenText(d: Dialect, parseNumber: seq<char> -> Option<Number>, u: seq<unit16>, pos: nat, end: nat, es: seq<Elem>, trailing: bool, l: Lit)
    requires |es| > 1 && es[0] == Value(l) && pos <= Len(Utf16Text(u))
    requires AfterLiteral(pos, l) <= end <= |u| && u[AfterLiteral(pos, l)..end] == ElementsText(es[1..], trailing)
    requires ValueAt(d, parseNumber, Utf16Text(u), pos, LitValue(d, l), Ch(Comma, AfterLiteral(pos, l)))
    ensures ElementsAt(d, parseNumber, Utf16Text(u), pos, end, es, trailing)
    decreases |es|, 0
  {
    ElementsTextAt(d, parseNumber, u, AfterLiteral(pos, l), end, es[1..], trailing);
    ElementsAtValueIntro(d, parseNumber, Utf16Text(u), pos, end, es, trailing, l);
  }

  /** A document opening with `[` is read by `ParseArray` from the next
      position, with nothing collected yet. */
  lemma TopLevelArray(d: Dialect, parseNumber: seq<char> -> Option<Number>, src: Input)
    requires Clean(d, src, -1, 0) == Ok(Ch(OpenBracket, 1))
    ensures var r := ParseArray(d, parseNumber, src, 1, [], false);
      ParseJSONObjectOrArray(d, parseNumber, src) == if r.Ok? then Ok(r.value.0) else Err(r.msg)
  {
  }

  /** Where the elements of an array written out begin. */
  lemma ArrayOpens(d: Dialect, u: seq<unit16>, es: seq<Elem>, trailing: bool)
    requires es == [] ==> !trailing
    requires u == ArrayText(es, trailing)
    ensures |u| > 1 && u[1..] == (if es == [] then [CloseBracket] else ElementsText(es, trailing))
    ensures Clean(d, Utf16Text(u), -1, 0) == Ok(Ch(OpenBracket, 1))
  {
    SliceCons(u, 0, |u|, u);
    CleanOfSignificant(d, u, 0);
  }

  /** `[]` is read as the empty array. */
  lemma ReadsEmptyArray(d: Dialect, parseNumber: seq<char> -> Option<Number>)
    ensures ParseJSONObjectOrArray(d, parseNumber, Utf16Text(ArrayText([], false))) == Ok(JArray([]))
  {
    var u := ArrayText([], false);
    ArrayOpens(d, u, [], false);
    SliceCons(u, 1, |u|, [CloseBracket]);
    CleanOfSignificant(d, u, 1);
    ArrayStepClose(d, parseNumber, Utf16Text(u), 1, [], false, |u|);
    TopLevelArray(d, parseNumber, Utf16Text(u));
  }

  /** Either tokenizer reads a compact array of literals and holes back as its
      elements, exactly when the array rules admit it. */
  lemma ReadsArray(d: Dialect, parseNumber: seq<char> -> Option<Number>, es: seq<Elem>, trailing: bool)
    requires es == [] ==> !trailing
    ensures ArrayAccepted(d, es, trailing) ==>
      ParseJSONObjectOrArray(d, parseNumber, Utf16Text(ArrayText(es, trailing))) == Ok(JArray(ElemValues(d, es)))
    ensures !ArrayAccepted(d, es, trailing) ==>
      ParseJSONObjectOrArray(d, parseNumber, Utf16Text(ArrayText(es, trailing))).Err?
  {
    if es == [] {
      ReadsEmptyArray(d, parseNumber);
    } else {
      var u := ArrayText(es, trailing);
      ArrayOpens(d, u, es, trailing);
      ElementsTextAt(d, parseNumber, u, 1, |u|, es, trailing);
      ParseArrayReadsElements(d, parseNumber, Utf16Text(u), 1, |u|, [], false, es, trailing);
      assert [] + ElemValues(d, es) == ElemValues(d, es);
      TopLevelArray(d, parseNumber, Utf16Text(u));
    }
  }

  // --------------------------------------------------------------- objects

  /** An object member: a key and a literal value. */
  datatype Member = Member(key: seq<unit16>, l: Lit)

  /** A member written as the key in `\u` escapes within double quotes, a colon,
      and the literal. */
  function MemberText(m: Member): seq<unit16> {
    [QuoteMark] + (EscapeAll(m.key) + ([QuoteMark, Colon] + LitText(m.l)))
  }

  /** The members of a nonempty object after its opening brace. */
  function MembersText(ms: seq<Member>, trailing: bool): seq<unit16>
    requires |ms| > 0
    decreases |ms|
  {
    MemberText(ms[0]) + if |ms| == 1 then Closing(CloseBrace, trailing) else [Comma] + MembersText(ms[1..], trailing)
  }

  /** A whole object. */
  function ObjectText(ms: seq<Member>, trailing: bool): seq<unit16>
    requires ms == [] ==> !trailing
  {
    [OpenBrace] + if ms == [] then [CloseBrace] else MembersText(ms, trailing)
  }

  predicate KeysWellFormed(ms: seq<Member>) {
    forall i :: 0 <= i < |ms| ==> WellFormed16(ms[i].key)
  }

  /** The members entered one after another into `acc`, a later value
      replacing an earlier one under the same key. */
  function Enter(d: Dialect, acc: map<seq<unit16>, JValue>, ms: seq<Member>): map<seq<unit16>, JValue>
    decreases |ms|
  {
    if ms == [] then acc else Enter(d, acc[ms[0].key := LitValue(d, ms[0].l)], ms[1..])
  }

  /** No member repeats a key of `keys` or of a member before it. */
  predicate FreshKeys(keys: set<seq<unit16>>, ms: seq<Member>)
    decreases |ms|
  {
    ms == [] || (ms[0].key !in keys && FreshKeys(keys + {ms[0].key}, ms[1..]))
  }

  /** The object rules: duplicate keys are refused when the tokenizer rejects
      them, and a trailing comma needs the Java option. */
  predicate ObjectAccepted(d: Dialect, acc: map<seq<unit16>, JValue>, ms: seq<Member>, trailing: bool) {
    && (NoDuplicates(d) ==> FreshKeys(acc.Keys, ms))
    && (trailing ==> TrailingCommasAllowed(d))
  }

  lemma ObjectStepClose(d: Dialect, parseNumber: seq<char> -> Option<Number>, src: Input, pos: nat,
                        acc: map<seq<unit16>, JValue>, seenComma: bool, p: nat)
    requires pos <= Len(src) && Clean(d, src, -1, pos) == Ok(Ch(CloseBrace, p))
    ensures ParseObject(d, parseNumber, src, pos, acc, seenComma)
         == if seenComma && !TrailingCommasAllowed(d) then Err("Trailing comma") else Ok((JObject(acc), p))
  {
  }

  /** Where the pieces of a member lie: the opening quote, the escaped key,
      the closing quote and colon, and the literal. */
  lemma MemberLayout(u: seq<unit16>, pos: nat, end: nat, e: seq<unit16>, l: seq<unit16>)
    requires pos <= end <= |u| && u[pos..end] == [QuoteMark] + (e + ([QuoteMark, Colon] + l))
    ensures var kq := pos + 1 + |e|;
      && kq + 2 + |l| == end
      && u[pos] == QuoteMark
      && u[pos + 1..kq] == e
      && u[kq] == QuoteMark && u[kq + 1] == Colon
      && u[kq + 2..end] == l
  {
    var kq := pos + 1 + |e|;
    SliceCons(u, pos, end, [QuoteMark] + (e + ([QuoteMark, Colon] + l)));
    SliceOfConcat(u, pos + 1, end, e, [QuoteMark, Colon] + l);
    SliceOfConcat(u, kq, end, [QuoteMark, Colon], l);
    assert u[kq..kq + 2][1] == u[kq + 1];
  }

  lemma ReadKeyOfString(d: Dialect, src: Input, p: nat, r: (seq<unit16>, nat))
    requires p <= Len(src) && NextString(d, src, QuoteMark, p) == Ok(r)
    ensures ReadKey(d, src, QuoteMark, p) == Ok(r)
  {
  }

  /** A key written in `\u` escapes within double quotes is read as itself;
      `pos` is after the opening quote and `kq` at the closing one. */
  lemma KeyAt(d: Dialect, u: seq<unit16>, pos: nat, kq: nat, cp: nat, key: seq<unit16>)
    requires WellFormed16(key)
    requires pos <= kq < |u| && u[kq] == QuoteMark && u[pos..kq] == EscapeAll(key) && cp == kq + 1
    ensures ReadKey(d, Utf16Text(u), QuoteMark, pos) == Ok((key, cp))
  {
    NextStringReadsEscaped(d, u, pos, kq, key);
    ReadKeyOfString(d, Utf16Text(u), pos, (key, cp));
  }

  /** Where the pieces of a member followed by the rest lie; `kq` is the
      position of the quote closing the key and `q` that of the rest. */
  lemma MemberPieces(u: seq<unit16>, pos: nat, end: nat, m: Member, rest: seq<unit16>, kq: nat, q: nat)
    requires pos <= end <= |u| && u[pos..end] == MemberText(m) + rest && |rest| > 0
    requires kq == pos + 1 + 6 * |m.key| && q == kq + 2 + |LitText(m.l)|
    ensures q < end
    ensures u[pos] == QuoteMark && u[pos + 1..kq] == EscapeAll(m.key)
    ensures u[kq] == QuoteMark && u[kq + 1] == Colon && u[kq + 2..q] == LitText(m.l)
    ensures u[q] == rest[0] && u[q + 1..end] == rest[1..]
  {
    SliceOfConcat(u, pos, end, MemberText(m), rest);
    MemberLayout(u, pos, q, EscapeAll(m.key), LitText(m.l));
    SliceCons(u, q, end, rest);
  }

  /** The member `m` is written at `pos`, and `next` is the first significant
      character after its value. */
  predicate MemberAt(d: Dialect, parseNumber: seq<char> -> Option<Number>, src: Input, pos: nat, m: Member, next: Ch) {
    && src.Utf16Text?
    && pos <= Len(src)
    && Clean(d, src, -1, pos) == Ok(Ch(QuoteMark, pos + 1))
    && ReadKey(d, src, QuoteMark, pos + 1) == Ok((m.key, ColonPos(pos, m)))
    && Clean(d, src, -1, ColonPos(pos, m)) == Ok(Ch(Colon, ValuePos(pos, m)))
    && ValueAt(d, parseNumber, src, ValuePos(pos, m), LitValue(d, m.l), next)
  }

  /** Where the quote closing the key of a member written from `pos` lies. */
  function KeyEnd(pos: nat, m: Member): (kq: nat)
  {
    pos + 1 + 6 * |m.key|
  }

  /** Where the colon after the key of a member written from `pos` lies. */
  function ColonPos(pos: nat, m: Member): (cp: nat)
  {
    KeyEnd(pos, m) + 1
  }

  /** Where the value of a member written from `pos` begins. */
  function ValuePos(pos: nat, m: Member): (vp: nat)
  {
    KeyEnd(pos, m) + 2
  }

  /** A member written out and followed by a significant character is read as
      `MemberAt` says, `next` holding that character. */
  lemma MemberTextAt(d: Dialect, parseNumber: seq<char> -> Option<Number>, u: seq<unit16>, pos: nat, end: nat, m: Member, rest: seq<unit16>, next: Ch)
    requires WellFormed16(m.key)
    requires pos <= end <= |u| && u[pos..end] == MemberText(m) + rest
    requires |rest| > 0 && Significant(rest[0])
    requires next == Ch(rest[0], MemberEnd(pos, m))
    ensures next.pos <= end && u[next.pos..end] == rest[1..]
    ensures MemberAt(d, parseNumber, Utf16Text(u), pos, m, next)
  {
    var kq := KeyEnd(pos, m);
    var cp := ColonPos(pos, m);
    var vp := ValuePos(pos, m);
    MemberRestOfText(u, pos, end, m, rest);
    MemberLiteralOfText(d, parseNumber, u, pos, end, m, rest, kq, vp, next);
    MemberKeyOfText(d, u, pos, end, m, rest, kq, cp);
    MemberPunctuationOfText(d, u, pos, end, m, rest, kq, cp, vp);
    MemberAtIntro(d, parseNumber, Utf16Text(u), pos, cp, vp, m, next);
  }

  /** The value of a member written out is read as `LiteralAt` says. */
  lemma MemberLiteralOfText(d: Dialect, parseNumber: seq<char> -> Option<Number>, u: seq<unit16>, pos: nat, end: nat,
                            m: Member, rest: seq<unit16>, kq: nat, vp: nat, next: Ch)
    requires pos <= end <= |u| && u[pos..end] == MemberText(m) + rest
    requires |rest| > 0 && Significant(rest[0])
    requires kq == KeyEnd(pos, m) && vp == ValuePos(pos, m)
    requires next == Ch(rest[0], MemberEnd(pos, m))
    ensures ValueAt(d, parseNumber, Utf16Text(u), vp, LitValue(d, m.l), next)
  {
    var q := vp + |LitText(m.l)|;
    MemberPieces(u, pos, end, m, rest, kq, q);
    assert u[vp..q] == LitText(m.l) && u[q] == rest[0];
    LiteralFacts(d, u, vp, m.l, next);
    LiteralValueAt(d, parseNumber, Utf16Text(u), vp, m.l, next);
  }

  /** What follows a member written out, after its first character. */
  lemma MemberRestOfText(u: seq<unit16>, pos: nat, end: nat, m: Member, rest: seq<unit16>)
    requires pos <= end <= |u| && u[pos..end] == MemberText(m) + rest && |rest| > 0
    ensures MemberEnd(pos, m) <= end && u[MemberEnd(pos, m)..end] == rest[1..]
  {
    var kq := KeyEnd(pos, m);
    MemberPieces(u, pos, end, m, rest, kq, kq + 2 + |LitText(m.l)|);
  }

  /** The key of a member written out is read as itself. */
  lemma MemberKeyOfText(d: Dialect, u: seq<unit16>, pos: nat, end: nat, m: Member, rest: seq<unit16>, kq: nat, cp: nat)
    requires WellFormed16(m.key)
    requires pos <= end <= |u| && u[pos..end] == MemberText(m) + rest && |rest| > 0
    requires kq == KeyEnd(pos, m) && cp == ColonPos(pos, m)
    ensures cp < |u|
    ensures ReadKey(d, Utf16Text(u), QuoteMark, pos + 1) == Ok((m.key, cp))
  {
    MemberPieces(u, pos, end, m, rest, kq, kq + 2 + |LitText(m.l)|);
    KeyAt(d, u, pos + 1, kq, cp, m.key);
  }

  /** The quote opening a member written out, and the colon after its key,
      are the next characters where they stand. */
  lemma MemberPunctuationOfText(d: Dialect, u: seq<unit16>, pos: nat, end: nat, m: Member, rest: seq<unit16>,
                                kq: nat, cp: nat, vp: nat)
    requires pos <= end <= |u| && u[pos..end] == MemberText(m) + rest && |rest| > 0
    requires kq == KeyEnd(pos, m) && cp == ColonPos(pos, m) && vp == ValuePos(pos, m)
    ensures vp <= |u|
    ensures Clean(d, Utf16Text(u), -1, pos) == Ok(Ch(QuoteMark, pos + 1))
    ensures Clean(d, Utf16Text(u), -1, cp) == Ok(Ch(Colon, vp))
  {
    MemberPieces(u, pos, end, m, rest, kq, kq + 2 + |LitText(m.l)|);
    CleanAt(d, u, pos, QuoteMark);
    CleanAt(d, u, cp, Colon);
  }

  /** `MemberAt` from its parts. */
  lemma MemberAtIntro(d: Dialect, parseNumber: seq<char> -> Option<Number>, src: Input, pos: nat, cp: nat, vp: nat, m: Member, next: Ch)
    requires src.Utf16Text? && pos <= Len(src) && cp == ColonPos(pos, m) && vp == ValuePos(pos, m)
    requires Clean(d, src, -1, pos) == Ok(Ch(QuoteMark, pos + 1))
    requires ReadKey(d, src, QuoteMark, pos + 1) == Ok((m.key, cp))
    requires Clean(d, src, -1, cp) == Ok(Ch(Colon, vp))
    requires ValueAt(d, parseNumber, src, vp, LitValue(d, m.l), next)
    ensures MemberAt(d, parseNumber, src, pos, m, next)
  {
  }

  /** Where the character after a member written from `pos` lies. */
  function MemberEnd(pos: nat, m: Member): (e: nat)
  {
    ValuePos(pos, m) + |LitText(m.l)| + 1
  }

  /** The members `ms` are written from `pos`, the closing brace ending at
      `end`. */
  predicate MembersAt(d: Dialect, parseNumber: seq<char> -> Option<Number>, src: Input, pos: nat, end: nat, ms: seq<Member>, trailing: bool)
    requires |ms| > 0
    decreases |ms|
  {
    var q := MemberEnd(pos, ms[0]);
    if |ms| == 1 && !trailing then MemberAt(d, parseNumber, src, pos, ms[0], Ch(CloseBrace, end))
    else
      && MemberAt(d, parseNumber, src, pos, ms[0], Ch(Comma, q))
      && if |ms| == 1 then Clean(d, src, -1, q) == Ok(Ch(CloseBrace, end))
         else MembersAt(d, parseNumber, src, q, end, ms[1..], trailing)
  }

  /** `MembersAt` for a member followed by more members. */
  lemma MembersAtCons(d: Dialect, parseNumber: seq<char> -> Option<Number>, src: Input, pos: nat, end: nat, ms: seq<Member>, trailing: bool)
    requires |ms| > 1 && MembersAt(d, parseNumber, src, pos, end, ms, trailing)
    ensures MemberAt(d, parseNumber, src, pos, ms[0], Ch(Comma, MemberEnd(pos, ms[0])))
    ensures MembersAt(d, parseNumber, src, MemberEnd(pos, ms[0]), end, ms[1..], trailing)
  {
  }

  /** `MembersAt` built from a member and the rest. */
  lemma MembersAtIntro(d: Dialect, parseNumber: seq<char> -> Option<Number>, src: Input, pos: nat, end: nat, ms: seq<Member>, trailing: bool)
    requires |ms| > 1
    requires MemberAt(d, parseNumber, src, pos, ms[0], Ch(Comma, MemberEnd(pos, ms[0])))
    requires MembersAt(d, parseNumber, src, MemberEnd(pos, ms[0]), end, ms[1..], trailing)
    ensures MembersAt(d, parseNumber, src, pos, end, ms, trailing)
  {
  }

  /** A member with a literal value, followed by `next`. */
  lemma ObjectStepLiteral(d: Dialect, parseNumber: seq<char> -> Option<Number>, src: Input, pos: nat,
                          acc: map<seq<unit16>, JValue>, seenComma: bool, m: Member, next: Ch)
    requires MemberAt(d, parseNumber, src, pos, m, next)
    ensures next.pos <= Len(src)
    ensures ParseObject(d, parseNumber, src, pos, acc, seenComma)
         == if NoDuplicates(d) && m.key in acc then Err("Key already exists")
            else if next.c == Comma then ParseObject(d, parseNumber, src, next.pos, acc[m.key := LitValue(d, m.l)], true)
            else if next.c == CloseBrace then Ok((JObject(acc[m.key := LitValue(d, m.l)]), next.pos))
            else Err("Expected a ',' or '}'")
  {
  }

  /** The object rules for a lone member. */
  lemma AcceptedLastMember(d: Dialect, acc: map<seq<unit16>, JValue>, ms: seq<Member>, trailing: bool)
    requires |ms| == 1
    ensures ObjectAccepted(d, acc, ms, trailing) <==>
      !(NoDuplicates(d) && ms[0].key in acc) && (trailing ==> TrailingCommasAllowed(d))
    ensures Enter(d, acc, ms) == acc[ms[0].key := LitValue(d, ms[0].l)]
  {
    assert ms[1..] == [];
    assert FreshKeys(acc.Keys + {ms[0].key}, ms[1..]);
    assert FreshKeys(acc.Keys, ms) <==> ms[0].key !in acc.Keys;
  }

  /** The object rules after a leading member: its key must be new when
      duplicates are refused, and the rest must be admitted once it is in. */
  lemma AcceptedAfterMember(d: Dialect, acc: map<seq<unit16>, JValue>, ms: seq<Member>, trailing: bool)
    requires |ms| > 1
    ensures var acc' := acc[ms[0].key := LitValue(d, ms[0].l)];
      ObjectAccepted(d, acc, ms, trailing) <==>
        !(NoDuplicates(d) && ms[0].key in acc) && ObjectAccepted(d, acc', ms[1..], trailing)
  {
    var acc' := acc[ms[0].key := LitValue(d, ms[0].l)];
    assert acc'.Keys == acc.Keys + {ms[0].key};
  }

  /** Either tokenizer reads members laid out as `MembersAt` says as their
      entry into `acc` when the object rules admit them, and fails otherwise. */
  lemma {:induction false} ParseObjectReadsMembers(d: Dialect, parseNumber: seq<char> -> Option<Number>, src: Input, pos: nat, end: nat,
                                                   acc: map<seq<unit16>, JValue>, seenComma: bool,
                                                   ms: seq<Member>, trailing: bool)
    requires |ms| > 0 && MembersAt(d, parseNumber, src, pos, end, ms, trailing)
    ensures pos <= Len(src)
    ensures var r := ParseObject(d, parseNumber, src, pos, acc, seenComma);
      if ObjectAccepted(d, acc, ms, trailing) then r == Ok((JObject(Enter(d, acc, ms)), end)) else r.Err?
    decreases |ms|, 1
  {
    if |ms| == 1 {
      ReadsLastMember(d, parseNumber, src, pos, end, acc, seenComma, ms, trailing);
    } else {
      ReadsMember(d, parseNumber, src, pos, end, acc, seenComma, ms, trailing);
    }
  }

  lemma ReadsLastMember(d: Dialect, parseNumber: seq<char> -> Option<Number>, src: Input, pos: nat, end: nat,
                        acc: map<seq<unit16>, JValue>, seenComma: bool, ms: seq<Member>, trailing: bool)
    requires |ms| == 1 && MembersAt(d, parseNumber, src, pos, end, ms, trailing)
    ensures pos <= Len(src)
    ensures var r := ParseObject(d, parseNumber, src, pos, acc, seenComma);
      if ObjectAccepted(d, acc, ms, trailing) then r == Ok((JObject(Enter(d, acc, ms)), end)) else r.Err?
  {
    var m := ms[0];
    AcceptedLastMember(d, acc, ms, trailing);
    if trailing {
      var q := MemberEnd(pos, m);
      ObjectStepLiteral(d, parseNumber, src, pos, acc, seenComma, m, Ch(Comma, q));
      ObjectStepClose(d, parseNumber, src, q, acc[m.key := LitValue(d, m.l)], true, end);
    } else {
      ObjectStepLiteral(d, parseNumber, src, pos, acc, seenComma, m, Ch(CloseBrace, end));
    }
  }

  /** A member followed by more members: one step of `ParseObject`. */
  lemma MemberThenMembers(d: Dialect, parseNumber: seq<char> -> Option<Number>, src: Input, pos: nat, end: nat,
                          acc: map<seq<unit16>, JValue>, seenComma: bool, ms: seq<Member>, trailing: bool)
    requires |ms| > 1 && MembersAt(d, parseNumber, src, pos, end, ms, trailing)
    ensures MembersAt(d, parseNumber, src, MemberEnd(pos, ms[0]), end, ms[1..], trailing)
    ensures ParseObject(d, parseNumber, src, pos, acc, seenComma)
         == if NoDuplicates(d) && ms[0].key in acc then Err("Key already exists")
            else ParseObject(d, parseNumber, src, MemberEnd(pos, ms[0]),
                             acc[ms[0].key := LitValue(d, ms[0].l)], true)
  {
    MembersAtCons(d, parseNumber, src, pos, end, ms, trailing);
    ObjectStepLiteral(d, parseNumber, src, pos, acc, seenComma, ms[0],
                      Ch(Comma, MemberEnd(pos, ms[0])));
  }

  lemma {:induction false} ReadsMember(d: Dialect, parseNumber: seq<char> -> Option<Number>, src: Input, pos: nat, end: nat,
                                       acc: map<seq<unit16>, JValue>, seenComma: bool, ms: seq<Member>, trailing: bool)
    requires |ms| > 1 && MembersAt(d, parseNumber, src, pos, end, ms, trailing)
    ensures pos <= Len(src)
    ensures var r := ParseObject(d, parseNumber, src, pos, acc, seenComma);
      if ObjectAccepted(d, acc, ms, trailing) then r == Ok((JObject(Enter(d, acc, ms)), end)) else r.Err?
    decreases |ms|, 0
  {
    var m := ms[0];
    var q := MemberEnd(pos, m);
    AcceptedAfterMember(d, acc, ms, trailing);
    MemberThenMembers(d, parseNumber, src, pos, end, acc, seenComma, ms, trailing);
    if !(NoDuplicates(d) && m.key in acc) {
      ParseObjectReadsMembers(d, parseNumber, src, q, end, acc[m.key := LitValue(d, m.l)], true, ms[1..], trailing);
    }
  }

  /** The keys of the members after the first are well formed. */
  lemma KeysWellFormedTail(ms: seq<Member>)
    requires |ms| > 0 && KeysWellFormed(ms)
    ensures KeysWellFormed(ms[1..])
  {
    forall i | 0 <= i < |ms[1..]| ensures WellFormed16(ms[1..][i].key) {
      assert ms[1..][i] == ms[i + 1];
    }
  }

  /** Compact text of the members is laid out as `MembersAt` says. */
  lemma {:induction false} MembersTextAt(d: Dialect, parseNumber: seq<char> -> Option<Number>, u: seq<unit16>, pos: nat, end: nat, ms: seq<Member>, trailing: bool)
    requires |ms| > 0 && KeysWellFormed(ms)
    requires pos <= end <= |u| && u[pos..end] == MembersText(ms, trailing)
    ensures MembersAt(d, parseNumber, Utf16Text(u), pos, end, ms, trailing)
    decreases |ms|, 2
  {
    if |ms| == 1 {
      LastMemberText(d, parseNumber, u, pos, end, ms, trailing);
    } else {
      MemberThenText(d, parseNumber, u, pos, end, ms, trailing);
    }
  }

  lemma LastMemberText(d: Dialect, parseNumber: seq<char> -> Option<Number>, u: seq<unit16>, pos: nat, end: nat, ms: seq<Member>, trailing: bool)
    requires |ms| == 1 && KeysWellFormed(ms)
    requires pos <= end <= |u| && u[pos..end] == MembersText(ms, trailing)
    ensures MembersAt(d, parseNumber, Utf16Text(u), pos, end, ms, trailing)
  {
    var m := ms[0];
    var q := MemberEnd(pos, m);
    if trailing {
      var rest: seq<unit16> := [Comma, CloseBrace];
      MemberTextAt(d, parseNumber, u, pos, end, m, rest, Ch(Comma, q));
      assert rest[1..] == [CloseBrace];
      CloseAt(d, u, q, end, CloseBrace);
    } else {
      MemberTextAt(d, parseNumber, u, pos, end, m, [CloseBrace], Ch(CloseBrace, end));
    }
    LastMembersAtIntro(d, parseNumber, Utf16Text(u), pos, end, ms, trailing);
  }

  /** `MembersAt` for a lone member. */
  lemma LastMembersAtIntro(d: Dialect, parseNumber: seq<char> -> Option<Number>, src: Input, pos: nat, end: nat, ms: seq<Member>, trailing: bool)
    requires |ms| == 1
    requires trailing ==>
      && MemberAt(d, parseNumber, src, pos, ms[0], Ch(Comma, MemberEnd(pos, ms[0])))
      && MemberEnd(pos, ms[0]) <= Len(src)
      && Clean(d, src, -1, MemberEnd(pos, ms[0])) == Ok(Ch(CloseBrace, end))
    requires !trailing ==> MemberAt(d, parseNumber, src, pos, ms[0], Ch(CloseBrace, end))
    ensures MembersAt(d, parseNumber, src, pos, end, ms, trailing)
  {
  }

  /** A closing character standing alone before `end` is the next character. */
  lemma CloseAt(d: Dialect, u: seq<unit16>, q: nat, end: nat, c: unit16)
    requires q <= end <= |u| && u[q..end] == [c] && Significant(c)
    ensures Clean(d, Utf16Text(u), -1, q) == Ok(Ch(c, end))
  {
    SliceCons(u, q, end, [c]);
    CleanAt(d, u, q, c);
  }

  lemma {:induction false} MemberThenText(d: Dialect, parseNumber: seq<char> -> Option<Number>, u: seq<unit16>, pos: nat, end: nat, ms: seq<Member>, trailing: bool)
    requires |ms| > 1 && KeysWellFormed(ms)
    requires pos <= end <= |u| && u[pos..end] == MembersText(ms, trailing)
    ensures MembersAt(d, parseNumber, Utf16Text(u), pos, end, ms, trailing)
    decreases |ms|, 1
  {
    var m := ms[0];
    var rest := [Comma] + MembersText(ms[1..], trailing);
    var q := MemberEnd(pos, m);
    MemberTextAt(d, parseNumber, u, pos, end, m, rest, Ch(Comma, q));
    assert rest[1..] == MembersText(ms[1..], trailing);
    KeysWellFormedTail(ms);
    MembersRestText(d, parseNumber, u, pos, end, ms, trailing);
  }

  lemma {:induction false} MembersRestText(d: Dialect, parseNumber: seq<char> -> Option<Number>, u: seq<unit16>, pos: nat, end: nat, ms: seq<Member>, trailing: bool)
    requires |ms| > 1 && KeysWellFormed(ms[1..])
    requires MemberEnd(pos, ms[0]) <= end <= |u|
    requires u[MemberEnd(pos, ms[0])..end] == MembersText(ms[1..], trailing)
    requires MemberAt(d, parseNumber, Utf16Text(u), pos, ms[0], Ch(Comma, MemberEnd(pos, ms[0])))
    ensures MembersAt(d, parseNumber, Utf16Text(u), pos, end, ms, trailing)
    decreases |ms|, 0
  {
    var q := MemberEnd(pos, ms[0]);
    MembersTextAt(d, parseNumber, u, q, end, ms[1..], trailing);
    MembersAtIntro(d, parseNumber, Utf16Text(u), pos, end, ms, trailing);
  }

  /** A document opening with `{` is read by `ParseObject` from the next
      position, with nothing entered yet. */
  lemma TopLevelObject(d: Dialect, parseNumber: seq<char> -> Option<Number>, src: Input)
    requires Clean(d, src, -1, 0) == Ok(Ch(OpenBrace, 1))
    ensures var r := ParseObject(d, parseNumber, src, 1, map[], false);
      ParseJSONObjectOrArray(d, parseNumber, src) == if r.Ok? then Ok(r.value.0) else Err(r.msg)
  {
  }

  /** Where the members of an object written out begin. */
  lemma ObjectOpens(d: Dialect, u: seq<unit16>, ms: seq<Member>, trailing: bool)
    requires ms == [] ==> !trailing
    requires u == ObjectText(ms, trailing)
    ensures |u| > 1 && u[1..] == (if ms == [] then [CloseBrace] else MembersText(ms, trailing))
    ensures Clean(d, Utf16Text(u), -1, 0) == Ok(Ch(OpenBrace, 1))
  {
    SliceCons(u, 0, |u|, u);
    CleanOfSignificant(d, u, 0);
  }

  /** `{}` is read as the empty object. */
  lemma ReadsEmptyObject(d: Dialect, parseNumber: seq<char> -> Option<Number>)
    ensures ParseJSONObjectOrArray(d, parseNumber, Utf16Text(ObjectText([], false))) == Ok(JObject(map[]))
  {
    var u := ObjectText([], false);
    ObjectOpens(d, u, [], false);
    SliceCons(u, 1, |u|, [CloseBrace]);
    CleanOfSignificant(d, u, 1);
    ObjectStepClose(d, parseNumber, Utf16Text(u), 1, map[], false, |u|);
    TopLevelObject(d, parseNumber, Utf16Text(u));
  }

  /** Either tokenizer reads a compact object of literals back as its members
      entered in order, so the last value under a key wins, exactly when the
      object rules admit it. */
  lemma ReadsObject(d: Dialect, parseNumber: seq<char> -> Option<Number>, ms: seq<Member>, trailing: bool)
    requires ms == [] ==> !trailing
    requires KeysWellFormed(ms)
    ensures ObjectAccepted(d, map[], ms, trailing) ==>
      ParseJSONObjectOrArray(d, parseNumber, Utf16Text(ObjectText(ms, trailing))) == Ok(JObject(Enter(d, map[], ms)))
    ensures !ObjectAccepted(d, map[], ms, trailing) ==>
      ParseJSONObjectOrArray(d, parseNumber, Utf16Text(ObjectText(ms, trailing))).Err?
  {
    if ms == [] {
      ReadsEmptyObject(d, parseNumber);
    } else {
      var u := ObjectText(ms, trailing);
      ObjectOpens(d, u, ms, trailing);
      MembersTextAt(d, parseNumber, u, 1, |u|, ms, trailing);
      ParseObjectReadsMembers(d, parseNumber, Utf16Text(u), 1, |u|, map[], false, ms, trailing);
      TopLevelObject(d, parseNumber, Utf16Text(u));
    }
  }

  // ------------------------------------------------- entering the members

  /** The value entered last under a key is the one the object keeps. */
  lemma {:induction false} EnterLastWins(d: Dialect, acc: map<seq<unit16>, JValue>, ms: seq<Member>, i: nat)
    requires i < |ms|
    requires forall j :: i < j < |ms| ==> ms[j].key != ms[i].key
    ensures ms[i].key in Enter(d, acc, ms)
    ensures Enter(d, acc, ms)[ms[i].key] == LitValue(d, ms[i].l)
    decreases |ms|
  {
    if i == 0 {
      EnterKeeps(d, acc[ms[0].key := LitValue(d, ms[0].l)], ms[1..], ms[0].key);
    } else {
      forall j | i - 1 < j < |ms[1..]| ensures ms[1..][j].key != ms[1..][i - 1].key {
        assert ms[1..][j] == ms[j + 1];
      }
      EnterLastWins(d, acc[ms[0].key := LitValue(d, ms[0].l)], ms[1..], i - 1);
    }
  }

  /** A key no member names keeps its entry in `acc`, or stays absent. */
  lemma {:induction false} EnterKeeps(d: Dialect, acc: map<seq<unit16>, JValue>, ms: seq<Member>, k: seq<unit16>)
    requires forall j :: 0 <= j < |ms| ==> ms[j].key != k
    ensures k in Enter(d, acc, ms) <==> k in acc
    ensures k in acc ==> Enter(d, acc, ms)[k] == acc[k]
    decreases |ms|
  {
    if ms != [] {
      assert ms[0].key != k;
      forall j | 0 <= j < |ms[1..]| ensures ms[1..][j].key != k {
        assert ms[1..][j] == ms[j + 1];
      }
      EnterKeeps(d, acc[ms[0].key := LitValue(d, ms[0].l)], ms[1..], k);
    }
  }

  /** The keys of an object are those of `acc` and of its members. */
  lemma {:induction false} EnterKeys(d: Dialect, acc: map<seq<unit16>, JValue>, ms: seq<Member>)
    ensures Enter(d, acc, ms).Keys == acc.Keys + set j | 0 <= j < |ms| :: ms[j].key
    decreases |ms|
  {
    if ms != [] {
      EnterKeys(d, acc[ms[0].key := LitValue(d, ms[0].l)], ms[1..]);
      var s := set j | 0 <= j < |ms| :: ms[j].key;
      var s' := set j | 0 <= j < |ms[1..]| :: ms[1..][j].key;
      assert s == {ms[0].key} + s' by {
        forall k | k in s ensures k in {ms[0].key} + s' {
          var j :| 0 <= j < |ms| && ms[j].key == k;
          if j > 0 {
            assert ms[1..][j - 1] == ms[j];
          }
        }
        forall k | k in s' ensures k in s {
          var j :| 0 <= j < |ms[1..]| && ms[1..][j].key == k;
          assert ms[j + 1] == ms[1..][j];
        }
      }
    }
  }

  /** With distinct keys, entering the members in any order gives the same
      object: each key holds its member's value. */
  lemma FreshKeysEnterEach(d: Dialect, ms: seq<Member>, i: nat)
    requires FreshKeys({}, ms) && i < |ms|
    ensures ms[i].key in Enter(d, map[], ms)
    ensures Enter(d, map[], ms)[ms[i].key] == LitValue(d, ms[i].l)
  {
    FreshKeysDistinct({}, ms);
    EnterLastWins(d, map[], ms, i);
  }

  /** Fresh keys are pairwise distinct and avoid `keys`. */
  lemma {:induction false} FreshKeysDistinct(keys: set<seq<unit16>>, ms: seq<Member>)
    requires FreshKeys(keys, ms)
    ensures forall j :: 0 <= j < |ms| ==> ms[j].key !in keys
    ensures forall i, j :: 0 <= i < j < |ms| ==> ms[i].key != ms[j].key
    decreases |ms|
  {
    if ms != [] {
      FreshKeysDistinct(keys + {ms[0].key}, ms[1..]);
      forall j | 0 < j < |ms| ensures ms[j].key !in keys + {ms[0].key} {
        assert ms[j] == ms[1..][j - 1];
      }
      forall i, j | 0 <= i < j < |ms| ensures ms[i].key != ms[j].key {
        assert ms[j] == ms[1..][j - 1];
        if i > 0 {
          assert ms[i] == ms[1..][i - 1];
        }
      }
    }
  }
}
