# CBOR numbers, JSON tokenizer, radix arithmetic and string references

A Dafny model of the core of the jimsch/CBOR library. The library is a C# and
Java implementation of CBOR (RFC 7049) with a JSON front end. The model covers
four components.

- **Tagged numbers** (`cbor_number.dfy`, `tagged_number.dfy`, `bignum.dfy`).
  These cover the six kinds of number: a 64-bit integer, an IEEE double, an
  arbitrary-precision integer, a decimal, a binary float and a rational.
  Addition and subtraction detect 64-bit overflow before it happens and
  promote mixed operands to a common kind. Comparison orders NaN above
  everything. There are decoders for the number tags:
  - bignums, tags 2 and 3 (section 2.4.2 of RFC 7049);
  - decimal fractions and bigfloats, tags 4 and 5 and the uncapped tags 264
    and 265 (section 2.4.3 of RFC 7049);
  - rationals, tag 30.

  Arbitrary-precision payloads are represented by their mathematical value.
  That value is an extended real: NaN, a signed infinity, or a finite real.
- **The JSON tokenizer** (`utf8.dfy`, `utf16.dfy`, `json_tokener.dfy`,
  `json_roundtrip.dfy`, `json_structure.dfy`). It has a C# form and a Java
  form, selected by `Dialect`. Both are written as pure functions over an
  immutable input and a cursor.
  - The input is a UTF-8 byte stream, decoded by the well-formedness table of
    section 4 of RFC 3629, or a string of UTF-16 code units.
  - The C# form pairs surrogates (section 2.2 of RFC 2781).
  - The Java form reads raw code units. It has option flags for comments,
    trailing commas, empty array elements, single quotes and escaped slashes.
  - Strings are unescaped as section 7 of RFC 8259 says, with surrogate
    checks. Whitespace, arrays and objects follow sections 2, 4 and 5 of
    RFC 8259.
  - Round-trip lemmas show what the tokenizer reads back from text written in
    a known way: plain strings, strings written in `\u` escapes, and compact
    arrays and objects of literals.
- **Radix arithmetic** (`radix_math.dfy`). Values are `mantissa * radix^exponent`
  with radix at least 2. The model covers:
  - the rounding decision;
  - `compareTo` and its shortcut for distant exponents;
  - context-free `Add` and `Multiply`;
  - `Min`, `Max` and their magnitude variants, both as written over the
    written `compareTo` and over the corrected one;
  - `EnsureSign`;
  - the zero guards of division;
  - the exponent handling of `Quantize`.

  Values are compared as integers, with both scaled to their common, smaller
  exponent.
- **String references** (`string_refs.dfy`). These are the stack of
  namespaces of the CBOR "stringref" extension. A string is added only when it
  is long enough to be worth a reference. The index of a reference is
  checked.

`wrappers.dfy` holds `Option` and `Result` (with `:-`). `powers.dfy` holds
integer powers.

## Model

| member | source | states |
|---|---|---|
| `CborNumbers.IntegerNumber` | CBOR/PeterO/Cbor/CBORNumber.cs:136-140 | an integer is stored in the 64-bit kind exactly when it fits, otherwise in the arbitrary-precision kind, and its value is unchanged |
| `CborNumbers.Add` | CBOR/PeterO/Cbor/CBORNumber.cs:168-213 | the sum is exact; two 64-bit integers stay one exactly when their sum fits and otherwise become an arbitrary-precision integer; mixed operands get the kind of higher exactness rank; the result is never an IEEE double |
| `CborNumbers.Subtract` | CBOR/PeterO/Cbor/CBORNumber.cs:215-258 | the same as `Add`, for the exact difference |
| `CborNumbers.OverflowChecksAreExact` | CBOR/PeterO/Cbor/CBORNumber.cs:175-232 | the bounds in the overflow pre-checks of both operations are 64-bit values wherever they are computed, so the checks never wrap; each check holds exactly when the result leaves the 64-bit range |
| `CborNumbers.PromoteIsMaxRank` | CBOR/PeterO/Cbor/CBORNumber.cs:186-212 | promotion of mixed kinds picks the higher rank in the chain Integer < EInteger < EFloat/IEEEBinary64 < EDecimal < ERational; it is symmetric and never yields a 64-bit kind |
| `CborNumbers.AddCommutes` | CBOR/PeterO/Cbor/CBORNumber.cs:168-213 | addition gives the same value and kind whichever operand comes first |
| `CborNumbers.XLessIsStrictTotalOrder` | CBOR/PeterO/Cbor/CBORNumber.cs:299-306 | the value order, with NaN above every other value, is a strict total order |
| `CborNumbers.XSignIsCompareWithZero` | CBOR/PeterO/Cbor/CBORNumber.cs:325-326 | the reported sign is 2 exactly for NaN, and otherwise the value's comparison with zero |
| `CborNumbers.CompareTo` | CBOR/PeterO/Cbor/CBORNumber.cs:273-400 | a missing operand compares as 1; otherwise, whatever the two kinds, the result is the -1/0/1 comparison of the mathematical values with NaN above every other value and equal to itself |
| `CborNumbers.CompareToAntisymmetric` | CBOR/PeterO/Cbor/CBORNumber.cs:332-340 | comparison is antisymmetric and reflexive; a NaN of any kind is above every non-NaN number of any kind; two NaNs compare equal |
| `CborTaggedNumbers.IntegralValue` | CBOR/PeterO/Cbor/CBORNumber.cs:68-81 | every integer item is integral with its own value, and an integral reading of any other item is a float whose value is exactly that integer |
| `CborTaggedNumbers.SignedBitLengthCap` | CBOR/PeterO/Cbor/CBORNumber.cs:76-79 | a signed bit length of at most 64 means exactly an exponent in `[-2^64, 2^64)` |
| `CborTaggedNumbers.DecimalFracToNumber` | CBOR/PeterO/Cbor/CBORNumber.cs:59-93 | succeeds exactly for an array of two integral items whose exponent is within the cap for tags 4 and 5 only; the value is `mantissa * 10^exponent` (tags 4, 264) or `mantissa * 2^exponent`; exponent zero gives the mantissa as an integer number, otherwise a decimal or a binary float |
| `CborTaggedNumbers.CheckRationalNumber` | CBOR/PeterO/Cbor/CBORNumber.cs:143-166 | succeeds exactly for an array of two integral items with a positive denominator, giving a rational whose value times the denominator is the numerator |
| `CborTaggedNumbers.SentinelReading` | CBOR/PeterO/Cbor/CBORNumber.cs:113-135 | the reversed, optionally complemented bytes, extended by `0x00`/`0xFF` when the first byte has its top bit set, read as little-endian two's complement, are exactly `n` or `-1-n` |
| `CborTaggedNumbers.BignumToNumber` | CBOR/PeterO/Cbor/CBORNumber.cs:95-141 | a non-byte-string is an error; otherwise the result is the integer `n`, or `-1-n` when the innermost tag is 3, where `n` is the big-endian value of the bytes. It is in the 64-bit kind exactly when it fits, and always for seven bytes or fewer |
| `CborTaggedNumbers.FromCBORObject` | CBOR/PeterO/Cbor/CBORNumber.cs:44-57 | an item whose single tag is not a number tag is no number (not an error); tags 2/3 give the bignum's value; tags 4/5/264/265 and 30 give the decoders' results |
| `ByteIntegers.ReversedBytes` | CBOR/PeterO/Cbor/CBORNumber.cs:126-131 | the reversed bytes read little-endian are the big-endian value, and the reversed complemented bytes are `256^len - 1` minus it |
| `ByteIntegers.LEUnsignedAppend` | CBOR/PeterO/Cbor/CBORNumber.cs:132-135 | appending a most significant byte adds it times `256^len` |
| `ByteIntegers.BEValueRange` | CBOR/PeterO/Cbor/CBORNumber.cs:101-106 | the big-endian value of `k` bytes lies in `[0, 256^k)`, so seven bytes fit a 64-bit integer |
| `Utf8.ReadChar` | JSONTokener.cs:54-115 | the byte-at-a-time decoding loop (lead-byte classes, narrowed first-continuation bounds, end of stream inside a sequence) returns exactly the table reading `DecodeAt`; the Java loop at src/com/upokecenter/util/JSONTokener.java lines 97-161 is the same |
| `Utf8.DecodeEncode` | JSONTokener.cs:72-114 | the UTF-8 encoding of every scalar value is decoded back to that value, consuming exactly its bytes |
| `Utf8.EncodeDecode` | JSONTokener.cs:81-114 | everything the decoder accepts is a scalar value (no surrogate, at most 0x10FFFF) and the bytes read are exactly its UTF-8 encoding, so only well-formed sequences are accepted |
| `Utf16.Encode16Parts` | JSONTokener.cs:258-263 | a scalar value at most 0xFFFF is one non-surrogate unit; above that it is a high and a low surrogate that combine back to the value |
| `Utf16.WellFormedAppend` | JSONTokener.cs:258-263 | appending the UTF-16 encoding of a scalar value keeps a string well formed |
| `Utf16.PairedCharAt` | JSONTokener.cs:120-131 | reading a character from a string moves forward and stays within it |
| `Utf16.PairedCharIsEncoding` | JSONTokener.cs:120-131 | the surrogate-pairing read yields only scalar values, and the units consumed are exactly their encoding |
| `Utf16.PairedCharOfEncoding` | JSONTokener.cs:120-131 | the encoding of any scalar value is read back by the pairing read as that value |
| `Utf16.MaskIsBitwiseAnd` | JSONTokener.cs:239-251 | the mask `c & 0x1FFC00` is the division, remainder and multiplication the model uses |
| `Utf16.MaskClassifiesSurrogates` | JSONTokener.cs:239-251 | below 0x200000 the mask equals 0xD800 exactly for high surrogates and 0xDC00 exactly for low surrogates |
| `JsonTokener.NextChar` | src/com/upokecenter/util/JSONTokener.java:97-167 | reading a character advances the cursor exactly when it yields a character (not the end), stays within the input, and yields -1 or a code point |
| `JsonTokener.SyntaxChar` | JSONTokener.cs:137-144 | the character returned is the end or not one of the four JSON whitespace characters |
| `JsonTokener.SyntaxCharSkipsOnlySpaces` | JSONTokener.cs:137-144 | over a string, exactly the whitespace units before the first other unit are skipped, and the character at that unit is read; with only whitespace left the result is the end |
| `JsonTokener.SkipWhitespace` | JSONTokener.cs:137-144 | the cursor loop of `NextSyntaxChar` returns the same as the recursive definition |
| `JsonTokener.SyntaxCharAfter` | JSONTokener.cs:149-160 | a slash or hash already read is a "Comments not allowed" error; otherwise the result is the end or a non-whitespace character |
| `JsonTokener.ParseComment` | src/com/upokecenter/util/JSONTokener.java:177-186 | without the comment option, a `/` or `#` already read is an error and any other character already read comes back unchanged at the same position; with comments, the position only moves forward within the input |
| `JsonTokener.CommentLoop` | src/com/upokecenter/util/JSONTokener.java:187-248 | the comment-skipping loop ends within the input, having advanced when nothing was pending |
| `JsonTokener.LineCommentEndsAtLineFeed` | src/com/upokecenter/util/JSONTokener.java:205-216 | a line comment ends right after the first line feed, or at the end of the input |
| `JsonTokener.BlockBodyEndsAtFirstClose` | src/com/upokecenter/util/JSONTokener.java:218-239 | a block comment is accepted exactly when a star-slash pair follows, runs of stars included, and ends right after the first such pair |
| `JsonTokener.AfterStarEndsAtFirstClose` | src/com/upokecenter/util/JSONTokener.java:227-237 | after a star, the comment ends right after the first star-slash pair from that star on, and is an error when there is none |
| `JsonTokener.NextClean` | src/com/upokecenter/util/JSONTokener.java:269-277 | the character returned is -1 or above a space |
| `JsonTokener.Clean` | JSONTokener.cs:137-160 | the next significant character of either form: C# skips the four JSON whitespace characters, Java every unit up to a space; the position only moves forward |
| `JsonTokener.NextCleanSkipsControls` | src/com/upokecenter/util/JSONTokener.java:255-262 | without comments, every unit up to and including a space, control characters included, is skipped, and the first unit above a space is returned |
| `JsonTokener.GetHexValueCorrect` | src/com/upokecenter/util/JSONTokener.java:54-65 | the value is 0-15 exactly for the 22 hexadecimal digits and -1 otherwise; both cases of every digit read as the digit's value |
| `JsonTokener.HexDigitsSequential` | JSONTokener.cs:210-229 | four digits read one at a time give a code unit below 0x10000 |
| `JsonTokener.HexDigitsAtOnce` | src/com/upokecenter/util/JSONTokener.java:335-345 | four characters read and then checked give a code unit below 0x10000 |
| `JsonTokener.HexReadingsAgree` | src/com/upokecenter/util/JSONTokener.java:335-345 | the Java reading of four characters then checking them, and the C# reading that checks each digit as it goes (JSONTokener.cs lines 210-229), accept the same inputs and give the same unit and position |
| `JsonTokener.ReadEscape` | src/com/upokecenter/util/JSONTokener.java:300-349 | an accepted escape yields a code unit below 0x10000, marked as escaped, at a position within the input |
| `JsonTokener.ReadEscapeCases` | src/com/upokecenter/util/JSONTokener.java:300-349 | each of `\\ \/ \" \b \f \n \r \t` stands for 0x5C 0x2F 0x22 0x08 0x0C 0x0A 0x0D 0x09, except that Java refuses `\/` without the escaped-slashes option; `\u` succeeds exactly when its four hexadecimal digits are read; an escape succeeds only in these cases, and is an error for any other character and at the end of the input |
| `JsonTokener.StringLoop` | JSONTokener.cs:168-265 | a string accepted by the loop ends past where it started, within the input, and its code units are well-formed UTF-16: the surrogate checks leave no lone surrogate |
| `JsonTokener.StartPair` | JSONTokener.cs:248-250 | appending a high surrogate to well-formed text leaves exactly one surrogate pending |
| `JsonTokener.CompletePair` | JSONTokener.cs:238-247 | a low surrogate after a pending high surrogate makes the text well formed again |
| `JsonTokener.NextString` | src/com/upokecenter/util/JSONTokener.java:288-382 | an accepted string ends past its opening, within the input, and is well-formed UTF-16 |
| `JsonTokener.StringLoopUnterminated` | JSONTokener.cs:168-265 | inside a string, the end of the input or a character below 0x20 is "Unterminated string", and a character that cannot be read is an error |
| `JsonTokener.CheckSurrogate` | src/com/upokecenter/util/JSONTokener.java:354-368 | with a high surrogate pending, any character but a low surrogate is "Unpaired surrogate code point", and a low surrogate escaped differently from its partner is "Pairing escaped surrogate with unescaped surrogate"; with none pending, a low surrogate is "Unpaired surrogate code point"; the check passes exactly otherwise, and a high surrogate is left pending exactly when one was read with none pending, remembering whether it was escaped |
| `JsonTokener.StringLoopSurrogateErrors` | src/com/upokecenter/util/JSONTokener.java:354-368 | a character of a string body that fails the surrogate checks ends the string with the error of the check |
| `JsonTokener.EscapedHighRawLowRefused` | src/com/upokecenter/util/JSONTokener.java:333-378 | in Java, `\uD800` followed by a raw 0xDC00 unit is refused with "Pairing escaped surrogate with unescaped surrogate" |
| `JsonTokener.ReadKey` | src/com/upokecenter/util/JSONTokener.java:404-417 | a key is read only when it opens with a double quote, or a single quote under the option |
| `JsonTokener.NumberToken` | JSONTokener.cs:328-341 | the number token is collected greedily: the character after it is no number character, and the token holds at least the first character |
| `JsonTokener.ExpectChars` | JSONTokener.cs:300-325 | matching the rest of a literal name moves the cursor forward, within the input |
| `JsonTokener.NextJSONValue` | JSONTokener.cs:275-345 | the end of data where a value is expected is an error, and a value read leaves the cursor within the input |
| `JsonTokener.NextJSONValueNumber` | JSONTokener.cs:328-341 | for a `-` or digit lead character, the token starts with that character; a token the number parser refuses is "JSON number can't be parsed."; otherwise the value is the parsed number, read exactly when the next significant character after it is, which in C# makes a `/` or `#` right after the number "Comments not allowed" |
| `JsonTokener.NumberTokenIsRun` | src/com/upokecenter/util/JSONTokener.java:474-487 | in Java, over raw code units, the token is the lead character followed by every number character up to the first other unit, which is handed on as the next character |
| `JsonTokener.ParseObject` | JSONTokener.cs:362-416 | an object read is an object, ends past where reading started, within the input, and keeps every key entered before |
| `JsonTokener.ParseArray` | JSONTokener.cs:418-448 | an array read is an array, ends past where reading started, within the input, and extends the elements read before |
| `JsonTokener.ParseJSONObjectOrArray` | JSONTokener.cs:350-360 | a document read is an array or an object |
| `JsonRoundTrip.NextStringReadsPlainPaired` | JSONTokener.cs:168-265 | in C#, reading surrogate pairs as code points, a well-formed string of units that need no escaping, followed by a quote, is read back exactly as the units written, the quote consumed |
| `JsonRoundTrip.NextStringReadsPlain` | src/com/upokecenter/util/JSONTokener.java:288-382 | in Java, over raw code units, a well-formed string of units that need no escaping, followed by a quote, is read back exactly, the quote consumed |
| `JsonRoundTrip.NextStringReadsEscaped` | JSONTokener.cs:168-265 | a well-formed string written entirely as `\u` escapes is read back exactly by either tokenizer, surrogate pairs included |
| `JsonStructure.ReadsArray` | JSONTokener.cs:418-448 | a compact array of literals and empty elements, with or without a trailing comma, is read as its elements exactly when the rules admit it, and is an error otherwise. `[]` is the empty array. `true` and `false` read as themselves; `null` reads as Null in C# and as False in Java (src/com/upokecenter/util/JSONTokener.java lines 465-473). C# admits no empty element and no trailing comma. Java (lines 555-588) admits empty elements, read as Null, under its option, and a trailing comma under its own |
| `JsonStructure.ReadsObject` | JSONTokener.cs:362-416 | a compact object of literal members is read as its members entered in order, a later duplicate key overwriting the earlier value; this holds exactly when no repeated key meets the no-duplicates rule and no trailing comma is refused, and the text is an error otherwise. `{}` is the empty object, and literal values read as in arrays (Java: src/com/upokecenter/util/JSONTokener.java lines 509-553) |
| `JsonStructure.EnterLastWins` | JSONTokener.cs:404-405 | when keys repeat, the value entered last under a key is the one the object keeps |
| `JsonStructure.EnterKeys` | JSONTokener.cs:404-405 | the keys of an object are exactly the keys of its members |
| `JsonStructure.FreshKeysEnterEach` | src/com/upokecenter/util/JSONTokener.java:532-535 | with distinct keys, as the no-duplicates option demands, every member's value is found under its key |
| `RadixMath.RoundMeaning` | src/com/upokecenter/util/RadixMath.java:39-86 | for an even radix and the discarded part `D` of a quantity rounded to a multiple of `P`: half-up increments iff `2D >= P`, half-down iff `2D > P`, half-even as half-up except that a tie increments only an odd kept part; up iff `D > 0`; ceiling and floor iff `D > 0` with the matching sign; down never |
| `RadixMath.EnsureSign` | src/com/upokecenter/util/RadixMath.java:88-100 | the result has the requested sign, with the same magnitude and exponent |
| `RadixMath.DivideStart` | src/com/upokecenter/util/RadixMath.java:291-303 | a zero divisor is an error; otherwise a zero dividend gives zero, at the desired exponent in fixed-scale mode and at the difference of the exponents otherwise |
| `RadixMath.ZeroQuotientIsExact` | src/com/upokecenter/util/RadixMath.java:296-303 | the zero quotient times the divisor equals the dividend |
| `RadixMath.Min` | src/com/upokecenter/util/RadixMath.java:23-36 | with the corrected comparison: returns one of its arguments, at most both; of two equal values, the smaller exponent when non-negative and the larger when negative |
| `RadixMath.Max` | src/com/upokecenter/util/RadixMath.java:536-549 | with the corrected comparison: returns one of its arguments, at least both; of two equal values, the larger exponent when non-negative and the smaller when negative |
| `RadixMath.MinMagnitude` | src/com/upokecenter/util/RadixMath.java:510-516 | with the corrected comparison: returns the argument of smaller absolute value, and `Min` on a tie |
| `RadixMath.MaxMagnitude` | src/com/upokecenter/util/RadixMath.java:523-529 | with the corrected comparison: returns the argument of larger absolute value, and `Max` on a tie |
| `RadixMath.MinAsWritten` | src/com/upokecenter/util/RadixMath.java:23-36 | as written, over `compareTo` with the guard as written: returns one of its arguments, the same one as the corrected `Min` whenever the comparison is exact, and so whenever the operands lie outside the gap between the two guards |
| `RadixMath.MaxAsWritten` | src/com/upokecenter/util/RadixMath.java:536-549 | as written: returns one of its arguments, the same one as the corrected `Max` whenever the comparison is exact or the operands lie outside the gap |
| `RadixMath.MinMagnitudeAsWritten` | src/com/upokecenter/util/RadixMath.java:510-516 | as written: returns one of its arguments, the same one as the corrected `MinMagnitude` when neither the operands nor their absolute values lie in the gap |
| `RadixMath.MaxMagnitudeAsWritten` | src/com/upokecenter/util/RadixMath.java:523-529 | as written: returns one of its arguments, the same one as the corrected `MaxMagnitude` when neither the operands nor their absolute values lie in the gap |
| `RadixMath.CompareToAsWrittenOutsideGap` | src/com/upokecenter/util/RadixMath.java:1016-1041 | outside the gap, where the written guard and the corrected one agree, `compareTo` as written is the numerical comparison |
| `RadixMath.MisorderedOperandsInGap` | src/com/upokecenter/util/RadixMath.java:1016-1041 | `r^(k+1)` at exponent 0 and 1 at exponent `k`, for `k >= 100`, lie in the gap |
| `RadixMath.MinMaxAsWrittenMisorder` | src/com/upokecenter/util/RadixMath.java:23-36 | as written, `Min` and `MinMagnitude` return `r^(k+1)` at exponent 0 over 1 at exponent `k` though it is the larger, and `Max` and `MaxMagnitude` return the smaller; the corrected versions return the other operand |
| `RadixMath.Multiply` | src/com/upokecenter/util/RadixMath.java:558-566 | the product's exponent is the sum of the exponents |
| `RadixMath.MultiplyIsExact` | src/com/upokecenter/util/RadixMath.java:558-566 | the product is exact: in units of `r^(E1+E2)` it is the product of the operands' counts |
| `RadixMath.Add` | src/com/upokecenter/util/RadixMath.java:924-975 | the sum's exponent is the smaller of the two exponents |
| `RadixMath.AddIsExact` | src/com/upokecenter/util/RadixMath.java:924-975 | the sum is exact: in any unit below both exponents it is the sum of the operands' counts |
| `RadixMath.AddIsExactAtOwnExponent` | src/com/upokecenter/util/RadixMath.java:925-975 | in units of the sum's own exponent, the sum's mantissa is the sum of the operands' counts |
| `RadixMath.CompareTo` | src/com/upokecenter/util/RadixMath.java:989-993 | with the corrected shortcut guard: a missing operand compares as 1, and different signs decide by sign |
| `RadixMath.CompareToIsExact` | src/com/upokecenter/util/RadixMath.java:994-1052 | with the corrected guard, `compareTo` is the numerical comparison of `m1*r^e1` and `m2*r^e2`, shortcut included |
| `RadixMath.CompareToAsWritten` | src/com/upokecenter/util/RadixMath.java:989-1053 | `compareTo` with the guard as written; a missing operand compares as 1 |
| `RadixMath.CompareToAsWrittenMisorders` | src/com/upokecenter/util/RadixMath.java:1016-1041 | as written, for every radix and exponent gap `k >= 100`, `r^(k+1)` at exponent 0 compares below 1 at exponent `k`, though it is greater |
| `RadixMath.CompareToAsWrittenMisordersDecimal` | src/com/upokecenter/util/RadixMath.java:1016-1041 | in radix 10, `10^101` against 1 at exponent 100 is misordered |
| `RadixMath.DigitLengthBound` | src/com/upokecenter/util/RadixMath.java:1018-1021 | a natural number is below the radix raised to its digit count |
| `RadixMath.ShiftRightParts` | src/com/upokecenter/util/RadixMath.java:702-709 | shifting right by `d` digits splits a number into kept digits, the last discarded digit and the older discarded digits, which put it back together |
| `RadixMath.QuantizeCandidate` | src/com/upokecenter/util/RadixMath.java:673-710 | the unrounded value is at the other exponent; lowering the exponent by more than the precision plus 10 is an error, and only then is there one; lowering discards nothing |
| `RadixMath.Quantize` | src/com/upokecenter/util/RadixMath.java:668-728 | a result has exactly the other value's exponent or is an error; the too-large scaling is an error; a negative value never comes back positive |
| `RadixMath.QuantizeWithoutRounding` | src/com/upokecenter/util/RadixMath.java:682-710 | with no rounding, lowering the exponent keeps the value exactly and raising it truncates the mantissa toward zero |
| `RadixMath.QuantizeLoweringIsExact` | src/com/upokecenter/util/RadixMath.java:682-699 | with no rounding and within the scaling limit, lowering or keeping the exponent gives an equal value |
| `RadixMath.QuantizeRaisingTruncates` | src/com/upokecenter/util/RadixMath.java:700-710 | with no rounding, raising the exponent succeeds and truncates the magnitude toward zero, keeping the sign |
| `StringRefs.New` | src/com/upokecenter/cbor/StringRefs.java:20-24 | a new table holds exactly one empty list |
| `StringRefs.NewTableIsEmpty` | src/com/upokecenter/cbor/StringRefs.java:20-24 | a new table resolves no reference |
| `StringRefs.Push` | src/com/upokecenter/cbor/StringRefs.java:26-29 | pushing appends one empty list and leaves the others as they are |
| `StringRefs.Pop` | src/com/upokecenter/cbor/StringRefs.java:31-34 | popping removes the last list, and an empty stack is an error |
| `StringRefs.PopPush` | src/com/upokecenter/cbor/StringRefs.java:26-34 | a pop after a push restores the stack |
| `StringRefs.MinLengthIsReferenceLength` | src/com/upokecenter/cbor/StringRefs.java:40-57 | the threshold (3 below 24, 4 below 256, 5 below 65536, else 7) is the length of tag 25 plus the head of the index the string would get, for every size a list can reach |
| `StringRefs.AddStringIfNeeded` | src/com/upokecenter/cbor/StringRefs.java:36-63 | only the top list can change; it gains the string exactly when the length hint reaches the threshold for its size; an empty stack is an error |
| `StringRefs.ShortStringNotAdded` | src/com/upokecenter/cbor/StringRefs.java:36-63 | a string below the threshold leaves the table unchanged |
| `StringRefs.AddThenGet` | src/com/upokecenter/cbor/StringRefs.java:60-83 | a string added is found at the next index, and every other index resolves as before |
| `StringRefs.NamespaceIsolation` | src/com/upokecenter/cbor/StringRefs.java:26-62 | a string added inside a pushed namespace is gone once it is popped |
| `StringRefs.GetString` | src/com/upokecenter/cbor/StringRefs.java:65-84 | succeeds exactly for an index from 0 up to both `Integer.MAX_VALUE` and the top list's size (exclusive), and returns that element by value |
| `StringRefs.GetStringBig` | src/com/upokecenter/cbor/StringRefs.java:86-105 | the arbitrary-precision overload succeeds only for an index from 0 to `Integer.MAX_VALUE` on a non-empty stack |
| `StringRefs.GetStringOverloadsAgree` | src/com/upokecenter/cbor/StringRefs.java:86-105 | the arbitrary-precision overload gives the same result as the 64-bit one on every index, error or success |

## Left out

- `CBORNumber.cs` does not compile as written. Three mismatches are modelled by their evident intent:
  - `FromCBORObject` calls `CheckEInteger` and `ConvertToDecimalFrac` (lines 47, 51), but the file defines `BignumToNumber` and `DecimalFracToNumber`.
  - `Add` and `Subtract` take a `CBORObject` and use undeclared `ThisItem` and `Kind` members (168-174). The model takes two numbers.
  - The exponent-zero branch of `DecimalFracToNumber` returns a `CBORObject` (84). The model returns the mantissa as an integer number.
- Arbitrary-precision payloads are represented by their mathematical value, not their representation. So `1.0` and `1.00` are the same decimal, and `CompareTo`'s reference-equality test (277) becomes value equality. The library's cross-kind comparators (`CompareToDecimal`, `CompareToBinary`) are taken to be exact.
- IEEE double bit patterns, rounding of doubles, and the many NaN encodings are not modelled. NaN is one abstract value whose sign is 2.
- `GetNumberInterface` and the conversions it selects are foreign code. They are replaced by the value of each kind.
- The JSON number parser, `CBORDataUtilities.ParseJSONNumber`, is foreign. It is a parameter of type `seq<char> -> Option<Number>`.
- The tokenizer does no I/O. A stream is a finite byte sequence, and `IOException` wrapping (JSONTokener.cs 116-118) is not modelled.
- Error messages are kept only as short texts. The position formatting of `SyntaxError` is not modelled.
- Reading past the end returns -1 and leaves the cursor where it is. The source's string mode also increments its index there (JSONTokener.cs 130, JSONTokener.java 164), which only shows in error messages.
- A Java string can hold lone surrogates, which the Java reader passes on raw. So its "Pairing escaped surrogate with unescaped surrogate" check can fire. In C# string mode the reader pairs surrogates first, so that check can never fire there. The model keeps the check in both forms.
- The C# `NextSyntaxChar2` checks only the character it is handed for `/` and `#`. Later characters are not checked, and the model does the same.
- In Java with comments allowed, a `/` that opens no comment yields the character after it (JSONTokener.java 240-241). The model does the same.
- `JsonStructure.ReadsArray` covers literal elements, empty elements, compact text (no whitespace) and UTF-16 text input only. Nested values, strings and numbers as elements are not covered by the reading lemma, though the step functions handle them.
- `JsonStructure.ReadsObject` covers literal member values and keys written entirely as `\u` escapes, in compact UTF-16 text only.
- `CborNumbers.CompareTo` folds the same-kind comparisons of the library's own types (`EDecimal.CompareTo` and the others) into the value order. Infinities follow the extended-real order.
- `RadixMath.RoundMeaning` characterises the rounding decision for an even radix only. The `ZeroFiveUp` mode is modelled in `Round` but has no characterising lemma.
- The long-division loop of `DivideInternal` depends on `IShiftAccumulator`, `FastInteger` and `PrecisionContext`, which are not part of this model. So do `RoundToPrecisionInternal`, the rounding inside `Quantize`, and the flags. Rounding is a parameter of `Quantize`. An overflow of that rounding is its `None` result.
- `RadixMath.Add` is modelled without a precision context. The shortcut the context-sensitive version takes for distant exponents (RadixMath.java 938-963) and its final rounding are left out.
- A Java `ArrayList` in the string-reference table is a mutable shared list. The model treats the stack as a value, so aliasing is not modelled. Popping or adding on an empty stack, which throws `IndexOutOfBoundsException` in Java, is an error result.
- `PeterO/BigInteger.cs`, `Cbor/CBORTag28.cs`, `CBOR/PeterO/Cbor/JSONOptions.cs` and the test files are not part of this model.

## Findings

| source | as written | input that shows it | evidently intended | confidence | as-written member | corrected member |
|---|---|---|---|---|---|---|
| src/com/upokecenter/util/RadixMath.java:1016-1041 | `compareTo` skips scaling by the full exponent difference once `expdiff >= 100 && expdiff + 3 > maxPrecision`. It then scales by `maxPrecision + 8` digits instead, which is more than the difference when the larger mantissa has more digits than the gap | radix 10: `10^101` at exponent 0 against `1` at exponent 100. The first is 10 times the second, yet `compareTo` returns -1 | take the shortcut only when the scaled mantissa outweighs the other whatever the distance: `expdiff >= maxPrecision` (and `expdiff >= 100`) | high; not executed | `RadixMath.CompareToAsWrittenMisorders` | `RadixMath.CompareToIsExact` |
| src/com/upokecenter/util/RadixMath.java:23-36 | `Min`, `Max`, `MinMagnitude` and `MaxMagnitude` (lines 23-36, 510-549) choose between their operands by the `compareTo` above, so they inherit its misordering | radix 10: `10^101` at exponent 0 and `1` at exponent 100. `Min` returns `10^101`, the larger, and `Max` returns `1` | choose by the numerical order, which the corrected guard gives | high; not executed | `RadixMath.MinMaxAsWrittenMisorder` | `RadixMath.Min` |
