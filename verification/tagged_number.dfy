/** Decoding of the tagged CBOR numbers: bignums (tags 2 and 3, section 2.4.2 of
    RFC 7049), decimal fractions and bigfloats (tags 4 and 5, section 2.4.3 of
    RFC 7049, and their extended-exponent forms 264 and 265) and rationals
    (tag 30). Each decoder checks the shape of a small data item and yields a
    number of one of the six kinds, or an error. */
module CborTaggedNumbers {

  import opened Wrappers
  import opened Powers
  import opened ByteIntegers
  import opened CborNumbers

  /** A decoded CBOR data item: its tags, outermost first, and its content. */
  datatype Item = Item(tags: seq<nat>, content: Content)

  datatype Content =
    | Int(n: int)
    | Float(x: XReal)
    | Bytes(b: seq<byte>)
    | Text(s: string)
    | Array(items: seq<Item>)
    | Other

  predicate HasOneTag(o: Item, t: nat) {
    |o.tags| == 1 && o.tags[0] == t
  }

  predicate HasMostInnerTag(o: Item, t: nat) {
    |o.tags| > 0 && o.tags[|o.tags| - 1] == t
  }

  /** The integer an item stands for when it is integral: an integer, or a
      finite floating-point value without fractional part. */
  function IntegralValue(o: Item): (v: Option<int>)
    ensures v.Some? ==>
      || (o.content.Int? && v.value == o.content.n)
      || (o.content.Float? && o.content.x == Fin(v.value as real))
    ensures o.content.Int? ==> v == Some(o.content.n)
  {
    match o.content
    case Int(n) => Some(n)
    case Float(Fin(r)) => if r.Floor as real == r then Some(r.Floor) else None
    case _ => None
  }

  /** The number of bits of a natural number. */
  function BitLength(n: nat): nat {
    if n == 0 then 0 else 1 + BitLength(n / 2)
  }

  /** The number of bits of an integer in two's complement, not counting the
      sign bit. */
  function SignedBitLength(e: int): nat {
    if e >= 0 then BitLength(e) else BitLength(-e - 1)
  }

  lemma {:induction false} BitLengthBound(n: nat, k: nat)
    ensures BitLength(n) <= k <==> n < Pow(2, k)
  {
    if k > 0 && n > 0 {
      BitLengthBound(n / 2, k - 1);
    }
  }

  const TwoTo64: int := 0x1_0000_0000_0000_0000

  lemma TwoTo64IsPow()
    ensures Pow(2, 64) == TwoTo64
  {
    assert Pow(2, 8) == 0x100;
    PowAdd(2, 8, 8);
    PowAdd(2, 16, 16);
    PowAdd(2, 32, 32);
  }

  /** The exponent cap of tags 4 and 5 admits exactly the 65-bit two's complement
      integers. */
  lemma SignedBitLengthCap(e: int)
    ensures SignedBitLength(e) <= 64 <==> -TwoTo64 <= e < TwoTo64
  {
    TwoTo64IsPow();
    if e >= 0 {
      BitLengthBound(e, 64);
    } else {
      BitLengthBound(-e - 1, 64);
    }
  }

  /** The radix of the exponent of a decimal fraction (tags 4 and 264) or a
      bigfloat (every other tag routed here). */
  function FractionRadix(tag: nat): int {
    if tag == 4 || tag == 264 then 10 else 2
  }

  /** Decodes `[exponent, mantissa]` under a decimal-fraction or bigfloat tag. */
  function DecimalFracToNumber(o: Item, tag: nat): (r: Result<Number>)
    ensures r.Ok? <==>
      && o.content.Array?
      && |o.content.items| == 2
      && IntegralValue(o.content.items[0]).Some?
      && IntegralValue(o.content.items[1]).Some?
      && ((tag == 4 || tag == 5) ==>
            -TwoTo64 <= IntegralValue(o.content.items[0]).value < TwoTo64)
    ensures r.Ok? ==>
      var e, m := IntegralValue(o.content.items[0]).value, IntegralValue(o.content.items[1]).value;
      && r.value.Value() == Fin((m as real) * RPow(FractionRadix(tag), e))
      && (e == 0 ==> r.value == IntegerNumber(m))
      && (e != 0 ==> r.value.KindOf() == if FractionRadix(tag) == 10 then EDecimal else EFloat)
  {
    if !o.content.Array? then Err("Big fraction must be an array")
    else if |o.content.items| != 2 then Err("Big fraction requires exactly 2 items")
    else if IntegralValue(o.content.items[0]).None? then Err("Exponent is not an integer")
    else if IntegralValue(o.content.items[1]).None? then Err("Mantissa is not an integer")
    else
      var e := IntegralValue(o.content.items[0]).value;
      SignedBitLengthCap(e);
      if (tag == 4 || tag == 5) && SignedBitLength(e) > 64 then Err("Exponent is too big")
      else
        var m := IntegralValue(o.content.items[1]).value;
        if e == 0 then Ok(IntegerNumber(m))
        else if tag == 4 || tag == 264 then Ok(DecimalNum(Fin((m as real) * RPow(10, e))))
        else Ok(FloatNum(Fin((m as real) * RPow(2, e))))
  }

  /** Decodes `[numerator, denominator]` under the rational tag. */
  function CheckRationalNumber(o: Item): (r: Result<Number>)
    ensures r.Ok? <==>
      && o.content.Array?
      && |o.content.items| == 2
      && IntegralValue(o.content.items[0]).Some?
      && IntegralValue(o.content.items[1]).Some?
      && IntegralValue(o.content.items[1]).value > 0
    ensures r.Ok? ==>
      && r.value.RationalNum?
      && r.value.x.Fin?
      && r.value.x.v * (IntegralValue(o.content.items[1]).value as real)
         == IntegralValue(o.content.items[0]).value as real
  {
    if !o.content.Array? then Err("Rational number must be an array")
    else if |o.content.items| != 2 then Err("Rational number requires exactly 2 items")
    else if IntegralValue(o.content.items[0]).None? then Err("Rational number requires integer numerator")
    else if IntegralValue(o.content.items[1]).None? then Err("Rational number requires integer denominator")
    else
      var num, den := IntegralValue(o.content.items[0]).value, IntegralValue(o.content.items[1]).value;
      if den <= 0 then Err("Rational number requires denominator greater than 0")
      else Ok(RationalNum(Fin(Quotient(num, den))))
  }

  function Quotient(num: int, den: int): (q: real)
    requires den > 0
    ensures q * (den as real) == num as real
  {
    (num as real) / (den as real)
  }

  /** The integer a bignum stands for: `n` under tag 2 and `-1 - n` under tag 3,
      where `n` is the big-endian value of its bytes. */
  function BignumValue(data: seq<byte>, negative: bool): int {
    if negative then -1 - BEValue(data) else BEValue(data)
  }

  /** The byte string handed to the little-endian reader, sentinel included, is
      read as exactly the bignum's value. */
  lemma SentinelReading(data: seq<byte>, t: seq<byte>, negative: bool)
    requires |data| > 0
    requires |t| == |data|
    requires forall i :: 0 <= i < |data| ==>
      t[i] == if negative then 255 - data[|data| - 1 - i] else data[|data| - 1 - i]
    ensures TwosComplementLE(if data[0] >= 128 then t + [if negative then 255 else 0] else t)
         == BignumValue(data, negative)
  {
    var n := |data|;
    var p := Pow(256, n);
    ReversedBytes(data, t, negative);
    BEValueRange(data);
    assert t[n - 1] == if negative then 255 - data[0] else data[0];
    if data[0] >= 128 {
      var x: byte := if negative then 255 else 0;
      LEUnsignedAppend(t, x);
      assert (t + [x])[n] == x;
      assert Pow(256, n + 1) == 256 * p;
    }
  }

  /** Converts a byte string under tag 2 or 3 to a number. Up to seven bytes are
      accumulated into a 64-bit integer; longer strings are reversed, complemented
      when negative, extended by a sign byte when the top bit of the first byte is
      set, and read as little-endian two's complement, then narrowed to the
      64-bit kind when the value fits. */
  method BignumToNumber(o: Item) returns (r: Result<Number>)
    ensures !o.content.Bytes? ==> r.Err?
    ensures o.content.Bytes? ==>
      r == Ok(IntegerNumber(BignumValue(o.content.b, HasMostInnerTag(o, 3))))
    ensures o.content.Bytes? && |o.content.b| <= 7 ==> r.Ok? && r.value.IntegerNum?
  {
    if !o.content.Bytes? {
      return Err("Byte array expected");
    }
    var negative := HasMostInnerTag(o, 3);
    var data := o.content.b;
    if |data| <= 7 {
      var x: int := 0;
      var i := 0;
      while i < |data|
        invariant 0 <= i <= |data|
        invariant x == BEValue(data[..i])
      {
        assert data[..i + 1][..i] == data[..i];
        // the shift leaves the low byte zero, so or-ing the byte in adds it
        x := x * 256 + data[i];
        i := i + 1;
      }
      assert data[..|data|] == data;
      BEValueRange(data);
      PowMonotone(256, |data|, 7);
      assert Pow(256, 7) == 0x100_0000_0000_0000;
      if negative {
        x := -x;
        x := x - 1;
      }
      return Ok(IntegerNum(x));
    }
    var extended := data[0] >= 128;
    var bytes: seq<byte> := [];
    var i := 0;
    while i < |data|
      invariant 0 <= i <= |data|
      invariant |bytes| == i
      invariant forall j :: 0 <= j < i ==>
        bytes[j] == if negative then 255 - data[|data| - 1 - j] else data[|data| - 1 - j]
    {
      var b := data[|data| - 1 - i];
      if negative {
        b := 255 - b;
      }
      bytes := bytes + [b];
      i := i + 1;
    }
    SentinelReading(data, bytes, negative);
    if extended {
      bytes := bytes + [if negative then 255 else 0];
    }
    var bi := TwosComplementLE(bytes);
    if InInt64(bi) {
      return Ok(IntegerNum(bi));
    } else {
      return Ok(EIntegerNum(bi));
    }
  }

  /** The tags under which an item is read as a number. */
  predicate IsNumberTag(t: nat) {
    t == 2 || t == 3 || t == 4 || t == 5 || t == 264 || t == 265 || t == 30
  }

  function Found(r: Result<Number>): Result<Option<Number>> {
    match r
    case Ok(n) => Ok(Some(n))
    case Err(m) => Err(m)
  }

  /** The number an item with a single numeric tag stands for; any other item is
      no number at all (no match rather than an error). */
  method FromCBORObject(o: Item) returns (r: Result<Option<Number>>)
    ensures !(|o.tags| == 1 && IsNumberTag(o.tags[0])) ==> r == Ok(None)
    ensures (HasOneTag(o, 2) || HasOneTag(o, 3)) ==>
      && (r.Ok? <==> o.content.Bytes?)
      && (r.Ok? ==> r.value == Some(IntegerNumber(BignumValue(o.content.b, o.tags[0] == 3))))
    ensures (HasOneTag(o, 4) || HasOneTag(o, 5) || HasOneTag(o, 264) || HasOneTag(o, 265)) ==>
      r == Found(DecimalFracToNumber(o, o.tags[0]))
    ensures HasOneTag(o, 30) ==> r == Found(CheckRationalNumber(o))
  {
    if HasOneTag(o, 2) || HasOneTag(o, 3) {
      var n := BignumToNumber(o);
      return Found(n);
    }
    if HasOneTag(o, 4) || HasOneTag(o, 5) || HasOneTag(o, 264) || HasOneTag(o, 265) {
      return Found(DecimalFracToNumber(o, o.tags[0]));
    }
    if HasOneTag(o, 30) {
      return Found(CheckRationalNumber(o));
    }
    return Ok(None);
  }
}
