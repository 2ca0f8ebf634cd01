/** The string-reference tables of the CBOR "stringref" extension (tags 256 and
    25): a stack of string lists, one per stringref namespace, where a string
    long enough to be worth referencing is appended to the innermost list and a
    later reference names it by its index there. */
module StringRefs {

  import opened Wrappers
  import opened ByteIntegers

  /** A string data item as the table keeps it. */
  datatype Str = ByteString(b: seq<byte>) | TextString(s: string)

  /** The stack of namespaces, innermost last. */
  type Table = seq<seq<Str>>

  /** The largest Java `int`, the bound of an index into a list. */
  const MaxInt: int := 0x7FFF_FFFF

  /** A new table: the one namespace every stringref-tagged item opens. */
  function New(): (t: Table)
    ensures |t| == 1 && |t[0]| == 0
  {
    [[]]
  }

  /** Opens a nested namespace. */
  function Push(t: Table): (u: Table)
    ensures |u| == |t| + 1 && u[..|t|] == t && u[|t|] == []
  {
    t + [[]]
  }

  /** Closes the innermost namespace; removing from an empty stack is an error. */
  function Pop(t: Table): (u: Result<Table>)
    ensures u.Ok? <==> |t| > 0
    ensures u.Ok? ==> u.value + [t[|t| - 1]] == t
  {
    if |t| == 0 then Err("Index out of bounds") else Ok(t[..|t| - 1])
  }

  /** Closing a namespace just opened restores the stack. */
  lemma PopPush(t: Table)
    ensures Pop(Push(t)) == Ok(t)
  {
    assert Push(t)[..|t|] == t;
  }

  /** The shortest string worth a reference, given the number of strings the
      innermost namespace already holds (the index the new string would get). */
  function MinLength(size: nat): (k: int)
    ensures 3 <= k <= 7
  {
    if size < 24 then 3
    else if size < 256 then 4
    else if size < 65536 then 5
    else 7
  }

  /** The length of the head of a CBOR data item whose argument is `n`, from
      section 2.1 of RFC 7049: one byte for arguments below 24, then 1, 2, 4 or 8
      more bytes. */
  function HeadLength(n: nat): (k: nat)
    ensures k == 1 || k == 2 || k == 3 || k == 5 || k == 9
  {
    if n < 24 then 1
    else if n < 0x100 then 2
    else if n < 0x1_0000 then 3
    else if n < 0x1_0000_0000 then 5
    else 9
  }

  /** A string is worth a reference exactly when it is at least as long as the
      reference: tag 25 in two bytes followed by the head of the index. Every
      size a Java list can reach is below `2^32`. */
  lemma MinLengthIsReferenceLength(size: nat)
    requires size <= MaxInt
    ensures MinLength(size) == 2 + HeadLength(size)
  {
  }

  /** Appends a string to the innermost namespace when its length reaches the
      threshold for that namespace's size; an empty stack is an error. */
  function AddStringIfNeeded(t: Table, str: Str, lengthHint: int): (u: Result<Table>)
    ensures u.Ok? <==> |t| > 0
    ensures u.Ok? ==> |u.value| == |t| && u.value[..|t| - 1] == t[..|t| - 1]
    ensures u.Ok? ==> t[|t| - 1] <= u.value[|t| - 1]
    ensures u.Ok? ==> |u.value[|t| - 1]| == |t[|t| - 1]| + (if lengthHint >= MinLength(|t[|t| - 1]|) then 1 else 0)
  {
    if |t| == 0 then Err("Index out of bounds")
    else
      var lastList := t[|t| - 1];
      var addStr := lengthHint >= MinLength(|lastList|);
      Ok(t[..|t| - 1] + [if addStr then lastList + [str] else lastList])
  }

  /** `GetString` with a 64-bit index: a negative index, an index beyond the
      `int` range and an index past the innermost namespace are errors; the
      string comes back by value, so a byte string is a copy. */
  function GetString(t: Table, smallIndex: int): (r: Result<Str>)
    ensures r.Ok? <==> |t| > 0 && 0 <= smallIndex < |t[|t| - 1]| && smallIndex <= MaxInt
    ensures r.Ok? ==> r.value == t[|t| - 1][smallIndex]
  {
    if smallIndex < 0 then Err("Unexpected index")
    else if smallIndex > MaxInt then Err("Index is bigger than supported")
    else if |t| == 0 then Err("Index out of bounds")
    else
      var lastList := t[|t| - 1];
      if smallIndex >= |lastList| then Err("Index is not valid")
      else match lastList[smallIndex]
        case ByteString(b) => Ok(ByteString(b))
        case other => Ok(other)
  }

  /** Java's `BigInteger.canFitInInt`. */
  predicate CanFitInInt(x: int) {
    -MaxInt - 1 <= x <= MaxInt
  }

  /** `GetString` with an arbitrary-precision index. */
  function GetStringBig(t: Table, bigIndex: int): (r: Result<Str>)
    ensures r.Ok? ==> 0 <= bigIndex <= MaxInt && |t| > 0
  {
    if bigIndex < 0 then Err("Unexpected index")
    else if !CanFitInInt(bigIndex) then Err("Index is bigger than supported")
    else if |t| == 0 then Err("Index out of bounds")
    else
      var lastList := t[|t| - 1];
      if bigIndex >= |lastList| then Err("Index is not valid")
      else match lastList[bigIndex]
        case ByteString(b) => Ok(ByteString(b))
        case other => Ok(other)
  }

  /** The two overloads agree on every index, in success and in error. */
  lemma GetStringOverloadsAgree(t: Table, i: int)
    ensures GetStringBig(t, i) == GetString(t, i)
  {
  }

  /** A new table resolves no reference. */
  lemma NewTableIsEmpty(i: int)
    ensures GetString(New(), i).Err?
  {
  }

  /** A string that was added is found at the next index, and every reference
      resolved before resolves the same way after. */
  lemma AddThenGet(t: Table, str: Str, lengthHint: int, i: int)
    requires |t| > 0 && |t[|t| - 1]| <= MaxInt
    requires lengthHint >= MinLength(|t[|t| - 1]|)
    ensures GetString(AddStringIfNeeded(t, str, lengthHint).value, |t[|t| - 1]|) == Ok(str)
    ensures i != |t[|t| - 1]| ==>
      GetString(AddStringIfNeeded(t, str, lengthHint).value, i) == GetString(t, i)
  {
    var u := AddStringIfNeeded(t, str, lengthHint).value;
    assert u[|t| - 1] == t[|t| - 1] + [str];
  }

  /** A string too short to be worth a reference leaves the table as it is. */
  lemma ShortStringNotAdded(t: Table, str: Str, lengthHint: int)
    requires |t| > 0
    requires lengthHint < MinLength(|t[|t| - 1]|)
    ensures AddStringIfNeeded(t, str, lengthHint) == Ok(t)
  {
    assert t[..|t| - 1] + [t[|t| - 1]] == t;
  }

  /** Entering and leaving a namespace hides what was added inside it. */
  lemma NamespaceIsolation(t: Table, str: Str, lengthHint: int)
    ensures Pop(AddStringIfNeeded(Push(t), str, lengthHint).value) == Ok(t)
  {
    var p := Push(t);
    var u := AddStringIfNeeded(p, str, lengthHint).value;
    assert u[..|t|] == p[..|t|] == t;
  }
}
