/**
 What the parser of `context-reader` computes, as functions of the bytes it has not read yet and of
 its depth and item counters. The imperative parser is proved to compute these functions, and
 `JsonExact` proves that they accept exactly the dialect.
 */
module JsonScan {
  import opened Bytes
  import opened Utf8
  import opened JsonLayout
  import opened JsonDialect

  datatype Error =
    Unexpected | InvalidUtf8 | InvalidEscape | InvalidNumber | DuplicateKey | TooDeep | TooManyItems | TrailingBytes

  /** A value, the bytes after it and the item counter; or the first error. */
  datatype Outcome<+T> = Done(value: T, rest: bytes, items: nat) | Fail(error: Error)

  function Skip(s: bytes): (r: bytes)
    ensures |r| <= |s|
    ensures r == [] || !IsBlank(r[0])
  {
    if s != [] && IsBlank(s[0]) then Skip(s[1..]) else s
  }

  function Literal(s: bytes, expected: bytes, value: Value, items: nat): Outcome<Value> {
    if expected <= s then Done(value, s[|expected|..], items) else Fail(Unexpected)
  }

  function Body(s: bytes, acc: bytes, items: nat): (r: Outcome<bytes>)
    ensures r.Done? ==> |r.rest| < |s| && r.items == items
  {
    if s == [] then Fail(Unexpected)
    else if s[0] == QUOTE then if ValidUtf8(acc) then Done(acc, s[1..], items) else Fail(InvalidUtf8)
    else if s[0] == ESCAPE then
      match EscapeAt(s[1..])
      case None => Fail(InvalidEscape)
      case Some(e) => Body(s[1 + e.width..], acc + e.text, items)
    else if s[0] < 0x20 then Fail(Unexpected)
    else Body(s[1..], acc + [s[0]], items)
  }

  function StringAt(s: bytes, items: nat): (r: Outcome<bytes>)
    ensures r.Done? ==> |r.rest| < |s| && r.items == items
  {
    if StartsWith(s, QUOTE) then Body(s[1..], [], items) else Fail(Unexpected)
  }

  function DigitRun(s: bytes): (n: nat)
    ensures n <= |s| && Digits(s[..n])
    ensures n < |s| ==> !IsDigit(s[n])
  {
    if s != [] && IsDigit(s[0]) then 1 + DigitRun(s[1..]) else 0
  }

  predicate ContinuesNumber(s: bytes) {
    s != [] && (s[0] == '.' as byte || s[0] == 'e' as byte || s[0] == 'E' as byte || s[0] == '-' as byte
                || s[0] == '+' as byte)
  }

  function NumberAt(s: bytes, items: nat): Outcome<Value> {
    var n := DigitRun(s);
    if n == 0 || ContinuesNumber(s[n..]) || NumberOf(s[..n]) >= U64_LIMIT then Fail(InvalidNumber)
    else Done(Number(NumberOf(s[..n])), s[n..], items)
  }

  function ValueAt(s: bytes, depth: nat, items: nat): (r: Outcome<Value>)
    ensures r.Done? ==> |r.rest| < |s|
    decreases |s|, 1
  {
    var t := Skip(s);
    if t == [] then Fail(Unexpected)
    else if t[0] == 'n' as byte then Literal(t, NULL, Null, items)
    else if t[0] == 't' as byte then Literal(t, TRUE, Boolean(true), items)
    else if t[0] == 'f' as byte then Literal(t, FALSE, Boolean(false), items)
    else if t[0] == QUOTE then
      match StringAt(t, items)
      case Fail(e) => Fail(e)
      case Done(text, rest, n) => Done(Str(text), rest, n)
    else if t[0] == OPEN_ARRAY then ArrayAt(t, depth, items)
    else if t[0] == OPEN_OBJECT then ObjectAt(t, depth, items)
    else if IsDigit(t[0]) then NumberAt(t, items)
    else Fail(Unexpected)
  }

  function ArrayAt(s: bytes, depth: nat, items: nat): (r: Outcome<Value>)
    requires s != []
    ensures r.Done? ==> |r.rest| < |s|
    decreases |s|, 0
  {
    var t := Skip(s[1..]);
    if depth + 1 > MAX_DEPTH then Fail(TooDeep)
    else if StartsWith(t, CLOSE_ARRAY) then Done(List([]), t[1..], items)
    else ElementsAt(s[1..], depth + 1, items, [])
  }

  /** The rest of an array whose values so far are `acc`. */
  function ElementsAt(s: bytes, depth: nat, items: nat, acc: seq<Value>): (r: Outcome<Value>)
    ensures r.Done? ==> |r.rest| < |s|
    decreases |s|, 2
  {
    if items + 1 > MAX_ITEMS then Fail(TooManyItems)
    else
      match ValueAt(Skip(s), depth, items + 1)
      case Fail(e) => Fail(e)
      case Done(value, after, n) =>
        var t := Skip(after);
        if StartsWith(t, CLOSE_ARRAY) then Done(List(acc + [value]), t[1..], n)
        else if StartsWith(t, COMMA) then ElementsAt(t[1..], depth, n, acc + [value])
        else Fail(Unexpected)
  }

  function ObjectAt(s: bytes, depth: nat, items: nat): (r: Outcome<Value>)
    requires s != []
    ensures r.Done? ==> |r.rest| < |s|
    decreases |s|, 0
  {
    var t := Skip(s[1..]);
    if depth + 1 > MAX_DEPTH then Fail(TooDeep)
    else if StartsWith(t, CLOSE_OBJECT) then Done(Record([]), t[1..], items)
    else MembersAt(s[1..], depth + 1, items, [])
  }

  predicate HasKey(fields: seq<Field>, key: bytes) {
    exists k :: 0 <= k < |fields| && fields[k].key == key
  }

  function MembersAt(s: bytes, depth: nat, items: nat, acc: seq<Field>): (r: Outcome<Value>)
    ensures r.Done? ==> |r.rest| < |s|
    decreases |s|, 2
  {
    if items + 1 > MAX_ITEMS then Fail(TooManyItems)
    else
      match StringAt(Skip(s), items + 1)
      case Fail(e) => Fail(e)
      case Done(key, afterKey, _) =>
        var colon := Skip(afterKey);
        if HasKey(acc, key) then Fail(DuplicateKey)
        else if !StartsWith(colon, COLON) then Fail(Unexpected)
        else
          match ValueAt(colon[1..], depth, items + 1)
          case Fail(e) => Fail(e)
          case Done(value, after, n) =>
            var t := Skip(after);
            if StartsWith(t, CLOSE_OBJECT) then Done(Record(acc + [Field(key, value)]), t[1..], n)
            else if StartsWith(t, COMMA) then MembersAt(t[1..], depth, n, acc + [Field(key, value)])
            else Fail(Unexpected)
  }

  function Parsed(input: bytes): Result<Value, Error> {
    match ValueAt(input, 0, 0)
    case Fail(e) => Err(e)
    case Done(value, rest, _) => if Skip(rest) == [] then Ok(value) else Err(TrailingBytes)
  }
}
