/**
 The recursive-descent parser of `context-reader`, with its three counters. Each method is proved
 to compute the function of the same reading in `JsonScan`; after an error the parser is dropped,
 so only its bounds are promised then.
 */
module JsonParser {
  import opened Bytes
  import opened Utf8
  import opened JsonLayout
  import opened JsonDialect
  import opened JsonScan
  import JsonExact

  class Parser {
    const input: bytes
    var index: nat
    var depth: nat
    var items: nat

    constructor (input: bytes)
      ensures this.input == input && index == 0 && depth == 0 && items == 0
      ensures Valid() && Rest() == input
    {
      this.input := input;
      index, depth, items := 0, 0, 0;
    }

    ghost predicate Valid()
      reads this`index
    {
      index <= |input|
    }

    /** The bytes not read yet. */
    ghost function Rest(): bytes
      reads this`index
      requires Valid()
    {
      input[index..]
    }

    /** The answer `outcome` asks for, with the reader standing where `outcome` leaves it. */
    ghost predicate Agrees<T(!new)>(outcome: Outcome<T>, r: Result<T, Error>, startDepth: nat)
      reads this
      requires Valid()
    {
      match outcome
      case Done(value, rest, n) => r == Ok(value) && Rest() == rest && items == n && depth == startDepth
      case Fail(error) => r == Err(error)
    }

    method Whitespace()
      requires Valid()
      modifies this`index
      ensures Valid() && Rest() == Skip(old(Rest()))
    {
      while index < |input| && IsBlank(input[index])
        invariant Valid() && Skip(Rest()) == Skip(old(Rest()))
      {
        index := index + 1;
      }
    }

    method Take(expected: byte) returns (taken: bool)
      requires Valid()
      modifies this`index
      ensures Valid() && taken == StartsWith(old(Rest()), expected)
      ensures Rest() == if taken then old(Rest())[1..] else old(Rest())
    {
      taken := index < |input| && input[index] == expected;
      if taken {
        index := index + 1;
      }
    }

    method Enter() returns (r: Result<(), Error>)
      modifies this`depth
      ensures depth == old(depth) + 1
      ensures r == if depth > MAX_DEPTH then Err(TooDeep) else Ok(())
    {
      depth := depth + 1;
      r := if depth > MAX_DEPTH then Err(TooDeep) else Ok(());
    }

    method Leave()
      modifies this`depth
      ensures depth == if old(depth) == 0 then 0 else old(depth) - 1
    {
      depth := if depth == 0 then 0 else depth - 1;
    }

    method Item() returns (r: Result<(), Error>)
      modifies this`items
      ensures items == old(items) + 1
      ensures r == if items > MAX_ITEMS then Err(TooManyItems) else Ok(())
    {
      items := items + 1;
      r := if items > MAX_ITEMS then Err(TooManyItems) else Ok(());
    }

    method ReadLiteral(expected: bytes, value: Value) returns (r: Result<Value, Error>)
      requires Valid()
      modifies this`index
      ensures Valid() && Agrees(Literal(old(Rest()), expected, value, old(items)), r, old(depth))
    {
      var end := index + |expected|;
      if end <= |input| && input[index..end] == expected {
        assert expected <= Rest();
        index := end;
        r := Ok(value);
      } else {
        assert !(expected <= Rest());
        r := Err(Unexpected);
      }
    }

    /** Four digits read with checked 32-bit arithmetic, where a byte that is no digit counts as `U32_MAX`. */
    method HexQuad() returns (r: Result<nat, Error>)
      requires Valid()
      modifies this`index
      ensures Valid()
      ensures r.Ok? ==> |old(Rest())| >= 4 && Rest() == old(Rest())[4..]
      ensures match HexScalar(old(Rest()))
              case Some(code) => r == Ok(code)
              case None => r.Err? || !IsScalar(r.value)
      ensures r.Err? ==> r.error == InvalidEscape
    {
      ghost var s := Rest();
      var value: nat := 0;
      var k := 0;
      while k < 4
        invariant 0 <= k <= 4 && Valid() && k <= |s| && Rest() == s[k..]
        invariant (forall j :: 0 <= j < k ==> IsHex(s[j])) ==> value == HexPrefix(s, k)
        invariant (exists j :: 0 <= j < k && !IsHex(s[j])) ==> value == U32_MAX
      {
        if index >= |input| {
          assert |s| == k;
          return Err(InvalidEscape);
        }
        var digit := input[index];
        assert digit == s[k];
        index := index + 1;
        if value * 16 > U32_MAX || value * 16 + HexValue(digit) > U32_MAX {
          if forall j :: 0 <= j < k ==> IsHex(s[j]) {
            HexPrefixBound(s, k);
          }
          assert exists j :: 0 <= j <= k && !IsHex(s[j]);
          return Err(InvalidEscape);
        }
        value := value * 16 + HexValue(digit);
        k := k + 1;
      }
      if forall j :: 0 <= j < 4 ==> IsHex(s[j]) {
        HexPrefixFour(s);
      }
      r := Ok(value);
    }

    method ReadEscape(text: bytes) returns (r: Result<bytes, Error>)
      requires Valid()
      modifies this`index
      ensures Valid()
      ensures match EscapeAt(old(Rest()))
              case Some(e) => r == Ok(text + e.text) && Rest() == old(Rest())[e.width..]
              case None => r == Err(InvalidEscape)
    {
      if index >= |input| {
        return Err(InvalidEscape);
      }
      var escaped := input[index];
      index := index + 1;
      if escaped == QUOTE || escaped == ESCAPE || escaped == '/' as byte {
        r := Ok(text + [escaped]);
      } else if escaped == 'b' as byte {
        r := Ok(text + [0x08]);
      } else if escaped == 'f' as byte {
        r := Ok(text + [0x0C]);
      } else if escaped == 'n' as byte {
        r := Ok(text + [0x0A]);
      } else if escaped == 'r' as byte {
        r := Ok(text + [0x0D]);
      } else if escaped == 't' as byte {
        r := Ok(text + [0x09]);
      } else if escaped == 'u' as byte {
        var code := HexQuad();
        if code.Ok? && IsScalar(code.value) {
          r := Ok(text + EncodeScalar(code.value));
        } else {
          r := Err(InvalidEscape);
        }
      } else {
        r := Err(InvalidEscape);
      }
    }

    method ReadString() returns (r: Result<bytes, Error>)
      requires Valid()
      modifies this`index
      ensures Valid() && Agrees(StringAt(old(Rest()), old(items)), r, old(depth))
    {
      if index >= |input| || input[index] != QUOTE {
        return Err(Unexpected);
      }
      index := index + 1;
      var text: bytes := [];
      while index < |input|
        invariant Valid() && StringAt(old(Rest()), old(items)) == Body(Rest(), text, items)
      {
        var b := input[index];
        ghost var s := Rest();
        index := index + 1;
        assert Rest() == s[1..];
        if b == QUOTE {
          return if ValidUtf8(text) then Ok(text) else Err(InvalidUtf8);
        } else if b == ESCAPE {
          var escaped :- ReadEscape(text);
          text := escaped;
        } else if b < 0x20 {
          return Err(Unexpected);
        } else {
          text := text + [b];
        }
      }
      r := Err(Unexpected);
    }

    method ReadNumber() returns (r: Result<Value, Error>)
      requires Valid()
      modifies this`index
      ensures Valid() && Agrees(NumberAt(old(Rest()), old(items)), r, old(depth))
    {
      hide NumberOf, DigitRun, Digits, Skip;
      var start := index;
      while index < |input| && IsDigit(input[index])
        invariant start <= index <= |input|
        invariant DigitRun(input[start..]) == index - start + DigitRun(input[index..])
      {
        Suffix(input, index, index + 1);
        DigitRunStep(input[index..]);
        index := index + 1;
      }
      DigitRunStep(input[index..]);
      Suffix(input, start, index);
      if index == start {
        return Err(InvalidNumber);
      }
      if index < |input| && (input[index] == '.' as byte || input[index] == 'e' as byte || input[index] == 'E' as byte
                             || input[index] == '-' as byte || input[index] == '+' as byte) {
        return Err(InvalidNumber);
      }
      var number := NumberOf(input[start..index]);
      r := if number < U64_LIMIT then Ok(Number(number)) else Err(InvalidNumber);
    }

    method ReadValue() returns (r: Result<Value, Error>)
      requires Valid()
      modifies this
      ensures Valid() && Agrees(ValueAt(old(Rest()), old(depth), old(items)), r, old(depth))
      decreases |Rest()|, 1
    {
      Whitespace();
      if index >= |input| {
        return Err(Unexpected);
      }
      var b := input[index];
      if b == 'n' as byte {
        r := ReadLiteral(NULL, Null);
      } else if b == 't' as byte {
        r := ReadLiteral(TRUE, Boolean(true));
      } else if b == 'f' as byte {
        r := ReadLiteral(FALSE, Boolean(false));
      } else if b == QUOTE {
        var text := ReadString();
        r := if text.Ok? then Ok(Str(text.value)) else Err(text.error);
      } else if b == OPEN_ARRAY {
        r := ReadArray();
      } else if b == OPEN_OBJECT {
        r := ReadObject();
      } else if IsDigit(b) {
        r := ReadNumber();
      } else {
        r := Err(Unexpected);
      }
    }

    /** What `index += 1` does to the bytes not read yet. */
    twostate lemma Advanced()
      requires old(Valid()) && old(Rest()) != [] && index == old(index) + 1
      ensures Valid() && Rest() == old(Rest())[1..]
    {}

    method ReadArray() returns (r: Result<Value, Error>)
      requires Valid() && StartsWith(Rest(), OPEN_ARRAY)
      modifies this
      ensures Valid() && Agrees(ArrayAt(old(Rest()), old(depth), old(items)), r, old(depth))
      decreases |Rest()|, 0
    {
      hide Rest, Valid, ArrayAt, ElementsAt, ValueAt, Skip;
      ghost var target := ArrayAt(Rest(), depth, items);
      ArrayOpens(Rest(), depth, items);
      var _ :- Enter();
      index := index + 1;
      Advanced();
      Whitespace();
      var done := Take(CLOSE_ARRAY);
      if done {
        Leave();
        return Ok(List([]));
      }
      var values: seq<Value> := [];
      while true
        invariant Valid() && |Rest()| < |old(Rest())| && depth == old(depth) + 1
        invariant target == ElementsAt(Rest(), depth, items, values)
        decreases |Rest()|
      {
        ElementsTurn(Rest(), depth, items, values);
        ghost var turn := Element(Rest(), depth, items, values);
        Whitespace();
        var _ :- Item();
        var value :- ReadValue();
        values := values + [value];
        assert turn == Done(values, Rest(), items);
        Whitespace();
        done := Take(CLOSE_ARRAY);
        if done {
          Leave();
          return Ok(List(values));
        }
        var comma := Take(COMMA);
        if !comma {
          return Err(Unexpected);
        }
      }
    }

    method ReadObject() returns (r: Result<Value, Error>)
      requires Valid() && StartsWith(Rest(), OPEN_OBJECT)
      modifies this
      ensures Valid() && Agrees(ObjectAt(old(Rest()), old(depth), old(items)), r, old(depth))
      decreases |Rest()|, 0
    {
      hide Rest, Valid, ObjectAt, MembersAt, ValueAt, StringAt, Skip, HasKey;
      ghost var target := ObjectAt(Rest(), depth, items);
      ObjectOpens(Rest(), depth, items);
      var _ :- Enter();
      index := index + 1;
      Advanced();
      Whitespace();
      var done := Take(CLOSE_OBJECT);
      if done {
        Leave();
        return Ok(Record([]));
      }
      var fields: seq<Field> := [];
      while true
        invariant Valid() && |Rest()| < |old(Rest())| && depth == old(depth) + 1
        invariant target == MembersAt(Rest(), depth, items, fields)
        decreases |Rest()|
      {
        ghost var turn := Member(Rest(), depth, items, fields);
        MembersTurn(Rest(), depth, items, fields);
        Whitespace();
        var _ :- Item();
        var key :- ReadString();
        if HasKey(fields, key) {
          return Err(DuplicateKey);
        }
        Whitespace();
        var colon := Take(COLON);
        if !colon {
          return Err(Unexpected);
        }
        var value :- ReadValue();
        fields := fields + [Field(key, value)];
        assert turn == Done(fields, Rest(), items);
        Whitespace();
        done := Take(CLOSE_OBJECT);
        if done {
          Leave();
          return Ok(Record(fields));
        }
        var comma := Take(COMMA);
        if !comma {
          return Err(Unexpected);
        }
      }
    }
  }

  /** `parse`: a value, blanks, and nothing else. */
  method Parse(input: bytes) returns (r: Result<Value, Error>)
    ensures r == Parsed(input)
    ensures r.Ok? <==> exists lead, t, trail :: IsDocument(input, lead, t, trail)
    ensures forall lead, t, trail :: IsDocument(input, lead, t, trail) ==> r == Ok(Meaning(t))
  {
    JsonExact.ParsedExactly(input);
    var parser := new Parser(input);
    var value :- parser.ReadValue();
    assert parser.depth == 0;
    parser.Whitespace();
    r := if parser.index == |input| then Ok(value) else Err(TrailingBytes);
  }

  lemma Suffix(s: bytes, i: nat, j: nat)
    requires i <= j <= |s|
    ensures s[i..][..j - i] == s[i..j] && s[i..][j - i..] == s[j..]
  {}

  lemma DigitRunStep(s: bytes)
    ensures DigitRun(s) == if s != [] && IsDigit(s[0]) then 1 + DigitRun(s[1..]) else 0
  {}

  lemma SkipTwice(s: bytes)
    ensures Skip(Skip(s)) == Skip(s)
  {}

  lemma ArrayOpens(s: bytes, depth: nat, items: nat)
    requires s != []
    ensures var t := Skip(s[1..]);
            ArrayAt(s, depth, items)
            == if depth + 1 > MAX_DEPTH then Fail(TooDeep)
               else if StartsWith(t, CLOSE_ARRAY) then Done(List([]), t[1..], items)
               else ElementsAt(t, depth + 1, items, [])
  {
    SkipTwice(s[1..]);
  }

  /** The values after one element read from `s`, and what is left. */
  ghost function Element(s: bytes, depth: nat, items: nat, acc: seq<Value>): Outcome<seq<Value>> {
    if items + 1 > MAX_ITEMS then Fail(TooManyItems)
    else
      match ValueAt(Skip(s), depth, items + 1)
      case Fail(e) => Fail(e)
      case Done(value, after, n) => Done(acc + [value], after, n)
  }

  /** One turn of the array loop. */
  lemma ElementsTurn(s: bytes, depth: nat, items: nat, acc: seq<Value>)
    ensures ElementsAt(s, depth, items, acc)
            == match Element(s, depth, items, acc)
               case Fail(e) => Fail(e)
               case Done(values, after, n) =>
                 var t := Skip(after);
                 if StartsWith(t, CLOSE_ARRAY) then Done(List(values), t[1..], n)
                 else if StartsWith(t, COMMA) then ElementsAt(t[1..], depth, n, values)
                 else Fail(Unexpected)
  {}

  lemma ObjectOpens(s: bytes, depth: nat, items: nat)
    requires s != []
    ensures var t := Skip(s[1..]);
            ObjectAt(s, depth, items)
            == if depth + 1 > MAX_DEPTH then Fail(TooDeep)
               else if StartsWith(t, CLOSE_OBJECT) then Done(Record([]), t[1..], items)
               else MembersAt(t, depth + 1, items, [])
  {
    SkipTwice(s[1..]);
  }

  /** The fields after one member read from `s`, and what is left. */
  ghost function Member(s: bytes, depth: nat, items: nat, acc: seq<Field>): Outcome<seq<Field>> {
    if items + 1 > MAX_ITEMS then Fail(TooManyItems)
    else
      match StringAt(Skip(s), items + 1)
      case Fail(e) => Fail(e)
      case Done(key, afterKey, _) =>
        var colon := Skip(afterKey);
        if HasKey(acc, key) then Fail(DuplicateKey)
        else if !StartsWith(colon, COLON) then Fail(Unexpected)
        else
          match ValueAt(colon[1..], depth, items + 1)
          case Fail(e) => Fail(e)
          case Done(value, after, n) => Done(acc + [Field(key, value)], after, n)
  }

  /** One turn of the object loop. */
  lemma MembersTurn(s: bytes, depth: nat, items: nat, acc: seq<Field>)
    ensures MembersAt(s, depth, items, acc)
            == match Member(s, depth, items, acc)
               case Fail(e) => Fail(e)
               case Done(fields, after, n) =>
                 var t := Skip(after);
                 if StartsWith(t, CLOSE_OBJECT) then Done(Record(fields), t[1..], n)
                 else if StartsWith(t, COMMA) then MembersAt(t[1..], depth, n, fields)
                 else Fail(Unexpected)
  {}

  /** `hex_value`: the sentinel for a byte that is no hexadecimal digit is the largest 32-bit value. */
  function HexValue(digit: byte): (n: nat)
    ensures n == if IsHex(digit) then HexDigit(digit) else U32_MAX
  {
    if '0' as byte <= digit <= '9' as byte then digit as nat - 48
    else if 'a' as byte <= digit <= 'f' as byte then digit as nat - 97 + 10
    else if 'A' as byte <= digit <= 'F' as byte then digit as nat - 65 + 10
    else U32_MAX
  }

  ghost function HexPrefix(s: bytes, k: nat): nat
    requires k <= |s| && forall j :: 0 <= j < k ==> IsHex(s[j])
  {
    if k == 0 then 0 else HexPrefix(s, k - 1) * 16 + HexDigit(s[k - 1])
  }

  lemma {:induction false} HexPrefixBound(s: bytes, k: nat)
    requires k <= 3 && k <= |s| && forall j :: 0 <= j < k ==> IsHex(s[j])
    ensures HexPrefix(s, k) < [1, 16, 256, 4096][k]
  {
    if k > 0 {
      HexPrefixBound(s, k - 1);
    }
  }

  lemma HexPrefixFour(s: bytes)
    requires |s| >= 4 && forall j :: 0 <= j < 4 ==> IsHex(s[j])
    ensures HexPrefix(s, 4) == HexDigit(s[0]) * 4096 + HexDigit(s[1]) * 256 + HexDigit(s[2]) * 16 + HexDigit(s[3])
  {
    assert HexPrefix(s, 1) == HexDigit(s[0]);
    assert HexPrefix(s, 2) == HexPrefix(s, 1) * 16 + HexDigit(s[1]);
    assert HexPrefix(s, 3) == HexPrefix(s, 2) * 16 + HexDigit(s[2]);
  }
}
