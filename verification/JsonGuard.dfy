/**
 The pre-scanner of the management API: one offset that every method advances. Each method is proved
 to compute the function of the same reading in `JsonGuardScan`.
 */
module JsonGuard {
  import opened Bytes
  import opened JsonLayout
  import opened JsonGuardScan
  import JsonGuardExact

  class Guard {
    const body: bytes
    const decode: Decoder
    var offset: nat

    constructor (body: bytes, decode: Decoder)
      ensures this.body == body && this.decode == decode
      ensures Valid() && Rest() == body
    {
      this.body, this.decode := body, decode;
      offset := 0;
    }

    ghost predicate Valid()
      reads this`offset
    {
      offset <= |body|
    }

    /** The bytes not scanned yet. */
    ghost function Rest(): bytes
      reads this`offset
      requires Valid()
    {
      body[offset..]
    }

    /** The answer `outcome` asks for, with the scanner standing where `outcome` leaves it. */
    ghost predicate Agrees<T(!new)>(outcome: Read<T>, r: Result<T, Refusal>)
      reads this`offset
      requires Valid()
    {
      match outcome
      case Read(value, rest) => r == Ok(value) && Rest() == rest
      case Refused(why) => r == Err(why)
    }

    /** What `offset += 1` does to the bytes not scanned yet. */
    twostate lemma Advanced()
      requires old(Valid()) && old(Rest()) != [] && offset == old(offset) + 1
      ensures Valid() && Rest() == old(Rest())[1..]
    {}

    method SkipSpace()
      requires Valid()
      modifies this`offset
      ensures Valid() && Rest() == Space(old(Rest()))
    {
      while offset < |body| && IsSpace(body[offset])
        invariant Valid() && Space(Rest()) == Space(old(Rest()))
      {
        offset := offset + 1;
      }
    }

    method Take(expected: byte) returns (taken: bool)
      requires Valid()
      modifies this`offset
      ensures Valid() && taken == StartsWith(old(Rest()), expected)
      ensures Rest() == if taken then old(Rest())[1..] else old(Rest())
    {
      taken := offset < |body| && body[offset] == expected;
      if taken {
        offset := offset + 1;
      }
    }

    method ScanPrimitive() returns (r: Result<(), Refusal>)
      requires Valid()
      modifies this`offset
      ensures Valid() && Agrees(Primitive(old(Rest())), r)
    {
      var start := offset;
      while offset < |body| && !EndsPrimitive(body[offset])
        invariant Valid() && start <= offset && PrimitiveEnd(Rest()) == PrimitiveEnd(old(Rest()))
      {
        offset := offset + 1;
      }
      r := if offset > start then Ok(()) else Err(Invalid);
    }

    method ScanString() returns (r: Result<bytes, Refusal>)
      requires Valid()
      modifies this`offset
      ensures Valid() && Agrees(StringAt(old(Rest()), decode), r)
    {
      var start := offset;
      ghost var s := Rest();
      var quoted := Take(QUOTE);
      if !quoted {
        return Err(Invalid);
      }
      var escaped := false;
      while offset < |body|
        invariant Valid() && start < offset && Close(s[1..], false) == Close(Rest(), escaped)
      {
        var b := body[offset];
        offset := offset + 1;
        if escaped {
          escaped := false;
        } else if b == ESCAPE {
          escaped := true;
        } else if b == QUOTE {
          assert Close(s[1..], false) == Some(Rest());
          assert body[start..offset] == s[..|s| - |Rest()|];
          var text := decode(body[start..offset]);
          return if text.Some? then Ok(text.value) else Err(Invalid);
        }
      }
      r := Err(Invalid);
    }

    method ScanValue(depth: nat) returns (r: Result<(), Refusal>)
      requires Valid()
      modifies this`offset
      ensures Valid() && Agrees(ValueAt(old(Rest()), depth, decode), r)
      decreases |Rest()|, 1
    {
      if depth > MAX_GUARD_DEPTH {
        return Err(Depth);
      }
      SkipSpace();
      if offset >= |body| {
        return Err(Invalid);
      }
      var b := body[offset];
      if b == OPEN_OBJECT {
        r := ScanObject(depth + 1);
      } else if b == OPEN_ARRAY {
        r := ScanArray(depth + 1);
      } else if b == QUOTE {
        var text := ScanString();
        r := if text.Ok? then Ok(()) else Err(text.error);
      } else {
        r := ScanPrimitive();
      }
    }

    method ScanArray(depth: nat) returns (r: Result<(), Refusal>)
      requires Valid() && StartsWith(Rest(), OPEN_ARRAY)
      modifies this`offset
      ensures Valid() && Agrees(ArrayAt(old(Rest()), depth, decode), r)
      decreases |Rest()|, 0
    {
      hide Valid, Rest, ArrayAt, ElementsAt, ValueAt, Space;
      ghost var target := ArrayAt(Rest(), depth, decode);
      ArrayOpens(Rest(), depth, decode);
      offset := offset + 1;
      Advanced();
      SkipSpace();
      var done := Take(CLOSE_ARRAY);
      if done {
        return Ok(());
      }
      var count := 0;
      while true
        invariant Valid() && |Rest()| < |old(Rest())| && target == ElementsAt(Rest(), depth, count, decode)
        decreases |Rest()|
      {
        ElementsTurn(Rest(), depth, count, decode);
        count := count + 1;
        if count > MAX_ARRAY {
          return Err(Elements);
        }
        var value := ScanValue(depth);
        if value.Err? {
          return value;
        }
        SkipSpace();
        done := Take(CLOSE_ARRAY);
        if done {
          return Ok(());
        }
        var comma := Take(COMMA);
        if !comma {
          return Err(Invalid);
        }
      }
    }

    method ScanObject(depth: nat) returns (r: Result<(), Refusal>)
      requires Valid() && StartsWith(Rest(), OPEN_OBJECT)
      modifies this`offset
      ensures Valid() && Agrees(ObjectAt(old(Rest()), depth, decode), r)
      decreases |Rest()|, 0
    {
      hide Valid, Rest, ObjectAt, MembersAt, ValueAt, StringAt, Space;
      ghost var target := ObjectAt(Rest(), depth, decode);
      ObjectOpens(Rest(), depth, decode);
      offset := offset + 1;
      Advanced();
      SkipSpace();
      var keys: set<bytes> := {};
      var done := Take(CLOSE_OBJECT);
      if done {
        return Ok(());
      }
      while true
        invariant Valid() && |Rest()| < |old(Rest())| && target == MembersAt(Rest(), depth, keys, decode)
        decreases |Rest()|
      {
        MembersTurn(Rest(), depth, keys, decode);
        ghost var member := MemberAt(Rest(), depth, keys, decode);
        SkipSpace();
        var key :- ScanString();
        if key in keys {
          return Err(DuplicateKey);
        }
        keys := keys + {key};
        SkipSpace();
        var colon := Take(COLON);
        if !colon {
          return Err(Invalid);
        }
        var value := ScanValue(depth);
        if value.Err? {
          return value;
        }
        assert member == Read(keys, Rest());
        SkipSpace();
        done := Take(CLOSE_OBJECT);
        if done {
          return Ok(());
        }
        var comma := Take(COMMA);
        if !comma {
          return Err(Invalid);
        }
      }
    }
  }

  /** `validate_json_shape` of the management API. It ends on every byte string. */
  method ValidateShape(body: bytes, decode: Decoder) returns (r: Result<(), Refusal>)
    ensures r == Scan(body, decode)
  {
    hide ValueAt;
    var guard := new Guard(body, decode);
    var _ :- guard.ScanValue(0);
    guard.SkipSpace();
    if guard.offset == |body| {
      r := Ok(());
    } else {
      r := Err(Invalid);
    }
  }

  lemma ValueSpace(s: bytes, depth: nat, decode: Decoder)
    ensures Space(Space(s)) == Space(s)
    ensures ValueAt(Space(s), depth, decode) == ValueAt(s, depth, decode)
  {}

  lemma ArrayOpens(s: bytes, depth: nat, decode: Decoder)
    requires s != []
    ensures var t := Space(s[1..]);
            ArrayAt(s, depth, decode)
            == if StartsWith(t, CLOSE_ARRAY) then Read((), t[1..]) else ElementsAt(t, depth, 0, decode)
  {
    ValueSpace(s[1..], depth, decode);
  }

  /** One turn of the array loop. */
  lemma ElementsTurn(s: bytes, depth: nat, count: nat, decode: Decoder)
    ensures ElementsAt(s, depth, count, decode)
            == if count + 1 > MAX_ARRAY then Refused(Elements)
               else
                 match ValueAt(s, depth, decode)
                 case Refused(why) => Refused(why)
                 case Read(_, after) =>
                   var t := Space(after);
                   if StartsWith(t, CLOSE_ARRAY) then Read((), t[1..])
                   else if StartsWith(t, COMMA) then ElementsAt(t[1..], depth, count + 1, decode)
                   else Refused(Invalid)
  {}

  lemma ObjectOpens(s: bytes, depth: nat, decode: Decoder)
    requires s != []
    ensures var t := Space(s[1..]);
            ObjectAt(s, depth, decode)
            == if StartsWith(t, CLOSE_OBJECT) then Read((), t[1..]) else MembersAt(t, depth, {}, decode)
  {
    ValueSpace(s[1..], depth, decode);
    assert MemberAt(Space(s[1..]), depth, {}, decode) == MemberAt(s[1..], depth, {}, decode);
  }

  /** One turn of the object loop. */
  lemma MembersTurn(s: bytes, depth: nat, keys: set<bytes>, decode: Decoder)
    ensures MembersAt(s, depth, keys, decode)
            == match MemberAt(s, depth, keys, decode)
               case Refused(why) => Refused(why)
               case Read(more, after) =>
                 var t := Space(after);
                 if StartsWith(t, CLOSE_OBJECT) then Read((), t[1..])
                 else if StartsWith(t, COMMA) then MembersAt(t[1..], depth, more, decode)
                 else Refused(Invalid)
  {}
}
