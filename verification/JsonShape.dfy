/**
 The shape scan of owner JSON: a visitor driven by another library's deserializer, with a budget of
 one node more than the text has bytes. The scan is first described without its budget; the visitor,
 which has one, is then proved to compute the same thing, so the budget never decides anything.
 */
module JsonShape {
  import opened Bytes
  import opened JsonLayout
  import JsonDialect
  import JsonScan

  const MAX_BODY: nat := 1024 * 1024
  const MAX_SHAPE_DEPTH: nat := 32

  datatype Token = Token(text: bytes, width: nat)

  /** The deserializer's own readers: the scalar or the string that starts the bytes. */
  datatype Lexer = Lexer(scalars: bytes -> Option<Token>, strings: bytes -> Option<Token>)

  /** A token spans at least one byte and no more than there are. */
  function TokenAt(s: bytes, reader: bytes -> Option<Token>): (token: Option<Token>)
    ensures token.Some? ==> 1 <= token.value.width <= |s|
  {
    var token := reader(s);
    if token.Some? && 1 <= token.value.width <= |s| then token else None
  }

  datatype Why = Malformed | DuplicateKey | TooDeep

  /** A scan that went on, or stopped; and the nodes visited so far. */
  datatype Step = Went(rest: bytes, nodes: nat) | Stopped(why: Why, nodes: nat)

  /** Whether a container closes or holds one more entry, and the bytes from there on. */
  datatype Entry = Closed(rest: bytes) | More(rest: bytes) | Bad

  function EntryAt(s: bytes, close: byte, first: bool): (e: Entry)
    ensures e.Closed? ==> |e.rest| < |s|
    ensures e.More? ==> |e.rest| <= |s| && (!first ==> |e.rest| < |s|)
  {
    var t := JsonScan.Skip(s);
    if StartsWith(t, close) then Closed(t[1..])
    else if t == [] then Bad
    else if first then More(t)
    else if t[0] != COMMA then Bad
    else
      var u := JsonScan.Skip(t[1..]);
      if u == [] || u[0] == close then Bad else More(u)
  }

  /** A visited node is paid for by a byte: what is spent and what is left never grow together. */
  ghost predicate Paid(step: Step, s: bytes, nodes: nat) {
    match step
    case Went(rest, n) => n + |rest| <= nodes + |s|
    case Stopped(_, n) => n <= nodes + |s| + 1
  }

  function ValueAt(s: bytes, depth: nat, nodes: nat, lexer: Lexer): (step: Step)
    ensures step.Went? ==> |step.rest| < |s|
    ensures Paid(step, s, nodes)
    decreases |s|, 1
  {
    var n := nodes + 1;
    var t := JsonScan.Skip(s);
    if depth > MAX_SHAPE_DEPTH then Stopped(TooDeep, n)
    else if t == [] then Stopped(Malformed, n)
    else if t[0] == OPEN_ARRAY then ElementsAt(t[1..], depth, n, true, lexer)
    else if t[0] == OPEN_OBJECT then MembersAt(t[1..], depth, n, {}, true, lexer)
    else if t[0] == QUOTE then
      match TokenAt(t, lexer.strings)
      case None => Stopped(Malformed, n)
      case Some(token) => Went(t[token.width..], n)
    else
      match TokenAt(t, lexer.scalars)
      case None => Stopped(Malformed, n)
      case Some(token) => Went(t[token.width..], n)
  }

  /** The rest of an array at `depth`. */
  function ElementsAt(s: bytes, depth: nat, nodes: nat, first: bool, lexer: Lexer): (step: Step)
    ensures step.Went? ==> |step.rest| < |s|
    ensures Paid(step, s, nodes)
    decreases |s|, 2
  {
    match EntryAt(s, CLOSE_ARRAY, first)
    case Closed(rest) => Went(rest, nodes)
    case Bad => Stopped(Malformed, nodes)
    case More(u) =>
      match ValueAt(u, depth + 1, nodes, lexer)
      case Stopped(why, n) => Stopped(why, n)
      case Went(after, n) => ElementsAt(after, depth, n, false, lexer)
  }

  /** The rest of an object at `depth` whose keys so far are `keys`. */
  function MembersAt(s: bytes, depth: nat, nodes: nat, keys: set<bytes>, first: bool, lexer: Lexer): (step: Step)
    ensures step.Went? ==> |step.rest| < |s|
    ensures Paid(step, s, nodes)
    decreases |s|, 2
  {
    match EntryAt(s, CLOSE_OBJECT, first)
    case Closed(rest) => Went(rest, nodes)
    case Bad => Stopped(Malformed, nodes)
    case More(u) =>
      if !StartsWith(u, QUOTE) || TokenAt(u, lexer.strings).None? then Stopped(Malformed, nodes)
      else
        var key := TokenAt(u, lexer.strings).value;
        var colon := JsonScan.Skip(u[key.width..]);
        if key.text in keys then Stopped(DuplicateKey, nodes)
        else if !StartsWith(colon, COLON) then Stopped(Malformed, nodes)
        else
          match ValueAt(colon[1..], depth + 1, nodes, lexer)
          case Stopped(why, n) => Stopped(why, n)
          case Went(after, n) => MembersAt(after, depth, n, keys + {key.text}, false, lexer)
  }

  /** What the scan of a whole text decides, with no budget at all. */
  function Scanned(body: bytes, lexer: Lexer): Result<(), Why> {
    match ValueAt(body, 1, 0, lexer)
    case Stopped(why, _) => Err(why)
    case Went(rest, _) => if JsonScan.Skip(rest) == [] then Ok(()) else Err(Malformed)
  }

  datatype WireError = BodyOutOfBounds | ShapeOutOfBounds | JsonDecoding

  function Reported(why: Why): WireError {
    match why
    case TooDeep => ShapeOutOfBounds
    case DuplicateKey => JsonDecoding
    case Malformed => JsonDecoding
  }

  /** The visitor and its budget, over the deserializer's place in the text. */
  class ShapeVisitor {
    const body: bytes
    const lexer: Lexer
    const maxNodes: nat
    var index: nat
    var nodes: nat
    var failure: Option<WireError>

    constructor (body: bytes, lexer: Lexer)
      ensures this.body == body && this.lexer == lexer && maxNodes == |body| + 1
      ensures Valid() && Rest() == body && nodes == 0 && failure.None?
    {
      this.body, this.lexer := body, lexer;
      maxNodes := |body| + 1;
      index, nodes, failure := 0, 0, None;
    }

    ghost predicate Valid()
      reads this`index
    {
      index <= |body|
    }

    ghost function Rest(): bytes
      reads this`index
      requires Valid()
    {
      body[index..]
    }

    /** The budget still covers every byte not read, and one node more. */
    ghost predicate Covered()
      reads this`index, this`nodes
      requires Valid()
    {
      nodes + |Rest()| < maxNodes
    }

    /** The visitor did what `step` says, and noted what `step` stopped for. */
    ghost predicate Agrees(step: Step, ok: bool)
      reads this
      requires Valid()
    {
      match step
      case Went(rest, n) => ok && Rest() == rest && nodes == n && failure.None?
      case Stopped(why, n) => !ok && nodes == n && failure == if why == Malformed then None else Some(Reported(why))
    }

    method SkipBlanks()
      requires Valid()
      modifies this`index
      ensures Valid() && Rest() == JsonScan.Skip(old(Rest()))
    {
      while index < |body| && JsonDialect.IsBlank(body[index])
        invariant Valid() && JsonScan.Skip(Rest()) == JsonScan.Skip(old(Rest()))
      {
        index := index + 1;
      }
    }

    method Take(expected: byte) returns (taken: bool)
      requires Valid()
      modifies this`index
      ensures Valid() && taken == StartsWith(old(Rest()), expected)
      ensures Rest() == if taken then old(Rest())[1..] else old(Rest())
    {
      taken := index < |body| && body[index] == expected;
      if taken {
        index := index + 1;
      }
    }

    method NextEntry(close: byte, first: bool) returns (e: Entry)
      requires Valid()
      modifies this`index
      ensures Valid() && e == EntryAt(old(Rest()), close, first)
      ensures e.Bad? || Rest() == e.rest
    {
      SkipBlanks();
      var closed := Take(close);
      if closed {
        return Closed(body[index..]);
      }
      if index >= |body| {
        return Bad;
      }
      if first {
        return More(body[index..]);
      }
      var comma := Take(COMMA);
      if !comma {
        return Bad;
      }
      SkipBlanks();
      e := if index >= |body| || body[index] == close then Bad else More(body[index..]);
    }

    /** `enter`: counts the node, and stops at the budget or below the depth bound. */
    method Enter(depth: nat) returns (ok: bool)
      modifies this`nodes, this`failure
      ensures nodes == old(nodes) + 1
      ensures ok <==> nodes <= maxNodes && depth <= MAX_SHAPE_DEPTH
      ensures failure == if ok then old(failure) else Some(ShapeOutOfBounds)
    {
      nodes := nodes + 1;
      ok := true;
      if nodes > maxNodes || depth > MAX_SHAPE_DEPTH {
        failure := Some(ShapeOutOfBounds);
        ok := false;
      }
    }

    method Value(depth: nat) returns (ok: bool)
      requires Valid() && Covered() && failure.None?
      modifies this
      ensures Valid() && Agrees(ValueAt(old(Rest()), depth, old(nodes), lexer), ok)
      decreases |Rest()|, 1
    {
      hide ElementsAt, MembersAt, TokenAt, JsonScan.Skip;
      ok := Enter(depth);
      if !ok {
        return;
      }
      SkipBlanks();
      if index >= |body| {
        return false;
      }
      if body[index] == OPEN_ARRAY {
        index := index + 1;
        ok := Elements(depth);
      } else if body[index] == OPEN_OBJECT {
        index := index + 1;
        ok := Members(depth);
      } else if body[index] == QUOTE {
        var token := TokenAt(body[index..], lexer.strings);
        if token.None? {
          return false;
        }
        index := index + token.value.width;
      } else {
        var token := TokenAt(body[index..], lexer.scalars);
        if token.None? {
          return false;
        }
        index := index + token.value.width;
      }
    }

    method Elements(depth: nat) returns (ok: bool)
      requires Valid() && Covered() && failure.None?
      modifies this
      ensures Valid() && Agrees(ElementsAt(old(Rest()), depth, old(nodes), true, lexer), ok)
      decreases |Rest()|, 2
    {
      hide Valid, Rest, ElementsAt, ValueAt, EntryAt, JsonScan.Skip;
      ghost var target := ElementsAt(Rest(), depth, nodes, true, lexer);
      var first := true;
      while true
        invariant Valid() && Covered() && failure.None? && |Rest()| <= |old(Rest())|
        invariant target == ElementsAt(Rest(), depth, nodes, first, lexer)
        decreases |Rest()|
      {
        ElementsTurn(Rest(), depth, nodes, first, lexer);
        var e := NextEntry(CLOSE_ARRAY, first);
        if e.Closed? {
          return true;
        }
        if e.Bad? {
          return false;
        }
        ok := Value(depth + 1);
        if !ok {
          return;
        }
        first := false;
      }
    }

    method Members(depth: nat) returns (ok: bool)
      requires Valid() && Covered() && failure.None?
      modifies this
      ensures Valid() && Agrees(MembersAt(old(Rest()), depth, old(nodes), {}, true, lexer), ok)
      decreases |Rest()|, 2
    {
      hide Valid, Rest, MembersAt, ValueAt, EntryAt, JsonScan.Skip;
      ghost var target := MembersAt(Rest(), depth, nodes, {}, true, lexer);
      var first := true;
      var keys: set<bytes> := {};
      while true
        invariant Valid() && Covered() && failure.None? && |Rest()| <= |old(Rest())|
        invariant target == MembersAt(Rest(), depth, nodes, keys, first, lexer)
        decreases |Rest()|
      {
        MembersTurn(Rest(), depth, nodes, keys, first, lexer);
        var e := NextEntry(CLOSE_OBJECT, first);
        if e.Closed? {
          return true;
        }
        if e.Bad? {
          return false;
        }
        var key := Key();
        if key.None? {
          return false;
        }
        if key.value in keys {
          failure := Some(JsonDecoding);
          return false;
        }
        keys := keys + {key.value};
        SkipBlanks();
        var colon := Take(COLON);
        if !colon {
          return false;
        }
        ok := Value(depth + 1);
        if !ok {
          return;
        }
        first := false;
      }
    }

    method Key() returns (key: Option<bytes>)
      requires Valid()
      modifies this`index
      ensures Valid()
      ensures var s := old(Rest());
              if !StartsWith(s, QUOTE) || TokenAt(s, lexer.strings).None? then key.None?
              else && key == Some(TokenAt(s, lexer.strings).value.text)
                   && Rest() == s[TokenAt(s, lexer.strings).value.width..]
    {
      if index >= |body| || body[index] != QUOTE {
        return None;
      }
      var token := TokenAt(body[index..], lexer.strings);
      if token.None? {
        return None;
      }
      index := index + token.value.width;
      key := Some(token.value.text);
    }
  }

  /** `validate_json_shape` of the owner wire. */
  method ValidateShape(body: bytes, lexer: Lexer) returns (r: Result<(), WireError>, nodes: nat)
    ensures r == Err(BodyOutOfBounds) <==> |body| > 1_048_576
    ensures r == if |body| > MAX_BODY then Err(BodyOutOfBounds)
                 else
                   match Scanned(body, lexer)
                   case Ok(_) => Ok(())
                   case Err(why) => Err(Reported(why))
    ensures nodes <= |body| + 1
  {
    hide ValueAt, JsonScan.Skip;
    nodes := 0;
    if |body| > MAX_BODY {
      return Err(BodyOutOfBounds), nodes;
    }
    var visitor := new ShapeVisitor(body, lexer);
    var ok := visitor.Value(1);
    nodes := visitor.nodes;
    if !ok {
      return Err(if visitor.failure.Some? then visitor.failure.value else JsonDecoding), nodes;
    }
    visitor.SkipBlanks();
    r := if visitor.index == |body| then Ok(()) else Err(JsonDecoding);
  }

  /** One turn of the array loop. */
  lemma ElementsTurn(s: bytes, depth: nat, nodes: nat, first: bool, lexer: Lexer)
    ensures var e := EntryAt(s, CLOSE_ARRAY, first);
            ElementsAt(s, depth, nodes, first, lexer)
            == if e.Closed? then Went(e.rest, nodes)
               else if e.Bad? then Stopped(Malformed, nodes)
               else
                 var value := ValueAt(e.rest, depth + 1, nodes, lexer);
                 if value.Stopped? then value else ElementsAt(value.rest, depth, value.nodes, false, lexer)
  {}

  /** One turn of the object loop. */
  lemma MembersTurn(s: bytes, depth: nat, nodes: nat, keys: set<bytes>, first: bool, lexer: Lexer)
    ensures var e := EntryAt(s, CLOSE_OBJECT, first);
            MembersAt(s, depth, nodes, keys, first, lexer)
            == if e.Closed? then Went(e.rest, nodes)
               else if e.Bad? || !StartsWith(e.rest, QUOTE) || TokenAt(e.rest, lexer.strings).None? then
                 Stopped(Malformed, nodes)
               else
                 var key := TokenAt(e.rest, lexer.strings).value;
                 var colon := JsonScan.Skip(e.rest[key.width..]);
                 if key.text in keys then Stopped(DuplicateKey, nodes)
                 else if !StartsWith(colon, COLON) then Stopped(Malformed, nodes)
                 else
                   var value := ValueAt(colon[1..], depth + 1, nodes, lexer);
                   if value.Stopped? then value
                   else MembersAt(value.rest, depth, value.nodes, keys + {key.text}, false, lexer)
  {}
}
