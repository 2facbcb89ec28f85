/**
 The bounds scan accepts a text exactly when it is a tree, between white space, that keeps the
 bounds; and on any such tree its verdict is whether the tree keeps them.
 */
module JsonGuardExact {
  import opened Bytes
  import opened JsonLayout
  import opened JsonGuardScan

  predicate Ends(s: bytes) {
    s == [] || EndsPrimitive(s[0])
  }

  /** The scan passes to exactly `rest` if `ok`, and refuses otherwise. */
  predicate Verdict(r: Read<()>, ok: bool, rest: bytes) {
    if ok then r == Read((), rest) else r.Refused?
  }

  // ---- White space, tokens and strings ----

  lemma {:induction false} SpaceToHead(gap: bytes, s: bytes)
    requires Spaces(gap) && (s == [] || !IsSpace(s[0]))
    ensures Space(gap + s) == s
  {
    if gap == [] {
      assert gap + s == s;
    } else {
      assert (gap + s)[1..] == gap[1..] + s;
      SpaceToHead(gap[1..], s);
    }
  }

  lemma {:induction false} SpaceSplit(s: bytes) returns (gap: bytes)
    ensures Spaces(gap) && s == gap + Space(s)
  {
    if s != [] && IsSpace(s[0]) {
      var rest := SpaceSplit(s[1..]);
      gap := [s[0]] + rest;
    } else {
      gap := [];
    }
  }

  lemma {:induction false} TokenEnds(token: bytes, rest: bytes)
    requires Ends(rest) && forall k :: 0 <= k < |token| ==> !EndsPrimitive(token[k])
    ensures PrimitiveEnd(token + rest) == rest
  {
    if token == [] {
      assert token + rest == rest;
    } else {
      assert (token + rest)[1..] == token[1..] + rest;
      TokenEnds(token[1..], rest);
    }
  }

  lemma {:induction false} TokenSplit(s: bytes) returns (token: bytes)
    ensures s == token + PrimitiveEnd(s)
    ensures forall k :: 0 <= k < |token| ==> !EndsPrimitive(token[k])
  {
    if s != [] && !EndsPrimitive(s[0]) {
      var rest := TokenSplit(s[1..]);
      token := [s[0]] + rest;
    } else {
      token := [];
    }
  }

  lemma {:induction false} CloseFinds(raw: bytes, escaped: bool, rest: bytes)
    requires Unquoted(raw, escaped)
    ensures Close(raw + ([QUOTE] + rest), escaped) == Some(rest)
  {
    var s := raw + ([QUOTE] + rest);
    if raw == [] {
      assert s[1..] == rest;
    } else {
      assert s[1..] == raw[1..] + ([QUOTE] + rest);
      CloseFinds(raw[1..], !escaped && raw[0] == ESCAPE, rest);
    }
  }

  lemma {:induction false} CloseSplit(s: bytes, escaped: bool) returns (raw: bytes)
    requires Close(s, escaped).Some?
    ensures Unquoted(raw, escaped) && s == raw + ([QUOTE] + Close(s, escaped).value)
  {
    if !escaped && s[0] == QUOTE {
      raw := [];
    } else {
      var more := CloseSplit(s[1..], !escaped && s[0] == ESCAPE);
      raw := [s[0]] + more;
      assert raw[1..] == more;
    }
  }

  lemma QuotedSlice(raw: bytes, rest: bytes)
    ensures var s := Quoted(raw, rest);
            s[1..] == raw + ([QUOTE] + rest) && s[..|s| - |rest|] == Quoted(raw, [])
  {}

  lemma StringReads(raw: bytes, rest: bytes, decode: Decoder)
    requires Decodes(raw, decode)
    ensures StringAt(Quoted(raw, rest), decode) == Read(Key(raw, decode), rest)
  {
    QuotedSlice(raw, rest);
    CloseFinds(raw, false, rest);
  }

  lemma StringSplit(s: bytes, decode: Decoder) returns (raw: bytes)
    requires StringAt(s, decode).Read?
    ensures Decodes(raw, decode) && s == Quoted(raw, StringAt(s, decode).rest)
    ensures StringAt(s, decode).value == Key(raw, decode)
  {
    raw := CloseSplit(s[1..], false);
    HeadTail(s, QUOTE);
    QuotedSlice(raw, StringAt(s, decode).rest);
  }

  // ---- The verdict on a tree ----

  lemma WriteHead(t: Tree, tail: bytes, decode: Decoder)
    requires Written(t, decode)
    ensures Write(t, tail) != [] && !EndsPrimitive(Write(t, tail)[0])
  {}

  lemma {:induction false} ValueVerdict(gap: bytes, t: Tree, rest: bytes, depth: nat, decode: Decoder)
    requires Spaces(gap) && Written(t, decode) && Ends(rest)
    ensures Verdict(ValueAt(gap + Write(t, rest), depth, decode), Bounded(t, depth, decode), rest)
    decreases t, 1
  {
    hide ArrayAt, ObjectAt, ElementsBounded, MembersBounded;
    if depth > MAX_GUARD_DEPTH {
      return;
    }
    WriteHead(t, rest, decode);
    SpaceToHead(gap, Write(t, rest));
    match t
    case Atom(token) => TokenEnds(token, rest);
    case Text(raw) => StringReads(raw, rest, decode);
    case EmptyArray(_) => ArrayVerdict(t, rest, depth, decode);
    case Array(_) => ArrayVerdict(t, rest, depth, decode);
    case EmptyObject(_) => ObjectVerdict(t, rest, depth, decode);
    case Object(_) => ObjectVerdict(t, rest, depth, decode);
  }

  lemma {:induction false} ArrayVerdict(t: Tree, rest: bytes, depth: nat, decode: Decoder)
    requires (t.EmptyArray? || t.Array?) && Written(t, decode) && depth <= MAX_GUARD_DEPTH
    ensures Verdict(ArrayAt(Write(t, rest), depth + 1, decode), Bounded(t, depth, decode), rest)
    decreases t, 0
  {
    hide ElementsAt, ElementsBounded;
    var u := Write(t, rest);
    var tail := [CLOSE_ARRAY] + rest;
    assert tail[1..] == rest;
    match t
    case EmptyArray(gap) =>
      assert u[1..] == gap + tail;
      SpaceToHead(gap, tail);
    case Array(es) =>
      assert u[1..] == WriteElements(es, tail);
      var first := es.after + if es.LastElement? then tail else [COMMA] + WriteElements(es.rest, tail);
      WriteHead(es.value, first, decode);
      SpaceToHead(es.before, Write(es.value, first));
      ElementsVerdict(es, rest, depth + 1, 0, decode);
  }

  /** One turn of the array loop, after the verdict on its element. */
  lemma ElementTurn(before: bytes, value: Tree, after: bytes, tail: bytes, depth: nat, count: nat, decode: Decoder)
    requires Spaces(after) && Written(value, decode)
    requires StartsWith(tail, CLOSE_ARRAY) || StartsWith(tail, COMMA)
    requires Verdict(ValueAt(before + Write(value, after + tail), depth, decode), Bounded(value, depth, decode),
                     after + tail)
    ensures var r := ElementsAt(before + Write(value, after + tail), depth, count, decode);
            if count + 1 > MAX_ARRAY || !Bounded(value, depth, decode) then r.Refused?
            else r == if StartsWith(tail, CLOSE_ARRAY) then Read((), tail[1..])
                      else ElementsAt(tail[1..], depth, count + 1, decode)
  {
    hide ValueAt, Bounded, Written, Write;
    SpaceToHead(after, tail);
  }

  lemma {:induction false} ElementsVerdict(es: Elements, rest: bytes, depth: nat, count: nat, decode: Decoder)
    requires ElementsWritten(es, decode)
    ensures Verdict(ElementsAt(WriteElements(es, [CLOSE_ARRAY] + rest), depth, count, decode),
                    ElementsBounded(es, depth, decode) && count + Count(es) <= MAX_ARRAY, rest)
    decreases es, 1
  {
    hide ElementsAt, ValueAt, Bounded, Written, Write;
    var next := if es.LastElement? then rest else WriteElements(es.rest, [CLOSE_ARRAY] + rest);
    var tail := [if es.LastElement? then CLOSE_ARRAY else COMMA] + next;
    assert tail[1..] == next;
    ValueVerdict(es.before, es.value, es.after + tail, depth, decode);
    ElementTurn(es.before, es.value, es.after, tail, depth, count, decode);
    if es.MoreElements? {
      ElementsVerdict(es.rest, rest, depth, count + 1, decode);
    }
  }

  lemma {:induction false} ObjectVerdict(t: Tree, rest: bytes, depth: nat, decode: Decoder)
    requires (t.EmptyObject? || t.Object?) && Written(t, decode) && depth <= MAX_GUARD_DEPTH
    ensures Verdict(ObjectAt(Write(t, rest), depth + 1, decode), Bounded(t, depth, decode), rest)
    decreases t, 0
  {
    hide MembersAt, MembersBounded;
    var u := Write(t, rest);
    var tail := [CLOSE_OBJECT] + rest;
    assert tail[1..] == rest;
    match t
    case EmptyObject(gap) =>
      assert u[1..] == gap + tail;
      SpaceToHead(gap, tail);
    case Object(ms) =>
      assert u[1..] == WriteMembers(ms, tail);
      var after := ms.colonGap + ([COLON] + (ms.valueGap + Write(ms.value, ms.after + AfterMember(ms, tail))));
      SpaceToHead(ms.before, Quoted(ms.key, after));
      MembersVerdict(ms, rest, depth + 1, {}, decode);
      FreshKeys(KeysOf(ms, decode), {});
  }

  /** One turn of the object loop, after the verdict on its value. */
  lemma MemberTurn(ms: Members, tail: bytes, depth: nat, keys: set<bytes>, decode: Decoder)
    requires MembersWritten(ms, decode)
    requires StartsWith(tail, CLOSE_OBJECT) || StartsWith(tail, COMMA)
    requires Verdict(ValueAt(ms.valueGap + Write(ms.value, ms.after + tail), depth, decode),
                     Bounded(ms.value, depth, decode), ms.after + tail)
    ensures var s := ms.before + Quoted(ms.key, ms.colonGap + ([COLON] + (ms.valueGap + Write(ms.value, ms.after + tail))));
            var key := Key(ms.key, decode);
            var r := MembersAt(s, depth, keys, decode);
            if key in keys || !Bounded(ms.value, depth, decode) then r.Refused?
            else r == if StartsWith(tail, CLOSE_OBJECT) then Read((), tail[1..])
                      else MembersAt(tail[1..], depth, keys + {key}, decode)
  {
    hide ValueAt, Bounded, Written, Write, StringAt, Unquoted;
    var u := ms.valueGap + Write(ms.value, ms.after + tail);
    var colon := [COLON] + u;
    SpaceToHead(ms.before, Quoted(ms.key, ms.colonGap + colon));
    StringReads(ms.key, ms.colonGap + colon, decode);
    SpaceToHead(ms.colonGap, colon);
    assert colon[1..] == u;
    SpaceToHead(ms.after, tail);
  }

  lemma {:induction false} MembersVerdict(ms: Members, rest: bytes, depth: nat, keys: set<bytes>, decode: Decoder)
    requires MembersWritten(ms, decode)
    ensures Verdict(MembersAt(WriteMembers(ms, [CLOSE_OBJECT] + rest), depth, keys, decode),
                    MembersBounded(ms, depth, decode) && Fresh(KeysOf(ms, decode), keys), rest)
    decreases ms, 1
  {
    hide MembersAt, ValueAt, Bounded, Written, Write, Decodes;
    var tail := AfterMember(ms, [CLOSE_OBJECT] + rest);
    ValueVerdict(ms.valueGap, ms.value, ms.after + tail, depth, decode);
    MemberTurn(ms, tail, depth, keys, decode);
    assert KeysOf(ms, decode)[1..] == if ms.MoreMembers? then KeysOf(ms.rest, decode) else [];
    if ms.MoreMembers? {
      assert tail[1..] == WriteMembers(ms.rest, [CLOSE_OBJECT] + rest);
      MembersVerdict(ms.rest, rest, depth, keys + {Key(ms.key, decode)}, decode);
    } else {
      assert tail[1..] == rest;
    }
  }

  // ---- Every accepted text is a tree ----

  lemma {:induction false} ValueSplit(s: bytes, depth: nat, decode: Decoder) returns (gap: bytes, t: Tree)
    requires ValueAt(s, depth, decode).Read?
    ensures Spaces(gap) && Written(t, decode) && s == gap + Write(t, ValueAt(s, depth, decode).rest)
    decreases |s|, 1
  {
    gap := SpaceSplit(s);
    var u := Space(s);
    if u[0] == QUOTE {
      var raw := StringSplit(u, decode);
      t := Text(raw);
    } else if u[0] == OPEN_ARRAY {
      t := ArraySplit(u, depth + 1, decode);
    } else if u[0] == OPEN_OBJECT {
      t := ObjectSplit(u, depth + 1, decode);
    } else {
      var token := TokenSplit(u);
      assert token[0] == u[0];
      t := Atom(token);
    }
  }

  lemma {:induction false} ArraySplit(s: bytes, depth: nat, decode: Decoder) returns (t: Tree)
    requires StartsWith(s, OPEN_ARRAY) && ArrayAt(s, depth, decode).Read?
    ensures Written(t, decode) && s == Write(t, ArrayAt(s, depth, decode).rest)
    decreases |s|, 0
  {
    hide ElementsAt;
    HeadTail(s, OPEN_ARRAY);
    var u := Space(s[1..]);
    if StartsWith(u, CLOSE_ARRAY) {
      HeadTail(u, CLOSE_ARRAY);
      var gap := SpaceSplit(s[1..]);
      t := EmptyArray(gap);
    } else {
      var es := ElementsSplit(s[1..], depth, 0, decode, ElementsAt(s[1..], depth, 0, decode).rest);
      t := Array(es);
    }
  }

  lemma {:induction false} ElementsSplit(s: bytes, depth: nat, count: nat, decode: Decoder, rest: bytes)
    returns (es: Elements)
    requires ElementsAt(s, depth, count, decode).Read? && ElementsAt(s, depth, count, decode).rest == rest
    ensures ElementsWritten(es, decode) && s == WriteElements(es, [CLOSE_ARRAY] + rest)
    decreases |s|, 2
  {
    hide ValueAt, Space, Write, Written;
    var before, value := ValueSplit(s, depth, decode);
    var after := ValueAt(s, depth, decode).rest;
    var gap := SpaceSplit(after);
    var t := Space(after);
    if StartsWith(t, CLOSE_ARRAY) {
      HeadTail(t, CLOSE_ARRAY);
      es := LastElement(before, value, gap);
    } else {
      HeadTail(t, COMMA);
      var more := ElementsSplit(t[1..], depth, count + 1, decode, rest);
      es := MoreElements(before, value, gap, more);
    }
  }

  lemma {:induction false} ObjectSplit(s: bytes, depth: nat, decode: Decoder) returns (t: Tree)
    requires StartsWith(s, OPEN_OBJECT) && ObjectAt(s, depth, decode).Read?
    ensures Written(t, decode) && s == Write(t, ObjectAt(s, depth, decode).rest)
    decreases |s|, 0
  {
    hide MembersAt;
    HeadTail(s, OPEN_OBJECT);
    var u := Space(s[1..]);
    if StartsWith(u, CLOSE_OBJECT) {
      HeadTail(u, CLOSE_OBJECT);
      var gap := SpaceSplit(s[1..]);
      t := EmptyObject(gap);
    } else {
      var ms := MembersSplit(s[1..], depth, {}, decode, MembersAt(s[1..], depth, {}, decode).rest);
      t := Object(ms);
    }
  }

  /** One member read from `s`, in front of whatever stands after it. */
  lemma {:induction false} MemberSplit(s: bytes, depth: nat, keys: set<bytes>, decode: Decoder) returns (one: Members)
    requires MemberAt(s, depth, keys, decode).Read?
    ensures one.LastMember? && MembersWritten(one, decode)
    ensures s == WriteMembers(one, Space(MemberAt(s, depth, keys, decode).rest))
    decreases |s|, 2
  {
    hide ValueAt, Space, Write, Written, StringAt, Decodes;
    var before := SpaceSplit(s);
    var u := Space(s);
    var key := StringSplit(u, decode);
    var afterKey := StringAt(u, decode).rest;
    var colonGap := SpaceSplit(afterKey);
    var colon := Space(afterKey);
    HeadTail(colon, COLON);
    var valueGap, value := ValueSplit(colon[1..], depth, decode);
    var after := SpaceSplit(MemberAt(s, depth, keys, decode).rest);
    one := LastMember(before, key, colonGap, valueGap, value, after);
  }

  lemma {:induction false} MembersSplit(s: bytes, depth: nat, keys: set<bytes>, decode: Decoder, rest: bytes)
    returns (ms: Members)
    requires MembersAt(s, depth, keys, decode).Read? && MembersAt(s, depth, keys, decode).rest == rest
    ensures MembersWritten(ms, decode) && s == WriteMembers(ms, [CLOSE_OBJECT] + rest)
    decreases |s|, 3
  {
    hide MemberAt, Space, Write, Written, Decodes;
    var one := MemberSplit(s, depth, keys, decode);
    var member := MemberAt(s, depth, keys, decode);
    var t := Space(member.rest);
    if StartsWith(t, CLOSE_OBJECT) {
      HeadTail(t, CLOSE_OBJECT);
      ms := one;
    } else {
      HeadTail(t, COMMA);
      var more := MembersSplit(t[1..], depth, member.value, decode, rest);
      ms := MoreMembers(one.before, one.key, one.colonGap, one.valueGap, one.value, one.after, more);
    }
  }

  // ---- The whole text ----

  /** On any tree whose strings decode, the verdict is whether it keeps the bounds. */
  lemma ScanVerdict(body: bytes, lead: bytes, t: Tree, trail: bytes, decode: Decoder)
    requires IsBody(body, lead, t, trail, decode)
    ensures Scan(body, decode).Ok? <==> Bounded(t, 0, decode)
  {
    hide Bounded, ValueAt;
    ValueVerdict(lead, t, trail, 0, decode);
    SpaceToHead(trail, []);
    assert trail + [] == trail;
  }

  /** Whatever passes is such a tree. */
  lemma ScanSplit(body: bytes, decode: Decoder) returns (lead: bytes, t: Tree, trail: bytes)
    requires Scan(body, decode).Ok?
    ensures IsBody(body, lead, t, trail, decode) && Bounded(t, 0, decode)
  {
    lead, t := ValueSplit(body, 0, decode);
    trail := SpaceSplit(ValueAt(body, 0, decode).rest);
    assert trail == ValueAt(body, 0, decode).rest;
    ScanVerdict(body, lead, t, trail, decode);
  }

  /** Acceptance, for every byte string: it is a tree within the bounds. */
  lemma ScanExactly(body: bytes, decode: Decoder)
    ensures Scan(body, decode).Ok? <==> Fits(body, decode)
  {
    if Scan(body, decode).Ok? {
      var lead, t, trail := ScanSplit(body, decode);
    }
    if Fits(body, decode) {
      var lead, t, trail :| IsBody(body, lead, t, trail, decode) && Bounded(t, 0, decode);
      ScanVerdict(body, lead, t, trail, decode);
    }
  }
}
