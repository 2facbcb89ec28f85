/**
 The parser accepts exactly the documents of the dialect and returns what they mean. Completeness
 follows a layout tree down; soundness rebuilds a layout tree from a successful scan.
 */
module JsonExact {
  import opened Bytes
  import opened Utf8
  import opened JsonLayout
  import opened JsonDialect
  import opened JsonScan

  /** What may follow a token: the end, a blank, or a closing or separating mark. */
  predicate Ends(s: bytes) {
    s == [] || IsBlank(s[0]) || s[0] == COMMA || s[0] == CLOSE_ARRAY || s[0] == CLOSE_OBJECT
  }

  lemma {:induction false} SkipGap(gap: bytes, s: bytes)
    requires Gap(gap)
    ensures Skip(gap + s) == Skip(s)
  {
    if gap == [] {
      assert gap + s == s;
    } else {
      assert (gap + s)[1..] == gap[1..] + s;
      SkipGap(gap[1..], s);
    }
  }

  lemma {:induction false} SkipSplit(s: bytes) returns (gap: bytes)
    ensures Gap(gap) && s == gap + Skip(s)
  {
    if s != [] && IsBlank(s[0]) {
      var rest := SkipSplit(s[1..]);
      gap := [s[0]] + rest;
    } else {
      gap := [];
    }
  }

  // ---- Strings ----

  /** An escape depends on the bytes it spans and on nothing after them. */
  lemma EscapeLocal(s: bytes, tail: bytes)
    requires EscapeAt(s).Some?
    ensures EscapeAt(s[..EscapeAt(s).value.width] + tail) == EscapeAt(s)
  {
    var w := EscapeAt(s).value.width;
    var t := s[..w] + tail;
    if s[0] == 'u' as byte {
      assert t[1..][..4] == s[1..][..4];
      assert forall k :: 0 <= k < 4 ==> t[1..][k] == s[1..][k];
    }
  }

  lemma BodyEscape(raw: bytes, tail: bytes, acc: bytes, items: nat)
    requires StartsWith(raw, ESCAPE) && EscapeAt(raw[1..]).Some?
    ensures var e := EscapeAt(raw[1..]).value;
            Body(raw + tail, acc, items) == Body(raw[1 + e.width..] + tail, acc + e.text, items)
  {
    var s := raw + tail;
    var e := EscapeAt(raw[1..]).value;
    EscapeLocal(raw[1..], raw[1 + e.width..] + tail);
    assert s[1..] == raw[1..][..e.width] + (raw[1 + e.width..] + tail);
    assert s[1 + e.width..] == raw[1 + e.width..] + tail;
  }

  lemma BodyPlain(raw: bytes, tail: bytes, acc: bytes, items: nat)
    requires raw != [] && raw[0] != ESCAPE && raw[0] != QUOTE && raw[0] >= 0x20
    ensures Body(raw + tail, acc, items) == Body(raw[1..] + tail, acc + [raw[0]], items)
  {
    assert (raw + tail)[1..] == raw[1..] + tail;
  }

  lemma BodyEnd(rest: bytes, acc: bytes, items: nat)
    requires ValidUtf8(acc)
    ensures Body([QUOTE] + rest, acc, items) == Done(acc, rest, items)
  {}

  lemma {:induction false} BodyComplete(raw: bytes, rest: bytes, acc: bytes, items: nat)
    requires DecodeBody(raw).Some? && ValidUtf8(acc + DecodeBody(raw).value)
    ensures Body(raw + ([QUOTE] + rest), acc, items) == Done(acc + DecodeBody(raw).value, rest, items)
    decreases |raw|
  {
    hide Body, EscapeAt, ValidUtf8;
    var tail := [QUOTE] + rest;
    if raw == [] {
      assert raw + tail == tail && acc + [] == acc;
      BodyEnd(rest, acc, items);
    } else if raw[0] == ESCAPE {
      var e := EscapeAt(raw[1..]).value;
      var more := raw[1 + e.width..];
      BodyEscape(raw, tail, acc, items);
      Assoc(acc, e.text, DecodeBody(more).value);
      BodyComplete(more, rest, acc + e.text, items);
    } else {
      BodyPlain(raw, tail, acc, items);
      Assoc(acc, [raw[0]], DecodeBody(raw[1..]).value);
      BodyComplete(raw[1..], rest, acc + [raw[0]], items);
    }
  }

  /** Writing an escape in front of a body puts its text in front of what the body decodes to. */
  lemma DecodeEscape(written: bytes, body: bytes)
    requires EscapeAt(written).Some? && EscapeAt(written).value.width == |written|
    ensures DecodeBody([ESCAPE] + written + body) == Prepend(EscapeAt(written).value.text, DecodeBody(body))
  {
    var raw := [ESCAPE] + written + body;
    EscapeLocal(written, body);
    assert written[..|written|] == written;
    assert raw[1..] == written + body;
    assert raw[1 + |written|..] == body;
  }

  lemma DecodePlain(b: byte, body: bytes)
    requires b != ESCAPE && b != QUOTE && b >= 0x20
    ensures DecodeBody([b] + body) == Prepend([b], DecodeBody(body))
  {
    assert ([b] + body)[1..] == body;
  }

  lemma {:induction false} BodySound(s: bytes, acc: bytes, items: nat) returns (raw: bytes)
    requires Body(s, acc, items).Done?
    ensures s == raw + ([QUOTE] + Body(s, acc, items).rest)
    ensures DecodeBody(raw).Some? && Body(s, acc, items).value == acc + DecodeBody(raw).value
    ensures ValidUtf8(Body(s, acc, items).value)
    decreases |s|
  {
    hide DecodeBody, EscapeAt, ValidUtf8;
    if s[0] == QUOTE {
      raw := [];
      NothingDecoded();
      assert acc + [] == acc && s == [QUOTE] + s[1..];
      assert raw + ([QUOTE] + s[1..]) == [QUOTE] + s[1..];
    } else {
      var width := if s[0] == ESCAPE then EscapeAt(s[1..]).value.width else 0;
      var text := if s[0] == ESCAPE then EscapeAt(s[1..]).value.text else [s[0]];
      var more := BodySound(s[1 + width..], acc + text, items);
      raw := s[..1 + width] + more;
      BodyHead(s, more);
      Assoc(acc, text, DecodeBody(more).value);
      assert s == s[..1 + width] + s[1 + width..];
      Assoc(s[..1 + width], more, [QUOTE] + Body(s, acc, items).rest);
    }
  }

  lemma NothingDecoded()
    ensures DecodeBody([]) == Some([])
  {}

  /** Decoding reads one escape or one plain byte, then the rest. */
  lemma BodyHead(s: bytes, more: bytes)
    requires s != [] && s[0] != QUOTE && (if s[0] == ESCAPE then EscapeAt(s[1..]).Some? else s[0] >= 0x20)
    ensures var width := if s[0] == ESCAPE then EscapeAt(s[1..]).value.width else 0;
            var text := if s[0] == ESCAPE then EscapeAt(s[1..]).value.text else [s[0]];
            DecodeBody(s[..1 + width] + more) == Prepend(text, DecodeBody(more))
  {
    if s[0] == ESCAPE {
      var width := EscapeAt(s[1..]).value.width;
      var written := s[1..1 + width];
      EscapeLocal(s[1..], []);
      assert s[1..][..width] + [] == written;
      DecodeEscape(written, more);
      assert s[..1 + width] == [ESCAPE] + written;
    } else {
      DecodePlain(s[0], more);
      assert s[..1] == [s[0]];
    }
  }

  lemma StringComplete(raw: bytes, rest: bytes, items: nat)
    requires IsText(raw)
    ensures StringAt(Quoted(raw, rest), items) == Done(DecodeBody(raw).value, rest, items)
  {
    assert Quoted(raw, rest)[1..] == raw + ([QUOTE] + rest);
    assert [] + DecodeBody(raw).value == DecodeBody(raw).value;
    BodyComplete(raw, rest, [], items);
  }

  lemma StringSound(s: bytes, items: nat) returns (raw: bytes)
    requires StringAt(s, items).Done?
    ensures IsText(raw) && s == Quoted(raw, StringAt(s, items).rest)
    ensures StringAt(s, items).value == DecodeBody(raw).value
  {
    raw := BodySound(s[1..], [], items);
    assert [] + DecodeBody(raw).value == DecodeBody(raw).value;
    assert s == [QUOTE] + s[1..];
  }

  // ---- Numbers ----

  lemma {:induction false} DigitRunExact(token: bytes, rest: bytes)
    requires Digits(token) && (rest == [] || !IsDigit(rest[0]))
    ensures DigitRun(token + rest) == |token|
  {
    if token == [] {
      assert token + rest == rest;
    } else {
      assert (token + rest)[1..] == token[1..] + rest;
      DigitRunExact(token[1..], rest);
    }
  }

  lemma NumberComplete(token: bytes, rest: bytes, items: nat)
    requires IsNumber(token) && Ends(rest)
    ensures NumberAt(token + rest, items) == Done(Number(NumberOf(token)), rest, items)
  {
    DigitRunExact(token, rest);
    assert (token + rest)[..|token|] == token && (token + rest)[|token|..] == rest;
  }

  // ---- Completeness ----

  lemma WriteHead(t: Tree, tail: bytes)
    requires InDialect(t)
    ensures Write(t, tail) != [] && !IsBlank(Write(t, tail)[0])
    ensures Write(t, tail)[0] != CLOSE_ARRAY && Write(t, tail)[0] != CLOSE_OBJECT
  {}

  lemma SkipToHead(gap: bytes, s: bytes)
    requires Gap(gap) && s != [] && !IsBlank(s[0])
    ensures Skip(gap + s) == s
  {
    SkipGap(gap, s);
  }

  lemma {:induction false} ValueComplete(gap: bytes, t: Tree, rest: bytes, depth: nat, items: nat)
    requires Gap(gap) && InDialect(t) && Ends(rest)
    requires depth + Depth(t) <= MAX_DEPTH && items + Items(t) <= MAX_ITEMS
    ensures ValueAt(gap + Write(t, rest), depth, items) == Done(Meaning(t), rest, items + Items(t))
    decreases t, 1
  {
    hide ArrayAt, ObjectAt;
    var u := Write(t, rest);
    WriteHead(t, rest);
    SkipToHead(gap, u);
    match t
    case Atom(token) =>
      if IsNumber(token) {
        NumberComplete(token, rest, items);
      }
    case Text(raw) =>
      StringComplete(raw, rest, items);
    case EmptyArray(_) =>
      ArrayComplete(t, rest, depth, items);
    case Array(_) =>
      ArrayComplete(t, rest, depth, items);
    case EmptyObject(_) =>
      ObjectComplete(t, rest, depth, items);
    case Object(_) =>
      ObjectComplete(t, rest, depth, items);
  }

  lemma {:induction false} ArrayComplete(t: Tree, rest: bytes, depth: nat, items: nat)
    requires (t.EmptyArray? || t.Array?) && InDialect(t)
    requires depth + Depth(t) <= MAX_DEPTH && items + Items(t) <= MAX_ITEMS
    ensures ArrayAt(Write(t, rest), depth, items) == Done(Meaning(t), rest, items + Items(t))
    decreases t, 0
  {
    hide ElementsAt;
    var u := Write(t, rest);
    var tail := [CLOSE_ARRAY] + rest;
    assert tail[1..] == rest;
    match t
    case EmptyArray(blank) =>
      assert u[1..] == blank + tail;
      SkipToHead(blank, tail);
    case Array(es) =>
      assert u[1..] == WriteElements(es, tail);
      ElementsHead(es, tail);
      ElementsComplete(es, rest, depth + 1, items, []);
      assert [] + ValuesOf(es) == ValuesOf(es);
  }

  lemma {:induction false} ObjectComplete(t: Tree, rest: bytes, depth: nat, items: nat)
    requires (t.EmptyObject? || t.Object?) && InDialect(t)
    requires depth + Depth(t) <= MAX_DEPTH && items + Items(t) <= MAX_ITEMS
    ensures ObjectAt(Write(t, rest), depth, items) == Done(Meaning(t), rest, items + Items(t))
    decreases t, 0
  {
    hide MembersAt;
    var u := Write(t, rest);
    var tail := [CLOSE_OBJECT] + rest;
    assert tail[1..] == rest;
    match t
    case EmptyObject(blank) =>
      assert u[1..] == blank + tail;
      SkipToHead(blank, tail);
    case Object(ms) =>
      assert u[1..] == WriteMembers(ms, tail);
      MembersHead(ms, tail);
      assert [] + FieldsOf(ms) == FieldsOf(ms);
      MembersComplete(ms, rest, depth + 1, items, []);
  }

  lemma ElementsHead(es: Elements, tail: bytes)
    requires ElementsInDialect(es)
    ensures !StartsWith(Skip(WriteElements(es, tail)), CLOSE_ARRAY)
  {
    var after := es.after + if es.LastElement? then tail else [COMMA] + WriteElements(es.rest, tail);
    WriteHead(es.value, after);
    SkipToHead(es.before, Write(es.value, after));
  }

  lemma MembersHead(ms: Members, tail: bytes)
    requires MembersInDialect(ms)
    ensures !StartsWith(Skip(WriteMembers(ms, tail)), CLOSE_OBJECT)
  {
    var after := ms.colonGap + ([COLON] + (ms.valueGap + Write(ms.value, ms.after + AfterMember(ms, tail))));
    SkipToHead(ms.before, Quoted(ms.key, after));
  }

  /** One turn of the array loop: a value between blanks, then a closing or separating mark. */
  lemma ElementStep(before: bytes, u: bytes, after: bytes, tail: bytes, value: Value, depth: nat, items: nat, n: nat,
                    acc: seq<Value>)
    requires Gap(before) && Gap(after) && items + 1 <= MAX_ITEMS
    requires u != [] && !IsBlank(u[0])
    requires StartsWith(tail, CLOSE_ARRAY) || StartsWith(tail, COMMA)
    requires ValueAt(u, depth, items + 1) == Done(value, after + tail, n)
    ensures ElementsAt(before + u, depth, items, acc)
            == if StartsWith(tail, CLOSE_ARRAY) then Done(List(acc + [value]), tail[1..], n)
               else ElementsAt(tail[1..], depth, n, acc + [value])
  {
    SkipToHead(before, u);
    SkipToHead(after, tail);
  }

  lemma {:induction false} ElementsComplete(es: Elements, rest: bytes, depth: nat, items: nat, acc: seq<Value>)
    requires ElementsInDialect(es)
    requires depth + ElementsDepth(es) <= MAX_DEPTH && items + ElementsItems(es) <= MAX_ITEMS
    ensures ElementsAt(WriteElements(es, [CLOSE_ARRAY] + rest), depth, items, acc)
            == Done(List(acc + ValuesOf(es)), rest, items + ElementsItems(es))
    decreases es, 1
  {
    hide ElementsAt, ValueAt;
    var next := if es.LastElement? then rest else WriteElements(es.rest, [CLOSE_ARRAY] + rest);
    var tail := [if es.LastElement? then CLOSE_ARRAY else COMMA] + next;
    var u := Write(es.value, es.after + tail);
    var value := Meaning(es.value);
    var n := items + 1 + Items(es.value);
    assert tail[1..] == next;
    WriteHead(es.value, es.after + tail);
    ValueComplete([], es.value, es.after + tail, depth, items + 1);
    assert [] + u == u;
    ElementStep(es.before, u, es.after, tail, value, depth, items, n, acc);
    if es.MoreElements? {
      ElementsComplete(es.rest, rest, depth, n, acc + [value]);
      assert acc + [value] + ValuesOf(es.rest) == acc + ValuesOf(es);
    } else {
      assert ValuesOf(es) == [value];
    }
  }

  lemma MemberStep(before: bytes, key: bytes, colonGap: bytes, u: bytes, after: bytes, tail: bytes, value: Value,
                   depth: nat, items: nat, n: nat, acc: seq<Field>)
    requires Gap(before) && Gap(colonGap) && Gap(after) && items + 1 <= MAX_ITEMS && IsText(key)
    requires !HasKey(acc, DecodeBody(key).value)
    requires StartsWith(tail, CLOSE_OBJECT) || StartsWith(tail, COMMA)
    requires ValueAt(u, depth, items + 1) == Done(value, after + tail, n)
    ensures var field := Field(DecodeBody(key).value, value);
            MembersAt(before + Quoted(key, colonGap + ([COLON] + u)), depth, items, acc)
            == if StartsWith(tail, CLOSE_OBJECT) then Done(Record(acc + [field]), tail[1..], n)
               else MembersAt(tail[1..], depth, n, acc + [field])
  {
    var colon := [COLON] + u;
    SkipToHead(before, Quoted(key, colonGap + colon));
    StringComplete(key, colonGap + colon, items + 1);
    SkipToHead(colonGap, colon);
    assert colon[1..] == u;
    SkipToHead(after, tail);
  }

  lemma {:induction false} MembersComplete(ms: Members, rest: bytes, depth: nat, items: nat, acc: seq<Field>)
    requires MembersInDialect(ms) && UniqueKeys(acc + FieldsOf(ms))
    requires depth + MembersDepth(ms) <= MAX_DEPTH && items + MembersItems(ms) <= MAX_ITEMS
    ensures MembersAt(WriteMembers(ms, [CLOSE_OBJECT] + rest), depth, items, acc)
            == Done(Record(acc + FieldsOf(ms)), rest, items + MembersItems(ms))
    decreases ms, 1
  {
    hide MembersAt, ValueAt, Meaning, InDialect, Write, DecodeBody, UniqueKeys, HasKey, Quoted;
    var tail := AfterMember(ms, [CLOSE_OBJECT] + rest);
    var u := ms.valueGap + Write(ms.value, ms.after + tail);
    var field := Field(DecodeBody(ms.key).value, Meaning(ms.value));
    var n := items + 1 + Items(ms.value);
    ValueComplete(ms.valueGap, ms.value, ms.after + tail, depth, items + 1);
    var more := if ms.MoreMembers? then FieldsOf(ms.rest) else [];
    assert FieldsOf(ms) == [field] + more;
    NewKey(acc, field, more);
    MemberStep(ms.before, ms.key, ms.colonGap, u, ms.after, tail, field.value, depth, items, n, acc);
    if ms.MoreMembers? {
      assert tail[1..] == WriteMembers(ms.rest, [CLOSE_OBJECT] + rest);
      Assoc(acc, [field], FieldsOf(ms.rest));
      MembersComplete(ms.rest, rest, depth, n, acc + [field]);
    } else {
      assert tail[1..] == rest;
      assert FieldsOf(ms) == [field];
    }
  }

  lemma NewKey(acc: seq<Field>, field: Field, more: seq<Field>)
    requires UniqueKeys(acc + ([field] + more))
    ensures !HasKey(acc, field.key)
  {
    var all := acc + ([field] + more);
    assert all[|acc|] == field;
    forall k | 0 <= k < |acc| ensures acc[k].key != field.key {
      assert all[k] == acc[k];
    }
  }

  // ---- Soundness ----

  lemma {:induction false} ValueSound(s: bytes, depth: nat, items: nat) returns (gap: bytes, t: Tree)
    requires depth <= MAX_DEPTH && items <= MAX_ITEMS && ValueAt(s, depth, items).Done?
    ensures Gap(gap) && InDialect(t)
    ensures depth + Depth(t) <= MAX_DEPTH && items + Items(t) <= MAX_ITEMS
    ensures ValueAt(s, depth, items) == Done(Meaning(t), ValueAt(s, depth, items).rest, items + Items(t))
    ensures s == gap + Write(t, ValueAt(s, depth, items).rest)
    decreases |s|, 1
  {
    hide StringAt, ArrayAt, ObjectAt, NumberAt, Literal, Skip;
    gap := SkipSplit(s);
    var u := Skip(s);
    if u[0] == QUOTE {
      var raw := StringSound(u, items);
      t := Text(raw);
    } else if u[0] == OPEN_ARRAY {
      t := ArraySound(u, depth, items);
    } else if u[0] == OPEN_OBJECT {
      t := ObjectSound(u, depth, items);
    } else if IsDigit(u[0]) {
      t := NumberSound(u, items);
    } else if u[0] == 'n' as byte {
      t := LiteralSound(u, NULL, Null, items);
    } else if u[0] == 't' as byte {
      t := LiteralSound(u, TRUE, Boolean(true), items);
    } else {
      t := LiteralSound(u, FALSE, Boolean(false), items);
    }
  }

  lemma NumberSound(u: bytes, items: nat) returns (t: Tree)
    requires u != [] && IsDigit(u[0]) && NumberAt(u, items).Done?
    ensures InDialect(t) && Depth(t) == Items(t) == 0
    ensures NumberAt(u, items) == Done(Meaning(t), NumberAt(u, items).rest, items) && u == Write(t, NumberAt(u, items).rest)
  {
    t := Atom(u[..DigitRun(u)]);
  }

  lemma LiteralSound(u: bytes, literal: bytes, value: Value, items: nat) returns (t: Tree)
    requires (literal, value) == (NULL, Null) || (literal, value) == (TRUE, Boolean(true))
             || (literal, value) == (FALSE, Boolean(false))
    requires Literal(u, literal, value, items).Done?
    ensures InDialect(t) && Depth(t) == Items(t) == 0
    ensures var r := Literal(u, literal, value, items); r == Done(Meaning(t), r.rest, items) && u == Write(t, r.rest)
  {
    t := Atom(literal);
  }

  lemma {:induction false} ArraySound(s: bytes, depth: nat, items: nat) returns (t: Tree)
    requires StartsWith(s, OPEN_ARRAY) && items <= MAX_ITEMS && ArrayAt(s, depth, items).Done?
    ensures InDialect(t) && depth + Depth(t) <= MAX_DEPTH && items + Items(t) <= MAX_ITEMS
    ensures ArrayAt(s, depth, items) == Done(Meaning(t), ArrayAt(s, depth, items).rest, items + Items(t))
    ensures s == Write(t, ArrayAt(s, depth, items).rest)
    decreases |s|, 0
  {
    var u := Skip(s[1..]);
    assert s == [OPEN_ARRAY] + s[1..];
    if StartsWith(u, CLOSE_ARRAY) {
      var gap := SkipSplit(s[1..]);
      t := EmptyArray(gap);
      assert u == [CLOSE_ARRAY] + u[1..];
    } else {
      var es := ElementsSound(s[1..], depth + 1, items, [], ElementsAt(s[1..], depth + 1, items, []));
      t := Array(es);
      assert [] + ValuesOf(es) == ValuesOf(es);
    }
  }

  /** A value can be read off `s`, up to a closing or separating mark. */
  predicate ReadsElement(s: bytes, depth: nat, items: nat) {
    ValueAt(s, depth, items).Done?
    && (StartsWith(AfterElement(s, depth, items), CLOSE_ARRAY) || StartsWith(AfterElement(s, depth, items), COMMA))
  }

  function AfterElement(s: bytes, depth: nat, items: nat): (t: bytes)
    requires ValueAt(s, depth, items).Done?
    ensures |t| < |s|
  {
    Skip(ValueAt(s, depth, items).rest)
  }

  /** One turn of the array loop. */
  lemma ElementRead(s: bytes, depth: nat, items: nat, acc: seq<Value>)
    requires ElementsAt(s, depth, items, acc).Done?
    ensures items + 1 <= MAX_ITEMS && ReadsElement(s, depth, items + 1)
    ensures var value := ValueAt(s, depth, items + 1);
            var t := AfterElement(s, depth, items + 1);
            ElementsAt(s, depth, items, acc)
            == if StartsWith(t, CLOSE_ARRAY) then Done(List(acc + [value.value]), t[1..], value.items)
               else ElementsAt(t[1..], depth, value.items, acc + [value.value])
  {}

  lemma {:induction false} ElementSound(s: bytes, depth: nat, items: nat) returns (one: Elements)
    requires depth <= MAX_DEPTH && items <= MAX_ITEMS && ReadsElement(s, depth, items)
    ensures one.LastElement? && ElementsInDialect(one)
    ensures depth + ElementsDepth(one) <= MAX_DEPTH && items + Items(one.value) <= MAX_ITEMS
    ensures s == WriteElements(one, AfterElement(s, depth, items))
    ensures ValuesOf(one) == [ValueAt(s, depth, items).value]
    ensures ValueAt(s, depth, items).items == items + Items(one.value)
    decreases |s|, 2
  {
    hide ValueAt, Skip;
    var before, value := ValueSound(s, depth, items);
    var after := SkipSplit(ValueAt(s, depth, items).rest);
    one := LastElement(before, value, after);
  }

  /** One element in front of more elements. */
  lemma MoreElementsParts(one: Elements, more: Elements, tail: bytes) returns (es: Elements)
    requires one.LastElement? && ElementsInDialect(one) && ElementsInDialect(more)
    ensures ElementsInDialect(es) && ValuesOf(es) == ValuesOf(one) + ValuesOf(more)
    ensures ElementsDepth(es) == Max(ElementsDepth(one), ElementsDepth(more))
    ensures ElementsItems(es) == ElementsItems(one) + ElementsItems(more)
    ensures WriteElements(es, tail) == WriteElements(one, [COMMA] + WriteElements(more, tail))
  {
    es := MoreElements(one.before, one.value, one.after, more);
  }

  lemma {:induction false} ElementsSound(s: bytes, depth: nat, items: nat, acc: seq<Value>, r: Outcome<Value>)
    returns (es: Elements)
    requires depth <= MAX_DEPTH && r.Done? && ElementsAt(s, depth, items, acc) == r
    ensures ElementsInDialect(es) && r.value == List(acc + ValuesOf(es))
    ensures depth + ElementsDepth(es) <= MAX_DEPTH && items + ElementsItems(es) <= MAX_ITEMS
    ensures r.items == items + ElementsItems(es)
    ensures s == WriteElements(es, [CLOSE_ARRAY] + r.rest)
    decreases |s|, 3
  {
    hide ElementsAt, ValueAt, Skip, AfterElement, WriteElements;
    ElementRead(s, depth, items, acc);
    var one := ElementSound(s, depth, items + 1);
    var t := AfterElement(s, depth, items + 1);
    if StartsWith(t, CLOSE_ARRAY) {
      HeadTail(t, CLOSE_ARRAY);
      es := one;
    } else {
      HeadTail(t, COMMA);
      var more := ElementsSound(t[1..], depth, items + ElementsItems(one), acc + ValuesOf(one), r);
      es := MoreElementsParts(one, more, [CLOSE_ARRAY] + r.rest);
      Assoc(acc, ValuesOf(one), ValuesOf(more));
    }
  }

  lemma {:induction false} ObjectSound(s: bytes, depth: nat, items: nat) returns (t: Tree)
    requires StartsWith(s, OPEN_OBJECT) && items <= MAX_ITEMS && ObjectAt(s, depth, items).Done?
    ensures InDialect(t) && depth + Depth(t) <= MAX_DEPTH && items + Items(t) <= MAX_ITEMS
    ensures ObjectAt(s, depth, items) == Done(Meaning(t), ObjectAt(s, depth, items).rest, items + Items(t))
    ensures s == Write(t, ObjectAt(s, depth, items).rest)
    decreases |s|, 0
  {
    var u := Skip(s[1..]);
    assert s == [OPEN_OBJECT] + s[1..];
    if StartsWith(u, CLOSE_OBJECT) {
      var gap := SkipSplit(s[1..]);
      t := EmptyObject(gap);
      assert u == [CLOSE_OBJECT] + u[1..];
    } else {
      var ms := MembersSound(s[1..], depth + 1, items, [], MembersAt(s[1..], depth + 1, items, []));
      assert [] + FieldsOf(ms) == FieldsOf(ms);
      t := Object(ms);
    }
  }

  /** A key, a colon and a value can be read off `s`, up to a closing or separating mark. */
  predicate ReadsMember(s: bytes, depth: nat, items: nat) {
    && StringAt(Skip(s), items).Done?
    && StartsWith(Skip(StringAt(Skip(s), items).rest), COLON)
    && MemberValue(s, depth, items).Done?
    && (StartsWith(AfterValue(s, depth, items), CLOSE_OBJECT) || StartsWith(AfterValue(s, depth, items), COMMA))
  }

  function MemberKey(s: bytes, items: nat): bytes
    requires StringAt(Skip(s), items).Done?
  {
    StringAt(Skip(s), items).value
  }

  function MemberValue(s: bytes, depth: nat, items: nat): Outcome<Value>
    requires StringAt(Skip(s), items).Done? && StartsWith(Skip(StringAt(Skip(s), items).rest), COLON)
  {
    ValueAt(Skip(StringAt(Skip(s), items).rest)[1..], depth, items)
  }

  function AfterValue(s: bytes, depth: nat, items: nat): (t: bytes)
    requires StringAt(Skip(s), items).Done? && StartsWith(Skip(StringAt(Skip(s), items).rest), COLON)
    requires MemberValue(s, depth, items).Done?
    ensures |t| < |s|
  {
    Skip(MemberValue(s, depth, items).rest)
  }

  /** One turn of the object loop. */
  lemma MemberRead(s: bytes, depth: nat, items: nat, acc: seq<Field>)
    requires MembersAt(s, depth, items, acc).Done?
    ensures items + 1 <= MAX_ITEMS && ReadsMember(s, depth, items + 1) && !HasKey(acc, MemberKey(s, items + 1))
    ensures var value := MemberValue(s, depth, items + 1);
            var t := AfterValue(s, depth, items + 1);
            var fields := acc + [Field(MemberKey(s, items + 1), value.value)];
            MembersAt(s, depth, items, acc)
            == if StartsWith(t, CLOSE_OBJECT) then Done(Record(fields), t[1..], value.items)
               else MembersAt(t[1..], depth, value.items, fields)
  {}

  lemma {:induction false} MemberSound(s: bytes, depth: nat, items: nat) returns (one: Members)
    requires depth <= MAX_DEPTH && items <= MAX_ITEMS && ReadsMember(s, depth, items)
    ensures one.LastMember? && MembersInDialect(one)
    ensures depth + MembersDepth(one) <= MAX_DEPTH && items + Items(one.value) <= MAX_ITEMS
    ensures s == WriteMembers(one, AfterValue(s, depth, items))
    ensures FieldsOf(one) == [Field(MemberKey(s, items), MemberValue(s, depth, items).value)]
    ensures MemberValue(s, depth, items).items == items + Items(one.value)
    decreases |s|, 2
  {
    hide ValueAt, StringAt, Skip;
    var before := SkipSplit(s);
    var key := StringSound(Skip(s), items);
    var afterKey := StringAt(Skip(s), items).rest;
    var colonGap := SkipSplit(afterKey);
    var colon := Skip(afterKey);
    HeadTail(colon, COLON);
    var valueGap, value := ValueSound(colon[1..], depth, items);
    var after := SkipSplit(MemberValue(s, depth, items).rest);
    one := LastMember(before, key, colonGap, valueGap, value, after);
  }

  /** One member in front of more members. */
  lemma MoreMembersParts(one: Members, more: Members, tail: bytes) returns (ms: Members)
    requires one.LastMember? && MembersInDialect(one) && MembersInDialect(more)
    ensures MembersInDialect(ms) && FieldsOf(ms) == FieldsOf(one) + FieldsOf(more)
    ensures MembersDepth(ms) == Max(MembersDepth(one), MembersDepth(more))
    ensures MembersItems(ms) == MembersItems(one) + MembersItems(more)
    ensures WriteMembers(ms, tail) == WriteMembers(one, [COMMA] + WriteMembers(more, tail))
  {
    ms := MoreMembers(one.before, one.key, one.colonGap, one.valueGap, one.value, one.after, more);
  }

  lemma UniqueSnoc(acc: seq<Field>, field: Field)
    requires UniqueKeys(acc) && !HasKey(acc, field.key)
    ensures UniqueKeys(acc + [field])
  {}

  lemma {:induction false} MembersSound(s: bytes, depth: nat, items: nat, acc: seq<Field>, r: Outcome<Value>)
    returns (ms: Members)
    requires depth <= MAX_DEPTH && UniqueKeys(acc) && r.Done? && MembersAt(s, depth, items, acc) == r
    ensures MembersInDialect(ms) && UniqueKeys(acc + FieldsOf(ms)) && r.value == Record(acc + FieldsOf(ms))
    ensures depth + MembersDepth(ms) <= MAX_DEPTH && items + MembersItems(ms) <= MAX_ITEMS
    ensures r.items == items + MembersItems(ms)
    ensures s == WriteMembers(ms, [CLOSE_OBJECT] + r.rest)
    decreases |s|, 3
  {
    hide MembersAt, ValueAt, StringAt, Skip, MemberValue, AfterValue, MemberKey, WriteMembers, UniqueKeys;
    MemberRead(s, depth, items, acc);
    var one := MemberSound(s, depth, items + 1);
    var t := AfterValue(s, depth, items + 1);
    var fields := acc + FieldsOf(one);
    UniqueSnoc(acc, FieldsOf(one)[0]);
    if StartsWith(t, CLOSE_OBJECT) {
      HeadTail(t, CLOSE_OBJECT);
      ms := one;
    } else {
      HeadTail(t, COMMA);
      var more := MembersSound(t[1..], depth, items + MembersItems(one), fields, r);
      ms := MoreMembersParts(one, more, [CLOSE_OBJECT] + r.rest);
      Assoc(acc, FieldsOf(one), FieldsOf(more));
    }
  }

  // ---- The whole text ----

  /** Every document of the dialect parses, to exactly what it means. */
  lemma DocumentParses(input: bytes, lead: bytes, t: Tree, trail: bytes)
    requires IsDocument(input, lead, t, trail)
    ensures Parsed(input) == Ok(Meaning(t))
  {
    ValueComplete(lead, t, trail, 0, 0);
    SkipGap(trail, []);
    assert trail + [] == trail;
  }

  /** Whatever parses is a document of the dialect. */
  lemma ParsedIsDocument(input: bytes) returns (lead: bytes, t: Tree, trail: bytes)
    requires Parsed(input).Ok?
    ensures IsDocument(input, lead, t, trail) && Parsed(input) == Ok(Meaning(t))
  {
    lead, t := ValueSound(input, 0, 0);
    var rest := ValueAt(input, 0, 0).rest;
    trail := SkipSplit(rest);
    assert trail == rest;
  }

  /** Acceptance is membership in the dialect, for every byte string. */
  lemma ParsedExactly(input: bytes)
    ensures Parsed(input).Ok? <==> exists lead, t, trail :: IsDocument(input, lead, t, trail)
    ensures forall lead, t, trail :: IsDocument(input, lead, t, trail) ==> Parsed(input) == Ok(Meaning(t))
  {
    if Parsed(input).Ok? {
      var lead, t, trail := ParsedIsDocument(input);
    }
    forall lead, t, trail | IsDocument(input, lead, t, trail) ensures Parsed(input) == Ok(Meaning(t)) {
      DocumentParses(input, lead, t, trail);
    }
  }
}
