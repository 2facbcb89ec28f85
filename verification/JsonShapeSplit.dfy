/**
 Every text that passes the shape scan is a JSON text: with tokens that are tokens wherever they stand,
 the scan accepts exactly the texts that are a tree within its bounds.
 */
module JsonShapeSplit {
  import opened Bytes
  import opened JsonLayout
  import opened JsonShape
  import opened JsonShapeExact
  import Dialect = JsonDialect
  import Exact = JsonExact
  import JsonScan

  /** Where the deserializer reads a string, it reads one to its closing quote, and so it does before anything else. */
  ghost predicate StringsStand(lexer: Lexer) {
    forall s :: StartsWith(s, QUOTE) && TokenAt(s, lexer.strings).Some?
                ==> var w := TokenAt(s, lexer.strings).value.width;
                    w >= 2 && s[w - 1] == QUOTE && ReadsString(s[1..w - 1], lexer)
  }

  /** Where it reads a scalar in front of what may follow one, it is a scalar's first byte, and read so before all of that. */
  ghost predicate ScalarsStand(lexer: Lexer) {
    forall s :: TokenAt(s, lexer.scalars).Some? && Exact.Ends(s[TokenAt(s, lexer.scalars).value.width..])
                ==> ScalarHead(s[0]) && ReadsScalar(s[..TokenAt(s, lexer.scalars).value.width], lexer)
  }

  ghost predicate TokensStand(lexer: Lexer) {
    StringsStand(lexer) && ScalarsStand(lexer)
  }

  // ---- Rebuilding the tree ----

  lemma StringSplit(s: bytes, lexer: Lexer) returns (raw: bytes)
    requires StringsStand(lexer) && StartsWith(s, QUOTE) && TokenAt(s, lexer.strings).Some?
    ensures ReadsString(raw, lexer) && TokenAt(s, lexer.strings).value.text == TextOf(raw, lexer)
    ensures s == Quoted(raw, s[TokenAt(s, lexer.strings).value.width..])
  {
    var w := TokenAt(s, lexer.strings).value.width;
    raw := s[1..w - 1];
    assert s == Quoted(raw, s[w..]);
  }

  lemma EntryEnds(s: bytes, close: byte)
    requires !EntryAt(s, close, false).Bad? && (close == CLOSE_ARRAY || close == CLOSE_OBJECT)
    ensures Exact.Ends(s)
  {}

  lemma {:induction false} ValueSplit(s: bytes, depth: nat, nodes: nat, lexer: Lexer) returns (gap: bytes, t: Tree)
    requires TokensStand(lexer) && ValueAt(s, depth, nodes, lexer).Went?
    requires Exact.Ends(ValueAt(s, depth, nodes, lexer).rest)
    ensures Dialect.Gap(gap) && Lexed(t, lexer) && s == gap + Write(t, ValueAt(s, depth, nodes, lexer).rest)
    decreases |s|, 1
  {
    hide TokensStand, ReadsScalar, ReadsString, ElementsAt, MembersAt;
    gap := Exact.SkipSplit(s);
    var u := JsonScan.Skip(s);
    if u[0] == OPEN_ARRAY {
      t := ArraySplit(u, depth, nodes + 1, lexer);
    } else if u[0] == OPEN_OBJECT {
      t := ObjectSplit(u, depth, nodes + 1, lexer);
    } else if u[0] == QUOTE {
      Standing(lexer);
      var raw := StringSplit(u, lexer);
      t := Text(raw);
    } else {
      t := ScalarSplit(u, lexer);
    }
  }

  lemma Standing(lexer: Lexer)
    requires TokensStand(lexer)
    ensures StringsStand(lexer)
  {}

  lemma ScalarSplit(u: bytes, lexer: Lexer) returns (t: Tree)
    requires TokensStand(lexer) && u != [] && TokenAt(u, lexer.scalars).Some?
    requires Exact.Ends(u[TokenAt(u, lexer.scalars).value.width..])
    ensures Lexed(t, lexer) && u == Write(t, u[TokenAt(u, lexer.scalars).value.width..])
  {
    hide ReadsScalar;
    t := Atom(u[..TokenAt(u, lexer.scalars).value.width]);
  }

  lemma {:induction false} ArraySplit(u: bytes, depth: nat, nodes: nat, lexer: Lexer) returns (t: Tree)
    requires TokensStand(lexer) && StartsWith(u, OPEN_ARRAY) && ElementsAt(u[1..], depth, nodes, true, lexer).Went?
    ensures Lexed(t, lexer) && u == Write(t, ElementsAt(u[1..], depth, nodes, true, lexer).rest)
    decreases |u|, 0
  {
    hide TokensStand, ElementsAt, ValueAt;
    HeadTail(u, OPEN_ARRAY);
    ElementsTurn(u[1..], depth, nodes, true, lexer);
    var gap := Exact.SkipSplit(u[1..]);
    var e := EntryAt(u[1..], CLOSE_ARRAY, true);
    if e.Closed? {
      HeadTail(JsonScan.Skip(u[1..]), CLOSE_ARRAY);
      t := EmptyArray(gap);
    } else {
      var es := ElementsSplit(gap, e.rest, depth, nodes, lexer, ElementsAt(u[1..], depth, nodes, true, lexer).rest);
      t := Array(es);
    }
  }

  /** The elements from `u` on, after the blanks `before`. */
  lemma {:induction false} ElementsSplit(before: bytes, u: bytes, depth: nat, nodes: nat, lexer: Lexer, rest: bytes)
    returns (es: Elements)
    requires TokensStand(lexer) && Dialect.Gap(before) && ValueAt(u, depth + 1, nodes, lexer).Went?
    requires var value := ValueAt(u, depth + 1, nodes, lexer);
             var more := ElementsAt(value.rest, depth, value.nodes, false, lexer);
             more.Went? && more.rest == rest
    ensures ElementsLexed(es, lexer) && before + u == WriteElements(es, [CLOSE_ARRAY] + rest)
    decreases |u|, 2
  {
    hide TokensStand, ElementsAt, ValueAt, Write, Lexed;
    var value := ValueAt(u, depth + 1, nodes, lexer);
    ElementsTurn(value.rest, depth, value.nodes, false, lexer);
    EntryEnds(value.rest, CLOSE_ARRAY);
    var inner, tree := ValueSplit(u, depth + 1, nodes, lexer);
    Assoc(before, inner, Write(tree, value.rest));
    var gap := Exact.SkipSplit(value.rest);
    var t := JsonScan.Skip(value.rest);
    var e := EntryAt(value.rest, CLOSE_ARRAY, false);
    if e.Closed? {
      HeadTail(t, CLOSE_ARRAY);
      es := LastElement(before + inner, tree, gap);
    } else {
      HeadTail(t, COMMA);
      var next := Exact.SkipSplit(t[1..]);
      var more := ElementsSplit(next, e.rest, depth, value.nodes, lexer, rest);
      es := MoreElements(before + inner, tree, gap, more);
    }
  }

  lemma {:induction false} ObjectSplit(u: bytes, depth: nat, nodes: nat, lexer: Lexer) returns (t: Tree)
    requires TokensStand(lexer) && StartsWith(u, OPEN_OBJECT) && MembersAt(u[1..], depth, nodes, {}, true, lexer).Went?
    ensures Lexed(t, lexer) && u == Write(t, MembersAt(u[1..], depth, nodes, {}, true, lexer).rest)
    decreases |u|, 0
  {
    hide TokensStand, MembersAt, ValueAt;
    HeadTail(u, OPEN_OBJECT);
    MembersTurn(u[1..], depth, nodes, {}, true, lexer);
    var gap := Exact.SkipSplit(u[1..]);
    var e := EntryAt(u[1..], CLOSE_OBJECT, true);
    if e.Closed? {
      HeadTail(JsonScan.Skip(u[1..]), CLOSE_OBJECT);
      t := EmptyObject(gap);
    } else {
      var ms := MembersSplit(gap, e.rest, depth, nodes, {}, lexer, MembersAt(u[1..], depth, nodes, {}, true, lexer).rest);
      t := Object(ms);
    }
  }

  /** The member at `u`, up to its value. */
  predicate MemberReads(u: bytes, depth: nat, nodes: nat, lexer: Lexer) {
    && StartsWith(u, QUOTE) && TokenAt(u, lexer.strings).Some?
    && StartsWith(AfterKey(u, lexer), COLON)
    && ValueAt(AfterKey(u, lexer)[1..], depth + 1, nodes, lexer).Went?
  }

  function AfterKey(u: bytes, lexer: Lexer): (colon: bytes)
    requires TokenAt(u, lexer.strings).Some?
    ensures |colon| < |u|
  {
    JsonScan.Skip(u[TokenAt(u, lexer.strings).value.width..])
  }

  /** One member read from `u`, after the blanks `before`. */
  lemma {:induction false} MemberSplit(before: bytes, u: bytes, depth: nat, nodes: nat, lexer: Lexer)
    returns (one: Members)
    requires TokensStand(lexer) && Dialect.Gap(before) && MemberReads(u, depth, nodes, lexer)
    requires var rest := ValueAt(AfterKey(u, lexer)[1..], depth + 1, nodes, lexer).rest;
             !EntryAt(rest, CLOSE_OBJECT, false).Bad?
    ensures one.LastMember? && MembersLexed(one, lexer)
    ensures before + u
            == WriteMembers(one, JsonScan.Skip(ValueAt(AfterKey(u, lexer)[1..], depth + 1, nodes, lexer).rest))
    decreases |u|, 2
  {
    hide TokensStand, ValueAt, Write, Lexed, ReadsString, TokenAt, EntryAt;
    var key := TokenAt(u, lexer.strings).value;
    Standing(lexer);
    var raw := StringSplit(u, lexer);
    var colonGap := Exact.SkipSplit(u[key.width..]);
    var colon := AfterKey(u, lexer);
    HeadTail(colon, COLON);
    var rest := ValueAt(colon[1..], depth + 1, nodes, lexer).rest;
    EntryEnds(rest, CLOSE_OBJECT);
    var valueGap, value := ValueSplit(colon[1..], depth + 1, nodes, lexer);
    var after := Exact.SkipSplit(rest);
    one := LastMember(before, raw, colonGap, valueGap, value, after);
  }

  lemma {:induction false} MembersSplit(before: bytes, u: bytes, depth: nat, nodes: nat, keys: set<bytes>, lexer: Lexer,
                                        rest: bytes)
    returns (ms: Members)
    requires TokensStand(lexer) && Dialect.Gap(before) && MemberReads(u, depth, nodes, lexer)
    requires var value := ValueAt(AfterKey(u, lexer)[1..], depth + 1, nodes, lexer);
             var known := keys + {TokenAt(u, lexer.strings).value.text};
             var more := MembersAt(value.rest, depth, value.nodes, known, false, lexer);
             more.Went? && more.rest == rest
    ensures MembersLexed(ms, lexer) && before + u == WriteMembers(ms, [CLOSE_OBJECT] + rest)
    decreases |u|, 3
  {
    hide TokensStand, MembersAt, ValueAt, Write, Lexed, ReadsString, TokenAt, AfterKey;
    var value := ValueAt(AfterKey(u, lexer)[1..], depth + 1, nodes, lexer);
    var known := keys + {TokenAt(u, lexer.strings).value.text};
    MembersTurn(value.rest, depth, value.nodes, known, false, lexer);
    var one := MemberSplit(before, u, depth, nodes, lexer);
    var t := JsonScan.Skip(value.rest);
    var e := EntryAt(value.rest, CLOSE_OBJECT, false);
    if e.Closed? {
      HeadTail(t, CLOSE_OBJECT);
      ms := one;
    } else {
      HeadTail(t, COMMA);
      var next := Exact.SkipSplit(t[1..]);
      NextMember(value.rest, depth, value.nodes, known, lexer);
      var more := MembersSplit(next, e.rest, depth, value.nodes, known, lexer, rest);
      ms := MoreMembers(one.before, one.key, one.colonGap, one.valueGap, one.value, one.after, more);
    }
  }

  /** After a comma the loop reads one more member. */
  lemma NextMember(s: bytes, depth: nat, nodes: nat, keys: set<bytes>, lexer: Lexer)
    requires MembersAt(s, depth, nodes, keys, false, lexer).Went? && EntryAt(s, CLOSE_OBJECT, false).More?
    ensures var u := EntryAt(s, CLOSE_OBJECT, false).rest;
            && |u| < |s| && MemberReads(u, depth, nodes, lexer)
            && var value := ValueAt(AfterKey(u, lexer)[1..], depth + 1, nodes, lexer);
               MembersAt(s, depth, nodes, keys, false, lexer)
               == MembersAt(value.rest, depth, value.nodes, keys + {TokenAt(u, lexer.strings).value.text}, false, lexer)
  {
    hide MembersAt, ValueAt, TokenAt, EntryAt;
    MembersTurn(s, depth, nodes, keys, false, lexer);
  }

  // ---- The whole text ----

  ghost predicate PassingText(body: bytes, lexer: Lexer) {
    exists lead, t, trail :: IsText(body, lead, t, trail, lexer) && Kept(t, 1, lexer)
  }

  /** Whatever passes is such a text. */
  lemma ScanSplit(body: bytes, lexer: Lexer) returns (lead: bytes, t: Tree, trail: bytes)
    requires TokensStand(lexer) && Scanned(body, lexer).Ok?
    ensures IsText(body, lead, t, trail, lexer) && Kept(t, 1, lexer)
  {
    hide TokensStand, ValueAt, Kept, Lexed;
    var rest := ValueAt(body, 1, 0, lexer).rest;
    trail := Exact.SkipSplit(rest);
    lead, t := ValueSplit(body, 1, 0, lexer);
    assert trail == rest;
    ScannedExactly(body, lead, t, trail, lexer);
  }

  /** Acceptance, for every byte string: it is one tree between blanks, 32 levels deep at most, no key twice in an object. */
  lemma PassesExactly(body: bytes, lexer: Lexer)
    requires TokensStand(lexer)
    ensures Scanned(body, lexer).Ok? <==> PassingText(body, lexer)
  {
    hide TokensStand, Kept, IsText, Scanned;
    if Scanned(body, lexer).Ok? {
      var lead, t, trail := ScanSplit(body, lexer);
    }
    if PassingText(body, lexer) {
      var lead, t, trail :| IsText(body, lead, t, trail, lexer) && Kept(t, 1, lexer);
      ScannedExactly(body, lead, t, trail, lexer);
    }
  }
}
