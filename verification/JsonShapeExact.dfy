/**
 The shape scan on JSON texts: one node a value, and a rejection only for depth or a repeated key.
 */
module JsonShapeExact {
  import opened Bytes
  import opened JsonLayout
  import opened JsonShape
  import Dialect = JsonDialect
  import Exact = JsonExact
  import JsonScan

  // ---- Texts whose tokens the deserializer reads ----

  /** The scalar is read to its end, whatever may follow it. */
  ghost predicate ReadsScalar(token: bytes, lexer: Lexer) {
    forall rest :: Exact.Ends(rest)
                   ==> && TokenAt(token + rest, lexer.scalars).Some?
                       && TokenAt(token + rest, lexer.scalars).value.width == |token|
  }

  function TextOf(raw: bytes, lexer: Lexer): bytes {
    match TokenAt(Quoted(raw, []), lexer.strings)
    case None => []
    case Some(token) => token.text
  }

  /** The string is read to its closing quote and to one text, whatever follows it. */
  ghost predicate ReadsString(raw: bytes, lexer: Lexer) {
    forall rest :: TokenAt(Quoted(raw, rest), lexer.strings) == Some(Token(TextOf(raw, lexer), |raw| + 2))
  }

  predicate ScalarHead(b: byte) {
    !Dialect.IsBlank(b) && b != QUOTE && b != OPEN_ARRAY && b != OPEN_OBJECT && b != CLOSE_ARRAY
  }

  ghost predicate Lexed(t: Tree, lexer: Lexer)
    decreases t, 0
  {
    match t
    case Atom(token) => token != [] && ScalarHead(token[0]) && ReadsScalar(token, lexer)
    case Text(raw) => ReadsString(raw, lexer)
    case EmptyArray(gap) => Dialect.Gap(gap)
    case Array(elements) => ElementsLexed(elements, lexer)
    case EmptyObject(gap) => Dialect.Gap(gap)
    case Object(members) => MembersLexed(members, lexer)
  }

  ghost predicate ElementsLexed(es: Elements, lexer: Lexer)
    decreases es, 0
  {
    Dialect.Gap(es.before) && Dialect.Gap(es.after) && Lexed(es.value, lexer)
    && (es.MoreElements? ==> ElementsLexed(es.rest, lexer))
  }

  ghost predicate MembersLexed(ms: Members, lexer: Lexer)
    decreases ms, 0
  {
    Dialect.Gap(ms.before) && ReadsString(ms.key, lexer) && Dialect.Gap(ms.colonGap) && Dialect.Gap(ms.valueGap)
    && Dialect.Gap(ms.after) && Lexed(ms.value, lexer)
    && (ms.MoreMembers? ==> MembersLexed(ms.rest, lexer))
  }

  // ---- What the scan keeps ----

  /** The values of a tree, itself included. */
  function Nodes(t: Tree): nat {
    match t
    case Array(elements) => 1 + ElementsNodes(elements)
    case Object(members) => 1 + MembersNodes(members)
    case _ => 1
  }

  function ElementsNodes(es: Elements): nat {
    Nodes(es.value) + if es.MoreElements? then ElementsNodes(es.rest) else 0
  }

  function MembersNodes(ms: Members): nat {
    Nodes(ms.value) + if ms.MoreMembers? then MembersNodes(ms.rest) else 0
  }

  /** No value, counted from `depth`, is deeper than 32, and no object repeats a decoded key. */
  predicate Kept(t: Tree, depth: nat, lexer: Lexer)
    decreases t, 0
  {
    && depth <= MAX_SHAPE_DEPTH
    && (t.Array? ==> ElementsKept(t.elements, depth + 1, lexer))
    && (t.Object? ==> Distinct(KeysOf(t.members, lexer)) && MembersKept(t.members, depth + 1, lexer))
  }

  predicate ElementsKept(es: Elements, depth: nat, lexer: Lexer)
    decreases es, 0
  {
    Kept(es.value, depth, lexer) && (es.MoreElements? ==> ElementsKept(es.rest, depth, lexer))
  }

  predicate MembersKept(ms: Members, depth: nat, lexer: Lexer)
    decreases ms, 0
  {
    Kept(ms.value, depth, lexer) && (ms.MoreMembers? ==> MembersKept(ms.rest, depth, lexer))
  }

  function KeysOf(ms: Members, lexer: Lexer): seq<bytes> {
    [TextOf(ms.key, lexer)] + if ms.MoreMembers? then KeysOf(ms.rest, lexer) else []
  }

  /** The scan goes on past exactly the text, with `n` nodes, or stops for depth or a repeated key. */
  predicate Verdict(step: Step, ok: bool, rest: bytes, n: nat) {
    if ok then step == Went(rest, n) else step.Stopped? && step.why != Malformed
  }

  // ---- Entries of a container ----

  /** Where an entry stands: right after the opening bracket, or after a comma. */
  function Place(gap: bytes, body: bytes, first: bool): bytes {
    if first then body else gap + ([COMMA] + body)
  }

  lemma EntryMore(gap: bytes, before: bytes, u: bytes, close: byte, first: bool)
    requires Dialect.Gap(gap) && Dialect.Gap(before) && u != [] && !Dialect.IsBlank(u[0]) && u[0] != close
    requires close == CLOSE_ARRAY || close == CLOSE_OBJECT
    ensures EntryAt(Place(gap, before + u, first), close, first) == More(u)
  {
    Exact.SkipToHead(before, u);
    if !first {
      var comma := [COMMA] + (before + u);
      Exact.SkipToHead(gap, comma);
      assert comma[1..] == before + u;
    }
  }

  lemma EntryClosed(gap: bytes, close: byte, rest: bytes, first: bool)
    requires Dialect.Gap(gap) && (close == CLOSE_ARRAY || close == CLOSE_OBJECT)
    ensures EntryAt(gap + ([close] + rest), close, first) == Closed(rest)
  {
    Exact.SkipToHead(gap, [close] + rest);
    assert ([close] + rest)[1..] == rest;
  }

  // ---- The verdict ----

  lemma ValueHead(t: Tree, tail: bytes, lexer: Lexer)
    requires Lexed(t, lexer)
    ensures var u := Write(t, tail); u != [] && !Dialect.IsBlank(u[0]) && u[0] != CLOSE_ARRAY
  {}

  lemma {:induction false} ValueVerdict(gap: bytes, t: Tree, rest: bytes, depth: nat, nodes: nat, lexer: Lexer)
    requires Dialect.Gap(gap) && Lexed(t, lexer) && Exact.Ends(rest)
    ensures Verdict(ValueAt(gap + Write(t, rest), depth, nodes, lexer), Kept(t, depth, lexer), rest, nodes + Nodes(t))
    decreases t, 1
  {
    hide ElementsAt, MembersAt, ElementsKept, MembersKept, TokenAt, EntryAt;
    var u := Write(t, rest);
    ValueHead(t, rest, lexer);
    Exact.SkipToHead(gap, u);
    if depth > MAX_SHAPE_DEPTH {
      return;
    }
    match t
    case Atom(token) =>
      assert u[|token|..] == rest;
    case Text(raw) =>
      QuotedRest(raw, rest);
    case EmptyArray(blank) =>
      assert u[1..] == blank + ([CLOSE_ARRAY] + rest);
      EntryClosed(blank, CLOSE_ARRAY, rest, true);
      ElementsTurn(u[1..], depth, nodes + 1, true, lexer);
    case Array(es) =>
      assert u[1..] == WriteElements(es, [CLOSE_ARRAY] + rest);
      ElementsVerdict([], es, rest, depth, nodes + 1, true, lexer);
    case EmptyObject(blank) =>
      assert u[1..] == blank + ([CLOSE_OBJECT] + rest);
      EntryClosed(blank, CLOSE_OBJECT, rest, true);
      MembersTurn(u[1..], depth, nodes + 1, {}, true, lexer);
    case Object(ms) =>
      assert u[1..] == WriteMembers(ms, [CLOSE_OBJECT] + rest);
      MembersVerdict([], ms, rest, depth, nodes + 1, {}, true, lexer);
      FreshKeys(KeysOf(ms, lexer), {});
  }

  lemma QuotedRest(raw: bytes, rest: bytes)
    ensures |Quoted(raw, rest)| >= |raw| + 2 && Quoted(raw, rest)[|raw| + 2..] == rest
    ensures StartsWith(Quoted(raw, rest), QUOTE)
  {}

  lemma {:induction false} ElementsVerdict(gap: bytes, es: Elements, rest: bytes, depth: nat, nodes: nat, first: bool,
                                           lexer: Lexer)
    requires Dialect.Gap(gap) && ElementsLexed(es, lexer)
    ensures var s := Place(gap, WriteElements(es, [CLOSE_ARRAY] + rest), first);
            Verdict(ElementsAt(s, depth, nodes, first, lexer), ElementsKept(es, depth + 1, lexer), rest,
                    nodes + ElementsNodes(es))
    decreases es, 1
  {
    hide ElementsAt, ValueAt, EntryAt, Kept, Lexed, Write;
    var tail := [CLOSE_ARRAY] + rest;
    var s := Place(gap, WriteElements(es, tail), first);
    var next := es.after + if es.LastElement? then tail else [COMMA] + WriteElements(es.rest, tail);
    var u := Write(es.value, next);
    var n := nodes + Nodes(es.value);
    ValueHead(es.value, next, lexer);
    EntryMore(gap, es.before, u, CLOSE_ARRAY, first);
    ElementsTurn(s, depth, nodes, first, lexer);
    ValueVerdict([], es.value, next, depth + 1, nodes, lexer);
    assert [] + u == u;
    if es.MoreElements? {
      ElementsVerdict(es.after, es.rest, rest, depth, n, false, lexer);
    } else {
      EntryClosed(es.after, CLOSE_ARRAY, rest, false);
      ElementsTurn(next, depth, n, false, lexer);
    }
  }

  /** One turn of the object loop, at a member whose value stands at `v`. */
  lemma MemberTurn(s: bytes, raw: bytes, colonGap: bytes, v: bytes, depth: nat, nodes: nat, keys: set<bytes>, first: bool,
                   lexer: Lexer)
    requires EntryAt(s, CLOSE_OBJECT, first) == More(Quoted(raw, colonGap + ([COLON] + v)))
    requires Dialect.Gap(colonGap) && ReadsString(raw, lexer)
    ensures var key := TextOf(raw, lexer);
            MembersAt(s, depth, nodes, keys, first, lexer)
            == if key in keys then Stopped(DuplicateKey, nodes)
               else
                 var value := ValueAt(v, depth + 1, nodes, lexer);
                 if value.Stopped? then value else MembersAt(value.rest, depth, value.nodes, keys + {key}, false, lexer)
  {
    hide MembersAt, ValueAt, EntryAt, TokenAt, TextOf;
    var colon := [COLON] + v;
    QuotedRest(raw, colonGap + colon);
    MembersTurn(s, depth, nodes, keys, first, lexer);
    Exact.SkipToHead(colonGap, colon);
    assert colon[1..] == v;
  }

  lemma {:induction false} MembersVerdict(gap: bytes, ms: Members, rest: bytes, depth: nat, nodes: nat, keys: set<bytes>,
                                          first: bool, lexer: Lexer)
    requires Dialect.Gap(gap) && MembersLexed(ms, lexer)
    ensures var s := Place(gap, WriteMembers(ms, [CLOSE_OBJECT] + rest), first);
            Verdict(MembersAt(s, depth, nodes, keys, first, lexer),
                    MembersKept(ms, depth + 1, lexer) && Fresh(KeysOf(ms, lexer), keys), rest, nodes + MembersNodes(ms))
    decreases ms, 1
  {
    hide MembersAt, ValueAt, EntryAt, Kept, Lexed, Write, TokenAt, TextOf, ReadsString, Quoted;
    var tail := [CLOSE_OBJECT] + rest;
    var s := Place(gap, WriteMembers(ms, tail), first);
    var next := ms.after + AfterMember(ms, tail);
    var value := ms.valueGap + Write(ms.value, next);
    var u := Quoted(ms.key, ms.colonGap + ([COLON] + value));
    assert KeysOf(ms, lexer)[1..] == if ms.MoreMembers? then KeysOf(ms.rest, lexer) else [];
    QuotedRest(ms.key, ms.colonGap + ([COLON] + value));
    EntryMore(gap, ms.before, u, CLOSE_OBJECT, first);
    MemberTurn(s, ms.key, ms.colonGap, value, depth, nodes, keys, first, lexer);
    ValueVerdict(ms.valueGap, ms.value, next, depth + 1, nodes, lexer);
    var n, known := nodes + Nodes(ms.value), keys + {TextOf(ms.key, lexer)};
    if ms.MoreMembers? {
      MembersVerdict(ms.after, ms.rest, rest, depth, n, known, false, lexer);
    } else {
      EntryClosed(ms.after, CLOSE_OBJECT, rest, false);
      MembersTurn(next, depth, n, known, false, lexer);
    }
  }

  /** A text the deserializer reads: a tree between blanks. */
  ghost predicate IsText(body: bytes, lead: bytes, t: Tree, trail: bytes, lexer: Lexer) {
    Dialect.Gap(lead) && Dialect.Gap(trail) && Lexed(t, lexer) && body == lead + Write(t, trail)
  }

  /**
   A JSON text passes the scan exactly when no value is nested deeper than 32 levels, the root being
   the first, and no object repeats a key; it is never called malformed, and a pass visits each value once.
   */
  lemma ScannedExactly(body: bytes, lead: bytes, t: Tree, trail: bytes, lexer: Lexer)
    requires IsText(body, lead, t, trail, lexer)
    ensures Scanned(body, lexer).Ok? <==> Kept(t, 1, lexer)
    ensures Scanned(body, lexer) != Err(Malformed)
    ensures Scanned(body, lexer).Ok? ==> ValueAt(body, 1, 0, lexer).nodes == Nodes(t) <= |body| + 1
  {
    hide ValueAt, Kept, Lexed, Write;
    ValueVerdict(lead, t, trail, 1, 0, lexer);
    Exact.SkipGap(trail, []);
    assert trail + [] == trail;
  }
}
