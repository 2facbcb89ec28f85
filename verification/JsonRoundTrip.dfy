/**
 Compact serialisation against the parser: the values the parser returns are exactly the values
 within its bounds, and each of them survives being written and parsed again.
 */
module JsonRoundTrip {
  import opened Bytes
  import opened Utf8
  import opened JsonLayout
  import opened JsonDialect
  import opened JsonScan
  import opened JsonExact
  import opened JsonSpellings

  // ---- Values the parser can return ----

  function ValueDepth(v: Value): nat {
    match v
    case List(values) => 1 + ValuesDepth(values)
    case Record(fields) => 1 + FieldsDepth(fields)
    case _ => 0
  }

  function ValuesDepth(values: seq<Value>): nat {
    if values == [] then 0 else Max(ValueDepth(values[0]), ValuesDepth(values[1..]))
  }

  function FieldsDepth(fields: seq<Field>): nat {
    if fields == [] then 0 else Max(ValueDepth(fields[0].value), FieldsDepth(fields[1..]))
  }

  function ValueItems(v: Value): nat {
    match v
    case List(values) => ValuesItems(values)
    case Record(fields) => FieldsItems(fields)
    case _ => 0
  }

  function ValuesItems(values: seq<Value>): nat {
    if values == [] then 0 else 1 + ValueItems(values[0]) + ValuesItems(values[1..])
  }

  function FieldsItems(fields: seq<Field>): nat {
    if fields == [] then 0 else 1 + ValueItems(fields[0].value) + FieldsItems(fields[1..])
  }

  predicate WellFormed(v: Value) {
    match v
    case Null => true
    case Boolean(_) => true
    case Number(n) => n < U64_LIMIT
    case Str(text) => ValidUtf8(text)
    case List(values) => AllWellFormed(values)
    case Record(fields) => FieldsWellFormed(fields) && UniqueKeys(fields)
  }

  predicate AllWellFormed(values: seq<Value>) {
    values == [] || (WellFormed(values[0]) && AllWellFormed(values[1..]))
  }

  predicate FieldsWellFormed(fields: seq<Field>) {
    fields == []
    || (ValidUtf8(fields[0].key) && WellFormed(fields[0].value) && FieldsWellFormed(fields[1..]))
  }

  predicate Returnable(v: Value) {
    WellFormed(v) && ValueDepth(v) <= MAX_DEPTH && ValueItems(v) <= MAX_ITEMS
  }

  // ---- Serialisation ----

  function NumberText(n: nat): (s: bytes)
    ensures s != [] && Digits(s)
  {
    if n < 10 then [(48 + n) as byte] else NumberText(n / 10) + [(48 + n % 10) as byte]
  }

  /** The layout without blanks. */
  function Compact(v: Value, w: Writer): Tree {
    match v
    case Null => Atom(NULL)
    case Boolean(truth) => Atom(if truth then TRUE else FALSE)
    case Number(n) => Atom(NumberText(n))
    case Str(text) => Text(w(text))
    case List(values) => if values == [] then EmptyArray([]) else Array(CompactElements(values, w))
    case Record(fields) => if fields == [] then EmptyObject([]) else Object(CompactMembers(fields, w))
  }

  function CompactElements(values: seq<Value>, w: Writer): Elements
    requires values != []
  {
    if |values| == 1 then LastElement([], Compact(values[0], w), [])
    else MoreElements([], Compact(values[0], w), [], CompactElements(values[1..], w))
  }

  function CompactMembers(fields: seq<Field>, w: Writer): Members
    requires fields != []
  {
    if |fields| == 1 then LastMember([], w(fields[0].key), [], [], Compact(fields[0].value, w), [])
    else MoreMembers([], w(fields[0].key), [], [], Compact(fields[0].value, w), [], CompactMembers(fields[1..], w))
  }

  function Serialise(v: Value, w: Writer): bytes {
    Unparse(Compact(v, w))
  }

  // ---- Proofs ----

  lemma {:induction false} NumberTextReads(n: nat)
    ensures NumberOf(NumberText(n)) == n
  {
    var s := NumberText(n);
    if n < 10 {
      assert s[..0] == [];
    } else {
      NumberTextReads(n / 10);
      assert s[..|s| - 1] == NumberText(n / 10);
    }
  }

  lemma {:induction false} CompactMeans(v: Value, w: Writer)
    requires WellFormed(v) && Spells(w)
    ensures InDialect(Compact(v, w)) && Meaning(Compact(v, w)) == v
    ensures Depth(Compact(v, w)) == ValueDepth(v) && Items(Compact(v, w)) == ValueItems(v)
    decreases v, 0
  {
    match v
    case Null =>
    case Boolean(_) =>
    case Number(n) => NumberTextReads(n);
    case Str(text) =>
    case List(values) => if values != [] { ElementsMean(values, w); }
    case Record(fields) => if fields != [] { MembersMean(fields, w); }
  }

  lemma {:induction false} ElementsMean(values: seq<Value>, w: Writer)
    requires values != [] && AllWellFormed(values) && Spells(w)
    ensures var es := CompactElements(values, w);
            && ElementsInDialect(es) && ValuesOf(es) == values
            && ElementsDepth(es) == ValuesDepth(values) && ElementsItems(es) == ValuesItems(values)
    decreases values, 1
  {
    CompactMeans(values[0], w);
    if |values| == 1 {
      assert values == [values[0]];
    } else {
      ElementsMean(values[1..], w);
      assert values == [values[0]] + values[1..];
    }
  }

  lemma {:induction false} MembersMean(fields: seq<Field>, w: Writer)
    requires fields != [] && FieldsWellFormed(fields) && Spells(w)
    ensures var ms := CompactMembers(fields, w);
            && MembersInDialect(ms) && FieldsOf(ms) == fields
            && MembersDepth(ms) == FieldsDepth(fields) && MembersItems(ms) == FieldsItems(fields)
    decreases fields, 1
  {
    CompactMeans(fields[0].value, w);
    if |fields| == 1 {
      assert fields == [fields[0]];
    } else {
      MembersMean(fields[1..], w);
      assert fields == [fields[0]] + fields[1..];
    }
  }

  lemma {:induction false} MeaningWellFormed(t: Tree)
    requires InDialect(t)
    ensures WellFormed(Meaning(t)) && ValueDepth(Meaning(t)) == Depth(t) && ValueItems(Meaning(t)) == Items(t)
    decreases t, 0
  {
    match t
    case Atom(_) =>
    case Text(_) =>
    case EmptyArray(_) =>
    case Array(es) => ElementsWellFormed(es);
    case EmptyObject(_) =>
    case Object(ms) => MembersWellFormed(ms);
  }

  lemma {:induction false} ElementsWellFormed(es: Elements)
    requires ElementsInDialect(es)
    ensures AllWellFormed(ValuesOf(es))
    ensures ValuesDepth(ValuesOf(es)) == ElementsDepth(es) && ValuesItems(ValuesOf(es)) == ElementsItems(es)
    decreases es, 1
  {
    MeaningWellFormed(es.value);
    if es.MoreElements? {
      ElementsWellFormed(es.rest);
      assert ValuesOf(es)[1..] == ValuesOf(es.rest);
    } else {
      assert ValuesOf(es)[1..] == [];
    }
  }

  lemma {:induction false} MembersWellFormed(ms: Members)
    requires MembersInDialect(ms)
    ensures FieldsWellFormed(FieldsOf(ms))
    ensures FieldsDepth(FieldsOf(ms)) == MembersDepth(ms) && FieldsItems(FieldsOf(ms)) == MembersItems(ms)
    decreases ms, 1
  {
    MeaningWellFormed(ms.value);
    if ms.MoreMembers? {
      MembersWellFormed(ms.rest);
      assert FieldsOf(ms)[1..] == FieldsOf(ms.rest);
    } else {
      assert FieldsOf(ms)[1..] == [];
    }
  }

  /** Writing a value compactly, with its strings in any spelling, and parsing it gives it back, between any blanks. */
  lemma RoundTrip(v: Value, w: Writer, lead: bytes, trail: bytes)
    requires Returnable(v) && Spells(w) && Gap(lead) && Gap(trail)
    ensures Parsed(lead + Serialise(v, w) + trail) == Ok(v)
  {
    CompactMeans(v, w);
    WriteThenTail(Compact(v, w), trail);
    assert lead + Serialise(v, w) + trail == lead + Write(Compact(v, w), trail);
    DocumentParses(lead + Serialise(v, w) + trail, lead, Compact(v, w), trail);
  }

  /** The parser's results are exactly the values within its bounds. */
  lemma ResultsExactly(v: Value)
    ensures Returnable(v) <==> exists input :: Parsed(input) == Ok(v)
  {
    if Returnable(v) {
      SpellingsSpell((_, _) => false);
      RoundTrip(v, Plainest, [], []);
      assert Parsed([] + Serialise(v, Plainest) + []) == Ok(v);
    }
    forall input | Parsed(input) == Ok(v) ensures Returnable(v) {
      var lead, t, trail := ParsedIsDocument(input);
      MeaningWellFormed(t);
    }
  }
}
