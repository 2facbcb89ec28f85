/**
 Concrete JSON texts as trees: every blank, token and string body is kept as it is written, so
 `Unparse` is the whole grammar (RFC 8259, sections 2 and 4 to 7, without its token rules) and a
 parser can be compared with it byte for byte.
 */
module JsonLayout {
  import opened Bytes

  const QUOTE: byte := '\"' as byte
  const ESCAPE: byte := '\\' as byte
  const COMMA: byte := ',' as byte
  const COLON: byte := ':' as byte
  const OPEN_ARRAY: byte := '[' as byte
  const CLOSE_ARRAY: byte := ']' as byte
  const OPEN_OBJECT: byte := '{' as byte
  const CLOSE_OBJECT: byte := '}' as byte

  /** `Text.raw` is the string body as written, between its quotes and with its escapes unread. */
  datatype Tree =
    | Atom(token: bytes)
    | Text(raw: bytes)
    | EmptyArray(gap: bytes)
    | Array(elements: Elements)
    | EmptyObject(gap: bytes)
    | Object(members: Members)

  datatype Elements =
    | LastElement(before: bytes, value: Tree, after: bytes)
    | MoreElements(before: bytes, value: Tree, after: bytes, rest: Elements)

  datatype Members =
    | LastMember(before: bytes, key: bytes, colonGap: bytes, valueGap: bytes, value: Tree, after: bytes)
    | MoreMembers(before: bytes, key: bytes, colonGap: bytes, valueGap: bytes, value: Tree, after: bytes,
                  rest: Members)

  /** A quoted string body, followed by `tail`. */
  function Quoted(raw: bytes, tail: bytes): bytes {
    [QUOTE] + (raw + ([QUOTE] + tail))
  }

  /** The text of a tree, followed by `tail`. */
  function Write(t: Tree, tail: bytes): bytes {
    match t
    case Atom(token) => token + tail
    case Text(raw) => Quoted(raw, tail)
    case EmptyArray(gap) => [OPEN_ARRAY] + (gap + ([CLOSE_ARRAY] + tail))
    case Array(elements) => [OPEN_ARRAY] + WriteElements(elements, [CLOSE_ARRAY] + tail)
    case EmptyObject(gap) => [OPEN_OBJECT] + (gap + ([CLOSE_OBJECT] + tail))
    case Object(members) => [OPEN_OBJECT] + WriteMembers(members, [CLOSE_OBJECT] + tail)
  }

  function WriteElements(es: Elements, tail: bytes): bytes {
    match es
    case LastElement(before, value, after) => before + Write(value, after + tail)
    case MoreElements(before, value, after, rest) =>
      before + Write(value, after + ([COMMA] + WriteElements(rest, tail)))
  }

  function WriteMembers(ms: Members, tail: bytes): bytes
    decreases ms, 1
  {
    ms.before + Quoted(ms.key, ms.colonGap + ([COLON] + (ms.valueGap + Write(ms.value, ms.after + AfterMember(ms, tail)))))
  }

  function AfterMember(ms: Members, tail: bytes): bytes
    decreases ms, 0
  {
    match ms
    case LastMember(_, _, _, _, _, _) => tail
    case MoreMembers(_, _, _, _, _, _, rest) => [COMMA] + WriteMembers(rest, tail)
  }

  /** The text of a tree. */
  function Unparse(t: Tree): bytes {
    Write(t, [])
  }

  /** Writing in front of a tail is writing, then the tail. */
  lemma {:induction false} WriteThenTail(t: Tree, tail: bytes)
    ensures Write(t, tail) == Unparse(t) + tail
  {
    WriteAppend(t, [], tail);
    assert [] + tail == tail;
  }

  lemma {:induction false} WriteAppend(t: Tree, a: bytes, b: bytes)
    ensures Write(t, a + b) == Write(t, a) + b
  {
    match t
    case Atom(_) =>
    case Text(_) =>
    case EmptyArray(_) =>
    case Array(elements) =>
      assert [CLOSE_ARRAY] + (a + b) == [CLOSE_ARRAY] + a + b;
      ElementsAppend(elements, [CLOSE_ARRAY] + a, b);
    case EmptyObject(_) =>
    case Object(members) =>
      assert [CLOSE_OBJECT] + (a + b) == [CLOSE_OBJECT] + a + b;
      MembersAppend(members, [CLOSE_OBJECT] + a, b);
  }

  lemma {:induction false} ElementsAppend(es: Elements, a: bytes, b: bytes)
    ensures WriteElements(es, a + b) == WriteElements(es, a) + b
  {
    match es
    case LastElement(_, value, after) =>
      assert after + (a + b) == after + a + b;
      WriteAppend(value, after + a, b);
    case MoreElements(_, value, after, rest) =>
      ElementsAppend(rest, a, b);
      var more := after + ([COMMA] + WriteElements(rest, a));
      assert after + ([COMMA] + (WriteElements(rest, a) + b)) == more + b;
      WriteAppend(value, more, b);
  }

  lemma {:induction false} MembersAppend(ms: Members, a: bytes, b: bytes)
    ensures WriteMembers(ms, a + b) == WriteMembers(ms, a) + b
  {
    if ms.MoreMembers? {
      MembersAppend(ms.rest, a, b);
    }
    var more := ms.after + AfterMember(ms, a);
    assert ms.after + AfterMember(ms, a + b) == more + b;
    WriteAppend(ms.value, more, b);
    QuotedAppend(ms.key, ms.colonGap, ms.valueGap, Write(ms.value, more), b);
  }

  lemma QuotedAppend(key: bytes, colonGap: bytes, valueGap: bytes, value: bytes, b: bytes)
    ensures Quoted(key, colonGap + ([COLON] + (valueGap + (value + b))))
            == Quoted(key, colonGap + ([COLON] + (valueGap + value))) + b
  {}

  /** How many containers a deepest value is nested in. */
  function Depth(t: Tree): nat {
    match t
    case Atom(_) => 0
    case Text(_) => 0
    case EmptyArray(_) => 1
    case Array(elements) => 1 + ElementsDepth(elements)
    case EmptyObject(_) => 1
    case Object(members) => 1 + MembersDepth(members)
  }

  function ElementsDepth(es: Elements): nat {
    match es
    case LastElement(_, value, _) => Depth(value)
    case MoreElements(_, value, _, rest) => Max(Depth(value), ElementsDepth(rest))
  }

  function MembersDepth(ms: Members): nat {
    match ms
    case LastMember(_, _, _, _, value, _) => Depth(value)
    case MoreMembers(_, _, _, _, value, _, rest) => Max(Depth(value), MembersDepth(rest))
  }

  function Max(a: nat, b: nat): nat {
    if a < b then b else a
  }

  /** Elements and members in the whole text, at every level. */
  function Items(t: Tree): nat {
    match t
    case Array(elements) => ElementsItems(elements)
    case Object(members) => MembersItems(members)
    case _ => 0
  }

  function ElementsItems(es: Elements): nat {
    match es
    case LastElement(_, value, _) => 1 + Items(value)
    case MoreElements(_, value, _, rest) => 1 + Items(value) + ElementsItems(rest)
  }

  function MembersItems(ms: Members): nat {
    match ms
    case LastMember(_, _, _, _, value, _) => 1 + Items(value)
    case MoreMembers(_, _, _, _, value, _, rest) => 1 + Items(value) + MembersItems(rest)
  }

  predicate StartsWith(s: bytes, b: byte) {
    s != [] && s[0] == b
  }
  lemma HeadTail(s: bytes, b: byte)
    requires StartsWith(s, b)
    ensures s == [b] + s[1..]
  {}

  // ---- Keys of an object ----

  /** Read one by one, no key is among those read before. */
  predicate Fresh(keys: seq<bytes>, seen: set<bytes>) {
    keys == [] || (keys[0] !in seen && Fresh(keys[1..], seen + {keys[0]}))
  }

  /** Reading keys into a set finds a repetition exactly when there is one. */
  lemma {:induction false} FreshKeys(keys: seq<bytes>, seen: set<bytes>)
    ensures Fresh(keys, seen) <==> Distinct(keys) && forall k :: k in keys ==> k !in seen
  {
    if keys != [] {
      var more := keys[1..];
      FreshKeys(more, seen + {keys[0]});
      assert keys == [keys[0]] + more;
      assert forall i :: 0 <= i < |more| ==> more[i] == keys[i + 1];
      if Distinct(keys) {
        assert forall i :: 0 <= i < |more| ==> more[i] != keys[0];
      }
    }
  }
}
