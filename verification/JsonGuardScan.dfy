/**
 The bounds scan the management API runs before its real JSON decode, as functions of the bytes not
 scanned yet, and the exact verdict of that scan on the trees of `JsonLayout`. String decoding
 belongs to another library: it is the parameter `decode`, from a quoted slice to its text.
 */
module JsonGuardScan {
  import opened Bytes
  import opened JsonLayout

  const MAX_GUARD_DEPTH: nat := 32
  const MAX_ARRAY: nat := 256

  type Decoder = bytes -> Option<bytes>

  datatype Refusal = Invalid | Depth | Elements | DuplicateKey

  /** What was read and the bytes after it; or why the scan stopped. */
  datatype Read<+T> = Read(value: T, rest: bytes) | Refused(why: Refusal)

  /** ASCII white space, form feed included: more than JSON allows between tokens. */
  predicate IsSpace(b: byte) {
    b == 0x20 || b == 0x09 || b == 0x0A || b == 0x0C || b == 0x0D
  }

  predicate EndsPrimitive(b: byte) {
    IsSpace(b) || b == COMMA || b == CLOSE_ARRAY || b == CLOSE_OBJECT
  }

  function Space(s: bytes): (r: bytes)
    ensures |r| <= |s|
    ensures r == [] || !IsSpace(r[0])
  {
    if s != [] && IsSpace(s[0]) then Space(s[1..]) else s
  }

  function PrimitiveEnd(s: bytes): (r: bytes)
    ensures |r| <= |s|
    ensures r == [] || EndsPrimitive(r[0])
  {
    if s != [] && !EndsPrimitive(s[0]) then PrimitiveEnd(s[1..]) else s
  }

  function Primitive(s: bytes): (r: Read<()>)
    ensures r.Read? ==> |r.rest| < |s|
  {
    if |PrimitiveEnd(s)| < |s| then Read((), PrimitiveEnd(s)) else Refused(Invalid)
  }

  /** The bytes after the next quote no backslash escapes. */
  function Close(s: bytes, escaped: bool): (r: Option<bytes>)
    ensures r.Some? ==> |r.value| < |s|
  {
    if s == [] then None
    else if escaped then Close(s[1..], false)
    else if s[0] == ESCAPE then Close(s[1..], true)
    else if s[0] == QUOTE then Some(s[1..])
    else Close(s[1..], false)
  }

  function StringAt(s: bytes, decode: Decoder): (r: Read<bytes>)
    ensures r.Read? ==> |r.rest| < |s|
  {
    if !StartsWith(s, QUOTE) then Refused(Invalid)
    else
      match Close(s[1..], false)
      case None => Refused(Invalid)
      case Some(rest) =>
        match decode(s[..|s| - |rest|])
        case None => Refused(Invalid)
        case Some(text) => Read(text, rest)
  }

  function ValueAt(s: bytes, depth: nat, decode: Decoder): (r: Read<()>)
    ensures r.Read? ==> |r.rest| < |s|
    decreases |s|, 1
  {
    if depth > MAX_GUARD_DEPTH then Refused(Depth)
    else
      var t := Space(s);
      if t == [] then Refused(Invalid)
      else if t[0] == OPEN_OBJECT then ObjectAt(t, depth + 1, decode)
      else if t[0] == OPEN_ARRAY then ArrayAt(t, depth + 1, decode)
      else if t[0] == QUOTE then
        match StringAt(t, decode)
        case Refused(why) => Refused(why)
        case Read(_, rest) => Read((), rest)
      else Primitive(t)
  }

  function ArrayAt(s: bytes, depth: nat, decode: Decoder): (r: Read<()>)
    requires s != []
    ensures r.Read? ==> |r.rest| < |s|
    decreases |s|, 0
  {
    var t := Space(s[1..]);
    if StartsWith(t, CLOSE_ARRAY) then Read((), t[1..]) else ElementsAt(s[1..], depth, 0, decode)
  }

  /** The rest of an array `count` of whose elements have been scanned. */
  function ElementsAt(s: bytes, depth: nat, count: nat, decode: Decoder): (r: Read<()>)
    ensures r.Read? ==> |r.rest| < |s|
    decreases |s|, 2
  {
    if count + 1 > MAX_ARRAY then Refused(Elements)
    else
      match ValueAt(s, depth, decode)
      case Refused(why) => Refused(why)
      case Read(_, after) =>
        var t := Space(after);
        if StartsWith(t, CLOSE_ARRAY) then Read((), t[1..])
        else if StartsWith(t, COMMA) then ElementsAt(t[1..], depth, count + 1, decode)
        else Refused(Invalid)
  }

  function ObjectAt(s: bytes, depth: nat, decode: Decoder): (r: Read<()>)
    requires s != []
    ensures r.Read? ==> |r.rest| < |s|
    decreases |s|, 0
  {
    var t := Space(s[1..]);
    if StartsWith(t, CLOSE_OBJECT) then Read((), t[1..]) else MembersAt(s[1..], depth, {}, decode)
  }

  /** The keys after one member read from `s`, and what is left. */
  function MemberAt(s: bytes, depth: nat, keys: set<bytes>, decode: Decoder): (r: Read<set<bytes>>)
    ensures r.Read? ==> |r.rest| < |s|
    decreases |s|, 2
  {
    match StringAt(Space(s), decode)
    case Refused(why) => Refused(why)
    case Read(key, afterKey) =>
      var colon := Space(afterKey);
      if key in keys then Refused(DuplicateKey)
      else if !StartsWith(colon, COLON) then Refused(Invalid)
      else
        match ValueAt(colon[1..], depth, decode)
        case Refused(why) => Refused(why)
        case Read(_, after) => Read(keys + {key}, after)
  }

  /** The rest of an object whose decoded keys so far are `keys`. */
  function MembersAt(s: bytes, depth: nat, keys: set<bytes>, decode: Decoder): (r: Read<()>)
    ensures r.Read? ==> |r.rest| < |s|
    decreases |s|, 3
  {
    match MemberAt(s, depth, keys, decode)
    case Refused(why) => Refused(why)
    case Read(more, after) =>
      var t := Space(after);
      if StartsWith(t, CLOSE_OBJECT) then Read((), t[1..])
      else if StartsWith(t, COMMA) then MembersAt(t[1..], depth, more, decode)
      else Refused(Invalid)
  }

  function Scan(body: bytes, decode: Decoder): Result<(), Refusal> {
    match ValueAt(body, 0, decode)
    case Refused(why) => Err(why)
    case Read(_, rest) => if Space(rest) == [] then Ok(()) else Err(Invalid)
  }

  // ---- The texts the scan can tell apart, and the bounds it keeps ----

  predicate Spaces(gap: bytes) {
    forall k :: 0 <= k < |gap| ==> IsSpace(gap[k])
  }

  predicate Token(token: bytes) {
    && token != [] && token[0] != QUOTE && token[0] != OPEN_ARRAY && token[0] != OPEN_OBJECT
    && forall k :: 0 <= k < |token| ==> !EndsPrimitive(token[k])
  }

  /** No quote in a string body stands unescaped, and the last backslash escapes something. */
  predicate Unquoted(raw: bytes, escaped: bool) {
    if raw == [] then !escaped
    else if escaped then Unquoted(raw[1..], false)
    else raw[0] != QUOTE && Unquoted(raw[1..], raw[0] == ESCAPE)
  }

  predicate Decodes(raw: bytes, decode: Decoder) {
    Unquoted(raw, false) && decode(Quoted(raw, [])).Some?
  }

  /** A tree whose gaps are white space, whose strings decode and whose other tokens look like tokens. */
  predicate Written(t: Tree, decode: Decoder)
    decreases t, 0
  {
    match t
    case Atom(token) => Token(token)
    case Text(raw) => Decodes(raw, decode)
    case EmptyArray(gap) => Spaces(gap)
    case Array(elements) => ElementsWritten(elements, decode)
    case EmptyObject(gap) => Spaces(gap)
    case Object(members) => MembersWritten(members, decode)
  }

  predicate ElementsWritten(es: Elements, decode: Decoder)
    decreases es, 0
  {
    Spaces(es.before) && Spaces(es.after) && Written(es.value, decode)
    && (es.MoreElements? ==> ElementsWritten(es.rest, decode))
  }

  predicate MembersWritten(ms: Members, decode: Decoder)
    decreases ms, 0
  {
    Spaces(ms.before) && Decodes(ms.key, decode) && Spaces(ms.colonGap) && Spaces(ms.valueGap) && Spaces(ms.after)
    && Written(ms.value, decode)
    && (ms.MoreMembers? ==> MembersWritten(ms.rest, decode))
  }

  function Count(es: Elements): nat {
    match es
    case LastElement(_, _, _) => 1
    case MoreElements(_, _, _, rest) => 1 + Count(rest)
  }

  function Key(raw: bytes, decode: Decoder): bytes
    requires Decodes(raw, decode)
  {
    decode(Quoted(raw, [])).value
  }

  function KeysOf(ms: Members, decode: Decoder): seq<bytes>
    requires MembersWritten(ms, decode)
  {
    [Key(ms.key, decode)] + if ms.MoreMembers? then KeysOf(ms.rest, decode) else []
  }

  /**
   The bounds, for a tree standing inside `depth` containers: nothing stands inside more than 32, no
   array has more than 256 elements, and no object repeats a decoded key.
   */
  predicate Bounded(t: Tree, depth: nat, decode: Decoder)
    requires Written(t, decode)
    decreases t, 0
  {
    && depth <= MAX_GUARD_DEPTH
    && (t.Array? ==> Count(t.elements) <= MAX_ARRAY && ElementsBounded(t.elements, depth + 1, decode))
    && (t.Object? ==> Distinct(KeysOf(t.members, decode)) && MembersBounded(t.members, depth + 1, decode))
  }

  predicate ElementsBounded(es: Elements, depth: nat, decode: Decoder)
    requires ElementsWritten(es, decode)
    decreases es, 0
  {
    Bounded(es.value, depth, decode) && (es.MoreElements? ==> ElementsBounded(es.rest, depth, decode))
  }

  predicate MembersBounded(ms: Members, depth: nat, decode: Decoder)
    requires MembersWritten(ms, decode)
    decreases ms, 0
  {
    Bounded(ms.value, depth, decode) && (ms.MoreMembers? ==> MembersBounded(ms.rest, depth, decode))
  }

  /** `body` is this tree between white space. */
  ghost predicate IsBody(body: bytes, lead: bytes, t: Tree, trail: bytes, decode: Decoder) {
    Spaces(lead) && Spaces(trail) && Written(t, decode) && body == lead + Write(t, trail)
  }
  /** `body` is such a tree, and it keeps the bounds. */
  ghost predicate Fits(body: bytes, decode: Decoder) {
    exists lead, t, trail :: IsBody(body, lead, t, trail, decode) && Bounded(t, 0, decode)
  }
}
