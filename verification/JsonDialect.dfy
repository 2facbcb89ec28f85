/**
 The JSON dialect `context-reader` accepts, as a grammar over `JsonLayout` trees, and what each of
 its texts means. Nothing here scans: this is the reference the parser is compared with.
 */
module JsonDialect {
  import opened Bytes
  import opened Utf8
  import opened JsonLayout

  const MAX_DEPTH: nat := 32
  const MAX_ITEMS: nat := 512

  datatype Value =
    | Null
    | Boolean(truth: bool)
    | Number(number: nat)
    | Str(text: bytes)
    | List(values: seq<Value>)
    | Record(fields: seq<Field>)

  datatype Field = Field(key: bytes, value: Value)

  const NULL: bytes := ['n' as byte, 'u' as byte, 'l' as byte, 'l' as byte]
  const TRUE: bytes := ['t' as byte, 'r' as byte, 'u' as byte, 'e' as byte]
  const FALSE: bytes := ['f' as byte, 'a' as byte, 'l' as byte, 's' as byte, 'e' as byte]

  predicate IsBlank(b: byte) {
    b == 0x20 || b == 0x0A || b == 0x0D || b == 0x09
  }

  predicate Gap(s: bytes) {
    forall k :: 0 <= k < |s| ==> IsBlank(s[k])
  }

  predicate Digits(s: bytes) {
    forall k :: 0 <= k < |s| ==> IsDigit(s[k])
  }

  /** Value of a run of digits; leading zeros are allowed. */
  function NumberOf(digits: bytes): nat
    requires Digits(digits)
  {
    if digits == [] then 0
    else NumberOf(digits[..|digits| - 1]) * 10 + (digits[|digits| - 1] as nat - 48)
  }

  predicate IsNumber(token: bytes) {
    token != [] && Digits(token) && NumberOf(token) < U64_LIMIT
  }

  /** The code point of four hexadecimal digits, when it is a Unicode scalar value. */
  function HexScalar(s: bytes): (code: Option<nat>)
    ensures code.Some? ==> IsScalar(code.value) && code.value < 0x1_0000
  {
    if |s| < 4 || !IsHex(s[0]) || !IsHex(s[1]) || !IsHex(s[2]) || !IsHex(s[3]) then None
    else
      var code := HexDigit(s[0]) * 4096 + HexDigit(s[1]) * 256 + HexDigit(s[2]) * 16 + HexDigit(s[3]);
      if IsScalar(code) then Some(code) else None
  }

  /** The text an escape stands for, and how many bytes after the backslash it spans. */
  datatype Escape = Escape(text: bytes, width: nat)

  function EscapeAt(s: bytes): (e: Option<Escape>)
    ensures e.Some? ==> 1 <= e.value.width <= |s|
  {
    if s == [] then None
    else if s[0] == QUOTE || s[0] == ESCAPE || s[0] == '/' as byte then Some(Escape([s[0]], 1))
    else if s[0] == 'b' as byte then Some(Escape([0x08], 1))
    else if s[0] == 'f' as byte then Some(Escape([0x0C], 1))
    else if s[0] == 'n' as byte then Some(Escape([0x0A], 1))
    else if s[0] == 'r' as byte then Some(Escape([0x0D], 1))
    else if s[0] == 't' as byte then Some(Escape([0x09], 1))
    else if s[0] == 'u' as byte then
      match HexScalar(s[1..])
      case None => None
      case Some(code) => Some(Escape(EncodeScalar(code), 5))
    else None
  }

  /** The bytes a string body stands for, before they are checked to be UTF-8. */
  function DecodeBody(raw: bytes): Option<bytes> {
    if raw == [] then Some([])
    else if raw[0] == ESCAPE then
      match EscapeAt(raw[1..])
      case None => None
      case Some(e) => Prepend(e.text, DecodeBody(raw[1 + e.width..]))
    else if raw[0] == QUOTE || raw[0] < 0x20 then None
    else Prepend([raw[0]], DecodeBody(raw[1..]))
  }

  function Prepend(text: bytes, rest: Option<bytes>): Option<bytes> {
    match rest
    case None => None
    case Some(tail) => Some(text + tail)
  }

  predicate IsText(raw: bytes) {
    DecodeBody(raw).Some? && ValidUtf8(DecodeBody(raw).value)
  }

  predicate InDialect(t: Tree)
    decreases t, 0
  {
    match t
    case Atom(token) => token == NULL || token == TRUE || token == FALSE || IsNumber(token)
    case Text(raw) => IsText(raw)
    case EmptyArray(gap) => Gap(gap)
    case Array(elements) => ElementsInDialect(elements)
    case EmptyObject(gap) => Gap(gap)
    case Object(members) => MembersInDialect(members) && UniqueKeys(FieldsOf(members))
  }

  predicate ElementsInDialect(es: Elements)
    decreases es, 0
  {
    Gap(es.before) && Gap(es.after) && InDialect(es.value)
    && (es.MoreElements? ==> ElementsInDialect(es.rest))
  }

  predicate MembersInDialect(ms: Members)
    decreases ms, 0
  {
    Gap(ms.before) && IsText(ms.key) && Gap(ms.colonGap) && Gap(ms.valueGap) && Gap(ms.after)
    && InDialect(ms.value)
    && (ms.MoreMembers? ==> MembersInDialect(ms.rest))
  }

  predicate UniqueKeys(fields: seq<Field>) {
    forall i, j :: 0 <= i < j < |fields| ==> fields[i].key != fields[j].key
  }

  /** The value a tree of the dialect stands for. */
  function Meaning(t: Tree): Value
    requires InDialect(t)
    decreases t, 1
  {
    match t
    case Atom(token) =>
      if token == NULL then Null
      else if token == TRUE then Boolean(true)
      else if token == FALSE then Boolean(false)
      else Number(NumberOf(token))
    case Text(raw) => Str(DecodeBody(raw).value)
    case EmptyArray(_) => List([])
    case Array(elements) => List(ValuesOf(elements))
    case EmptyObject(_) => Record([])
    case Object(members) => Record(FieldsOf(members))
  }

  function ValuesOf(es: Elements): seq<Value>
    requires ElementsInDialect(es)
    decreases es, 1
  {
    [Meaning(es.value)] + if es.MoreElements? then ValuesOf(es.rest) else []
  }

  function FieldsOf(ms: Members): seq<Field>
    requires MembersInDialect(ms)
    decreases ms, 1
  {
    [Field(DecodeBody(ms.key).value, Meaning(ms.value))] + if ms.MoreMembers? then FieldsOf(ms.rest) else []
  }

  /** A whole text of the dialect: one tree within the two bounds, between blanks. */
  ghost predicate IsDocument(input: bytes, lead: bytes, t: Tree, trail: bytes) {
    && Gap(lead) && Gap(trail) && InDialect(t)
    && Depth(t) <= MAX_DEPTH && Items(t) <= MAX_ITEMS
    && input == lead + Write(t, trail)
  }
}
