/**
 How the two hand-written JSON scanners of the repository relate: a text the context reader parses
 passes the management API's bounds scan exactly when none of its arrays is over that scan's limit.
 */
module JsonAgreement {
  import opened Bytes
  import opened JsonLayout
  import opened JsonDialect
  import JsonScan
  import JsonExact
  import Guard = JsonGuardScan
  import JsonGuardExact

  /** Strings of the dialect decode to what the dialect says they mean. */
  ghost predicate DecodesDialect(decode: Guard.Decoder) {
    forall raw :: IsText(raw) ==> decode(Quoted(raw, [])) == DecodeBody(raw)
  }

  predicate SmallArrays(t: Tree)
    decreases t, 0
  {
    && (t.Array? ==> Guard.Count(t.elements) <= Guard.MAX_ARRAY && SmallElements(t.elements))
    && (t.Object? ==> SmallMembers(t.members))
  }

  predicate SmallElements(es: Elements)
    decreases es, 0
  {
    SmallArrays(es.value) && (es.MoreElements? ==> SmallElements(es.rest))
  }

  predicate SmallMembers(ms: Members)
    decreases ms, 0
  {
    SmallArrays(ms.value) && (ms.MoreMembers? ==> SmallMembers(ms.rest))
  }

  lemma {:induction false} PlainRun(raw: bytes, n: nat)
    requires n <= |raw| && Guard.Unquoted(raw[n..], false)
    requires forall k :: 0 <= k < n ==> raw[k] != QUOTE && raw[k] != ESCAPE
    ensures Guard.Unquoted(raw, false)
  {
    if n > 0 {
      assert raw[1..][n - 1..] == raw[n..];
      PlainRun(raw[1..], n - 1);
    } else {
      assert raw[0..] == raw;
    }
  }

  lemma {:induction false} TextUnquoted(raw: bytes)
    requires DecodeBody(raw).Some?
    ensures Guard.Unquoted(raw, false)
  {
    if raw != [] {
      if raw[0] == ESCAPE {
        var e := EscapeAt(raw[1..]).value;
        var rest := raw[2..];
        assert raw[1..][1..] == rest && rest[e.width - 1..] == raw[1 + e.width..];
        TextUnquoted(raw[1 + e.width..]);
        PlainRun(rest, e.width - 1);
      } else {
        TextUnquoted(raw[1..]);
      }
    }
  }

  lemma {:induction false} DialectWritten(t: Tree, decode: Guard.Decoder)
    requires InDialect(t) && DecodesDialect(decode)
    ensures Guard.Written(t, decode)
    decreases t, 0
  {
    match t
    case Atom(_) =>
    case Text(raw) => TextUnquoted(raw);
    case EmptyArray(_) =>
    case Array(es) => DialectElementsWritten(es, decode);
    case EmptyObject(_) =>
    case Object(ms) => DialectMembersWritten(ms, decode);
  }

  lemma {:induction false} DialectElementsWritten(es: Elements, decode: Guard.Decoder)
    requires ElementsInDialect(es) && DecodesDialect(decode)
    ensures Guard.ElementsWritten(es, decode)
    decreases es, 0
  {
    DialectWritten(es.value, decode);
    if es.MoreElements? {
      DialectElementsWritten(es.rest, decode);
    }
  }

  lemma {:induction false} DialectMembersWritten(ms: Members, decode: Guard.Decoder)
    requires MembersInDialect(ms) && DecodesDialect(decode)
    ensures Guard.MembersWritten(ms, decode)
    ensures |Guard.KeysOf(ms, decode)| == |FieldsOf(ms)|
    ensures forall k :: 0 <= k < |FieldsOf(ms)| ==> Guard.KeysOf(ms, decode)[k] == FieldsOf(ms)[k].key
    decreases ms, 0
  {
    TextUnquoted(ms.key);
    DialectWritten(ms.value, decode);
    if ms.MoreMembers? {
      DialectMembersWritten(ms.rest, decode);
    }
  }

  lemma {:induction false} DialectBounded(t: Tree, depth: nat, decode: Guard.Decoder)
    requires InDialect(t) && Guard.Written(t, decode) && DecodesDialect(decode)
    requires depth + Depth(t) <= Guard.MAX_GUARD_DEPTH
    ensures Guard.Bounded(t, depth, decode) <==> SmallArrays(t)
    decreases t, 0
  {
    match t
    case Array(es) => DialectElementsBounded(es, depth + 1, decode);
    case Object(ms) =>
      DialectMembersWritten(ms, decode);
      DialectMembersBounded(ms, depth + 1, decode);
    case _ =>
  }

  lemma {:induction false} DialectElementsBounded(es: Elements, depth: nat, decode: Guard.Decoder)
    requires ElementsInDialect(es) && Guard.ElementsWritten(es, decode) && DecodesDialect(decode)
    requires depth + ElementsDepth(es) <= Guard.MAX_GUARD_DEPTH
    ensures Guard.ElementsBounded(es, depth, decode) <==> SmallElements(es)
    decreases es, 0
  {
    DialectBounded(es.value, depth, decode);
    if es.MoreElements? {
      DialectElementsBounded(es.rest, depth, decode);
    }
  }

  lemma {:induction false} DialectMembersBounded(ms: Members, depth: nat, decode: Guard.Decoder)
    requires MembersInDialect(ms) && Guard.MembersWritten(ms, decode) && DecodesDialect(decode)
    requires depth + MembersDepth(ms) <= Guard.MAX_GUARD_DEPTH
    ensures Guard.MembersBounded(ms, depth, decode) <==> SmallMembers(ms)
    decreases ms, 0
  {
    DialectBounded(ms.value, depth, decode);
    if ms.MoreMembers? {
      DialectMembersBounded(ms.rest, depth, decode);
    }
  }

  /** A text the reader parses passes the scan unless one of its arrays has more than 256 elements. */
  lemma ParsedPassesGuard(input: bytes, lead: bytes, t: Tree, trail: bytes, decode: Guard.Decoder)
    requires DecodesDialect(decode) && IsDocument(input, lead, t, trail)
    ensures JsonScan.Parsed(input) == Ok(Meaning(t))
    ensures Guard.Scan(input, decode).Ok? <==> SmallArrays(t)
  {
    hide Guard.Bounded, InDialect, Guard.Written, Meaning;
    JsonExact.DocumentParses(input, lead, t, trail);
    DialectWritten(t, decode);
    DialectBounded(t, 0, decode);
    JsonGuardExact.ScanVerdict(input, lead, t, trail, decode);
  }

  const FORM_FEED: byte := 0x0C

  /** A form feed in front of a text is nothing to the scan, and no text at all to the reader. */
  lemma FormFeedSkipped(text: bytes, decode: Guard.Decoder)
    ensures Guard.Scan([FORM_FEED] + text, decode) == Guard.Scan(text, decode)
    ensures JsonScan.Parsed([FORM_FEED] + text).Err?
  {
    var input := [FORM_FEED] + text;
    assert input[1..] == text;
    assert Guard.Space(input) == Guard.Space(text);
    assert JsonScan.Skip(input) == input;
  }
}
