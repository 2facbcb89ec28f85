/** Which error the context reader answers with, on families of texts it must refuse; and what it skips. */
module JsonErrors {
  import opened Bytes
  import opened JsonLayout
  import opened JsonDialect
  import opened JsonScan
  import opened JsonExact
  import opened JsonBounds
  import Guard = JsonGuardScan

  lemma NestOpens(n: nat, rest: bytes)
    requires n > 0
    ensures StartsWith(Write(Nest(n), rest), OPEN_ARRAY)
    ensures Write(Nest(n), rest)[1..] == if n == 1 then [CLOSE_ARRAY] + rest else Write(Nest(n - 1), [CLOSE_ARRAY] + rest)
  {
    if n > 1 {
      var inner := Write(Nest(n - 1), [] + ([CLOSE_ARRAY] + rest));
      assert [] + ([CLOSE_ARRAY] + rest) == [CLOSE_ARRAY] + rest;
      assert Write(Nest(n), rest) == [OPEN_ARRAY] + ([] + inner);
    }
  }

  lemma SkipNothing(s: bytes)
    requires s != [] && !IsBlank(s[0])
    ensures Skip(s) == s
  {}

  lemma {:induction false} NestRefused(n: nat, rest: bytes, depth: nat, items: nat)
    requires n > 0 && depth <= 32 && depth + n > 32 && items + (32 - depth) <= 512
    ensures ValueAt(Write(Nest(n), rest), depth, items) == Fail(TooDeep)
  {
    hide Write, Skip;
    var u := Write(Nest(n), rest);
    NestOpens(n, rest);
    SkipNothing(u);
    if depth < 32 {
      NestOpens(n - 1, [CLOSE_ARRAY] + rest);
      SkipNothing(u[1..]);
      NestRefused(n - 1, [CLOSE_ARRAY] + rest, depth + 1, items + 1);
      assert ElementsAt(u[1..], depth + 1, items, []) == Fail(TooDeep);
    }
    assert ArrayAt(u, depth, items) == Fail(TooDeep);
  }

  lemma ZeroReads(rest: bytes, depth: nat, items: nat)
    requires Ends(rest)
    ensures ValueAt(['0' as byte] + rest, depth, items) == Done(Number(0), rest, items)
  {
    hide NumberAt;
    var zero := ['0' as byte];
    ZeroIs();
    NumberComplete(zero, rest, items);
    SkipNothing(zero + rest);
  }

  lemma ZeroIs()
    ensures IsNumber(['0' as byte]) && NumberOf(['0' as byte]) == 0
  {
    var zero := ['0' as byte];
    assert zero[..0] == [] && NumberOf([]) == 0;
  }

  lemma ZerosWrite(n: nat, tail: bytes)
    requires n > 0
    ensures WriteElements(Zeros(n), tail)
            == ['0' as byte] + if n == 1 then tail else [COMMA] + WriteElements(Zeros(n - 1), tail)
  {
    var after := if n == 1 then tail else [COMMA] + WriteElements(Zeros(n - 1), tail);
    assert [] + (['0' as byte] + ([] + after)) == ['0' as byte] + after;
  }

  lemma {:induction false} RowRefused(n: nat, tail: bytes, depth: nat, items: nat, acc: seq<Value>)
    requires n > 0 && items <= 512 && items + n > 512
    ensures ElementsAt(WriteElements(Zeros(n), tail), depth, items, acc) == Fail(TooManyItems)
  {
    hide ValueAt, WriteElements, Skip;
    if items < 512 {
      var more := WriteElements(Zeros(n - 1), tail);
      var after := [COMMA] + more;
      ZerosWrite(n, tail);
      assert after[1..] == more;
      SkipNothing(['0' as byte] + after);
      SkipNothing(after);
      ZeroReads(after, depth, items + 1);
      RowRefused(n - 1, tail, depth, items + 1, acc + [Number(0)]);
    }
  }

  /** Too many nested arrays are too deep, and too many elements too many items. */
  lemma BoundsRefused(n: nat)
    ensures n > 32 ==> Parsed(Unparse(Nest(n))) == Err(TooDeep)
    ensures n > 512 ==> Parsed(Unparse(Row(n))) == Err(TooManyItems)
  {
    if n > 32 {
      NestRefused(n, [], 0, 0);
    }
    if n > 512 {
      RowTextRefused(n);
    }
  }

  lemma RowTextRefused(n: nat)
    requires n > 512
    ensures Parsed(Unparse(Row(n))) == Err(TooManyItems)
  {
    hide ElementsAt, WriteElements, Skip;
    var tail := [CLOSE_ARRAY] + [];
    var s := WriteElements(Zeros(n), tail);
    var u := Unparse(Row(n));
    assert u == [OPEN_ARRAY] + s && u[1..] == s;
    ZerosWrite(n, tail);
    SkipNothing(u);
    SkipNothing(s);
    RowRefused(n, tail, 1, 0, []);
    assert ArrayAt(u, 0, 0) == Fail(TooManyItems);
  }

  /** A key that was read before is refused as a duplicate, whatever follows it and however it is spelled. */
  lemma KeyRefused(gap: bytes, key: bytes, rest: bytes, depth: nat, items: nat, acc: seq<Field>)
    requires Gap(gap) && IsText(key) && HasKey(acc, DecodeBody(key).value) && items < 512
    ensures MembersAt(gap + Quoted(key, rest), depth, items, acc) == Fail(DuplicateKey)
  {
    hide DecodeBody, ValueAt;
    SkipToHead(gap, Quoted(key, rest));
    StringComplete(key, rest, items + 1);
  }

  /** Anything but blanks after a whole document is trailing. */
  lemma TrailingRefused(lead: bytes, t: Tree, trail: bytes, junk: bytes)
    requires Gap(lead) && Gap(trail) && InDialect(t) && Depth(t) <= 32 && Items(t) <= 512
    requires junk != [] && !IsBlank(junk[0]) && Ends(trail + junk)
    ensures Parsed(lead + Write(t, trail + junk)) == Err(TrailingBytes)
  {
    hide ValueAt, InDialect, Meaning, Write;
    ValueComplete(lead, t, trail + junk, 0, 0);
    SkipToHead(trail, junk);
  }

  // ---- What is skipped ----

  /** A byte in front of a text changes nothing exactly when it is one of the four blanks. */
  lemma BlanksExactly(b: byte)
    ensures b == 0x20 || b == 0x0A || b == 0x0D || b == 0x09
            <==> forall text :: Parsed([b] + text) == Parsed(text)
  {
    if b == 0x20 || b == 0x0A || b == 0x0D || b == 0x09 {
      forall text ensures Parsed([b] + text) == Parsed(text) {
        assert ([b] + text)[1..] == text;
        assert Skip([b] + text) == Skip(text);
      }
    } else {
      NullReads();
      NotNull(b);
    }
  }

  lemma NullReads()
    ensures Parsed(NULL) == Ok(Null)
  {
    assert NULL[4..] == [];
  }

  lemma NotNull(b: byte)
    requires !IsBlank(b)
    ensures Parsed([b] + NULL) != Ok(Null)
  {
    hide ValueAt;
    var input := [b] + NULL;
    if Parsed(input) == Ok(Null) {
      var lead, t, trail := ParsedIsDocument(input);
      NullTree(lead, t, trail, b);
    }
  }

  lemma NullTree(lead: bytes, t: Tree, trail: bytes, b: byte)
    requires Gap(lead) && InDialect(t) && Meaning(t) == Null && [b] + NULL == lead + Write(t, trail)
    ensures IsBlank(b)
  {
    assert t == Atom(NULL);
    var input := [b] + NULL;
    assert |lead| + 4 + |trail| == 5;
    assert input[1] == 'n' as byte;
    assert input[|lead| + 1] == (NULL + trail)[1] == 'u' as byte;
    if lead != [] {
      assert input[0] == lead[0];
    }
  }

  /** The management API's scan skips those four and the form feed. */
  lemma SpacesSkipped(b: byte, text: bytes, decode: Guard.Decoder)
    requires b == 0x20 || b == 0x0A || b == 0x0D || b == 0x09 || b == 0x0C
    ensures Guard.Scan([b] + text, decode) == Guard.Scan(text, decode)
  {
    assert ([b] + text)[1..] == text;
    assert Guard.Space([b] + text) == Guard.Space(text);
  }

  /** And nothing else: an empty array behind any other byte is no text. */
  lemma OthersRefused(b: byte, decode: Guard.Decoder)
    requires b != 0x20 && b != 0x0A && b != 0x0D && b != 0x09 && b != 0x0C
    ensures Guard.Scan([b, OPEN_ARRAY, CLOSE_ARRAY], decode).Err?
  {
    var s := [b, OPEN_ARRAY, CLOSE_ARRAY];
    assert Guard.Space(s) == s;
    assert s[1..] == [OPEN_ARRAY, CLOSE_ARRAY] && s[2..] == [CLOSE_ARRAY] && s[3..] == [];
    assert s[1..][1..] == s[2..] && s[2..][1..] == s[3..];
    if b == OPEN_ARRAY {
      InnerRead(decode);
      assert Guard.ArrayAt(s, 1, decode).Refused?;
    } else if b == OPEN_OBJECT {
      assert Guard.Space(s[1..]) == s[1..];
      assert Guard.MembersAt(s[1..], 1, {}, decode).Refused?;
      assert Guard.ObjectAt(s, 1, decode).Refused?;
    } else if b == QUOTE {
      assert Guard.Close(s[1..], false) == Guard.Close(s[2..], false) == Guard.Close(s[3..], false) == None;
    } else {
      assert Guard.PrimitiveEnd(s[2..]) == s[2..];
      assert s[1..][1..] == s[2..] && Guard.PrimitiveEnd(s[1..]) == s[2..];
      assert Guard.Space(s[2..]) == s[2..];
    }
  }

  lemma InnerRead(decode: Guard.Decoder)
    ensures Guard.ValueAt([OPEN_ARRAY, CLOSE_ARRAY], 1, decode) == Guard.Read((), [])
    ensures Guard.ElementsAt([OPEN_ARRAY, CLOSE_ARRAY], 1, 0, decode).Refused?
  {
    var inner := [OPEN_ARRAY, CLOSE_ARRAY];
    assert Guard.Space(inner) == inner && inner[1..] == [CLOSE_ARRAY];
    assert Guard.Space(inner[1..]) == inner[1..] && inner[1..][1..] == [];
  }
}
