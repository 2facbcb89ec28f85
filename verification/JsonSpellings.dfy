/**
 Three ways to write a string body (RFC 8259, section 7), and what each of them reads back as: no more
 escapes than needed, an escape of two characters wherever there is one, and four hexadecimal digits
 of either case for every character that four digits can name.
 */
module JsonSpellings {
  import opened Bytes
  import opened Utf8
  import opened JsonLayout
  import opened JsonDialect
  import opened JsonExact

  const UPPER_HEX: string := "0123456789ABCDEF"
  const LOWER_HEX: string := "0123456789abcdef"

  function HexChar(n: nat, upper: bool): byte
    requires n < 16
  {
    (if upper then UPPER_HEX[n] else LOWER_HEX[n]) as byte
  }

  lemma HexCharReads(n: nat, upper: bool)
    requires n < 16
    ensures IsHex(HexChar(n, upper)) && HexDigit(HexChar(n, upper)) == n
  {}

  /** Which digits are written in upper case, by code point and position. */
  type Cases = (nat, nat) -> bool

  function FourDigits(code: nat, upper: Cases): bytes
    requires code < 0x1_0000
  {
    [HexChar(code / 4096, upper(code, 0)), HexChar(code / 256 % 16, upper(code, 1)),
     HexChar(code / 16 % 16, upper(code, 2)), HexChar(code % 16, upper(code, 3))]
  }

  function ByDigits(code: nat, upper: Cases): bytes
    requires code < 0x1_0000
  {
    [ESCAPE, 'u' as byte] + FourDigits(code, upper)
  }

  // ---- The spellings ----

  /** How a string body is written. */
  type Writer = bytes -> bytes

  /** What it writes for a text is a string body that stands for it. */
  ghost predicate Spells(w: Writer) {
    forall text :: ValidUtf8(text) ==> DecodeBody(w(text)) == Some(text)
  }

  function PlainByte(b: byte): bytes {
    if b == QUOTE || b == ESCAPE || b < 0x20 then ByDigits(b as nat, (_, _) => false) else [b]
  }

  /** Only what must be escaped is, in four digits. */
  function Plainest(text: bytes): bytes {
    if text == [] then [] else PlainByte(text[0]) + Plainest(text[1..])
  }

  /** The two characters for a byte, where section 7 has them. */
  function ShortByte(b: byte): bytes {
    match b as nat
    case 0x22 => [ESCAPE, QUOTE]
    case 0x5C => [ESCAPE, ESCAPE]
    case 0x2F => [ESCAPE, '/' as byte]
    case 0x08 => [ESCAPE, 'b' as byte]
    case 0x0C => [ESCAPE, 'f' as byte]
    case 0x0A => [ESCAPE, 'n' as byte]
    case 0x0D => [ESCAPE, 'r' as byte]
    case 0x09 => [ESCAPE, 't' as byte]
    case _ => PlainByte(b)
  }

  function Shortest(text: bytes): bytes {
    if text == [] then [] else ShortByte(text[0]) + Shortest(text[1..])
  }

  /** Every character below U+10000 in four digits, the others as they are; up to what is no character. */
  function InDigits(text: bytes, upper: Cases): bytes {
    if HeadWidth(text) == 0 then []
    else
      var w := HeadWidth(text);
      var code := DecodeHead(text);
      (if code < 0x1_0000 then ByDigits(code, upper) else text[..w]) + InDigits(text[w..], upper)
  }

  // ---- What they read back as ----

  lemma FourDigitsName(code: nat, upper: Cases)
    requires IsScalar(code) && code < 0x1_0000
    ensures HexScalar(FourDigits(code, upper)) == Some(code)
  {
    hide HexChar, HexDigit, IsHex;
    HexCharReads(code / 4096, upper(code, 0));
    HexCharReads(code / 256 % 16, upper(code, 1));
    HexCharReads(code / 16 % 16, upper(code, 2));
    HexCharReads(code % 16, upper(code, 3));
    FourNibbles(code);
  }

  lemma FourNibbles(code: nat)
    requires code < 0x1_0000
    ensures code / 4096 < 16
    ensures code == code / 4096 * 4096 + code / 256 % 16 * 256 + code / 16 % 16 * 16 + code % 16
  {
    Div16(code);
    var a, b, c := code / 16, code / 256, code / 4096;
    assert code == 16 * a + code % 16 && a == 16 * b + a % 16 && b == 16 * c + b % 16;
  }

  lemma ByDigitsReads(code: nat, upper: Cases, body: bytes)
    requires IsScalar(code) && code < 0x1_0000
    ensures DecodeBody(ByDigits(code, upper) + body) == Prepend(EncodeScalar(code), DecodeBody(body))
  {
    hide DecodeBody, HexScalar, EncodeScalar, FourDigits;
    var escape := ['u' as byte] + FourDigits(code, upper);
    assert escape[1..] == FourDigits(code, upper);
    FourDigitsName(code, upper);
    assert EscapeAt(escape) == Some(Escape(EncodeScalar(code), 5));
    FourLong(code, upper);
    assert ByDigits(code, upper) == [ESCAPE] + escape;
    DecodeEscape(escape, body);
  }

  lemma FourLong(code: nat, upper: Cases)
    requires code < 0x1_0000
    ensures |FourDigits(code, upper)| == 4
  {}

  lemma PlainByteReads(b: byte, body: bytes)
    ensures DecodeBody(PlainByte(b) + body) == Prepend([b], DecodeBody(body))
  {
    if PlainByte(b) == [b] {
      DecodePlain(b, body);
    } else {
      ByDigitsReads(b as nat, (_, _) => false, body);
    }
  }

  lemma ShortByteReads(b: byte, body: bytes)
    ensures DecodeBody(ShortByte(b) + body) == Prepend([b], DecodeBody(body))
  {
    var written := ShortByte(b);
    if written == PlainByte(b) {
      PlainByteReads(b, body);
    } else {
      assert EscapeAt(written[1..]) == Some(Escape([b], 1));
      assert written == [ESCAPE] + written[1..];
      DecodeEscape(written[1..], body);
    }
  }

  lemma {:induction false} PlainestReads(text: bytes)
    ensures DecodeBody(Plainest(text)) == Some(text)
  {
    if text != [] {
      PlainestReads(text[1..]);
      PlainByteReads(text[0], Plainest(text[1..]));
      assert [text[0]] + text[1..] == text;
    }
  }

  lemma {:induction false} ShortestReads(text: bytes)
    ensures DecodeBody(Shortest(text)) == Some(text)
  {
    if text != [] {
      ShortestReads(text[1..]);
      ShortByteReads(text[0], Shortest(text[1..]));
      assert [text[0]] + text[1..] == text;
    }
  }

  lemma {:induction false} PlainBytesRead(high: bytes, body: bytes)
    requires DecodeBody(body).Some? && forall k :: 0 <= k < |high| ==> high[k] >= 0x80
    ensures DecodeBody(high + body) == Some(high + DecodeBody(body).value)
  {
    hide DecodeBody;
    if high == [] {
      assert high + body == body && high + DecodeBody(body).value == DecodeBody(body).value;
    } else {
      PlainBytesRead(high[1..], body);
      DecodePlain(high[0], high[1..] + body);
      assert high == [high[0]] + high[1..];
      Assoc([high[0]], high[1..], body);
      Assoc([high[0]], high[1..], DecodeBody(body).value);
    }
  }

  lemma {:induction false} InDigitsReads(text: bytes, upper: Cases)
    requires ValidUtf8(text)
    ensures DecodeBody(InDigits(text, upper)) == Some(text)
  {
    hide DecodeBody, HeadWidth, DecodeHead, EncodeScalar, ByDigits;
    if text == [] {
      NothingDecoded();
    } else {
      var w := HeadWidth(text);
      var code := DecodeHead(text);
      var more := InDigits(text[w..], upper);
      InDigitsReads(text[w..], upper);
      EncodeDecode(text);
      if code < 0x1_0000 {
        ByDigitsReads(code, upper, more);
      } else {
        PlainBytesRead(text[..w], more);
      }
      assert text[..w] + text[w..] == text;
    }
  }

  /** All three spell every text, whatever the case of the digits. */
  lemma SpellingsSpell(upper: Cases)
    ensures Spells(Plainest) && Spells(Shortest) && Spells(text => InDigits(text, upper))
  {
    forall text | ValidUtf8(text)
      ensures DecodeBody(Plainest(text)) == DecodeBody(Shortest(text)) == DecodeBody(InDigits(text, upper)) == Some(text)
    {
      PlainestReads(text);
      ShortestReads(text);
      InDigitsReads(text, upper);
    }
  }

  // ---- Every escape is one of these ----

  /** What is written after a backslash, and the text it stands for. */
  ghost predicate EscapeOf(written: bytes, text: bytes) {
    || (exists b :: [ESCAPE] + written == ShortByte(b) && |written| == 1 && text == [b])
    || (exists code, upper :: && IsScalar(code) && code < 0x1_0000 && [ESCAPE] + written == ByDigits(code, upper)
                              && text == EncodeScalar(code))
  }

  lemma HexDigitWrites(b: byte)
    requires IsHex(b)
    ensures HexChar(HexDigit(b), 'A' as byte <= b <= 'F' as byte) == b
  {}

  lemma Nibble(q: nat, r: nat)
    requires r < 16
    ensures (q * 16 + r) / 16 == q && (q * 16 + r) % 16 == r
  {}

  lemma Div16(n: nat)
    ensures n / 16 / 16 == n / 256 && n / 256 / 16 == n / 4096
  {}

  lemma Nibbles(a: nat, b: nat, c: nat, d: nat)
    requires a < 16 && b < 16 && c < 16 && d < 16
    ensures var n := a * 4096 + b * 256 + c * 16 + d;
            n / 4096 == a && n / 256 % 16 == b && n / 16 % 16 == c && n % 16 == d
  {
    Div16(a * 4096 + b * 256 + c * 16 + d);
    Nibble(a * 256 + b * 16 + c, d);
    Nibble(a * 16 + b, c);
    Nibble(a, b);
  }

  lemma DigitsWrite(s: bytes) returns (upper: Cases)
    requires HexScalar(s).Some?
    ensures FourDigits(HexScalar(s).value, upper) == s[..4]
  {
    hide HexChar, HexDigit, IsHex;
    var code := HexScalar(s).value;
    upper := (_, k: nat) => k < 4 && 'A' as byte <= s[k] <= 'F' as byte;
    Nibbles(HexDigit(s[0]), HexDigit(s[1]), HexDigit(s[2]), HexDigit(s[3]));
    HexDigitWrites(s[0]);
    HexDigitWrites(s[1]);
    HexDigitWrites(s[2]);
    HexDigitWrites(s[3]);
  }

  /** An escape is read exactly when it is one of the eight of two characters, or four digits naming a scalar. */
  lemma EscapeExactly(s: bytes, e: Escape)
    ensures EscapeAt(s) == Some(e) <==> 1 <= e.width <= |s| && EscapeOf(s[..e.width], e.text)
  {
    hide HexScalar, EncodeScalar, ByDigits;
    if EscapeAt(s) == Some(e) {
      EscapeWritten(s);
    }
    if 1 <= e.width <= |s| && EscapeOf(s[..e.width], e.text) {
      EscapeRead(s, e);
    }
  }

  lemma EscapeWritten(s: bytes)
    requires EscapeAt(s).Some?
    ensures EscapeOf(s[..EscapeAt(s).value.width], EscapeAt(s).value.text)
  {
    hide EncodeScalar, HexScalar;
    var e := EscapeAt(s).value;
    var written := s[..e.width];
    if s[0] == 'u' as byte {
      var upper := DigitsWrite(s[1..]);
      assert written == ['u' as byte] + s[1..][..4];
      assert [ESCAPE] + written == ByDigits(HexScalar(s[1..]).value, upper);
    } else {
      assert written == [s[0]];
      assert [ESCAPE] + written == ShortByte(e.text[0]);
    }
  }

  lemma EscapeRead(s: bytes, e: Escape)
    requires 1 <= e.width <= |s| && EscapeOf(s[..e.width], e.text)
    ensures EscapeAt(s) == Some(e)
  {
    hide EncodeScalar, HexScalar, ByDigits, ShortByte, EscapeAt;
    var whole := [ESCAPE] + s[..e.width];
    if b :| whole == ShortByte(b) && e.width == 1 && e.text == [b] {
      ShortRead(s, b);
    } else {
      var code, upper :| && IsScalar(code) && code < 0x1_0000 && whole == ByDigits(code, upper)
                         && e.text == EncodeScalar(code);
      DigitsRead(s, e.width, code, upper);
    }
  }

  lemma ShortRead(s: bytes, b: byte)
    requires s != [] && [ESCAPE] + s[..1] == ShortByte(b)
    ensures EscapeAt(s) == Some(Escape([b], 1))
  {
    assert s[0] == ([ESCAPE] + s[..1])[1];
  }

  lemma DigitsRead(s: bytes, width: nat, code: nat, upper: Cases)
    requires width <= |s| && IsScalar(code) && code < 0x1_0000 && [ESCAPE] + s[..width] == ByDigits(code, upper)
    ensures EscapeAt(s) == Some(Escape(EncodeScalar(code), width))
  {
    hide EncodeScalar, HexScalar, FourDigits;
    var written := s[..width];
    FourDigitsName(code, upper);
    FourLong(code, upper);
    assert ([ESCAPE] + written)[1..] == written && ByDigits(code, upper)[1..] == ['u' as byte] + FourDigits(code, upper);
    assert written[1..] == FourDigits(code, upper);
    EscapeLocal(written, s[width..]);
    assert written[..5] == written && written + s[width..] == s;
  }
}
