/** Well-formed UTF-8, as the byte grammar of section 4 of RFC 3629 defines it. */
module Utf8 {
  import opened Bytes

  predicate IsScalar(code: nat) {
    code < 0xD800 || 0xE000 <= code < 0x11_0000
  }

  predicate IsContinuation(b: byte) {
    0x80 <= b <= 0xBF
  }

  /** Width of the well-formed character that starts `s`, or zero when there is none. */
  function HeadWidth(s: bytes): (w: nat)
    ensures w <= |s|
    ensures w > 0 ==> !IsContinuation(s[0]) && forall k :: 1 <= k < w ==> IsContinuation(s[k])
  {
    if s == [] then 0
    else if s[0] <= 0x7F then 1
    else if |s| >= 2 && 0xC2 <= s[0] <= 0xDF && IsContinuation(s[1]) then 2
    else if |s| >= 3 && IsTripleLead(s[0], s[1]) && IsContinuation(s[2]) then 3
    else if |s| >= 4 && IsQuadLead(s[0], s[1]) && IsContinuation(s[2]) && IsContinuation(s[3]) then 4
    else 0
  }

  predicate IsTripleLead(first: byte, second: byte) {
    || (first == 0xE0 && 0xA0 <= second <= 0xBF)
    || ((0xE1 <= first <= 0xEC || 0xEE <= first <= 0xEF) && IsContinuation(second))
    || (first == 0xED && 0x80 <= second <= 0x9F)
  }

  predicate IsQuadLead(first: byte, second: byte) {
    || (first == 0xF0 && 0x90 <= second <= 0xBF)
    || (0xF1 <= first <= 0xF3 && IsContinuation(second))
    || (first == 0xF4 && 0x80 <= second <= 0x8F)
  }

  predicate ValidUtf8(s: bytes) {
    s == [] || (HeadWidth(s) > 0 && ValidUtf8(s[HeadWidth(s)..]))
  }

  /** The bytes of one Unicode scalar value. */
  function EncodeScalar(code: nat): (s: bytes)
    requires IsScalar(code)
    ensures 1 <= |s| <= 4 && HeadWidth(s) == |s|
  {
    if code < 0x80 then [code as byte]
    else if code < 0x800 then [(0xC0 + code / 64) as byte, Low(code)]
    else if code < 0x1_0000 then
      [(0xE0 + code / 4096) as byte, Low(code / 64), Low(code)]
    else
      [(0xF0 + code / 262144) as byte, Low(code / 4096), Low(code / 64), Low(code)]
  }

  function Low(code: nat): (b: byte)
    ensures IsContinuation(b) && b as int == 0x80 + code % 64
  {
    (0x80 + code % 64) as byte
  }

  /** The scalar value of the character that starts `s`. */
  function DecodeHead(s: bytes): nat
    requires HeadWidth(s) > 0
  {
    match HeadWidth(s)
    case 1 => s[0] as nat
    case 2 => (s[0] as int - 0xC0) * 64 + Payload(s[1])
    case 3 => (s[0] as int - 0xE0) * 4096 + Payload(s[1]) * 64 + Payload(s[2])
    case _ => (s[0] as int - 0xF0) * 262144 + Payload(s[1]) * 4096 + Payload(s[2]) * 64 + Payload(s[3])
  }

  function Payload(b: byte): (n: nat)
    requires IsContinuation(b)
    ensures n < 64
  {
    b as int - 0x80
  }

  /** Encoding loses nothing: the scalar comes back from its bytes. */
  lemma DecodeEncode(code: nat)
    requires IsScalar(code)
    ensures DecodeHead(EncodeScalar(code)) == code
  {
    if 0x800 <= code < 0x1_0000 {
      assert code == code / 4096 * 4096 + code / 64 % 64 * 64 + code % 64;
    } else if 0x1_0000 <= code {
      assert code == code / 262144 * 262144 + code / 4096 % 64 * 4096 + code / 64 % 64 * 64 + code % 64;
    }
  }

  lemma DivMod(q: nat, r: nat)
    requires r < 64
    ensures (q * 64 + r) / 64 == q && (q * 64 + r) % 64 == r
  {}

  lemma Div64(n: nat)
    ensures n / 64 / 64 == n / 4096 && n / 4096 / 64 == n / 262144
  {}

  lemma EncodeDouble(a: byte, b: byte)
    requires 0xC2 <= a <= 0xDF && IsContinuation(b)
    ensures var code := (a as int - 0xC0) * 64 + Payload(b); 0x80 <= code < 0x800 && EncodeScalar(code) == [a, b]
  {
    DivMod(a as int - 0xC0, Payload(b));
  }

  lemma EncodeTriple(a: byte, b: byte, c: byte)
    requires IsTripleLead(a, b) && IsContinuation(c)
    ensures var code := (a as int - 0xE0) * 4096 + Payload(b) * 64 + Payload(c);
            IsScalar(code) && 0x800 <= code < 0x1_0000 && EncodeScalar(code) == [a, b, c]
  {
    var code := (a as int - 0xE0) * 4096 + Payload(b) * 64 + Payload(c);
    Div64(code);
    DivMod((a as int - 0xE0) * 64 + Payload(b), Payload(c));
    DivMod(a as int - 0xE0, Payload(b));
  }

  lemma EncodeQuad(a: byte, b: byte, c: byte, d: byte)
    requires IsQuadLead(a, b) && IsContinuation(c) && IsContinuation(d)
    ensures var code := (a as int - 0xF0) * 262144 + Payload(b) * 4096 + Payload(c) * 64 + Payload(d);
            0x1_0000 <= code < 0x11_0000 && EncodeScalar(code) == [a, b, c, d]
  {
    var code := (a as int - 0xF0) * 262144 + Payload(b) * 4096 + Payload(c) * 64 + Payload(d);
    Div64(code);
    DivMod((a as int - 0xF0) * 4096 + Payload(b) * 64 + Payload(c), Payload(d));
    DivMod((a as int - 0xF0) * 64 + Payload(b), Payload(c));
    DivMod(a as int - 0xF0, Payload(b));
  }

  /** And a character is the encoding of the scalar it names; one past ASCII has no ASCII byte. */
  lemma EncodeDecode(s: bytes)
    requires HeadWidth(s) > 0
    ensures IsScalar(DecodeHead(s)) && EncodeScalar(DecodeHead(s)) == s[..HeadWidth(s)]
    ensures DecodeHead(s) >= 0x80 ==> forall k :: 0 <= k < HeadWidth(s) ==> s[k] >= 0x80
  {
    hide EncodeScalar;
    match HeadWidth(s)
    case 1 => EncodeSingle(s[0]);
    case 2 => EncodeDouble(s[0], s[1]);
    case 3 => EncodeTriple(s[0], s[1], s[2]);
    case _ => EncodeQuad(s[0], s[1], s[2], s[3]);
  }

  lemma EncodeSingle(a: byte)
    requires a < 0x80
    ensures EncodeScalar(a as nat) == [a]
  {}

  /** UTF-8 texts are exactly the concatenations of encoded scalars. */
  lemma {:induction false} ValidExactly(s: bytes)
    ensures ValidUtf8(s) <==> exists codes :: AllScalars(codes) && s == EncodeAll(codes)
  {
    if ValidUtf8(s) {
      var codes := Scalars(s);
      ScalarsEncode(s);
    }
    forall codes | AllScalars(codes) && s == EncodeAll(codes) ensures ValidUtf8(s) {
      EncodedValid(codes);
    }
  }

  predicate AllScalars(codes: seq<nat>) {
    forall k :: 0 <= k < |codes| ==> IsScalar(codes[k])
  }

  function EncodeAll(codes: seq<nat>): bytes
    requires AllScalars(codes)
  {
    if codes == [] then [] else EncodeScalar(codes[0]) + EncodeAll(codes[1..])
  }

  function Scalars(s: bytes): seq<nat>
    requires ValidUtf8(s)
  {
    if s == [] then [] else [DecodeHead(s)] + Scalars(s[HeadWidth(s)..])
  }

  lemma {:induction false} ScalarsEncode(s: bytes)
    requires ValidUtf8(s)
    ensures AllScalars(Scalars(s)) && EncodeAll(Scalars(s)) == s
  {
    if s != [] {
      ScalarsEncode(s[HeadWidth(s)..]);
      EncodeDecode(s);
      assert Scalars(s)[1..] == Scalars(s[HeadWidth(s)..]);
      assert s == s[..HeadWidth(s)] + s[HeadWidth(s)..];
    }
  }

  lemma {:induction false} EncodedValid(codes: seq<nat>)
    requires AllScalars(codes)
    ensures ValidUtf8(EncodeAll(codes))
  {
    if codes != [] {
      var head, rest := EncodeScalar(codes[0]), EncodeAll(codes[1..]);
      EncodedValid(codes[1..]);
      HeadWidthPrefix(head, rest);
      assert (head + rest)[|head|..] == rest;
    }
  }

  /** The head of a text does not depend on what follows a complete character. */
  lemma HeadWidthPrefix(a: bytes, b: bytes)
    requires HeadWidth(a) > 0
    ensures HeadWidth(a + b) == HeadWidth(a)
  {}

  lemma {:induction false} ValidConcat(a: bytes, b: bytes)
    requires ValidUtf8(a) && ValidUtf8(b)
    ensures ValidUtf8(a + b)
  {
    if a == [] {
      assert a + b == b;
    } else {
      var w := HeadWidth(a);
      HeadWidthPrefix(a, b);
      ValidConcat(a[w..], b);
      assert (a + b)[w..] == a[w..] + b;
    }
  }

  /** A well-formed text can be cut wherever a byte is not a continuation byte. */
  lemma {:induction false} ValidSplit(a: bytes, b: bytes)
    requires ValidUtf8(a + b)
    requires b == [] || !IsContinuation(b[0])
    ensures ValidUtf8(a) && ValidUtf8(b)
  {
    if a == [] {
      assert a + b == b;
    } else {
      var w := HeadWidth(a + b);
      assert b != [] ==> (a + b)[|a|] == b[0];
      assert (a + b)[..w] == a[..w];
      assert HeadWidth(a) == w;
      assert (a + b)[w..] == a[w..] + b;
      ValidSplit(a[w..], b);
    }
  }
}
