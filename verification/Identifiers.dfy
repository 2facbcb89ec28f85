/** The identifier and digest shapes every component checks before it uses a name. */
module Identifiers {
  import opened Bytes

  const MAX_SAFE_INTEGER: nat := 9_007_199_254_740_991

  predicate IsAlphanumeric(b: byte) {
    '0' as byte <= b <= '9' as byte || 'A' as byte <= b <= 'Z' as byte || 'a' as byte <= b <= 'z' as byte
  }

  predicate IsPunctuation(b: byte) {
    b == '.' as byte || b == '_' as byte || b == ':' as byte || b == '-' as byte
  }

  /** 1 to 128 bytes: a letter or digit, then letters, digits and a little punctuation. */
  predicate ValidId(s: bytes) {
    && 1 <= |s| <= 128
    && IsAlphanumeric(s[0])
    && forall k :: 0 < k < |s| ==> IsAlphanumeric(s[k]) || IsPunctuation(s[k])
  }

  type Id = bytes

  /** What a console, a grant and an owner all scope their records by. */
  datatype Scope = Scope(projectId: Id, runId: Id, episodeId: Id, agentId: Id)

  predicate ValidScope(s: Scope) {
    ValidId(s.projectId) && ValidId(s.runId) && ValidId(s.episodeId) && ValidId(s.agentId)
  }

  predicate IsLowerHex(b: byte) {
    '0' as byte <= b <= '9' as byte || 'a' as byte <= b <= 'f' as byte
  }

  /** A SHA-256 digest in lower-case hexadecimal. */
  predicate ValidDigest(s: bytes) {
    |s| == 64 && forall k :: 0 <= k < 64 ==> IsLowerHex(s[k])
  }

  // ---- The same, by the characters themselves ----

  const DIGITS: string := "0123456789"
  const LOWER: string := "abcdefghijklmnopqrstuvwxyz"
  const UPPER: string := "ABCDEFGHIJKLMNOPQRSTUVWXYZ"

  predicate Among(b: byte, chars: string) {
    exists k :: 0 <= k < |chars| && chars[k] as int == b as int
  }

  lemma AmongDigits(b: byte)
    ensures Among(b, DIGITS) <==> '0' as byte <= b <= '9' as byte
  {
    if '0' as byte <= b <= '9' as byte {
      assert DIGITS[b as int - 48] as int == b as int;
    }
  }

  lemma AmongLower(b: byte)
    ensures Among(b, LOWER) <==> 'a' as byte <= b <= 'z' as byte
  {
    if 'a' as byte <= b <= 'z' as byte {
      assert LOWER[b as int - 97] as int == b as int;
    }
  }

  lemma AmongUpper(b: byte)
    ensures Among(b, UPPER) <==> 'A' as byte <= b <= 'Z' as byte
  {
    if 'A' as byte <= b <= 'Z' as byte {
      assert UPPER[b as int - 65] as int == b as int;
    }
  }

  /** An identifier is a letter or digit and up to 127 more, dots, underscores, colons and hyphens among them. */
  lemma IdExactly(s: bytes)
    ensures ValidId(s)
            <==> && s != [] && |s| <= 128
                 && (Among(s[0], DIGITS) || Among(s[0], LOWER) || Among(s[0], UPPER))
                 && forall k :: 0 < k < |s|
                                ==> Among(s[k], DIGITS) || Among(s[k], LOWER) || Among(s[k], UPPER) || Among(s[k], "._:-")
  {
    hide Among;
    forall k | 0 <= k < |s|
      ensures IsAlphanumeric(s[k]) <==> Among(s[k], DIGITS) || Among(s[k], LOWER) || Among(s[k], UPPER)
      ensures IsPunctuation(s[k]) <==> Among(s[k], "._:-")
    {
      AmongDigits(s[k]);
      AmongLower(s[k]);
      AmongUpper(s[k]);
      AmongPunctuation(s[k]);
    }
  }

  lemma AmongPunctuation(b: byte)
    ensures Among(b, "._:-") <==> b == 0x2E || b == 0x5F || b == 0x3A || b == 0x2D
  {
    var chars := "._:-";
    assert chars[0] as int == 0x2E && chars[1] as int == 0x5F && chars[2] as int == 0x3A && chars[3] as int == 0x2D;
  }

  /** A digest is 64 digits, the letters in lower case. */
  lemma DigestExactly(s: bytes)
    ensures ValidDigest(s) <==> |s| == 64 && forall k :: 0 <= k < |s| ==> Among(s[k], DIGITS) || Among(s[k], "abcdef")
  {
    hide Among;
    forall k | 0 <= k < |s| ensures IsLowerHex(s[k]) <==> Among(s[k], DIGITS) || Among(s[k], "abcdef") {
      AmongDigits(s[k]);
      AmongHexLetters(s[k]);
    }
  }

  lemma AmongHexLetters(b: byte)
    ensures Among(b, "abcdef") <==> 'a' as byte <= b <= 'f' as byte
  {
    var chars := "abcdef";
    if 'a' as byte <= b <= 'f' as byte {
      assert chars[b as int - 97] as int == b as int;
    }
  }
}
