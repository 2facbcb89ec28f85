/** Escapes and UTF-8: an escape never repairs, and never breaks, the raw bytes around it. */
module JsonStrings {
  import opened Bytes
  import opened Utf8
  import opened JsonLayout
  import opened JsonDialect

  /** The raw runs of a string body: what is left between its escapes, in order. */
  function Runs(raw: bytes): (runs: seq<bytes>)
    ensures runs != []
  {
    if raw == [] then [[]]
    else if raw[0] == ESCAPE && EscapeAt(raw[1..]).Some? then
      [[]] + Runs(raw[1 + EscapeAt(raw[1..]).value.width..])
    else
      var rest := Runs(raw[1..]);
      [[raw[0]] + rest[0]] + rest[1..]
  }

  predicate AllValid(runs: seq<bytes>) {
    forall k :: 0 <= k < |runs| ==> ValidUtf8(runs[k])
  }

  /** What an escape stands for is one whole character. */
  lemma EscapeIsCharacter(s: bytes)
    requires EscapeAt(s).Some?
    ensures var text := EscapeAt(s).value.text; text != [] && HeadWidth(text) == |text| && ValidUtf8(text)
  {
    var text := EscapeAt(s).value.text;
    assert HeadWidth(text) == |text|;
    assert text[|text|..] == [];
  }

  lemma CharacterInside(p: bytes, text: bytes, rest: bytes)
    requires text != [] && HeadWidth(text) == |text| && ValidUtf8(text)
    ensures ValidUtf8(p + (text + rest)) <==> ValidUtf8(p) && ValidUtf8(rest)
  {
    HeadWidthPrefix(text, rest);
    assert (text + rest)[|text|..] == rest;
    if ValidUtf8(p + (text + rest)) {
      ValidSplit(p, text + rest);
    }
    if ValidUtf8(p) && ValidUtf8(rest) {
      ValidConcat(p, text + rest);
    }
  }

  lemma {:induction false} RunsAfter(p: bytes, raw: bytes)
    requires DecodeBody(raw).Some?
    ensures ValidUtf8(p + DecodeBody(raw).value) <==> ValidUtf8(p + Runs(raw)[0]) && AllValid(Runs(raw)[1..])
    decreases |raw|
  {
    if raw == [] {
    } else if raw[0] == ESCAPE {
      var e := EscapeAt(raw[1..]).value;
      var rest := raw[1 + e.width..];
      EscapeIsCharacter(raw[1..]);
      CharacterInside(p, e.text, DecodeBody(rest).value);
      RunsAfter([], rest);
      NothingBefore(DecodeBody(rest).value);
      NothingBefore(Runs(rest)[0]);
      FirstThenRest(Runs(rest));
      assert p + [] == p && Runs(raw)[1..] == Runs(rest);
    } else {
      var rest := raw[1..];
      RunsAfter(p + [raw[0]], rest);
      Assoc(p, [raw[0]], DecodeBody(rest).value);
      Assoc(p, [raw[0]], Runs(rest)[0]);
      assert Runs(raw)[1..] == Runs(rest)[1..];
    }
  }

  lemma NothingBefore(s: bytes)
    ensures [] + s == s
  {}

  lemma FirstThenRest(runs: seq<bytes>)
    requires runs != []
    ensures AllValid(runs) <==> ValidUtf8(runs[0]) && AllValid(runs[1..])
  {
    assert runs == [runs[0]] + runs[1..];
  }

  /** The decoded string is UTF-8 exactly when every raw run between escapes is. */
  lemma DecodedValidExactly(raw: bytes)
    requires DecodeBody(raw).Some?
    ensures IsText(raw) <==> AllValid(Runs(raw))
  {
    RunsAfter([], raw);
    NothingBefore(DecodeBody(raw).value);
    NothingBefore(Runs(raw)[0]);
    FirstThenRest(Runs(raw));
  }
}
