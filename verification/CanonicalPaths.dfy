/**
 What the checks of the owner seam look for, by the places of a value: everything that can be reached
 from its root, member by member and element by element.
 */
module CanonicalPaths {
  import opened Bytes
  import opened Identifiers
  import opened CanonicalValue

  function Children(v: Value): seq<Value> {
    match v
    case List(values) => values
    case Record(fields) => seq(|fields|, i requires 0 <= i < |fields| => fields[i].value)
    case _ => []
  }

  /** The value that stands at the end of a path of member and element positions. */
  predicate At(v: Value, path: seq<nat>, w: Value)
    decreases |path|
  {
    if path == [] then v == w
    else path[0] < |Children(v)| && At(Children(v)[path[0]], path[1..], w)
  }

  lemma AtStep(v: Value, i: nat, path: seq<nat>, w: Value)
    requires i < |Children(v)|
    ensures At(v, [i] + path, w) <==> At(Children(v)[i], path, w)
  {
    assert ([i] + path)[1..] == path;
  }

  // ---- Effects ----

  /** A member that reports at least one call or effect. */
  predicate ReportsEffect(f: Field) {
    && (f.key == Ascii("inference_calls") || f.key == Ascii("native_calls") || f.key == Ascii("game_effects"))
    && f.value.Numeric? && f.value.number.Unsigned? && f.value.number.count >= 1
  }

  predicate HasEffect(w: Value) {
    w.Record? && exists i :: 0 <= i < |w.fields| && ReportsEffect(w.fields[i])
  }

  lemma CountsExactly(f: Field)
    ensures CountsEffect(f) <==> ReportsEffect(f)
  {
    hide Ascii;
    assert EFFECT_FIELDS[0] == "inference_calls" && EFFECT_FIELDS[1] == "native_calls" && EFFECT_FIELDS[2] == "game_effects";
  }

  ghost predicate EffectSomewhere(v: Value) {
    exists path, w :: At(v, path, w) && HasEffect(w)
  }

  /** An effect is counted exactly when some object anywhere in the value reports one. */
  lemma {:induction false} EffectExactly(v: Value)
    ensures NonzeroEffect(v) <==> EffectSomewhere(v)
    decreases v
  {
    hide CountsEffect, ReportsEffect;
    EffectChildren(v);
    if HasEffect(v) {
      assert At(v, [], v);
    }
    forall i | 0 <= i < |Children(v)| ensures NonzeroEffect(Children(v)[i]) <==> EffectSomewhere(Children(v)[i]) {
      EffectExactly(Children(v)[i]);
    }
    if i :| 0 <= i < |Children(v)| && EffectSomewhere(Children(v)[i]) {
      var path, w :| At(Children(v)[i], path, w) && HasEffect(w);
      AtStep(v, i, path, w);
    }
    if EffectSomewhere(v) && !HasEffect(v) {
      var path, w :| At(v, path, w) && HasEffect(w);
      assert At(Children(v)[path[0]], path[1..], w);
    }
  }

  lemma EffectChildren(v: Value)
    ensures NonzeroEffect(v)
            <==> HasEffect(v) || exists i :: 0 <= i < |Children(v)| && NonzeroEffect(Children(v)[i])
  {
    hide CountsEffect, ReportsEffect;
    match v
    case Record(fields) =>
      forall i | 0 <= i < |fields| ensures CountsEffect(fields[i]) <==> ReportsEffect(fields[i]) {
        CountsExactly(fields[i]);
      }
      if i :| 0 <= i < |fields| && NonzeroEffect(fields[i].value) {
        assert Children(v)[i] == fields[i].value;
      }
      if i :| 0 <= i < |Children(v)| && NonzeroEffect(Children(v)[i]) {
        assert Children(v)[i] == fields[i].value;
      }
    case List(values) =>
      assert Children(v) == values;
      if i :| 0 <= i < |values| && NonzeroEffect(values[i]) {
        assert NonzeroEffect(Children(v)[i]);
      }
    case _ =>
  }

  // ---- Forbidden members and depth ----

  /** A key that speaks of authorization, unless it is a reference to one and its value an identifier. */
  ghost predicate SpeaksOfAuthorization(k: bytes, value: Value) {
    Contains(k, Ascii("authorization"))
    && !(HasSuffix(k, Ascii("_authorization_ref")) && value.Text? && ValidId(value.text))
  }

  /** A key that speaks of something native, other than the four names that may. */
  ghost predicate SpeaksOfNative(k: bytes) {
    Contains(k, Ascii("native")) && k != Ascii("native_version") && k != Ascii("native_binary_sha256")
    && k != Ascii("native_schema_sha256") && k != Ascii("native_calls")
  }

  predicate SpeaksOfRpc(k: bytes) {
    k == Ascii("raw_rpc") || k == Ascii("rpc") || HasPrefix(k, Ascii("rpc_")) || HasSuffix(k, Ascii("_rpc"))
  }

  /** What must not cross the seam, with the key in lower case. */
  ghost predicate Offends(key: bytes, value: Value) {
    var k := Lower(key);
    || Contains(k, Ascii("credential")) || Contains(k, Ascii("private")) || Contains(k, Ascii("secret"))
    || Contains(k, Ascii("password")) || Contains(k, Ascii("bearer")) || Contains(k, Ascii("token"))
    || Contains(k, Ascii("prompt")) || Contains(k, Ascii("request_bytes")) || Contains(k, Ascii("content_bytes"))
    || SpeaksOfAuthorization(k, value) || SpeaksOfNative(k) || (SpeaksOfRpc(k) && value != Boolean(false))
  }

  /** Only the letters from A to Z change, each to its own small one. */
  lemma LowerAt(s: bytes, i: nat)
    requires i < |s|
    ensures forall n :: 0 <= n < 26 && s[i] as int == UPPER[n] as int ==> Lower(s)[i] as int == LOWER[n] as int
    ensures !Among(s[i], UPPER) ==> Lower(s)[i] == s[i]
  {
    AmongUpper(s[i]);
    forall n | 0 <= n < 26 ensures LOWER[n] as int == UPPER[n] as int + 32 {}
    forall n | 0 <= n < 26 && s[i] as int == UPPER[n] as int ensures 'A' as byte <= s[i] <= 'Z' as byte {
      assert Among(s[i], UPPER);
    }
  }

  lemma ForbiddenExactly(key: bytes, value: Value)
    ensures Forbidden(key, value) <==> Offends(key, value)
  {
    hide Ascii, Contains, HasPrefix, HasSuffix, ValidId, Lower;
    assert SECRET_PARTS[0] == "credential" && SECRET_PARTS[1] == "private" && SECRET_PARTS[2] == "secret";
    assert SECRET_PARTS[3] == "password" && SECRET_PARTS[4] == "bearer" && SECRET_PARTS[5] == "token";
    assert SECRET_PARTS[6] == "prompt" && SECRET_PARTS[7] == "request_bytes" && SECRET_PARTS[8] == "content_bytes";
    assert NATIVE_METADATA[0] == "native_version" && NATIVE_METADATA[1] == "native_binary_sha256";
    assert NATIVE_METADATA[2] == "native_schema_sha256" && NATIVE_METADATA[3] == "native_calls";
  }

  ghost predicate HasOffence(w: Value) {
    w.Record? && exists i :: 0 <= i < |w.fields| && Offends(w.fields[i].key, w.fields[i].value)
  }

  ghost predicate CleanFrom(v: Value, depth: nat) {
    forall path, w :: At(v, path, w) ==> depth + |path| <= 8 && !HasOffence(w)
  }

  lemma ValidChildren(v: Value, depth: nat)
    ensures Validate(v, depth).Ok?
            <==> && depth <= 8 && !HasOffence(v)
                 && forall i :: 0 <= i < |Children(v)| ==> Validate(Children(v)[i], depth + 1).Ok?
  {
    hide Forbidden, Offends, ValidateFields, ValidateValues;
    match v
    case List(values) =>
      ValuesValid(v, 0, depth);
      assert Children(v) == values;
      assert forall i :: 0 <= i < |values| ==> Children(v)[i] == values[i];
    case Record(fields) =>
      FieldsValid(v, 0, depth);
      forall i | 0 <= i < |fields|
        ensures Forbidden(fields[i].key, fields[i].value) <==> Offends(fields[i].key, fields[i].value)
      {
        ForbiddenExactly(fields[i].key, fields[i].value);
      }
      assert forall i :: 0 <= i < |fields| ==> Children(v)[i] == fields[i].value;
    case _ =>
  }

  /** A value passes exactly when nothing in it lies deeper than eight steps and no object in it has a forbidden member. */
  lemma {:induction false} ValidExactly(v: Value, depth: nat)
    ensures Validate(v, depth).Ok? <==> CleanFrom(v, depth)
    decreases v
  {
    hide Validate, HasOffence;
    ValidChildren(v, depth);
    assert At(v, [], v);
    forall i | 0 <= i < |Children(v)|
      ensures Validate(Children(v)[i], depth + 1).Ok? <==> CleanFrom(Children(v)[i], depth + 1)
    {
      ValidExactly(Children(v)[i], depth + 1);
    }
    if Validate(v, depth).Ok? {
      forall path, w | At(v, path, w) ensures depth + |path| <= 8 && !HasOffence(w) {
        if path != [] {
          assert At(Children(v)[path[0]], path[1..], w);
        }
      }
    }
    if CleanFrom(v, depth) {
      forall i | 0 <= i < |Children(v)| ensures CleanFrom(Children(v)[i], depth + 1) {
        forall path, w | At(Children(v)[i], path, w) ensures depth + 1 + |path| <= 8 && !HasOffence(w) {
          AtStep(v, i, path, w);
        }
      }
    }
  }
}
