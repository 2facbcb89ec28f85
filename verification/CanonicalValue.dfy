/**
 Canonical JSON values of the owner seam: members sorted by key at every depth. Two values have one
 canonical form exactly when they differ only in member order, and no check of the seam can tell
 them apart.
 */
module CanonicalValue {
  import opened Bytes
  import opened Identifiers
  import opened Sorting

  datatype Number = Unsigned(count: u64) | OtherNumber(text: bytes)

  datatype Value =
    | Null
    | Boolean(truth: bool)
    | Numeric(number: Number)
    | Text(text: bytes)
    | List(values: seq<Value>)
    | Record(fields: seq<Field>)

  datatype Field = Field(key: bytes, value: Value)

  // ---- Member order ----

  predicate UniqueKeys(fields: seq<Field>) {
    DistinctKeys(fields, KeyOf)
  }

  /** No object of the value repeats a key: a JSON map never does. */
  predicate WellFormed(v: Value) {
    match v
    case List(values) => forall i :: 0 <= i < |values| ==> WellFormed(values[i])
    case Record(fields) => UniqueKeys(fields) && forall i :: 0 <= i < |fields| ==> WellFormed(fields[i].value)
    case _ => true
  }

  /** The values differ only in the order of members, at any depth. */
  predicate SameUpToOrder(a: Value, b: Value) {
    match (a, b)
    case (List(xs), List(ys)) => |xs| == |ys| && forall i :: 0 <= i < |xs| ==> SameUpToOrder(xs[i], ys[i])
    case (Record(fs), Record(gs)) =>
      |fs| == |gs| && forall i :: 0 <= i < |fs| ==> exists j :: 0 <= j < |gs| && SameField(fs[i], gs[j])
    case _ => a == b
  }

  predicate SameField(f: Field, g: Field) {
    f.key == g.key && SameUpToOrder(f.value, g.value)
  }

  function KeyOf(f: Field): bytes {
    f.key
  }

  function Canonical(v: Value): Value {
    match v
    case List(values) => List(seq(|values|, i requires 0 <= i < |values| => Canonical(values[i])))
    case Record(fields) =>
      Record(Sort(seq(|fields|, i requires 0 <= i < |fields| => Field(fields[i].key, Canonical(fields[i].value))),
                  KeyOf))
    case _ => v
  }

  // ---- Canonical forms ----

  /** The members with canonical values, in their own order. */
  function Mapped(fields: seq<Field>): (r: seq<Field>)
    ensures |r| == |fields| && forall i :: 0 <= i < |r| ==> r[i] == Field(fields[i].key, Canonical(fields[i].value))
  {
    seq(|fields|, i requires 0 <= i < |fields| => Field(fields[i].key, Canonical(fields[i].value)))
  }

  lemma CanonicalRecord(fields: seq<Field>)
    ensures Canonical(Record(fields)) == Record(Sort(Mapped(fields), KeyOf))
    ensures Sorted(Sort(Mapped(fields), KeyOf), KeyOf) && |Sort(Mapped(fields), KeyOf)| == |fields|
    ensures UniqueKeys(fields) ==> UniqueKeys(Sort(Mapped(fields), KeyOf))
    ensures forall f :: f in Sort(Mapped(fields), KeyOf) <==> f in Mapped(fields)
  {
    var mapped := seq(|fields|, i requires 0 <= i < |fields| => Field(fields[i].key, Canonical(fields[i].value)));
    assert mapped == Mapped(fields);
    SortSorts(Mapped(fields), KeyOf);
  }

  /** A value and its canonical form differ only in member order, and the form repeats no key either. */
  lemma {:induction false} CanonicalSame(v: Value)
    requires WellFormed(v)
    ensures SameUpToOrder(v, Canonical(v)) && WellFormed(Canonical(v))
    decreases v
  {
    match v
    case List(values) =>
      forall i | 0 <= i < |values|
        ensures SameUpToOrder(values[i], Canonical(values[i])) && WellFormed(Canonical(values[i]))
      {
        CanonicalSame(values[i]);
      }
    case Record(fields) =>
      CanonicalRecord(fields);
      var sorted := Sort(Mapped(fields), KeyOf);
      forall i | 0 <= i < |fields|
        ensures exists j :: 0 <= j < |sorted| && SameField(fields[i], sorted[j])
        ensures WellFormed(Canonical(fields[i].value))
      {
        CanonicalSame(fields[i].value);
        assert Mapped(fields)[i] in sorted;
        var j :| 0 <= j < |sorted| && sorted[j] == Mapped(fields)[i];
        assert SameField(fields[i], sorted[j]);
      }
      forall j | 0 <= j < |sorted| ensures WellFormed(sorted[j].value) {
        assert sorted[j] in Mapped(fields);
      }
    case _ =>
  }

  /** Values that differ only in member order have one canonical form. */
  lemma {:induction false} SameCanonical(a: Value, b: Value)
    requires WellFormed(a) && WellFormed(b) && SameUpToOrder(a, b)
    ensures Canonical(a) == Canonical(b)
    decreases a
  {
    match (a, b)
    case (List(xs), List(ys)) =>
      forall i | 0 <= i < |xs| ensures Canonical(xs[i]) == Canonical(ys[i]) {
        SameCanonical(xs[i], ys[i]);
      }
    case (Record(fs), Record(gs)) =>
      forall i | 0 <= i < |fs| ensures Mapped(fs)[i] in Mapped(gs) {
        var j :| 0 <= j < |gs| && SameField(fs[i], gs[j]);
        SameCanonical(fs[i].value, gs[j].value);
        assert Mapped(gs)[j] == Mapped(fs)[i];
      }
      CanonicalRecord(fs);
      CanonicalRecord(gs);
      SubsetSame(Mapped(fs), Mapped(gs));
      SortedUnique(Sort(Mapped(fs), KeyOf), Sort(Mapped(gs), KeyOf), KeyOf);
    case _ =>
  }

  /** As many members, none twice, all found in the other: the same members. */
  lemma SubsetSame(a: seq<Field>, b: seq<Field>)
    requires |a| == |b| && UniqueKeys(a) && UniqueKeys(b)
    requires forall i :: 0 <= i < |a| ==> a[i] in b
    ensures forall f :: f in a <==> f in b
  {
    var left, right := set f | f in a, set f | f in b;
    SetSize(a);
    SetSize(b);
    assert left <= right;
    SubsetEqual(left, right);
    forall f | f in b ensures f in a {
      assert f in right;
    }
  }

  lemma {:induction false} SetSize(fields: seq<Field>)
    requires UniqueKeys(fields)
    ensures |set f | f in fields| == |fields|
  {
    if fields != [] {
      var rest := fields[1..];
      SetSize(rest);
      assert (set f | f in fields) == (set f | f in rest) + {fields[0]};
      assert fields[0] !in rest;
    }
  }

  lemma SubsetEqual(left: set<Field>, right: set<Field>)
    requires left <= right && |left| == |right|
    ensures left == right
  {
    assert right == left + (right - left);
    assert |right| == |left| + |right - left|;
  }

  /** Values with one canonical form differ only in member order. */
  lemma {:induction false} CanonicalReflects(a: Value, b: Value)
    requires WellFormed(a) && WellFormed(b) && Canonical(a) == Canonical(b)
    ensures SameUpToOrder(a, b)
    decreases a
  {
    match (a, b)
    case (List(xs), List(ys)) =>
      var cs, ds := Canonical(a).values, Canonical(b).values;
      assert |xs| == |cs| && |ys| == |ds|;
      forall i | 0 <= i < |xs| ensures SameUpToOrder(xs[i], ys[i]) {
        assert cs[i] == Canonical(xs[i]) && ds[i] == Canonical(ys[i]);
        CanonicalReflects(xs[i], ys[i]);
      }
    case (Record(fs), Record(gs)) =>
      CanonicalRecord(fs);
      CanonicalRecord(gs);
      forall i | 0 <= i < |fs| ensures exists j :: 0 <= j < |gs| && SameField(fs[i], gs[j]) {
        assert Mapped(fs)[i] in Mapped(gs);
        var j :| 0 <= j < |gs| && Mapped(gs)[j] == Mapped(fs)[i];
        CanonicalReflects(fs[i].value, gs[j].value);
        assert SameField(fs[i], gs[j]);
      }
    case _ =>
  }

  /** The canonical form identifies exactly the values that differ only in member order. */
  lemma CanonicalExactly(a: Value, b: Value)
    requires WellFormed(a) && WellFormed(b)
    ensures Canonical(a) == Canonical(b) <==> SameUpToOrder(a, b)
  {
    if SameUpToOrder(a, b) {
      SameCanonical(a, b);
    }
    if Canonical(a) == Canonical(b) {
      CanonicalReflects(a, b);
    }
  }

  lemma CanonicalIdempotent(v: Value)
    requires WellFormed(v)
    ensures Canonical(Canonical(v)) == Canonical(v)
  {
    CanonicalSame(v);
    SameCanonical(v, Canonical(v));
  }

  // ---- The checks of the seam ----

  const MAX_RESPONSE_DEPTH: nat := 8

  datatype ResponseError = ResponseTooDeep | ForbiddenField

  function Lower(s: bytes): (r: bytes)
    ensures |r| == |s|
  {
    seq(|s|, i requires 0 <= i < |s| => if 'A' as byte <= s[i] <= 'Z' as byte then s[i] + 32 else s[i])
  }

  predicate HasPrefix(s: bytes, prefix: bytes) {
    prefix <= s
  }

  predicate HasSuffix(s: bytes, suffix: bytes) {
    |suffix| <= |s| && s[|s| - |suffix|..] == suffix
  }

  ghost predicate Contains(s: bytes, part: bytes) {
    exists k :: OccursAt(s, part, k)
  }

  predicate OccursAt(s: bytes, part: bytes, k: int) {
    0 <= k <= |s| - |part| && s[k..k + |part|] == part
  }

  const SECRET_PARTS: seq<string> :=
    [ "credential", "private", "secret", "password", "bearer", "token", "prompt", "request_bytes", "content_bytes" ]

  const NATIVE_METADATA: seq<string> :=
    [ "native_version", "native_binary_sha256", "native_schema_sha256", "native_calls" ]

  /** A member that must not cross the seam, by its lower-cased key and, in two cases, by its value. */
  ghost predicate Forbidden(key: bytes, value: Value) {
    var k := Lower(key);
    var reference := HasSuffix(k, Ascii("_authorization_ref")) && value.Text? && ValidId(value.text);
    var rpc := k == Ascii("raw_rpc") || k == Ascii("rpc") || HasPrefix(k, Ascii("rpc_")) || HasSuffix(k, Ascii("_rpc"));
    || (exists i :: 0 <= i < |SECRET_PARTS| && Contains(k, Ascii(SECRET_PARTS[i])))
    || (Contains(k, Ascii("authorization")) && !reference)
    || (Contains(k, Ascii("native")) && forall i :: 0 <= i < |NATIVE_METADATA| ==> k != Ascii(NATIVE_METADATA[i]))
    || (rpc && value != Boolean(false))
  }

  /** `validate_value_inner`: the first fault met on the way down. */
  ghost function Validate(v: Value, depth: nat): Result<(), ResponseError>
    decreases v, 1
  {
    if depth > MAX_RESPONSE_DEPTH then Err(ResponseTooDeep)
    else
      match v
      case Record(fields) => ValidateFields(v, 0, depth)
      case List(values) => ValidateValues(v, 0, depth)
      case _ => Ok(())
  }

  ghost function ValidateFields(v: Value, from: nat, depth: nat): Result<(), ResponseError>
    requires v.Record? && from <= |v.fields|
    decreases v, 0, |v.fields| - from
  {
    if from == |v.fields| then Ok(())
    else if Forbidden(v.fields[from].key, v.fields[from].value) then Err(ForbiddenField)
    else
      var _ :- Validate(v.fields[from].value, depth + 1);
      ValidateFields(v, from + 1, depth)
  }

  ghost function ValidateValues(v: Value, from: nat, depth: nat): Result<(), ResponseError>
    requires v.List? && from <= |v.values|
    decreases v, 0, |v.values| - from
  {
    if from == |v.values| then Ok(())
    else
      var _ :- Validate(v.values[from], depth + 1);
      ValidateValues(v, from + 1, depth)
  }

  const EFFECT_FIELDS: seq<string> := [ "inference_calls", "native_calls", "game_effects" ]

  predicate CountsEffect(f: Field) {
    && (exists i :: 0 <= i < |EFFECT_FIELDS| && f.key == Ascii(EFFECT_FIELDS[i]))
    && f.value.Numeric? && f.value.number.Unsigned? && f.value.number.count > 0
  }

  /** `nonzero_effect`: some effect counter, at any depth, is above zero. */
  predicate NonzeroEffect(v: Value) {
    match v
    case Record(fields) =>
      || (exists i :: 0 <= i < |fields| && CountsEffect(fields[i]))
      || (exists i :: 0 <= i < |fields| && NonzeroEffect(fields[i].value))
    case List(values) => exists i :: 0 <= i < |values| && NonzeroEffect(values[i])
    case _ => false
  }

  lemma SameSymmetric(a: Value, b: Value)
    requires WellFormed(a) && WellFormed(b) && SameUpToOrder(a, b)
    ensures SameUpToOrder(b, a)
  {
    SameCanonical(a, b);
    CanonicalReflects(b, a);
  }

  lemma {:induction false} FieldsValid(v: Value, from: nat, depth: nat)
    requires v.Record? && from <= |v.fields|
    ensures ValidateFields(v, from, depth).Ok?
            <==> forall i :: from <= i < |v.fields|
                             ==> && !Forbidden(v.fields[i].key, v.fields[i].value)
                                 && Validate(v.fields[i].value, depth + 1).Ok?
    decreases |v.fields| - from
  {
    hide Forbidden, Validate;
    if from < |v.fields| {
      FieldsValid(v, from + 1, depth);
    }
  }

  lemma {:induction false} ValuesValid(v: Value, from: nat, depth: nat)
    requires v.List? && from <= |v.values|
    ensures ValidateValues(v, from, depth).Ok?
            <==> forall i :: from <= i < |v.values| ==> Validate(v.values[i], depth + 1).Ok?
    decreases |v.values| - from
  {
    hide Validate;
    if from < |v.values| {
      ValuesValid(v, from + 1, depth);
    }
  }

  lemma ForbiddenSame(key: bytes, a: Value, b: Value)
    requires SameUpToOrder(a, b) && Forbidden(key, a)
    ensures Forbidden(key, b)
  {
    hide Contains, HasSuffix, Lower, ValidId;
    assert a.Text? || b.Text? || a.Boolean? || b.Boolean? ==> a == b;
  }

  lemma {:induction false} ValidReflects(a: Value, b: Value, depth: nat)
    requires WellFormed(a) && WellFormed(b) && SameUpToOrder(a, b) && Validate(b, depth).Ok?
    ensures Validate(a, depth).Ok?
    decreases a
  {
    hide Forbidden, ValidateFields, ValidateValues;
    match (a, b)
    case (List(xs), List(ys)) =>
      ValuesValid(a, 0, depth);
      ValuesValid(b, 0, depth);
      forall i | 0 <= i < |xs| ensures Validate(xs[i], depth + 1).Ok? {
        ValidReflects(xs[i], ys[i], depth + 1);
      }
    case (Record(fs), Record(gs)) =>
      FieldsValid(a, 0, depth);
      FieldsValid(b, 0, depth);
      forall i | 0 <= i < |fs| ensures !Forbidden(fs[i].key, fs[i].value) && Validate(fs[i].value, depth + 1).Ok? {
        var j :| 0 <= j < |gs| && SameField(fs[i], gs[j]);
        ValidReflects(fs[i].value, gs[j].value, depth + 1);
        if Forbidden(fs[i].key, fs[i].value) {
          ForbiddenSame(fs[i].key, fs[i].value, gs[j].value);
        }
      }
    case _ =>
  }

  lemma CountsSame(f: Field, g: Field)
    requires SameField(f, g) && CountsEffect(f)
    ensures CountsEffect(g)
  {
    assert f.value == g.value;
    assert f == g;
  }

  lemma {:induction false} EffectReflects(a: Value, b: Value)
    requires WellFormed(a) && WellFormed(b) && SameUpToOrder(a, b) && NonzeroEffect(a)
    ensures NonzeroEffect(b)
    decreases a
  {
    hide CountsEffect;
    match (a, b)
    case (List(xs), List(ys)) =>
      var i :| 0 <= i < |xs| && NonzeroEffect(xs[i]);
      EffectReflects(xs[i], ys[i]);
    case (Record(fs), Record(gs)) =>
      if i :| 0 <= i < |fs| && CountsEffect(fs[i]) {
        var j :| 0 <= j < |gs| && SameField(fs[i], gs[j]);
        CountsSame(fs[i], gs[j]);
      } else {
        var i :| 0 <= i < |fs| && NonzeroEffect(fs[i].value);
        var j :| 0 <= j < |gs| && SameField(fs[i], gs[j]);
        EffectReflects(fs[i].value, gs[j].value);
      }
    case _ =>
  }

  /** No check of the seam sees member order. */
  lemma ChecksIgnoreOrder(a: Value, b: Value, depth: nat)
    requires WellFormed(a) && WellFormed(b) && SameUpToOrder(a, b)
    ensures Validate(a, depth).Ok? <==> Validate(b, depth).Ok?
    ensures NonzeroEffect(a) <==> NonzeroEffect(b)
  {
    hide Validate, NonzeroEffect;
    SameSymmetric(a, b);
    if Validate(a, depth).Ok? {
      ValidReflects(b, a, depth);
    }
    if Validate(b, depth).Ok? {
      ValidReflects(a, b, depth);
    }
    if NonzeroEffect(a) {
      EffectReflects(a, b);
    }
    if NonzeroEffect(b) {
      EffectReflects(b, a);
    }
  }

  /** Canonicalising keeps every verdict. */
  lemma CanonicalKeepsVerdicts(v: Value, depth: nat)
    requires WellFormed(v)
    ensures Validate(Canonical(v), depth).Ok? <==> Validate(v, depth).Ok?
    ensures NonzeroEffect(Canonical(v)) <==> NonzeroEffect(v)
  {
    hide Validate, NonzeroEffect;
    CanonicalSame(v);
    ChecksIgnoreOrder(v, Canonical(v), depth);
  }

  // ---- `canonical_value`, as it fills its map ----

  lemma {:induction false} InsertMapped(f: Field, fields: seq<Field>)
    ensures Mapped(Insert(f, fields, KeyOf)) == Insert(Field(f.key, Canonical(f.value)), Mapped(fields), KeyOf)
  {
    if fields != [] {
      assert Mapped(fields)[1..] == Mapped(fields[1..]);
      if !AtMost(f.key, fields[0].key) {
        InsertMapped(f, fields[1..]);
      }
    }
  }

  /** Sorting the members and then canonicalising their values is the other order of the two. */
  lemma {:induction false} SortMapped(fields: seq<Field>)
    ensures Mapped(Sort(fields, KeyOf)) == Sort(Mapped(fields), KeyOf)
  {
    if fields != [] {
      assert Mapped(fields)[1..] == Mapped(fields[1..]);
      SortMapped(fields[1..]);
      InsertMapped(fields[0], Sort(fields[1..], KeyOf));
    }
  }

  /** Every child is one of the value's own members, whatever order they are taken in. */
  lemma SortedFieldSmaller(v: Value, k: nat)
    requires v.Record? && k < |Sort(v.fields, KeyOf)|
    ensures Sort(v.fields, KeyOf)[k] in v.fields
  {
    SortSorts(v.fields, KeyOf);
  }

  method CanonicalValueOf(v: Value) returns (r: Value)
    ensures r == Canonical(v)
    decreases v
  {
    match v
    case Record(fields) =>
      var entries := Sort(fields, KeyOf);
      var sorted: seq<Field> := [];
      for k := 0 to |entries|
        invariant sorted == Mapped(entries)[..k]
      {
        SortedFieldSmaller(v, k);
        var child := CanonicalValueOf(entries[k].value);
        sorted := sorted + [Field(entries[k].key, child)];
      }
      SortMapped(fields);
      CanonicalRecord(fields);
      r := Record(sorted);
    case List(values) =>
      var all: seq<Value> := [];
      for k := 0 to |values|
        invariant |all| == k && forall i :: 0 <= i < k ==> all[i] == Canonical(values[i])
      {
        var child := CanonicalValueOf(values[k]);
        all := all + [child];
      }
      r := List(all);
    case _ =>
      r := v;
  }
}
