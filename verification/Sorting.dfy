/** Sorting by a byte-string key, as strings compare. */
module Sorting {
  import opened Bytes

  /** Byte order, as strings compare. */
  predicate AtMost(a: bytes, b: bytes) {
    a == [] || (b != [] && (a[0] < b[0] || (a[0] == b[0] && AtMost(a[1..], b[1..]))))
  }

  predicate Sorted<T>(s: seq<T>, key: T -> bytes) {
    forall i, j :: 0 <= i < j < |s| ==> AtMost(key(s[i]), key(s[j]))
  }

  predicate DistinctKeys<T>(s: seq<T>, key: T -> bytes) {
    forall i, j :: 0 <= i < j < |s| ==> key(s[i]) != key(s[j])
  }

  function Insert<T>(x: T, s: seq<T>, key: T -> bytes): seq<T> {
    if s == [] then [x]
    else if AtMost(key(x), key(s[0])) then [x] + s
    else [s[0]] + Insert(x, s[1..], key)
  }

  function Sort<T>(s: seq<T>, key: T -> bytes): seq<T> {
    if s == [] then [] else Insert(s[0], Sort(s[1..], key), key)
  }

  lemma {:induction false} AtMostTotal(a: bytes, b: bytes)
    ensures AtMost(a, b) || AtMost(b, a)
    ensures AtMost(a, b) && AtMost(b, a) ==> a == b
  {
    if a != [] && b != [] && a[0] == b[0] {
      AtMostTotal(a[1..], b[1..]);
      assert a == [a[0]] + a[1..] && b == [b[0]] + b[1..];
    }
  }

  lemma {:induction false} AtMostTransitive(a: bytes, b: bytes, c: bytes)
    requires AtMost(a, b) && AtMost(b, c)
    ensures AtMost(a, c)
  {
    if a != [] && a[0] == b[0] && b[0] == c[0] {
      AtMostTransitive(a[1..], b[1..], c[1..]);
    }
  }

  lemma {:induction false} InsertSorts<T(!new)>(x: T, s: seq<T>, key: T -> bytes)
    requires Sorted(s, key)
    ensures var r := Insert(x, s, key);
            && Sorted(r, key) && |r| == |s| + 1
            && forall y :: y in r <==> y == x || y in s
  {
    if s != [] {
      AtMostTotal(key(x), key(s[0]));
      if AtMost(key(x), key(s[0])) {
        forall j | 0 <= j < |s| ensures AtMost(key(x), key(s[j])) {
          if j > 0 {
            AtMostTransitive(key(x), key(s[0]), key(s[j]));
          }
        }
      } else {
        InsertSorts(x, s[1..], key);
        var more := Insert(x, s[1..], key);
        forall j | 0 <= j < |more| ensures AtMost(key(s[0]), key(more[j])) {
          assert more[j] in more;
        }
      }
    }
  }

  lemma {:induction false} InsertDistinct<T(!new)>(x: T, s: seq<T>, key: T -> bytes)
    requires DistinctKeys(s, key) && forall y :: y in s ==> key(y) != key(x)
    ensures DistinctKeys(Insert(x, s, key), key)
    ensures forall y :: y in Insert(x, s, key) ==> y == x || y in s
  {
    if s != [] && !AtMost(key(x), key(s[0])) {
      InsertDistinct(x, s[1..], key);
      var more := Insert(x, s[1..], key);
      forall j | 0 <= j < |more| ensures key(more[j]) != key(s[0]) {
        assert more[j] in more;
      }
    }
  }

  lemma {:induction false} SortSorts<T(!new)>(s: seq<T>, key: T -> bytes)
    ensures var r := Sort(s, key);
            && Sorted(r, key) && |r| == |s|
            && (forall y :: y in r <==> y in s)
            && (DistinctKeys(s, key) ==> DistinctKeys(r, key))
  {
    if s != [] {
      SortSorts(s[1..], key);
      InsertSorts(s[0], Sort(s[1..], key), key);
      if DistinctKeys(s, key) {
        InsertDistinct(s[0], Sort(s[1..], key), key);
      }
    }
  }

  /** Sorted sequences with the same elements and no repeated key are the same sequence. */
  lemma {:induction false} SortedUnique<T(!new)>(a: seq<T>, b: seq<T>, key: T -> bytes)
    requires |a| == |b| && Sorted(a, key) && Sorted(b, key) && DistinctKeys(a, key) && DistinctKeys(b, key)
    requires forall y :: y in a <==> y in b
    ensures a == b
  {
    if a != [] {
      assert a[0] in b;
      assert b[0] in a;
      var i :| 0 <= i < |b| && b[i] == a[0];
      var j :| 0 <= j < |a| && a[j] == b[0];
      AtMostTotal(key(a[0]), key(b[0]));
      assert a[0] == b[0];
      RestSame(a, b, key);
      SortedUnique(a[1..], b[1..], key);
      assert a == [a[0]] + a[1..] && b == [b[0]] + b[1..];
    }
  }

  lemma RestSame<T(!new)>(a: seq<T>, b: seq<T>, key: T -> bytes)
    requires DistinctKeys(a, key) && DistinctKeys(b, key) && a != [] && b != [] && a[0] == b[0]
    requires forall y :: y in a <==> y in b
    ensures forall y :: y in a[1..] <==> y in b[1..]
  {
    forall y | y in a[1..] ensures y in b[1..] {
      assert y in a && key(y) != key(a[0]);
    }
    forall y | y in b[1..] ensures y in a[1..] {
      assert y in b && key(y) != key(b[0]);
    }
  }
}
