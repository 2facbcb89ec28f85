/** Where each scanner's bounds lie: nested arrays and long arrays, on both sides of every limit. */
module JsonBounds {
  import opened Bytes
  import opened JsonLayout
  import Dialect = JsonDialect
  import JsonScan
  import JsonRoundTrip
  import Guard = JsonGuardScan
  import JsonGuardExact
  import JsonShape
  import JsonShapeExact

  /** `n` arrays, each the only element of the one around it. */
  function Nest(n: nat): Tree
    requires n > 0
  {
    if n == 1 then EmptyArray([]) else Array(LastElement([], Nest(n - 1), []))
  }

  /** An array of `n` zeros. */
  function Row(n: nat): Tree
    requires n > 0
  {
    Array(Zeros(n))
  }

  function Zeros(n: nat): Elements
    requires n > 0
  {
    if n == 1 then LastElement([], Atom(['0' as byte]), []) else MoreElements([], Atom(['0' as byte]), [], Zeros(n - 1))
  }

  // ---- The bounds scan ----

  lemma {:induction false} NestBounded(n: nat, depth: nat, decode: Guard.Decoder)
    requires n > 0
    ensures Guard.Written(Nest(n), decode)
    ensures Guard.Bounded(Nest(n), depth, decode) <==> depth + n <= 33
  {
    if n > 1 {
      NestBounded(n - 1, depth + 1, decode);
    }
  }

  lemma {:induction false} ZerosBounded(n: nat, depth: nat, decode: Guard.Decoder)
    requires n > 0 && depth <= 32
    ensures Guard.ElementsWritten(Zeros(n), decode) && Guard.Count(Zeros(n)) == n
    ensures Guard.ElementsBounded(Zeros(n), depth, decode)
  {
    if n > 1 {
      ZerosBounded(n - 1, depth, decode);
    }
  }

  /** It lets 33 nested arrays pass and no more, and 256 elements in one array and no more. */
  lemma GuardBounds(n: nat, decode: Guard.Decoder)
    requires n > 0
    ensures Guard.Scan(Unparse(Nest(n)), decode).Ok? <==> n <= 33
    ensures Guard.Scan(Unparse(Row(n)), decode).Ok? <==> n <= 256
  {
    hide Guard.Scan, Write;
    NestBounded(n, 0, decode);
    ZerosBounded(n, 1, decode);
    assert [] + Unparse(Nest(n)) == Unparse(Nest(n)) && [] + Unparse(Row(n)) == Unparse(Row(n));
    JsonGuardExact.ScanVerdict(Unparse(Nest(n)), [], Nest(n), [], decode);
    JsonGuardExact.ScanVerdict(Unparse(Row(n)), [], Row(n), [], decode);
  }

  // ---- The shape scan ----

  lemma {:induction false} NestKept(n: nat, depth: nat, lexer: JsonShape.Lexer)
    requires n > 0
    ensures JsonShapeExact.Lexed(Nest(n), lexer)
    ensures JsonShapeExact.Kept(Nest(n), depth, lexer) <==> depth + n <= 33
  {
    if n > 1 {
      NestKept(n - 1, depth + 1, lexer);
    }
  }

  /** It lets 32 nested arrays pass and no more. */
  lemma ShapeBounds(n: nat, lexer: JsonShape.Lexer)
    requires n > 0
    ensures JsonShape.Scanned(Unparse(Nest(n)), lexer).Ok? <==> n <= 32
  {
    hide JsonShape.Scanned, Write;
    NestKept(n, 1, lexer);
    assert [] + Unparse(Nest(n)) == Unparse(Nest(n));
    JsonShapeExact.ScannedExactly(Unparse(Nest(n)), [], Nest(n), [], lexer);
  }

  // ---- The context reader ----

  function NestedList(n: nat): Dialect.Value
    requires n > 0
  {
    if n == 1 then Dialect.List([]) else Dialect.List([NestedList(n - 1)])
  }

  function Nulls(n: nat): seq<Dialect.Value> {
    if n == 0 then [] else [Dialect.Null] + Nulls(n - 1)
  }

  lemma {:induction false} NestedListMeasures(n: nat)
    requires n > 0
    ensures JsonRoundTrip.WellFormed(NestedList(n))
    ensures JsonRoundTrip.ValueDepth(NestedList(n)) == n && JsonRoundTrip.ValueItems(NestedList(n)) == n - 1
  {
    if n > 1 {
      NestedListMeasures(n - 1);
      var inner := [NestedList(n - 1)];
      assert inner[1..] == [] && JsonRoundTrip.ValuesItems(inner) == 1 + JsonRoundTrip.ValueItems(inner[0]) + 0;
    }
  }

  lemma {:induction false} NullsMeasure(n: nat)
    ensures JsonRoundTrip.AllWellFormed(Nulls(n))
    ensures JsonRoundTrip.ValuesDepth(Nulls(n)) == 0 && JsonRoundTrip.ValuesItems(Nulls(n)) == n
  {
    if n > 0 {
      NullsMeasure(n - 1);
      assert Nulls(n)[1..] == Nulls(n - 1);
    }
  }

  ghost predicate CanBeRead(v: Dialect.Value) {
    exists input :: JsonScan.Parsed(input) == Ok(v)
  }

  lemma NestedReturnable(n: nat)
    requires n > 0
    ensures JsonRoundTrip.Returnable(NestedList(n)) <==> n <= 32
  {
    NestedListMeasures(n);
  }

  lemma NullsReturnable(n: nat)
    ensures JsonRoundTrip.Returnable(Dialect.List(Nulls(n))) <==> n <= 512
  {
    NullsMeasure(n);
  }

  lemma NumberReturnable(n: nat)
    ensures JsonRoundTrip.Returnable(Dialect.Number(n)) <==> n <= 18_446_744_073_709_551_615
  {}

  /** It can return 32 nested lists and no more, 512 elements and no more, and numbers below 2^64 and no others. */
  lemma ReaderBounds(n: nat)
    ensures n > 0 ==> (CanBeRead(NestedList(n)) <==> n <= 32)
    ensures CanBeRead(Dialect.List(Nulls(n))) <==> n <= 512
    ensures CanBeRead(Dialect.Number(n)) <==> n <= 18_446_744_073_709_551_615
  {
    hide JsonScan.Parsed, JsonRoundTrip.Returnable, NestedList, Nulls;
    if n > 0 {
      NestedReturnable(n);
      JsonRoundTrip.ResultsExactly(NestedList(n));
    }
    NullsReturnable(n);
    JsonRoundTrip.ResultsExactly(Dialect.List(Nulls(n)));
    NumberReturnable(n);
    JsonRoundTrip.ResultsExactly(Dialect.Number(n));
  }
}
