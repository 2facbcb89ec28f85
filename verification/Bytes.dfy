/** Bytes, and the small option and result types every component shares. */
module Bytes {
  newtype byte = b: int | 0 <= b < 256
  type bytes = seq<byte>

  const U64_LIMIT: nat := 0x1_0000_0000_0000_0000
  type u64 = n: nat | n < U64_LIMIT

  const I64_MAX: nat := 0x7FFF_FFFF_FFFF_FFFF
  const U32_MAX: nat := 0xFFFF_FFFF

  datatype Option<+T> = None | Some(value: T)

  datatype Result<+T, +E> = Ok(value: T) | Err(error: E) {
    predicate IsFailure() {
      Err?
    }

    function PropagateFailure<U>(): Result<U, E>
      requires Err?
    {
      Err(error)
    }

    function Extract(): T
      requires Ok?
    {
      value
    }
  }

  ghost predicate SubMap<K(!new), V>(a: map<K, V>, b: map<K, V>) {
    forall k :: k in a ==> k in b && a[k] == b[k]
  }

  function SetOf<T(!new)>(s: seq<T>): set<T> {
    set x | x in s
  }

  predicate Distinct<T(==)>(s: seq<T>) {
    forall i, j :: 0 <= i < j < |s| ==> s[i] != s[j]
  }

  predicate IsDigit(b: byte) {
    '0' as byte <= b <= '9' as byte
  }

  predicate IsHex(b: byte) {
    IsDigit(b) || 'a' as byte <= b <= 'f' as byte || 'A' as byte <= b <= 'F' as byte
  }

  function HexDigit(b: byte): (n: nat)
    requires IsHex(b)
    ensures n < 16
  {
    if IsDigit(b) then b as nat - 48
    else if 'a' as byte <= b then b as nat - 87
    else b as nat - 55
  }

  /** An ASCII literal as bytes. */
  function Ascii(s: string): bytes {
    seq(|s|, k requires 0 <= k < |s| => (s[k] as int % 128) as byte)
  }

  lemma Assoc<T>(a: seq<T>, b: seq<T>, c: seq<T>)
    ensures a + b + c == a + (b + c)
  {}

  lemma Cut<T>(a: seq<T>, b: seq<T>, c: seq<T>)
    ensures (a + b + c)[..|a|] == a
    ensures (a + b + c)[|a|..|a| + |b|] == b
    ensures (a + b + c)[|a| + |b|..] == c
  {}
}
