/** Small value types and machine-integer helpers shared by the models. */
module Wrappers {

  datatype Option<+T> = None | Some(value: T)

  datatype Result<+T, +E> = Ok(value: T) | Err(error: E)

  const U64_MAX: int := 0xFFFF_FFFF_FFFF_FFFF
  const U64_COUNT: int := 0x1_0000_0000_0000_0000

  type byte = n: int | 0 <= n < 256

  type u64 = n: int | 0 <= n <= U64_MAX

  function Min(a: int, b: int): int {
    if a <= b then a else b
  }

  function Max(a: int, b: int): int {
    if a <= b then b else a
  }

  /** `u64::saturating_add`. */
  function SaturatingAdd(a: u64, b: nat): u64 {
    Min(a + b, U64_MAX)
  }

  /** `u64::wrapping_add(1)`. */
  function WrappingNext(a: u64): u64 {
    (a + 1) % U64_COUNT
  }

  lemma DivisionIsUnique(a: int, n: int, q: int, r: int)
    requires a == n * q + r && 0 <= r < n
    ensures a % n == r
  {
    assert n * (a / n - q) == r - a % n;
    MultipleBelowModulusIsZero(n, a / n - q);
  }

  lemma QuotientIsUnique(a: int, n: int, q: int, r: int)
    requires a == n * q + r && 0 <= r < n
    ensures a / n == q
  {
    assert n * (a / n - q) == r - a % n;
    MultipleBelowModulusIsZero(n, a / n - q);
  }

  lemma MultipleBelowModulusIsZero(n: int, d: int)
    requires -n < n * d < n
    ensures d == 0
  {
  }

  function Last<T>(s: seq<T>): T
    requires s != []
  {
    s[|s| - 1]
  }

  predicate Distinct<T(==)>(s: seq<T>) {
    forall i, j :: 0 <= i < j < |s| ==> s[i] != s[j]
  }

  lemma DistinctConcat<T>(a: seq<T>, b: seq<T>)
    requires Distinct(a) && Distinct(b) && forall x :: x in a ==> x !in b
    ensures Distinct(a + b)
  {
    forall i, j | 0 <= i < j < |a + b| ensures (a + b)[i] != (a + b)[j] {
      if i < |a| <= j {
        assert (a + b)[i] == a[i] && a[i] in a && (a + b)[j] == b[j - |a|];
      }
    }
  }
}
