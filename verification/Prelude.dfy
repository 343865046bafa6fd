/** Datatypes, bytes and the little arithmetic shared by every other module. */
module Prelude {

  datatype Option<+T> = None | Some(value: T)

  datatype Result<+T, +E> = Ok(value: T) | Err(error: E)

  type Byte = bv8

  /** One greater than the largest value of a Rust or Go 64-bit unsigned integer. */
  const U64: nat := 0x1_0000_0000_0000_0000

  /** One greater than the largest value of a Rust 32-bit unsigned integer. */
  const U32: nat := 0x1_0000_0000

  function Min(a: nat, b: nat): nat {
    if a <= b then a else b
  }

  function CeilDiv(a: nat, b: nat): nat
    requires b > 0
  {
    (a + b - 1) / b
  }

  lemma MulMono(a: int, b: int, m: nat)
    requires a <= b
    ensures a * m <= b * m
  {
  }

  /** Euclidean division is the only way to write a number as quotient and remainder. */
  lemma DivModOf(q: nat, r: nat, m: nat)
    requires r < m
    ensures (q * m + r) / m == q && (q * m + r) % m == r
  {
    var k := q * m + r;
    assert k == (k / m) * m + k % m;
    if k / m < q {
      MulMono(k / m + 1, q, m);
    } else if k / m > q {
      MulMono(q + 1, k / m, m);
    }
  }

  lemma DivModDef(k: nat, m: nat)
    requires m > 0
    ensures k == (k / m) * m + k % m
    ensures k % m < m
  {
  }

  /** A number lies below a multiple of `m` exactly when its quotient does. */
  lemma BelowMultiple(q: nat, r: nat, m: nat, n: nat)
    requires r < m
    ensures q * m + r < n * m <==> q < n
  {
    if q < n {
      MulMono(q + 1, n, m);
    } else {
      MulMono(n, q, m);
    }
  }

  lemma MulDistributes(a: int, b: int, m: int)
    ensures (a + b) * m == a * m + b * m
  {
  }

  lemma MulSwap(a: int, b: int, c: int)
    ensures a * (b * c) == c * (a * b)
  {
  }

  /** A multiple of `m` that is below another multiple of `m` is below it by at least `m`. */
  lemma MultipleGap(a: nat, b: nat, m: nat)
    requires m > 0 && a * m < b * m
    ensures a < b && a * m + m <= b * m
  {
    if a >= b {
      MulMono(b, a, m);
    }
    MulMono(a + 1, b, m);
  }

  lemma XorCancels(a: Byte, b: Byte)
    ensures (a ^ b) ^ b == a
  {
  }

  // ----- sizes of sets

  lemma IndexSetBound(s: set<nat>, n: nat)
    requires forall i :: i in s ==> i < n
    ensures |s| <= n
  {
    if n > 0 {
      IndexSetBound(s - {n - 1}, n - 1);
    } else {
      assert s == {};
    }
  }

  lemma SubsetCard<T>(a: set<T>, b: set<T>)
    requires a <= b
    ensures |a| <= |b|
  {
    assert |b| == |a| + |b - a| by {
      assert b == a + (b - a);
    }
  }

  // ----- sequences of pieces

  function Concat<T>(pieces: seq<seq<T>>): seq<T> {
    if pieces == [] then [] else pieces[0] + Concat(pieces[1..])
  }

  predicate Distinct<T(==)>(s: seq<T>) {
    forall i, j :: 0 <= i < j < |s| ==> s[i] != s[j]
  }

  /** The set of elements of a sequence without repetitions has as many elements as the sequence. */
  lemma DistinctCard<T>(s: seq<T>)
    requires Distinct(s)
    ensures |set x | x in s| == |s|
  {
    if s != [] {
      var rest := s[1..];
      DistinctCard(rest);
      assert (set x | x in s) == {s[0]} + set x | x in rest;
    }
  }
}
