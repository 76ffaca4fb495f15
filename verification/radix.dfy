/**
  Mixed-radix arithmetic behind row-major ("C order") flattening of a
  multi-dimensional array: a shape is a sequence of extents, a multi-index
  holds one coordinate per dimension, and the flat offset of a multi-index
  lets the LAST dimension vary fastest.
 */
module Radix {

  /** Number of cells of an array of shape `s`; the empty shape has one cell. */
  function Prod(s: seq<nat>): nat
  {
    if |s| == 0 then 1 else Prod(s[..|s| - 1]) * s[|s| - 1]
  }

  /** Every extent of the shape is non-zero. */
  predicate Positive(s: seq<nat>)
  {
    forall p :: 0 <= p < |s| ==> s[p] > 0
  }

  /** `m` is a valid multi-index into an array of shape `s`. */
  predicate InBounds(s: seq<nat>, m: seq<nat>)
  {
    |m| == |s| && forall p :: 0 <= p < |s| ==> m[p] < s[p]
  }

  /** Row-major offset of the multi-index `m` in shape `s`. */
  function Flat(s: seq<nat>, m: seq<nat>): nat
    requires |m| == |s|
  {
    if |s| == 0 then 0
    else Flat(s[..|s| - 1], m[..|s| - 1]) * s[|s| - 1] + m[|s| - 1]
  }

  /** Multi-index of the row-major offset `k` in shape `s` (offsets wrap modulo the cell count). */
  function Decode(s: seq<nat>, k: nat): (m: seq<nat>)
    requires Positive(s)
    ensures InBounds(s, m)
  {
    if |s| == 0 then []
    else Decode(s[..|s| - 1], k / s[|s| - 1]) + [k % s[|s| - 1]]
  }

  // ---------------------------------------------------------------------
  // Integer division facts used below.

  lemma MulCancelLt(a: int, b: int, d: int)
    requires 0 < d && a * d < b * d
    ensures a < b
  {
  }

  lemma DivModUnique(k: int, d: int, q: int, r: int)
    requires 0 < d && 0 <= r < d && k == q * d + r
    ensures k / d == q && k % d == r
  {
    var q', r' := k / d, k % d;
    assert q' * d + r' == q * d + r;
    MulCancelLt(q', q + 1, d);
    MulCancelLt(q, q' + 1, d);
  }

  lemma DivBound(k: nat, d: nat, p: nat)
    requires 0 < d && k < p * d
    ensures k / d < p
  {
    assert k / d * d <= k;
    MulCancelLt(k / d, p, d);
  }

  lemma MulPositive(a: nat, b: nat, k: nat)
    requires k < a * b
    ensures 0 < a && 0 < b
  {
  }

  /** Removing one divisor from the dividend lowers the quotient by one and keeps the remainder. */
  lemma DivStep(k: nat, d: nat)
    requires 0 < d <= k
    ensures k / d == (k - d) / d + 1 && k % d == (k - d) % d
  {
    var q, r := (k - d) / d, (k - d) % d;
    assert k - d == q * d + r;
    assert k == (q + 1) * d + r;
    DivModUnique(k, d, q + 1, r);
  }

  lemma DivDiv(k: nat, a: nat, b: nat)
    requires 0 < a && 0 < b
    ensures k / a / b == k / (a * b)
  {
    var q, r := k / a / b, k / a % b;
    assert k / a == q * b + r;
    assert k == (q * b + r) * a + k % a;
    assert r * a + k % a < (r + 1) * a <= b * a;
    DivModUnique(k, a * b, q, r * a + k % a);
  }

  // ---------------------------------------------------------------------
  // Properties of Prod.

  lemma {:induction false} ProdPositive(s: seq<nat>)
    ensures Prod(s) > 0 <==> Positive(s)
  {
    if |s| > 0 {
      var n := |s| - 1;
      ProdPositive(s[..n]);
      assert Positive(s) <==> Positive(s[..n]) && s[n] > 0;
    }
  }

  lemma {:induction false} ProdConcat(xs: seq<nat>, ys: seq<nat>)
    ensures Prod(xs + ys) == Prod(xs) * Prod(ys)
  {
    if |ys| == 0 {
      assert xs + ys == xs;
    } else {
      var n := |ys| - 1;
      assert (xs + ys)[..|xs + ys| - 1] == xs + ys[..n];
      ProdConcat(xs, ys[..n]);
    }
  }

  lemma ProdCons(x: nat, ys: seq<nat>)
    ensures Prod([x] + ys) == x * Prod(ys)
  {
    ProdConcat([x], ys);
  }

  // ---------------------------------------------------------------------
  // Flat and Decode are inverse bijections between the multi-indices in
  // bounds and the offsets below the cell count.

  /** Every in-bounds multi-index has an offset below the cell count. */
  lemma {:induction false} FlatBound(s: seq<nat>, m: seq<nat>)
    requires InBounds(s, m)
    ensures Flat(s, m) < Prod(s)
  {
    if |s| > 0 {
      var n := |s| - 1;
      assert InBounds(s[..n], m[..n]);
      FlatBound(s[..n], m[..n]);
      var f := Flat(s[..n], m[..n]);
      assert Flat(s, m) < (f + 1) * s[n];
      assert (f + 1) * s[n] <= Prod(s[..n]) * s[n];
    }
  }

  /** Decoding the offset of a multi-index gives the multi-index back. */
  lemma {:induction false} DecodeFlat(s: seq<nat>, m: seq<nat>)
    requires Positive(s) && InBounds(s, m)
    ensures Decode(s, Flat(s, m)) == m
  {
    if |s| > 0 {
      var n := |s| - 1;
      assert InBounds(s[..n], m[..n]);
      DivModUnique(Flat(s, m), s[n], Flat(s[..n], m[..n]), m[n]);
      DecodeFlat(s[..n], m[..n]);
      assert m == m[..n] + [m[n]];
    }
  }

  lemma DecodeSnoc(s: seq<nat>, k: nat)
    requires Positive(s) && |s| > 0
    ensures Decode(s, k)[..|s| - 1] == Decode(s[..|s| - 1], k / s[|s| - 1])
    ensures Decode(s, k)[|s| - 1] == k % s[|s| - 1]
  {
    var n := |s| - 1;
    assert Decode(s, k) == Decode(s[..n], k / s[n]) + [k % s[n]];
  }

  lemma FlatSnoc(s: seq<nat>, m: seq<nat>, q: nat)
    requires |m| == |s| > 0 && Flat(s[..|s| - 1], m[..|s| - 1]) == q
    ensures Flat(s, m) == q * s[|s| - 1] + m[|s| - 1]
  {
  }

  /** Every offset below the cell count is the offset of its decoding. */
  lemma {:induction false} FlatDecode(s: seq<nat>, k: nat)
    requires Positive(s) && k < Prod(s)
    ensures Flat(s, Decode(s, k)) == k
  {
    if |s| > 0 {
      var n := |s| - 1;
      var q, r := k / s[n], k % s[n];
      var d := Decode(s, k);
      DecodeSnoc(s, k);
      DivBound(k, s[n], Prod(s[..n]));
      FlatDecode(s[..n], q);
      FlatSnoc(s, d, q);
    }
  }

  /**
    Closed form of a decoded coordinate: coordinate `p` of offset `k` is
    `k` divided by the product of the extents after `p`, modulo extent `p`.
   */
  lemma {:induction false} DecodeCoordinate(s: seq<nat>, k: nat, p: nat)
    requires Positive(s) && p < |s|
    ensures Prod(s[p + 1..]) > 0
    ensures Decode(s, k)[p] == k / Prod(s[p + 1..]) % s[p]
  {
    var n := |s| - 1;
    ProdPositive(s[p + 1..]);
    DecodeSnoc(s, k);
    if p == n {
      assert s[p + 1..] == [];
    } else {
      assert Decode(s, k)[p] == Decode(s, k)[..n][p];
      assert s[..n][p + 1..] == s[p + 1..n];
      DecodeCoordinate(s[..n], k / s[n], p);
      ProdSuffixSnoc(s, p);
      ProdPositive(s[p + 1..n]);
      DivDiv(k, s[n], Prod(s[p + 1..n]));
    }
  }

  lemma ProdSuffixSnoc(s: seq<nat>, p: nat)
    requires p + 1 < |s|
    ensures Prod(s[p + 1..]) == s[|s| - 1] * Prod(s[p + 1..|s| - 1])
  {
    var t := s[p + 1..];
    assert t[..|t| - 1] == s[p + 1..|s| - 1];
  }
}
