/** Cosine similarity over the components two vectors share. Numbers are
    exact reals; the square root is a parameter, asked only to be positive
    on positive arguments. */
module Similarity {
  import opened Outcomes

  type Vector = seq<real>

  /** The sum of `a[i] * b[i]` over the first `n` components. */
  function Dot(a: Vector, b: Vector, n: nat): real
    requires n <= |a| && n <= |b|
  {
    if n == 0 then 0.0 else Dot(a, b, n - 1) + a[n - 1] * b[n - 1]
  }

  /** The number of components compared: the shorter length. */
  function Dim(a: Vector, b: Vector): nat
  {
    Min(|a|, |b|)
  }

  ghost predicate PositiveRoot(sqrt: real -> real)
  {
    forall x: real :: x > 0.0 ==> sqrt(x) > 0.0
  }

  /** The value `cosineSimilarity` computes: 0 when either squared norm over
      the shared components is 0, otherwise the dot product over the
      product of the norms. */
  function Cosine(a: Vector, b: Vector, sqrt: real -> real): real
    requires PositiveRoot(sqrt)
  {
    var n := Dim(a, b);
    SquaresNonNegative(a, n);
    SquaresNonNegative(b, n);
    Ratio(Dot(a, b, n), Dot(a, a, n), Dot(b, b, n), sqrt)
  }

  /** The dot product over the product of the norms, or 0 when either
      squared norm is 0. */
  function Ratio(dot: real, na: real, nb: real, sqrt: real -> real): real
    requires PositiveRoot(sqrt) && na >= 0.0 && nb >= 0.0
  {
    if na == 0.0 || nb == 0.0 then 0.0 else dot / (sqrt(na) * sqrt(nb))
  }

  lemma {:induction false} SquaresNonNegative(a: Vector, n: nat)
    requires n <= |a|
    ensures Dot(a, a, n) >= 0.0
  {
    if n > 0 {
      SquaresNonNegative(a, n - 1);
      assert a[n - 1] * a[n - 1] >= 0.0;
    }
  }

  /** `cosineSimilarity`: one pass over the shared components accumulating
      the dot product and both squared norms. */
  method CosineSimilarity(a: Vector, b: Vector, sqrt: real -> real) returns (sim: real)
    requires PositiveRoot(sqrt)
    ensures sim == Cosine(a, b, sqrt)
  {
    var dim := Min(|a|, |b|);
    var dot := 0.0;
    var na := 0.0;
    var nb := 0.0;
    for i := 0 to dim
      invariant dot == Dot(a, b, i)
      invariant na == Dot(a, a, i)
      invariant nb == Dot(b, b, i)
    {
      var x := a[i];
      var y := b[i];
      dot := dot + x * y;
      na := na + x * x;
      nb := nb + y * y;
    }
    if na == 0.0 || nb == 0.0 {
      return 0.0;
    }
    SquaresNonNegative(a, dim);
    SquaresNonNegative(b, dim);
    sim := dot / (sqrt(na) * sqrt(nb));
  }

  /** The squared norm of a vector that is zero on the counted components is 0. */
  lemma {:induction false} ZeroVectorHasZeroNorm(a: Vector, n: nat)
    requires n <= |a|
    requires forall i :: 0 <= i < n ==> a[i] == 0.0
    ensures Dot(a, a, n) == 0.0
  {
    if n > 0 {
      ZeroVectorHasZeroNorm(a, n - 1);
    }
  }

  /** Similarity is 0 whenever one vector is zero on the shared components,
      in particular when either vector is empty. */
  lemma ZeroVectorScoresZero(a: Vector, b: Vector, sqrt: real -> real)
    requires PositiveRoot(sqrt)
    requires (forall i :: 0 <= i < Dim(a, b) ==> a[i] == 0.0) || (forall i :: 0 <= i < Dim(a, b) ==> b[i] == 0.0)
    ensures Cosine(a, b, sqrt) == 0.0
  {
    if forall i :: 0 <= i < Dim(a, b) ==> a[i] == 0.0 {
      ZeroVectorHasZeroNorm(a, Dim(a, b));
    } else {
      ZeroVectorHasZeroNorm(b, Dim(a, b));
    }
  }

  lemma {:induction false} DotSymmetric(a: Vector, b: Vector, n: nat)
    requires n <= |a| && n <= |b|
    ensures Dot(a, b, n) == Dot(b, a, n)
  {
    if n > 0 {
      DotSymmetric(a, b, n - 1);
    }
  }

  /** The order of the two vectors does not matter. */
  lemma CosineSymmetric(a: Vector, b: Vector, sqrt: real -> real)
    requires PositiveRoot(sqrt)
    ensures Cosine(a, b, sqrt) == Cosine(b, a, sqrt)
  {
    var n := Dim(a, b);
    assert n == Dim(b, a);
    DotSymmetric(a, b, n);
    SquaresNonNegative(a, n);
    SquaresNonNegative(b, n);
    RatioSymmetric(Dot(a, b, n), Dot(a, a, n), Dot(b, b, n), sqrt);
  }

  lemma RatioSymmetric(dot: real, na: real, nb: real, sqrt: real -> real)
    requires PositiveRoot(sqrt) && na >= 0.0 && nb >= 0.0
    ensures Ratio(dot, na, nb, sqrt) == Ratio(dot, nb, na, sqrt)
  {
    assert sqrt(na) * sqrt(nb) == sqrt(nb) * sqrt(na);
  }

  lemma {:induction false} DotOfPrefixes(a: Vector, b: Vector, a': Vector, b': Vector, n: nat)
    requires n <= |a| && n <= |b| && n <= |a'| && n <= |b'|
    requires a[..n] == a'[..n] && b[..n] == b'[..n]
    ensures Dot(a, b, n) == Dot(a', b', n)
  {
    if n > 0 {
      assert a[..n - 1] == a[..n][..n - 1] && a'[..n - 1] == a'[..n][..n - 1];
      assert b[..n - 1] == b[..n][..n - 1] && b'[..n - 1] == b'[..n][..n - 1];
      assert a[n - 1] == a[..n][n - 1] && a'[n - 1] == a'[..n][n - 1];
      assert b[n - 1] == b[..n][n - 1] && b'[n - 1] == b'[..n][n - 1];
      DotOfPrefixes(a, b, a', b', n - 1);
    }
  }

  /** Components past the shorter length are ignored: appending to the
      longer vector does not change the score. */
  lemma ExtraComponentsIgnored(a: Vector, b: Vector, extra: Vector, sqrt: real -> real)
    requires PositiveRoot(sqrt)
    requires |a| <= |b|
    ensures Cosine(a, b + extra, sqrt) == Cosine(a, b, sqrt)
  {
    var n := |a|;
    var b' := b + extra;
    assert Dim(a, b') == n == Dim(a, b);
    assert b'[..n] == b[..n];
    DotOfPrefixes(a, b', a, b, n);
    DotOfPrefixes(b', b', b, b, n);
    SameDotsSameCosine(a, b', a, b, sqrt);
  }

  /** `Cosine` depends only on the three sums over the shared components. */
  lemma SameDotsSameCosine(a: Vector, b: Vector, a': Vector, b': Vector, sqrt: real -> real)
    requires PositiveRoot(sqrt)
    requires Dim(a, b) == Dim(a', b')
    requires Dot(a, b, Dim(a, b)) == Dot(a', b', Dim(a, b))
    requires Dot(a, a, Dim(a, b)) == Dot(a', a', Dim(a, b))
    requires Dot(b, b, Dim(a, b)) == Dot(b', b', Dim(a, b))
    ensures Cosine(a, b, sqrt) == Cosine(a', b', sqrt)
  {
  }

}
