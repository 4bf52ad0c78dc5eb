/** Finite sums of real-valued terms over a set of keys: the accumulations the
    scoring loops perform over the entries of a hash map, independent of the
    order in which the map hands out its entries. */
module Sums {

  /** The sum of f over the keys in s. */
  ghost function SumSet(s: set<string>, f: string -> real): real
    decreases s
  {
    if s == {} then 0.0 else var k :| k in s; f(k) + SumSet(s - {k}, f)
  }

  /** Any key may be taken out first: the sum does not depend on the order. */
  lemma {:induction false} SumSetPick(s: set<string>, f: string -> real, y: string)
    requires y in s
    ensures SumSet(s, f) == f(y) + SumSet(s - {y}, f)
    decreases s
  {
    var k :| k in s && SumSet(s, f) == f(k) + SumSet(s - {k}, f);
    if k != y {
      SumSetPick(s - {k}, f, y);
      SumSetPick(s - {y}, f, k);
      assert s - {k} - {y} == s - {y} - {k};
    }
  }

  /** Adding one new key adds its term. */
  lemma SumSetAdd(s: set<string>, f: string -> real, y: string)
    requires y !in s
    ensures SumSet(s + {y}, f) == SumSet(s, f) + f(y)
  {
    SumSetPick(s + {y}, f, y);
    assert s + {y} - {y} == s;
  }

  /** Sums of terms that agree on the keys are equal. */
  lemma {:induction false} SumSetCongruent(s: set<string>, f: string -> real, g: string -> real)
    requires forall k :: k in s ==> f(k) == g(k)
    ensures SumSet(s, f) == SumSet(s, g)
    decreases s
  {
    if s != {} {
      var k :| k in s;
      SumSetPick(s, f, k);
      SumSetPick(s, g, k);
      SumSetCongruent(s - {k}, f, g);
    }
  }

  /** Keys whose term is zero can be dropped from the sum. */
  lemma {:induction false} SumSetDropZeros(s: set<string>, t: set<string>, f: string -> real)
    requires t <= s
    requires forall k :: k in s && k !in t ==> f(k) == 0.0
    ensures SumSet(s, f) == SumSet(t, f)
    decreases s
  {
    if s != t {
      var k :| k in s && k !in t;
      SumSetPick(s, f, k);
      SumSetDropZeros(s - {k}, t, f);
    }
  }

  /** A sum of non-negative terms is non-negative. */
  lemma {:induction false} SumSetNonNegative(s: set<string>, f: string -> real)
    requires forall k :: k in s ==> f(k) >= 0.0
    ensures SumSet(s, f) >= 0.0
    decreases s
  {
    if s != {} {
      var k :| k in s;
      SumSetPick(s, f, k);
      SumSetNonNegative(s - {k}, f);
    }
  }

  /** A sum of non-negative terms is zero exactly when every term is zero. */
  lemma {:induction false} SumSetZero(s: set<string>, f: string -> real)
    requires forall k :: k in s ==> f(k) >= 0.0
    ensures SumSet(s, f) == 0.0 <==> forall k :: k in s ==> f(k) == 0.0
    decreases s
  {
    if s != {} {
      var k :| k in s;
      SumSetPick(s, f, k);
      SumSetZero(s - {k}, f);
      SumSetNonNegative(s - {k}, f);
    }
  }

  // ---------- the Cauchy-Schwarz inequality ----------

  /** The pointwise product of two terms. */
  function Mul(f: string -> real, g: string -> real): string -> real
  {
    k => f(k) * g(k)
  }

  lemma SquareNonNegative(c: real)
    ensures c * c >= 0.0
  {
    if c < 0.0 {
      assert c * c == (-c) * (-c);
    }
  }

  lemma ProductNonNegative(p: real, q: real)
    requires p >= 0.0 && q >= 0.0
    ensures p * q >= 0.0
  {
  }

  lemma SquareStrict(p: real, q: real)
    requires q >= 0.0 && p > q
    ensures p * p > q * q
  {
    PositiveProduct(p - q, p + q);
    assert p * p - q * q == (p - q) * (p + q);
  }

  lemma PositiveProduct(u: real, v: real)
    requires u > 0.0 && v > 0.0
    ensures u * v > 0.0
  {
  }

  lemma ScaledBound(u: real, v: real, w: real)
    requires u <= v && w >= 0.0
    ensures u * w <= v * w
  {
    ProductNonNegative(v - u, w);
    assert (v - u) * w == v * w - u * w;
  }

  lemma CrossIdentities(a: real, b: real, c: real, x: real, y: real)
    ensures (2.0 * c * (x * y)) * (2.0 * c * (x * y)) == 4.0 * ((c * c) * ((x * y) * (x * y)))
    ensures (a * (y * y) + b * (x * x)) * (a * (y * y) + b * (x * x))
            == (a * (y * y) - b * (x * x)) * (a * (y * y) - b * (x * x)) + 4.0 * ((a * b) * ((x * y) * (x * y)))
  {
  }

  /** 2 c x y <= a y^2 + b x^2 whenever c^2 <= a b with a, b >= 0. */
  lemma CrossTerm(a: real, b: real, c: real, x: real, y: real)
    requires a >= 0.0 && b >= 0.0 && c * c <= a * b
    ensures 2.0 * c * (x * y) <= a * (y * y) + b * (x * x)
  {
    var p := 2.0 * c * (x * y);
    var q := a * (y * y) + b * (x * x);
    SquareNonNegative(x);
    SquareNonNegative(y);
    SquareNonNegative(x * y);
    ProductNonNegative(a, y * y);
    ProductNonNegative(b, x * x);
    CrossIdentities(a, b, c, x, y);
    SquareNonNegative(a * (y * y) - b * (x * x));
    ScaledBound(c * c, a * b, (x * y) * (x * y));
    assert p * p <= q * q;
    if p > q {
      SquareStrict(p, q);
    }
  }

  lemma Expand(a: real, b: real, c: real, x: real, y: real)
    ensures (x * y + c) * (x * y + c) == (x * x) * (y * y) + 2.0 * c * (x * y) + c * c
    ensures (x * x + a) * (y * y + b) == (x * x) * (y * y) + b * (x * x) + a * (y * y) + a * b
  {
  }

  lemma CauchyStep(a: real, b: real, c: real, x: real, y: real)
    requires a >= 0.0 && b >= 0.0 && c * c <= a * b
    ensures (x * y + c) * (x * y + c) <= (x * x + a) * (y * y + b)
  {
    CrossTerm(a, b, c, x, y);
    Expand(a, b, c, x, y);
  }

  /** The Cauchy-Schwarz relation between a sum of products and the two sums of squares. */
  predicate CauchyBound(st: real, sf: real, sg: real)
  {
    st * st <= sf * sg
  }

  /** One more key keeps the relation, whatever f and g give at the new key. */
  lemma CauchyPick(st: real, sf: real, sg: real, a: real, b: real, c: real,
                   f: string -> real, g: string -> real, k: string)
    requires st == Mul(f, g)(k) + c && sf == Mul(f, f)(k) + a && sg == Mul(g, g)(k) + b
    requires a >= 0.0 && b >= 0.0 && CauchyBound(c, a, b)
    ensures CauchyBound(st, sf, sg)
  {
    CauchyStep(a, b, c, f(k), g(k));
  }

  /** A sum of squares is non-negative. */
  lemma SumSetSquares(s: set<string>, f: string -> real)
    ensures SumSet(s, Mul(f, f)) >= 0.0
  {
    forall j | j in s ensures Mul(f, f)(j) >= 0.0 {
      SquareNonNegative(f(j));
    }
    SumSetNonNegative(s, Mul(f, f));
  }

  /** The Cauchy-Schwarz inequality for finite sums:
      (sum f g)^2 <= (sum f f) (sum g g). */
  lemma {:induction false} SumSetCauchySchwarz(s: set<string>, f: string -> real, g: string -> real)
    ensures CauchyBound(SumSet(s, Mul(f, g)), SumSet(s, Mul(f, f)), SumSet(s, Mul(g, g)))
    decreases s
  {
    if s != {} {
      var k :| k in s;
      var rest := s - {k};
      SumSetPick(s, Mul(f, g), k);
      SumSetPick(s, Mul(f, f), k);
      SumSetPick(s, Mul(g, g), k);
      SumSetCauchySchwarz(rest, f, g);
      SumSetSquares(rest, f);
      SumSetSquares(rest, g);
      CauchyPick(SumSet(s, Mul(f, g)), SumSet(s, Mul(f, f)), SumSet(s, Mul(g, g)),
                 SumSet(rest, Mul(f, f)), SumSet(rest, Mul(g, g)), SumSet(rest, Mul(f, g)), f, g, k);
    }
  }
}
