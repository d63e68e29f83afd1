/**
 Recovery of a secret from two shares: the line through two points over a prime field,
 evaluated at 0. The division uses the extended Euclidean algorithm.
 */
module PrimeField {
  import opened Prelude

  ghost predicate IsPrime(p: nat) {
    p >= 2 && forall a | 1 < a < p :: p % a != 0
  }

  /** A common divisor g of a and b, with g == a * x + b * y. */
  function ExtendedGcd(a: nat, b: nat): (r: (nat, int, int))
    decreases b
  {
    if b == 0 then (a, 1, 0)
    else
      var (g, x, y) := ExtendedGcd(b, a % b);
      (g, y, x - a / b * y)
  }

  function Inverse(d: nat, p: nat): nat
    requires p > 0
  {
    ExtendedGcd(d, p).1 % p
  }

  /** The constant term of the line through both points. Equal abscissas throw: zero has no inverse. */
  function ShamirRecovery(p: nat, x1: int, x2: int, y1: int, y2: int): Option<nat>
    requires p > 0
  {
    var d := (x2 - x1) % p;
    if d == 0 then None
    else
      var slope := (y2 - y1) * Inverse(d, p) % p;
      Some((y1 - slope * x1) % p)
  }

  // ----- congruence -----

  ghost predicate Congruent(a: int, b: int, p: nat)
    requires p > 0
  {
    (a - b) % p == 0
  }

  lemma QuotientIsUnique(z: int, a: nat, k: int, p: nat)
    requires p > 0 && a < p && z == a + p * k
    ensures z % p == a
  {
    var e := k - z / p;
    assert p * e == z % p - a by {
      assert z == p * (z / p) + z % p;
      assert p * e == p * k - p * (z / p);
    }
    assert p * e < p && p + p * e > 0;
    MultipleBetween(p, e);
  }

  lemma MultipleBetween(p: nat, e: int)
    requires p > 0 && p * e < p && p + p * e > 0
    ensures e == 0
  {
  }

  lemma SumOfMultiples(u: int, v: int, p: nat)
    requires p > 0 && u % p == 0 && v % p == 0
    ensures (u + v) % p == 0
  {
    assert u + v == p * (u / p + v / p);
    QuotientIsUnique(u + v, 0, u / p + v / p, p);
  }

  lemma ProductOfMultiple(u: int, c: int, p: nat)
    requires p > 0 && u % p == 0
    ensures (u * c) % p == 0
  {
    var q := u / p;
    assert u == p * q;
    assert (p * q) * c == p * (q * c);
    QuotientIsUnique(u * c, 0, q * c, p);
  }

  lemma CongruentToRemainder(a: int, p: nat)
    requires p > 0
    ensures Congruent(a % p, a, p) && Congruent(a, a % p, p)
  {
    assert a == p * (a / p) + a % p;
    QuotientIsUnique(a - a % p, 0, a / p, p);
    QuotientIsUnique(a % p - a, 0, -(a / p), p);
  }

  lemma CongruentReflexive(a: int, p: nat)
    requires p > 0
    ensures Congruent(a, a, p)
  {
    QuotientIsUnique(0, 0, 0, p);
  }

  lemma CongruentDifference(a: int, b: int, c: int, d: int, p: nat)
    requires p > 0 && Congruent(a, b, p) && Congruent(c, d, p)
    ensures Congruent(a - c, b - d, p)
  {
    ProductOfMultiple(c - d, -1, p);
    SumOfMultiples(a - b, (c - d) * -1, p);
  }

  lemma CongruentProduct(a: int, b: int, c: int, d: int, p: nat)
    requires p > 0 && Congruent(a, b, p) && Congruent(c, d, p)
    ensures Congruent(a * c, b * d, p)
  {
    ProductOfMultiple(a - b, c, p);
    ProductOfMultiple(c - d, b, p);
    SumOfMultiples((a - b) * c, (c - d) * b, p);
    assert (a - b) * c + (c - d) * b == a * c - b * d;
  }

  lemma CongruentTransitive(a: int, b: int, c: int, p: nat)
    requires p > 0 && Congruent(a, b, p) && Congruent(b, c, p)
    ensures Congruent(a, c, p)
  {
    SumOfMultiples(a - b, b - c, p);
  }

  lemma CongruentDetermines(a: int, b: nat, p: nat)
    requires p > 0 && b < p && Congruent(a, b, p)
    ensures a % p == b
  {
    assert a == b + p * ((a - b) / p);
    QuotientIsUnique(a, b, (a - b) / p, p);
  }

  // ----- inverses -----

  lemma {:induction false} BezoutIdentity(a: nat, b: nat)
    ensures var (g, x, y) := ExtendedGcd(a, b); g == a * x + b * y
    decreases b
  {
    if b != 0 {
      BezoutIdentity(b, a % b);
      var (g, x, y) := ExtendedGcd(b, a % b);
      BezoutStep(a, b, a / b, a % b, x, y);
    }
  }

  lemma BezoutStep(a: int, b: int, q: int, r: int, x: int, y: int)
    requires a == b * q + r
    ensures b * x + r * y == a * y + b * (x - q * y)
  {
    assert (b * q + r) * y == b * (q * y) + r * y;
    assert b * (x - q * y) == b * x - b * (q * y);
  }

  lemma {:induction false} GcdDivides(a: nat, b: nat)
    requires a > 0 || b > 0
    ensures var g := ExtendedGcd(a, b).0; g > 0 && a % g == 0 && b % g == 0
    decreases b
  {
    if b != 0 {
      GcdDivides(b, a % b);
      var g := ExtendedGcd(a, b).0;
      assert a == b * (a / b) + a % b;
      ProductOfMultiple(b, a / b, g);
      SumOfMultiples(b * (a / b), a % b, g);
    } else {
      QuotientIsUnique(a, 0, 1, a);
    }
  }

  /** In a prime field every number but zero has an inverse. */
  lemma InverseIsInverse(d: nat, p: nat)
    requires IsPrime(p) && 0 < d < p
    ensures Congruent(d * Inverse(d, p), 1, p)
  {
    BezoutIdentity(d, p);
    GcdDivides(d, p);
    var (g, x, y) := ExtendedGcd(d, p);
    if g > d { QuotientIsUnique(d, d, 0, g); }
    assert g == 1;
    CongruentToRemainder(x, p);
    QuotientIsUnique(0, 0, 0, p);
    CongruentProduct(d, d, x % p, x, p);
    QuotientIsUnique(d * x - 1, 0, -y, p);
    CongruentTransitive(d * (x % p), d * x, 1, p);
  }

  // ----- recovery -----

  /** The slope computed from two points of a line is the line's slope. */
  lemma SlopeIsRecovered(p: nat, a0: int, a1: int, x1: int, x2: int, y1: int, y2: int)
    requires IsPrime(p)
    requires y1 == (a0 + a1 * x1) % p && y2 == (a0 + a1 * x2) % p
    requires (x2 - x1) % p != 0
    ensures Congruent((y2 - y1) * Inverse((x2 - x1) % p, p) % p, a1, p)
  {
    hide Congruent, Inverse;
    var d := (x2 - x1) % p;
    var inverse := Inverse(d, p);
    CongruentToRemainder(a0 + a1 * x1, p);
    CongruentToRemainder(a0 + a1 * x2, p);
    CongruentDifference(y2, a0 + a1 * x2, y1, a0 + a1 * x1, p);
    assert a0 + a1 * x2 - (a0 + a1 * x1) == (x2 - x1) * a1;
    CongruentToRemainder(x2 - x1, p);
    CongruentReflexive(a1, p);
    CongruentReflexive(inverse, p);
    CongruentProduct(x2 - x1, d, a1, a1, p);
    CongruentTransitive(y2 - y1, (x2 - x1) * a1, d * a1, p);
    CongruentProduct(y2 - y1, d * a1, inverse, inverse, p);
    InverseIsInverse(d, p);
    CongruentProduct(d * inverse, 1, a1, a1, p);
    assert d * a1 * inverse == d * inverse * a1;
    CongruentTransitive((y2 - y1) * inverse, d * inverse * a1, a1, p);
    CongruentToRemainder((y2 - y1) * inverse, p);
    CongruentTransitive((y2 - y1) * inverse % p, (y2 - y1) * inverse, a1, p);
  }

  /** Two points of a line with different abscissas give back the constant term. */
  lemma TwoSharesRevealTheSecret(p: nat, a0: nat, a1: int, x1: int, x2: int, y1: int, y2: int)
    requires IsPrime(p) && a0 < p
    requires y1 == (a0 + a1 * x1) % p && y2 == (a0 + a1 * x2) % p
    requires (x2 - x1) % p != 0
    ensures ShamirRecovery(p, x1, x2, y1, y2) == Some(a0)
  {
    var slope := (y2 - y1) * Inverse((x2 - x1) % p, p) % p;
    SlopeIsRecovered(p, a0, a1, x1, x2, y1, y2);
    CongruentReflexive(x1, p);
    CongruentProduct(slope, a1, x1, x1, p);
    CongruentToRemainder(a0 + a1 * x1, p);
    CongruentDifference(y1, a0 + a1 * x1, slope * x1, a1 * x1, p);
    CongruentDetermines(y1 - slope * x1, a0, p);
  }

  /** Different residues stay different after subtracting. */
  lemma DistinctResidues(x1: nat, x2: nat, p: nat)
    requires x1 < p && x2 < p && x1 != x2
    ensures (x2 - x1) % p != 0
  {
    if x2 > x1 {
      QuotientIsUnique(x2 - x1, x2 - x1, 0, p);
    } else {
      QuotientIsUnique(x2 - x1, x2 - x1 + p, -1, p);
    }
  }

  lemma LevelSlope(p: nat, inverse: int, a1: int)
    requires p > 0 && Congruent(0 * inverse % p, a1, p)
    ensures a1 % p == 0
  {
    QuotientIsUnique(0, 0, 0, p);
    assert -a1 % p == 0;
    QuotientIsUnique(a1, 0, -(-a1 / p), p);
  }

  /** A line that takes a value twice is level. */
  lemma ValueTwiceIsLevel(p: nat, a0: int, a1: int, x1: nat, x2: nat)
    requires IsPrime(p) && x1 < p && x2 < p && x1 != x2
    requires (a0 + a1 * x1) % p == (a0 + a1 * x2) % p
    ensures a1 % p == 0
  {
    hide Inverse, Congruent, IsPrime;
    DistinctResidues(x1, x2, p);
    var y := (a0 + a1 * x1) % p;
    SlopeIsRecovered(p, a0, a1, x1, x2, y, y);
    LevelSlope(p, Inverse((x2 - x1) % p, p), a1);
  }
}
