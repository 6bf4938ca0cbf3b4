/** Exact decimal rounding of money amounts.

    The payroll code rounds in two ways: Python's built-in `round(x, n)`, which
    rounds half to even, and `Decimal.quantize(..., ROUND_HALF_UP)`, which rounds
    ties away from zero. Amounts are modelled as exact reals, so both functions
    are stated on the exact value; each is characterised by the nearest-multiple
    property and proved to be the only value with it. The code rounds to two
    places (currency) and to four places (tax amounts) only. */
module Money {

  datatype Places = TwoPlaces | FourPlaces

  function Abs(x: real): real {
    if x >= 0.0 then x else -x
  }

  function Dist(a: real, b: real): real {
    Abs(a - b)
  }

  predicate IsInteger(y: real) {
    y.Floor as real == y
  }

  /** `x` scaled so that one unit of the last kept digit is 1. */
  function Scaled(x: real, p: Places): real {
    match p
    case TwoPlaces => x * 100.0
    case FourPlaces => x * 10000.0
  }

  function Unscaled(n: int, p: Places): real {
    match p
    case TwoPlaces => n as real / 100.0
    case FourPlaces => n as real / 10000.0
  }

  /** `x` is a whole number of units of the last kept digit. */
  predicate HasPlaces(x: real, p: Places) {
    IsInteger(Scaled(x, p))
  }

  /** Half of one unit in the last kept digit: the largest rounding error allowed. */
  function HalfUnit(p: Places): real {
    match p
    case TwoPlaces => 0.005
    case FourPlaces => 0.00005
  }

  lemma ScaleFacts(x: real, n: int, p: Places)
    ensures Unscaled(n, p) == x <==> Scaled(x, p) == n as real
    ensures Dist(Unscaled(n, p), x) <= HalfUnit(p) <==> Dist(n as real, Scaled(x, p)) <= 0.5
    ensures Dist(Unscaled(n, p), x) == HalfUnit(p) <==> Dist(n as real, Scaled(x, p)) == 0.5
    ensures Abs(Unscaled(n, p)) > Abs(x) <==> Abs(n as real) > Abs(Scaled(x, p))
    ensures Scaled(Unscaled(n, p), p) == n as real
  {
  }

  /** The integer nearest to `y`, ties to the even neighbour. */
  function NearestEven(y: real): (n: int)
    ensures Dist(n as real, y) <= 0.5
    ensures Dist(n as real, y) == 0.5 ==> n % 2 == 0
  {
    var f := y.Floor;
    var frac := y - f as real;
    if frac < 0.5 then f
    else if frac > 0.5 then f + 1
    else if f % 2 == 0 then f
    else f + 1
  }

  /** The integer nearest to `y`, ties away from zero. */
  function NearestAway(y: real): (n: int)
    ensures Dist(n as real, y) <= 0.5
    ensures Dist(n as real, y) == 0.5 ==> Abs(n as real) > Abs(y)
  {
    if y >= 0.0 then (y + 0.5).Floor else -((-y + 0.5).Floor)
  }

  /** Two whole numbers within half a unit of the same point are equal unless
      that point lies exactly halfway between them. */
  lemma NearestIntegersAgree(y: real, m: int, n: int)
    requires Dist(m as real, y) <= 0.5 && Dist(n as real, y) <= 0.5
    requires m != n
    ensures Dist(m as real, y) == 0.5 && Dist(n as real, y) == 0.5
    ensures m - n == 1 || n - m == 1
  {
  }

  /** `r` is `x` kept to `p` places the way `round(x, p)` keeps it: a
      multiple of the last kept digit within half a unit of `x`, with an
      even last digit when `x` lies exactly halfway. `RoundHalfEvenUnique`
      shows that only one `r` qualifies. */
  predicate RoundedHalfEven(r: real, x: real, p: Places) {
    && HasPlaces(r, p)
    && Dist(r, x) <= HalfUnit(p)
    && (Dist(r, x) == HalfUnit(p) ==> Scaled(r, p).Floor % 2 == 0)
  }

  /** Python's `round(x, places)` on the exact value of `x`: the nearest
      multiple of the last kept digit, ties to an even last digit. */
  function RoundHalfEven(x: real, p: Places): (r: real)
    ensures HasPlaces(r, p)
    ensures Dist(r, x) <= HalfUnit(p)
    ensures Dist(r, x) == HalfUnit(p) ==> Scaled(r, p).Floor % 2 == 0
  {
    var n := NearestEven(Scaled(x, p));
    ScaleFacts(x, n, p);
    Unscaled(n, p)
  }

  /** `Decimal(x).quantize(..., ROUND_HALF_UP)`: the nearest multiple of the
      last kept digit, ties away from zero. */
  function RoundHalfUp(x: real, p: Places): (r: real)
    ensures HasPlaces(r, p)
    ensures Dist(r, x) <= HalfUnit(p)
    ensures Dist(r, x) == HalfUnit(p) ==> Abs(r) > Abs(x)
  {
    var n := NearestAway(Scaled(x, p));
    ScaleFacts(x, n, p);
    Unscaled(n, p)
  }

  /** The half-even characterisation determines the result: a multiple of the
      last kept digit within half a unit of `x`, with an even last digit on a
      tie, is `RoundHalfEven(x, p)`. */
  lemma RoundHalfEvenUnique(x: real, p: Places, r: real)
    requires HasPlaces(r, p)
    requires Dist(r, x) <= HalfUnit(p)
    requires Dist(r, x) == HalfUnit(p) ==> Scaled(r, p).Floor % 2 == 0
    ensures r == RoundHalfEven(x, p)
  {
    var q := RoundHalfEven(x, p);
    var m := Scaled(r, p).Floor;
    var n := Scaled(q, p).Floor;
    ScaleFacts(r, m, p);
    ScaleFacts(q, n, p);
    ScaleFacts(x, m, p);
    ScaleFacts(x, n, p);
    if m != n {
      NearestIntegersAgree(Scaled(x, p), m, n);
      assert false;
    }
  }

  /** Likewise for half-up: the tie-away-from-zero characterisation determines the result. */
  lemma RoundHalfUpUnique(x: real, p: Places, r: real)
    requires HasPlaces(r, p)
    requires Dist(r, x) <= HalfUnit(p)
    requires Dist(r, x) == HalfUnit(p) ==> Abs(r) > Abs(x)
    ensures r == RoundHalfUp(x, p)
  {
    var q := RoundHalfUp(x, p);
    var m := Scaled(r, p).Floor;
    var n := Scaled(q, p).Floor;
    ScaleFacts(r, m, p);
    ScaleFacts(q, n, p);
    ScaleFacts(x, m, p);
    ScaleFacts(x, n, p);
    if m != n {
      NearestIntegersAgree(Scaled(x, p), m, n);
      assert false;
    }
  }

  /** Rounding an amount that already has the kept number of places changes nothing. */
  lemma RoundExact(x: real, p: Places)
    requires HasPlaces(x, p)
    ensures RoundHalfEven(x, p) == x
    ensures RoundHalfUp(x, p) == x
  {
    RoundHalfEvenUnique(x, p, x);
    RoundHalfUpUnique(x, p, x);
  }

  /** The two rounding modes differ only on an exact tie. */
  lemma RoundingModesAgreeOffTies(x: real, p: Places)
    requires Dist(RoundHalfEven(x, p), x) != HalfUnit(p)
    ensures RoundHalfUp(x, p) == RoundHalfEven(x, p)
  {
    RoundHalfUpUnique(x, p, RoundHalfEven(x, p));
  }

  /** Amounts with a given number of places are closed under addition and subtraction. */
  lemma PlacesClosed(a: real, b: real, p: Places)
    requires HasPlaces(a, p) && HasPlaces(b, p)
    ensures HasPlaces(a + b, p)
    ensures HasPlaces(a - b, p)
  {
    var i := Scaled(a, p).Floor;
    var j := Scaled(b, p).Floor;
    assert Scaled(a + b, p) == (i + j) as real;
    assert Scaled(a - b, p) == (i - j) as real;
  }

  /** A whole-cent amount is also a whole number of ten-thousandths. */
  lemma CentsAreFourPlaces(x: real)
    requires HasPlaces(x, TwoPlaces)
    ensures HasPlaces(x, FourPlaces)
  {
    var k := Scaled(x, TwoPlaces).Floor;
    assert Scaled(x, FourPlaces) == (100 * k) as real;
  }

  lemma IntegerHasPlaces(n: int, p: Places)
    ensures HasPlaces(n as real, p)
  {
    match p
    case TwoPlaces => assert Scaled(n as real, p) == (100 * n) as real;
    case FourPlaces => assert Scaled(n as real, p) == (10000 * n) as real;
  }

  /** Rounding never turns a non-negative amount negative. */
  lemma RoundNonNegative(x: real, p: Places)
    requires x >= 0.0
    ensures RoundHalfEven(x, p) >= 0.0
    ensures RoundHalfUp(x, p) >= 0.0
  {
    assert Scaled(x, p) >= 0.0;
  }

  /** Rounding errors add up at worst. */
  lemma DistAdd(a: real, x: real, b: real, y: real)
    ensures Dist(a + b, x + y) <= Dist(a, x) + Dist(b, y)
  {
  }

  lemma DistAdd3(a: real, x: real, b: real, y: real, c: real, z: real, e: real)
    requires Dist(a, x) <= e && Dist(b, y) <= e && Dist(c, z) <= e
    ensures Dist(a + b + c, x + y + z) <= 3.0 * e
  {
    DistAdd(a, x, b, y);
    DistAdd(a + b, x + y, c, z);
  }

  lemma DistAdd4(a: real, x: real, b: real, y: real, c: real, z: real, d: real, w: real, e: real)
    requires Dist(a, x) <= e && Dist(b, y) <= e && Dist(c, z) <= e && Dist(d, w) <= e
    ensures Dist(a + b + c + d, x + y + z + w) <= 4.0 * e
  {
    DistAdd3(a, x, b, y, c, z, e);
    DistAdd(a + b + c, x + y + z, d, w);
  }

  /** A bound on the distance to `x` is one on the distance to anything equal to `x`. */
  lemma DistRebase(a: real, x: real, y: real, e: real)
    requires Dist(a, x) <= e && x == y
    ensures Dist(a, y) <= e
  {
  }
}
