/** What the search for the least precision finds, when reading back accepts the decimals near the number. */
module ReadBack {
  import opened FloatPrint
  import opened FloatText

  type Reader = (seq<Digit>, int) -> bool

  /** The number with the digits `ds`, whose first one has the exponent `e`. */
  function Decimal(ds: seq<Digit>, e: int): real {
    Real(Val(ds), e - (|ds| - 1))
  }

  // ----- The candidate is a nearest decimal -----

  /** Half-up rounding gives a nearest multiple. */
  lemma NearestMultiple(n: nat, u: nat, m: nat)
    requires u > 0
    ensures Distance(HalfUp(n, u) * u, n) <= Distance(m * u, n)
  {
    var h := HalfUp(n, u);
    if m < h {
      OneMore(m, h, u);
    } else if h < m {
      OneMore(h, m, u);
    }
  }

  function Distance(a: int, b: int): int {
    if a < b then b - a else a - b
  }

  lemma ScaledDistance(a: nat, b: nat, k: int)
    ensures Magnitude(Real(a, k) - Real(b, k)) == Distance(a, b) as real * Real(1, k)
  {
    hide Real;
    Linear(a, b, k);
    assert (b - a) as real == -((a - b) as real);
    var r := Real(1, k);
    assert (a - b) as real * r == -((b - a) as real * r);
    if a < b {
      Positive((b - a) as real, r);
    } else {
      Positive((a - b) as real, r);
    }
  }

  lemma Positive(x: real, r: real)
    requires x >= 0.0 && r > 0.0
    ensures x * r >= 0.0
  {
  }

  lemma Ordered(a: real, b: real, r: real)
    requires a <= b && r >= 0.0
    ensures a * r <= b * r
  {
  }

  /** A decimal with at most `q` digits and an exponent from `exp` on is a multiple of the unit of digit `q`. */
  lemma WholeUnits(ds: seq<Digit>, e: int, exp: int, q: nat) returns (m: nat)
    requires 1 <= |ds| <= q && e >= exp
    ensures Decimal(ds, e) == Real(m, exp - (q - 1))
  {
    hide Real, Val, Pow10;
    var j := (e - (|ds| - 1)) - (exp - (q - 1));
    m := Val(ds) * Pow10(j);
    Shift(Val(ds), j, exp - (q - 1));
  }

  /** A decimal with a smaller exponent is below the power of ten. */
  lemma BelowPower(ds: seq<Digit>, e: int, exp: int)
    requires ds != [] && e < exp
    ensures 0.0 <= Decimal(ds, e) <= Real(1, exp)
  {
    hide Real, Val, Pow10;
    var k := e - (|ds| - 1);
    var n := exp - k;
    ValBound(ds);
    PowOrder(|ds|, n);
    Shift(1, n, k);
    assert 1 * Pow10(n) == Pow10(n);
    Linear(Val(ds), 0, k);
    Linear(Pow10(n), 0, k);
    Ordered(Val(ds) as real, Pow10(n) as real, Real(1, k));
    Positive(Val(ds) as real, Real(1, k));
  }

  lemma PowOrder(a: nat, b: nat)
    requires a <= b
    ensures Pow10(a) <= Pow10(b)
  {
    hide Pow10;
    PowAdd(a, b - a);
    var p, r := Pow10(a), Pow10(b - a);
    assert p * r >= p;
  }

  /** No decimal with at most `q` digits is nearer to the number than the candidate with `q` digits. */
  lemma Nearest(md: seq<Digit>, exp: int, q: nat, ds: seq<Digit>, e: int)
    requires 1 <= q <= |md| && md[0] != 0 && 1 <= |ds| <= q
    ensures var (cs, c) := Candidate(md, exp, q); var x := Decimal(md, exp);
      Magnitude(Decimal(cs, c) - x) <= Magnitude(Decimal(ds, e) - x)
  {
    hide Candidate, HalfUp, Real, Val, Pow10, Magnitude;
    var (cs, c) := Candidate(md, exp, q);
    CandidateValue(md, exp, q);
    var j, k := |md| - q, exp - (|md| - 1);
    if e >= exp {
      var m := WholeUnits(ds, e, exp, q);
      NearestUnits(Val(md), j, k, m);
    } else {
      BelowPower(ds, e, exp);
      PowerBelow(md, exp, q);
      NearestUnits(Val(md), j, k, Pow10(q - 1));
      Farther(Decimal(ds, e), Real(1, exp), Decimal(md, exp));
    }
  }

  lemma NearestUnits(n: nat, j: nat, k: int, m: nat)
    ensures var h := HalfUp(n, Pow10(j));
      Magnitude(Real(h, k + j) - Real(n, k)) <= Magnitude(Real(m, k + j) - Real(n, k))
  {
    hide HalfUp, Real, Pow10, Magnitude, Distance;
    var u := Pow10(j);
    var h := HalfUp(n, u);
    Shift(h, j, k);
    Shift(m, j, k);
    NearestMultiple(n, u, m);
    ScaledDistance(h * u, n, k);
    ScaledDistance(m * u, n, k);
    Linear(1, 0, k);
    Ordered(Distance(h * u, n) as real, Distance(m * u, n) as real, Real(1, k));
  }

  lemma PowerBelow(md: seq<Digit>, exp: int, q: nat)
    requires md != [] && md[0] != 0 && q >= 1
    ensures Real(Pow10(q - 1), exp - (q - 1)) == Real(1, exp) <= Decimal(md, exp)
  {
    hide Real, Val, Pow10;
    Shift(1, q - 1, exp - (q - 1));
    assert 1 * Pow10(q - 1) == Pow10(q - 1);
    ValBound(md);
    var n := |md| - 1;
    Shift(1, n, exp - n);
    assert 1 * Pow10(n) == Pow10(n);
    Linear(Pow10(n), 0, exp - n);
    Linear(Val(md), 0, exp - n);
    Ordered(Pow10(n) as real, Val(md) as real, Real(1, exp - n));
  }

  lemma Farther(a: real, b: real, x: real)
    requires a <= b <= x
    ensures Magnitude(b - x) <= Magnitude(a - x)
  {
  }

  // ----- No shorter decimal -----

  /** A decimal no farther from `x` than one that reads back reads back too. */
  ghost predicate AcceptsNearer(readsBack: Reader, x: real) {
    forall ds, e, ds', e' :: ds != [] && ds' != [] && readsBack(ds', e') ==>
      (Magnitude(Decimal(ds, e) - x) <= Magnitude(Decimal(ds', e') - x) ==> readsBack(ds, e))
  }

  /** A decimal between `x` and one that reads back reads back too. */
  ghost predicate AcceptsBetween(readsBack: Reader, x: real) {
    forall ds, e, ds', e' :: ds != [] && ds' != [] && readsBack(ds', e') ==>
      (Between(x, Decimal(ds, e), Decimal(ds', e')) ==> readsBack(ds, e))
  }

  predicate Between(x: real, v: real, w: real) {
    x <= v <= w || w <= v <= x
  }

  lemma CandidateShort(md: seq<Digit>, exp: int, p: nat)
    requires 1 <= p <= |md| && md[0] != 0
    ensures 1 <= |Candidate(md, exp, p).0| <= p
  {
    hide Candidate, HalfUp, Real, Val;
    CandidateValue(md, exp, p);
  }

  /** When the expansion is exact and reading back accepts what is near enough to it, the printed digits are as
      few as any that read back. */
  lemma NoneShorter(md: seq<Digit>, exp: int, readsBack: Reader, ds: seq<Digit>, e: int)
    requires MAX_DIGITS <= |md| && md[0] != 0 && AcceptsNearer(readsBack, Decimal(md, exp))
    requires ds != [] && readsBack(ds, e)
    ensures |Candidate(md, exp, Precision(md, exp, readsBack, 1)).0| <= |ds|
  {
    hide Candidate, Decimal, Magnitude;
    var p := Precision(md, exp, readsBack, 1);
    CandidateShort(md, exp, p);
    var q := if |ds| < p then |ds| else p;
    CandidateShort(md, exp, q);
    if |ds| == q {
      Nearest(md, exp, q, ds, e);
    }
    assert |ds| == q ==> Accepted(md, exp, readsBack, q);
  }

  lemma PowersOrder(j: int, k: int)
    requires j <= k
    ensures Real(1, j) <= Real(1, k) && Real(1, j) > 0.0
    ensures j < k ==> 10.0 * Real(1, j) <= Real(1, k)
  {
    hide Real, Pow10;
    var p := Pow10(k - j);
    Shift(1, k - j, j);
    assert 1 * p == p;
    Linear(p, 0, j);
    assert Real(1, k) == p as real * Real(1, j);
    Ordered(1.0, p as real, Real(1, j));
    if j < k {
      PowStep(k - j - 1);
      assert k - j - 1 + 1 == k - j && p >= 10;
      Ordered(10.0, p as real, Real(1, j));
    }
  }

  lemma CandidateFromPower(md: seq<Digit>, exp: int, q: nat) returns (h: nat)
    requires 1 <= q <= |md| && md[0] != 0
    ensures var (cs, c) := Candidate(md, exp, q);
      Decimal(cs, c) == Real(10 * h, exp - q) && Decimal(cs, c) >= Real(1, exp)
  {
    hide Candidate, HalfUp, Real, Val, Pow10;
    CandidateValue(md, exp, q);
    RoundedSize(md, q);
    h := HalfUp(Val(md), Pow10(|md| - q));
    PowStep(0);
    Shift(h, 1, exp - q);
    assert h * Pow10(1) == 10 * h;
    Shift(1, q - 1, exp - (q - 1));
    assert 1 * Pow10(q - 1) == Pow10(q - 1);
    Linear(h, 0, exp - (q - 1));
    Linear(Pow10(q - 1), 0, exp - (q - 1));
    Ordered(Pow10(q - 1) as real, h as real, Real(1, exp - (q - 1)));
  }

  lemma Units(a: nat, b: nat, k: int)
    requires Real(a, k) != Real(b, k)
    ensures Magnitude(Real(a, k) - Real(b, k)) >= Real(1, k)
  {
    hide Real, Magnitude;
    ScaledDistance(a, b, k);
    Linear(1, 0, k);
    Ordered(1.0, Distance(a, b) as real, Real(1, k));
  }

  /** A decimal with at most `q` digits that is not the candidate is a tenth of its last unit away from it. */
  lemma Apart(md: seq<Digit>, exp: int, q: nat, ds: seq<Digit>, e: int)
    requires 1 <= q <= |md| && md[0] != 0 && 1 <= |ds| <= q
    ensures var (cs, c) := Candidate(md, exp, q);
      Decimal(cs, c) == Decimal(ds, e) || Magnitude(Decimal(cs, c) - Decimal(ds, e)) >= Real(1, exp - q)
  {
    hide Candidate, Real, Decimal;
    var (cs, c) := Candidate(md, exp, q);
    var h := CandidateFromPower(md, exp, q);
    if e >= exp - 1 {
      var m := WholeUnits(ds, e, exp - 1, q);
      if Decimal(cs, c) != Decimal(ds, e) {
        Units(10 * h, m, exp - q);
      }
    } else {
      BelowPower(ds, e, exp - 1);
      PowersOrder(exp - 1, exp);
      PowersOrder(exp - q, exp - 1);
    }
  }

  /** When the expansion is rounded and reading back accepts what is near enough to the number itself, a decimal
      with fewer digits than the printed one can read back only at the edge of what is accepted: the candidate
      with as many digits, on the other side of the number, is rejected and at most one unit of the last digit
      of the expansion farther away. */
  lemma ShorterAtEdge(md: seq<Digit>, exp: int, readsBack: Reader, x: real, ds: seq<Digit>, e: int)
    requires |md| >= 20 && md[0] != 0 && AcceptsNearer(readsBack, x)
    requires 2.0 * Magnitude(Decimal(md, exp) - x) <= Real(1, exp - (|md| - 1))
    requires 1 <= |ds| < Precision(md, exp, readsBack, 1) && readsBack(ds, e)
    ensures var (cs, c) := Candidate(md, exp, |ds|); var v, w := Decimal(cs, c), Decimal(ds, e);
      && (w < x < v || v < x < w) && !readsBack(cs, c)
      && Magnitude(w - x) < Magnitude(v - x) <= Magnitude(w - x) + Real(1, exp - (|md| - 1))
  {
    hide Candidate, Decimal, Real, Precision;
    var q := |ds|;
    var (cs, c) := Candidate(md, exp, q);
    CandidateShort(md, exp, q);
    assert !Accepted(md, exp, readsBack, q);
    Nearest(md, exp, q, ds, e);
    Apart(md, exp, q, ds, e);
    PowersOrder(exp - (|md| - 1), exp - q);
    AcrossEdge(x, Decimal(md, exp), Decimal(cs, c), Decimal(ds, e), Real(1, exp - (|md| - 1)), Real(1, exp - q));
  }

  lemma AcrossEdge(x: real, d: real, v: real, w: real, u: real, s: real)
    requires 2.0 * Magnitude(d - x) <= u && Magnitude(v - d) <= Magnitude(w - d)
    requires u < s && (v == w || Magnitude(v - w) >= s) && Magnitude(w - x) < Magnitude(v - x)
    ensures Magnitude(v - x) <= Magnitude(w - x) + u && (w < x < v || v < x < w)
  {
  }

  /** When it accepts an interval, a decimal that reads back with fewer digits lies on the other side of the
      number than the candidate with as many digits, and no nearer. */
  lemma MissedShorter(md: seq<Digit>, exp: int, readsBack: Reader, ds: seq<Digit>, e: int)
    requires MAX_DIGITS <= |md| && md[0] != 0 && AcceptsBetween(readsBack, Decimal(md, exp))
    requires 1 <= |ds| < Precision(md, exp, readsBack, 1) && readsBack(ds, e)
    ensures var (cs, c) := Candidate(md, exp, |ds|); var x := Decimal(md, exp);
      && (Decimal(ds, e) < x < Decimal(cs, c) || Decimal(cs, c) < x < Decimal(ds, e))
      && Magnitude(Decimal(cs, c) - x) <= Magnitude(Decimal(ds, e) - x)
  {
    hide Candidate, Decimal;
    var (cs, c) := Candidate(md, exp, |ds|);
    Nearest(md, exp, |ds|, ds, e);
    CandidateShort(md, exp, |ds|);
    assert !Accepted(md, exp, readsBack, |ds|);
    assert !Between(Decimal(md, exp), Decimal(cs, c), Decimal(ds, e));
  }

  // ----- The printed text and the number itself -----

  /** What is printed is within half a unit of its digit `p` of the number, apart from half a unit of the last
      digit of the expansion. */
  lemma PrintedNear(md: seq<Digit>, exp: int, p: nat, x: real)
    requires 1 <= p <= |md| && md[0] != 0
    requires 2.0 * Magnitude(Decimal(md, exp) - x) <= Real(1, exp - (|md| - 1))
    ensures var (ds, e) := Candidate(md, exp, p);
      2.0 * Magnitude(ValueOf(Body(ds, e + 1)) - x) <= Real(1, exp - (p - 1)) + Real(1, exp - (|md| - 1))
  {
    hide Candidate, Real, Val, Body, ValueOf, TextOf, Canonical;
    PrintedValue(md, exp, p);
  }

  // ----- Seventeen digits -----

  const TWO52: nat := 0x10_0000_0000_0000
  const TWO53: nat := 0x20_0000_0000_0000

  /** `x` is a double, `m` units of its last binary place, and the decimals nearer to it than to its neighbours
      read back; below a power of two the neighbour is half as far. */
  ghost predicate ReadsDouble(readsBack: Reader, x: real, m: nat, u: real) {
    && 0 < m < TWO53 && u > 0.0 && x == m as real * u
    && forall ds, e :: ds != [] && x - (if m == TWO52 then u / 4.0 else u / 2.0) < Decimal(ds, e) < x + u / 2.0 ==>
         readsBack(ds, e)
  }

  /** For every double what is printed reads back: seventeen digits are enough, if the expansion has twenty or
      more and is the exact number rounded. */
  lemma AlwaysReadsBack(md: seq<Digit>, exp: int, readsBack: Reader, x: real, m: nat, u: real)
    requires |md| >= 20 && md[0] != 0 && ReadsDouble(readsBack, x, m, u)
    requires 2.0 * Magnitude(Decimal(md, exp) - x) <= Real(1, exp - (|md| - 1))
    ensures Accepted(md, exp, readsBack, Precision(md, exp, readsBack, 1))
  {
    hide Candidate, HalfUp, Real, Val, Pow10, Magnitude;
    var (ds, e) := Candidate(md, exp, MAX_DIGITS);
    CandidateShort(md, exp, MAX_DIGITS);
    CandidateValue(md, exp, MAX_DIGITS);
    var j, k := |md| - MAX_DIGITS, exp - (|md| - 1);
    HalfUnit(Val(md), j, k);
    UnitsOfLast(md, exp);
    Linear(1, 0, k);
    CloseEnough(x, m, u, Decimal(md, exp), Decimal(ds, e), Pow10(j) as real, Real(1, k));
  }

  /** The number and the unit of digit seventeen, in units of the last digit. */
  lemma UnitsOfLast(md: seq<Digit>, exp: int)
    requires |md| >= 20 && md[0] != 0
    ensures var j, k := |md| - MAX_DIGITS, exp - (|md| - 1); var b := Pow10(j);
      && b >= 1000 && Real(1, k + j) == b as real * Real(1, k)
      && Decimal(md, exp) >= 10000000000000000.0 * (b as real * Real(1, k))
  {
    hide Real, Val, Pow10;
    var j, k := |md| - MAX_DIGITS, exp - (|md| - 1);
    var b := Pow10(j);
    PowOrder(3, j);
    PowStep(0);
    PowStep(1);
    PowStep(2);
    Shift(1, j, k);
    assert 1 * b == b;
    Linear(b, 0, k);
    PowerBelow(md, exp, 1);
    Shift(1, 16, k + j);
    Sixteen();
    assert 1 * Pow10(16) == 10000000000000000;
    Linear(10000000000000000, 0, k + j);
  }

  lemma Sixteen()
    ensures Pow10(16) == 10000000000000000
  {
    assert Pow10(4) == 10000;
    PowAdd(4, 4);
    PowAdd(8, 8);
  }

  lemma AtMost(m: nat, w: real)
    requires m < TWO53 && w > 0.0
    ensures m as real * (if m == TWO52 then 2.0 * w else w) <= 9007199254740992.0 * w
  {
    var r := m as real;
    if m == TWO52 {
      assert r == 4503599627370496.0;
    } else {
      assert r <= 9007199254740992.0;
      Ordered(r, 9007199254740992.0, w);
    }
  }

  lemma Ample(x: real, d: real, t: real, s: real)
    requires s > 0.0 && t >= 1000.0 * s && d >= 10000000000000000.0 * t && 2.0 * Magnitude(d - x) <= s
    ensures x > 9007199254740992.0 * (t + s)
  {
  }

  lemma UnitLarge(x: real, m: nat, u: real, w: real)
    requires m < TWO53 && x == m as real * u && w > 0.0 && x > 9007199254740992.0 * w
    ensures u > if m == TWO52 then 2.0 * w else w
  {
    AtMost(m, w);
    var n := if m == TWO52 then 2.0 * w else w;
    if u <= n {
      Ordered(u, n, m as real);
    }
  }

  lemma CloseEnough(x: real, m: nat, u: real, d: real, v: real, b: real, s: real)
    requires 0 < m < TWO53 && u > 0.0 && x == m as real * u && b >= 1000.0 && s > 0.0
    requires d >= 10000000000000000.0 * (b * s)
    requires 2.0 * Magnitude(d - x) <= s && 2.0 * Magnitude(v - d) <= b * s
    ensures x - (if m == TWO52 then u / 4.0 else u / 2.0) < v < x + u / 2.0
  {
    var w := (b + 1.0) * s;
    assert w == b * s + s;
    Ordered(1000.0, b, s);
    assert 2.0 * Magnitude(v - x) <= w;
    Ample(x, d, b * s, s);
    UnitLarge(x, m, u, w);
  }
}
