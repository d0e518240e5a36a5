/** The decimal point and the output buffer: what the printed characters denote. */
module FloatText {
  import opened FloatPrint

  function DigitChar(d: Digit): char {
    (d + 48) as char
  }

  function Chars(ds: seq<Digit>): (s: string)
    ensures |s| == |ds|
  {
    seq(|ds|, i requires 0 <= i < |ds| => DigitChar(ds[i]))
  }

  function Zeros(n: nat): (z: seq<Digit>)
    ensures |z| == n
  {
    seq(n, _ => 0)
  }

  /** Fixed notation for the digits `ds` with the point before digit number `point`. */
  function Body(ds: seq<Digit>, point: int): string {
    if point <= 0 then "0." + Chars(Zeros(-point)) + Chars(ds)
    else if point >= |ds| then Chars(ds) + Chars(Zeros(point - |ds|))
    else Chars(ds[..point]) + "." + Chars(ds[point..])
  }

  function Layout(neg: bool, ds: seq<Digit>, exp: int): string {
    (if neg then "-" else "") + Body(ds, exp + 1)
  }

  // ----- Reading fixed notation -----

  /** The digits of the text as one number, the point ignored. */
  function Number(s: string): nat {
    if s == "" then 0
    else
      var c := s[|s| - 1];
      if '0' <= c <= '9' then 10 * Number(s[..|s| - 1]) + (c as int - 48) else Number(s[..|s| - 1])
  }

  /** How many characters follow the point. */
  function Fraction(s: string): nat {
    if s == "" || '.' !in s then 0
    else if s[|s| - 1] == '.' then 0
    else 1 + Fraction(s[..|s| - 1])
  }

  /** Ten to the `k`. */
  function Scale(k: int): (r: real)
    ensures r > 0.0
  {
    if k >= 0 then Pow10(k) as real else 1.0 / Pow10(-k) as real
  }

  /** `m` times ten to the `k`. */
  function Real(m: nat, k: int): real {
    m as real * Scale(k)
  }

  function ValueOf(s: string): real {
    Real(Number(s), 0 - Fraction(s))
  }

  /** A whole part without needless zeros, and a fraction, if any, that does not end in zero. */
  predicate Canonical(w: seq<Digit>, f: seq<Digit>) {
    w != [] && (w[0] == 0 ==> |w| == 1) && (f != [] ==> f[|f| - 1] != 0)
  }

  function TextOf(w: seq<Digit>, f: seq<Digit>): string {
    if f == [] then Chars(w) else Chars(w) + "." + Chars(f)
  }

  lemma CharsConcat(a: seq<Digit>, b: seq<Digit>)
    ensures Chars(a + b) == Chars(a) + Chars(b)
  {
  }

  lemma CharsSnoc(ds: seq<Digit>)
    requires ds != []
    ensures Chars(ds) == Chars(ds[..|ds| - 1]) + [DigitChar(ds[|ds| - 1])]
    ensures '.' !in Chars(ds)
  {
  }

  lemma NumberSnoc(s: string, d: Digit)
    ensures Number(s + [DigitChar(d)]) == 10 * Number(s) + d
    ensures '.' in s ==> Fraction(s + [DigitChar(d)]) == Fraction(s) + 1
  {
    var t := s + [DigitChar(d)];
    assert t[..|s|] == s && t[|s|] == DigitChar(d);
    assert '.' in s ==> '.' in t;
  }

  lemma {:induction false} NumberChars(s: string, ds: seq<Digit>)
    ensures Number(s + Chars(ds)) == Number(s) * Pow10(|ds|) + Val(ds)
    ensures '.' in s ==> Fraction(s + Chars(ds)) == Fraction(s) + |ds|
  {
    hide Number, Fraction, Chars;
    if ds == [] {
      assert s + Chars(ds) == s;
    } else {
      var front, d := ds[..|ds| - 1], ds[|ds| - 1];
      CharsSnoc(ds);
      assert s + Chars(ds) == (s + Chars(front)) + [DigitChar(d)];
      NumberSnoc(s + Chars(front), d);
      NumberChars(s, front);
      assert 10 * (Number(s) * Pow10(|front|)) == Number(s) * Pow10(|ds|);
    }
  }

  /** A canonical text reads as the digits of both parts, scaled down by the length of the fraction. */
  lemma TextValue(w: seq<Digit>, f: seq<Digit>)
    ensures Number(TextOf(w, f)) == Val(w + f) && Fraction(TextOf(w, f)) == |f|
  {
    hide Pow10, Val, Fraction, Number, Chars;
    NumberChars("", w);
    assert "" + Chars(w) == Chars(w);
    NumberEnd(Chars(w));
    if f == [] {
      assert w + f == w;
      if w != [] {
        CharsSnoc(w);
      }
    } else {
      var s := Chars(w) + ".";
      assert s[|s| - 1] == '.';
      NumberChars(s, f);
      ValConcat(w, f);
      assert Chars(w) + "." + Chars(f) == s + Chars(f);
    }
  }

  lemma NumberEnd(s: string)
    ensures Number("") == 0
    ensures Number(s + ".") == Number(s) && Fraction(s + ".") == 0
    ensures '.' !in s ==> Fraction(s) == 0
  {
    assert (s + ".")[..|s|] == s;
  }

  lemma CharsZero()
    ensures Chars([0]) == "0"
  {
  }

  lemma ZerosStep(n: nat)
    ensures Zeros(n + 1) == [0] + Zeros(n)
  {
  }

  function WholePart(ds: seq<Digit>, point: int): seq<Digit> {
    if point <= 0 then [0] else if point >= |ds| then ds + Zeros(point - |ds|) else ds[..point]
  }

  function FractionPart(ds: seq<Digit>, point: int): seq<Digit> {
    if point <= 0 then Zeros(-point) + ds else if point >= |ds| then [] else ds[point..]
  }

  /** Each placement is a canonical text. */
  lemma BodyIsText(ds: seq<Digit>, point: int)
    requires ds != []
    ensures Body(ds, point) == TextOf(WholePart(ds, point), FractionPart(ds, point))
  {
    hide Chars, Zeros;
    if point <= 0 {
      CharsZero();
      CharsConcat(Zeros(-point), ds);
      assert "0" + "." == "0.";
      Glue("0.", Chars(Zeros(-point)), Chars(ds));
    } else if point >= |ds| {
      CharsConcat(ds, Zeros(point - |ds|));
    }
  }

  lemma Glue(a: string, b: string, c: string)
    ensures a + b + c == a + (b + c)
  {
  }

  lemma BodyCanonical(ds: seq<Digit>, point: int)
    requires ds != [] && ds[0] != 0 && (|ds| > 1 ==> ds[|ds| - 1] != 0)
    ensures Canonical(WholePart(ds, point), FractionPart(ds, point))
  {
    hide Zeros;
  }

  /** The digits of both parts together: those of the number, with zeros before or behind. */
  lemma BodyDigits(ds: seq<Digit>, point: int)
    requires ds != []
    ensures var w, f := WholePart(ds, point), FractionPart(ds, point);
      && w + f == (if point <= 0 then Zeros(1 - point) + ds else if point >= |ds| then ds + Zeros(point - |ds|) else ds)
      && |f| == if point >= |ds| then 0 else |ds| - point
  {
    hide Zeros;
    if point <= 0 {
      ZerosStep(-point);
    }
  }

  lemma {:induction false} ValZeros(n: nat)
    ensures Val(Zeros(n)) == 0
  {
    if n > 0 {
      ValZeros(n - 1);
      assert Zeros(n)[..n - 1] == Zeros(n - 1);
    }
  }

  /** Wherever the point falls, the text denotes the digits times their power of ten. */
  lemma {:induction false} BodyValue(ds: seq<Digit>, exp: int)
    requires ds != [] && ds[0] != 0 && (|ds| > 1 ==> ds[|ds| - 1] != 0)
    ensures exists w, f :: Canonical(w, f) && Body(ds, exp + 1) == TextOf(w, f)
    ensures ValueOf(Body(ds, exp + 1)) == Real(Val(ds), exp - (|ds| - 1))
  {
    hide Body, TextOf, Number, Fraction, Real, Val, Pow10, Canonical, Chars, Zeros, WholePart, FractionPart;
    var point := exp + 1;
    var w, f := WholePart(ds, point), FractionPart(ds, point);
    BodyIsText(ds, point);
    BodyCanonical(ds, point);
    BodyDigits(ds, point);
    TextValue(w, f);
    if point <= 0 {
      ValConcat(Zeros(1 - point), ds);
      ValZeros(1 - point);
    } else if point >= |ds| {
      ValConcat(ds, Zeros(point - |ds|));
      ValZeros(point - |ds|);
      Shift(Val(ds), point - |ds|, 0);
    }
  }

  // ----- The printed number against the exact one -----

  lemma ScaleStep(k: int)
    ensures Scale(k + 1) == 10.0 * Scale(k)
  {
    if k < 0 {
      var v := Pow10(-k - 1) as real;
      assert Pow10(-k) as real == 10.0 * v;
      var x := 1.0 / (10.0 * v);
      assert (10.0 * x) * v == 1.0;
    }
  }

  lemma {:induction false} ScaleShift(j: nat, k: int)
    ensures Pow10(j) as real * Scale(k) == Scale(k + j)
  {
    hide Scale;
    if j > 0 {
      ScaleShift(j - 1, k);
      ScaleStep(k + j - 1);
      assert Pow10(j) as real == 10.0 * Pow10(j - 1) as real;
      assert (10.0 * Pow10(j - 1) as real) * Scale(k) == 10.0 * (Pow10(j - 1) as real * Scale(k));
    }
  }

  lemma Shift(m: nat, j: nat, k: int)
    ensures Real(m * Pow10(j), k) == Real(m, k + j)
  {
    hide Scale, Pow10;
    ScaleShift(j, k);
    assert (m * Pow10(j)) as real == m as real * Pow10(j) as real;
    assert m as real * Pow10(j) as real * Scale(k) == m as real * (Pow10(j) as real * Scale(k));
  }

  /** The candidate has the value of the rounded number, at most `p` digits, none of them idle. */
  lemma CandidateValue(md: seq<Digit>, exp: int, p: nat)
    requires 1 <= p <= |md| && md[0] != 0
    ensures var (ds, e) := Candidate(md, exp, p);
            && 1 <= |ds| <= p && ds[0] != 0 && (|ds| > 1 ==> ds[|ds| - 1] != 0) && exp <= e <= exp + 1
            && Real(Val(ds), e - (|ds| - 1)) == Real(HalfUp(Val(md), Pow10(|md| - p)), exp - (p - 1))
  {
    hide HalfUp, Pow10, Val, Real, Digits;
    var q := HalfUp(Val(md), Pow10(|md| - p));
    RoundedSize(md, p);
    DigitsSize(q, p);
    var ds := Digits(q);
    TrimValue(ds);
    Shift(Val(Trim(ds)), |ds| - |Trim(ds)|, exp - (p - 1));
  }

  lemma RoundedSize(md: seq<Digit>, p: nat)
    requires 1 <= p <= |md| && md[0] != 0
    ensures Pow10(p - 1) <= HalfUp(Val(md), Pow10(|md| - p)) <= Pow10(p)
  {
    hide HalfUp, Pow10, Val;
    RoundsUp(md, p);
    ValBound(md[..p]);
  }

  lemma {:induction false} DigitsSize(q: nat, p: nat)
    requires p > 0 && Pow10(p - 1) <= q <= Pow10(p)
    ensures Val(Digits(q)) == q && Digits(q)[0] != 0
    ensures |Digits(q)| == if q == Pow10(p) then p + 1 else p
    ensures q == Pow10(p) ==> Digits(q)[p] == 0
  {
    if q < 10 {
      assert Digits(q) == [q];
      assert p == 1;
    } else if p == 1 {
      assert Digits(q) == [1, 0];
      assert [1, 0][..1] == [1];
    } else {
      DigitsSize(q / 10, p - 1);
      assert Digits(q)[..|Digits(q)| - 1] == Digits(q / 10);
    }
  }

  function Magnitude(x: real): real {
    if x < 0.0 then -x else x
  }

  lemma Linear(a: nat, b: nat, k: int)
    ensures Real(a, k) == a as real * Real(1, k) && Real(1, k) > 0.0
    ensures Real(a, k) - Real(b, k) == (a - b) as real * Real(1, k)
  {
    hide Scale;
    assert (a - b) as real == a as real - b as real;
  }

  /** The printed text is canonical fixed notation, and its value is within half a unit of digit `p` of the
      number with the digits `md` and the exponent `exp`. */
  lemma {:induction false} PrintedValue(md: seq<Digit>, exp: int, p: nat)
    requires 1 <= p <= |md| && md[0] != 0
    ensures var (ds, e) := Candidate(md, exp, p);
            && (exists w, f :: Canonical(w, f) && Body(ds, e + 1) == TextOf(w, f))
            && 2.0 * Magnitude(ValueOf(Body(ds, e + 1)) - Real(Val(md), exp - (|md| - 1))) <= Real(1, exp - (p - 1))
  {
    hide Candidate, HalfUp, Real, Val, Pow10, Body, ValueOf, TextOf, Canonical, Magnitude;
    var (ds, e) := Candidate(md, exp, p);
    CandidateValue(md, exp, p);
    BodyValue(ds, e);
    HalfUnit(Val(md), |md| - p, exp - (|md| - 1));
  }

  /** Rounding away `j` digits moves the number by at most half a unit of the last digit kept. */
  lemma HalfUnit(n: nat, j: nat, k: int)
    ensures 2.0 * Magnitude(Real(HalfUp(n, Pow10(j)), k + j) - Real(n, k)) <= Real(1, k + j)
  {
    hide HalfUp, Real, Pow10;
    var u := Pow10(j);
    var q := HalfUp(n, u);
    Shift(q, j, k);
    Shift(1, j, k);
    assert 1 * u == u;
    Linear(q * u, n, k);
    Linear(u, 0, k);
    Half(q * u, n, u, Real(1, k));
  }

  lemma Half(a: nat, n: nat, u: nat, r: real)
    requires 2 * a <= 2 * n + u < 2 * a + 2 * u
    ensures r >= 0.0 ==> 2.0 * Magnitude((a - n) as real * r) <= u as real * r
  {
    if r >= 0.0 {
      var d := a - n;
      assert (2 * d) as real <= u as real && (-2 * d) as real <= u as real;
      assert (2 * d) as real * r <= u as real * r;
      assert (-2 * d) as real * r <= u as real * r;
      assert (2 * d) as real * r == 2.0 * (d as real * r);
      assert (-2 * d) as real * r == -2.0 * (d as real * r);
    }
  }
}
