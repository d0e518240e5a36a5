/** Shortest decimal printing of a double: rounding, trimming, choice of precision, placement of the point. */
module FloatPrint {
  type Digit = d: nat | d < 10

  const LEAST_EXP := -324
  const MOST_EXP := 308
  const MAX_DIGITS := 17

  // ----- Digit strings and their value -----

  function Pow10(k: nat): (p: nat)
    ensures p > 0
  {
    if k == 0 then 1 else 10 * Pow10(k - 1)
  }

  lemma PowStep(k: nat)
    ensures Pow10(0) == 1 && Pow10(k + 1) == 10 * Pow10(k)
  {
  }

  lemma {:induction false} PowAdd(a: nat, b: nat)
    ensures Pow10(a + b) == Pow10(a) * Pow10(b)
  {
    if a > 0 {
      PowAdd(a - 1, b);
    }
  }

  /** The number a digit string denotes. */
  function Val(ds: seq<Digit>): nat {
    if ds == [] then 0 else 10 * Val(ds[..|ds| - 1]) + ds[|ds| - 1]
  }

  lemma {:induction false} ValConcat(a: seq<Digit>, b: seq<Digit>)
    ensures Val(a + b) == Val(a) * Pow10(|b|) + Val(b)
  {
    if b == [] {
      assert a + b == a;
    } else {
      var front := b[..|b| - 1];
      assert (a + b)[..|a + b| - 1] == a + front;
      ValConcat(a, front);
      calc {
        Val(a + b);
        10 * Val(a + front) + b[|b| - 1];
        10 * (Val(a) * Pow10(|front|)) + 10 * Val(front) + b[|b| - 1];
        { assert 10 * (Val(a) * Pow10(|front|)) == Val(a) * (10 * Pow10(|front|)); }
        Val(a) * Pow10(|b|) + Val(b);
      }
    }
  }

  lemma {:induction false} ValBound(ds: seq<Digit>)
    ensures Val(ds) < Pow10(|ds|)
    ensures ds != [] && ds[0] != 0 ==> Val(ds) >= Pow10(|ds| - 1)
  {
    if |ds| > 1 {
      ValBound(ds[..|ds| - 1]);
    } else if |ds| == 1 {
      assert ds[..0] == [];
    }
  }

  lemma ValUpdate(ds: seq<Digit>, i: nat, d: Digit)
    requires i < |ds|
    ensures Val(ds[i := d]) == Val(ds) + (d - ds[i]) * Pow10(|ds| - 1 - i)
  {
    hide Val, Pow10;
    var a, b := ds[..i], ds[i + 1..];
    assert ds == (a + [ds[i]]) + b && ds[i := d] == (a + [d]) + b;
    ValConcat(a + [ds[i]], b);
    ValConcat(a + [d], b);
    ValSnoc(a, ds[i]);
    ValSnoc(a, d);
    Distribute(Val(a), d, ds[i], Pow10(|b|));
  }

  lemma Distribute(a: int, d: int, e: int, w: int)
    ensures (10 * a + d) * w == (10 * a + e) * w + (d - e) * w
  {
  }

  lemma ValSnoc(a: seq<Digit>, d: Digit)
    ensures Val(a + [d]) == 10 * Val(a) + d
  {
    assert (a + [d])[..|a|] == a;
  }

  /** The decimal expansion of a number. */
  function Digits(n: nat): (ds: seq<Digit>)
    ensures ds != []
  {
    if n < 10 then [n] else Digits(n / 10) + [n % 10]
  }

  lemma {:induction false} DigitsOfVal(ds: seq<Digit>)
    requires ds != [] && ds[0] != 0
    ensures Digits(Val(ds)) == ds
  {
    var front := ds[..|ds| - 1];
    if |ds| > 1 {
      DigitsOfVal(front);
      ValBound(front);
      assert Val(ds) / 10 == Val(front) && Val(ds) % 10 == ds[|ds| - 1];
      assert front + [ds[|ds| - 1]] == ds;
    } else {
      assert front == [];
    }
  }

  /** A digit string without trailing zeros, down to one digit. */
  function Trim(ds: seq<Digit>): (t: seq<Digit>)
    ensures t <= ds && (ds != [] ==> t != []) && (|t| > 1 ==> t[|t| - 1] != 0)
    ensures forall k :: |t| <= k < |ds| ==> ds[k] == 0
  {
    if |ds| > 1 && ds[|ds| - 1] == 0 then Trim(ds[..|ds| - 1]) else ds
  }

  lemma {:induction false} TrimValue(ds: seq<Digit>)
    ensures Val(Trim(ds)) * Pow10(|ds| - |Trim(ds)|) == Val(ds)
  {
    if |ds| > 1 && ds[|ds| - 1] == 0 {
      var front := ds[..|ds| - 1];
      TrimValue(front);
      var t := Trim(front);
      calc {
        Val(t) * Pow10(|ds| - |t|);
        Val(t) * (10 * Pow10(|front| - |t|));
        10 * (Val(t) * Pow10(|front| - |t|));
        10 * Val(front);
        Val(ds);
      }
    }
  }

  // ----- Rounding, as arithmetic -----

  /** `n` in units of `u`, rounded to the nearest, a half upwards. */
  function HalfUp(n: nat, u: nat): (q: nat)
    requires u > 0
    ensures 2 * (q * u) <= 2 * n + u < 2 * (q * u) + 2 * u
  {
    DivUnit(n, u);
    (2 * n + u) / (2 * u)
  }

  lemma DivUnit(n: nat, u: nat)
    requires u > 0
    ensures var q := (2 * n + u) / (2 * u); q >= 0 && 2 * (q * u) <= 2 * n + u < 2 * (q * u) + 2 * u
  {
    var x, d := 2 * n + u, 2 * u;
    var q := x / d;
    assert x == q * d + x % d;
    assert q * d == 2 * (q * u);
  }

  /** Half-up rounding is the only number within half a unit, an exact half counting from below only. */
  lemma {:induction false} HalfUpUnique(n: nat, u: nat, q: nat)
    requires u > 0 && 2 * (q * u) <= 2 * n + u < 2 * (q * u) + 2 * u
    ensures q == HalfUp(n, u)
  {
    var h := HalfUp(n, u);
    if q < h {
      OneMore(q, h, u);
    } else if h < q {
      OneMore(h, q, u);
    }
  }

  lemma {:induction false} OneMore(a: nat, b: nat, u: nat)
    requires a < b
    ensures a * u + u <= b * u
  {
    assert b * u == (b - 1) * u + u;
    if b > a + 1 {
      OneMore(a, b - 1, u);
    }
  }

  /** Looking at the digit `d` after the cut decides the rounding. */
  lemma HalfUpByDigit(n: nat, a: nat, d: Digit, v: nat, c: nat)
    requires n == (10 * a + d) * v + c && c < v
    ensures HalfUp(n, 10 * v) == if d >= 5 then a + 1 else a
  {
    hide HalfUp;
    Parts(a, d, v);
    HalfUpUnique(n, 10 * v, if d >= 5 then a + 1 else a);
  }

  lemma Parts(a: nat, d: Digit, v: nat)
    ensures (10 * a + d) * v == a * (10 * v) + d * v
    ensures (a + 1) * (10 * v) == a * (10 * v) + 10 * v
    ensures if d >= 5 then 5 * v <= d * v <= 9 * v else 0 <= d * v <= 4 * v
  {
    assert (10 * a) * v == a * (10 * v);
  }

  lemma {:induction false} RoundsUp(md: seq<Digit>, p: nat)
    requires p <= |md|
    ensures HalfUp(Val(md), Pow10(|md| - p)) == Val(md[..p]) + (if p < |md| && md[p] >= 5 then 1 else 0)
  {
    hide HalfUp, Val, Pow10;
    PowStep(if p < |md| then |md| - p - 1 else 0);
    if p == |md| {
      assert md[..p] == md;
      HalfUpUnique(Val(md), 1, Val(md));
    } else {
      assert md == md[..p + 1] + md[p + 1..] && md[..p + 1] == md[..p] + [md[p]];
      ValSnoc(md[..p], md[p]);
      ValConcat(md[..p + 1], md[p + 1..]);
      ValBound(md[p + 1..]);
      var a, d, v, c := Val(md[..p]), md[p], Pow10(|md| - p - 1), Val(md[p + 1..]);
      HalfUpByDigit(Val(md), a, d, v, c);
    }
  }

  /** The candidate of precision `p`: the rounded number without trailing zeros, and the exponent of its
      first digit. The digits `md` have exponent `exp`. */
  function Candidate(md: seq<Digit>, exp: int, p: nat): (seq<Digit>, int)
    requires 1 <= p <= |md|
  {
    var ds := Digits(HalfUp(Val(md), Pow10(|md| - p)));
    (Trim(ds), exp + |ds| - p)
  }

  // ----- Rounding, as the digit loop -----

  /** Adds one to the first `p` digits in place; a negative result means that all of them were nines. */
  method Increment(r: array<Digit>, p: nat) returns (i: int)
    requires 1 <= p <= r.Length
    modifies r
    ensures i >= 0 ==> Val(r[..p]) == Val(old(r[..p])) + 1
    ensures i < 0 ==> Val(r[..p]) == 0 && Val(old(r[..p])) + 1 == Pow10(p)
  {
    hide Val, Pow10;
    ghost var was := r[..p];
    i := p - 1;
    PowStep(0);
    while i >= 0
      invariant -1 <= i < p
      invariant Val(r[..p]) + Pow10(p - 1 - i) == Val(was) + 1
    {
      ghost var now := r[..p];
      PowStep(p - 1 - i);
      ValUpdate(now, i, if r[i] < 9 then r[i] + 1 else 0);
      if r[i] < 9 {
        r[i] := r[i] + 1;
        assert r[..p] == now[i := now[i] + 1];
        return;
      }
      r[i] := 0;
      assert r[..p] == now[i := 0];
      i := i - 1;
    }
    ValBound(was);
  }

  lemma LeadingZero(ds: seq<Digit>)
    requires ds != [] && ds[0] == 0
    ensures Val(ds) < Pow10(|ds| - 1)
  {
    assert ds == [0] + ds[1..];
    ValConcat([0], ds[1..]);
    ValBound(ds[1..]);
  }

  /** The digits after the rounding step determine the candidate, with or without the carry. */
  lemma CandidateDigits(md: seq<Digit>, exp: int, p: nat, r: seq<Digit>, carry: bool)
    requires 1 <= p <= |md| && |r| == p && r[0] != 0
    requires HalfUp(Val(md), Pow10(|md| - p)) == if carry then 10 * Val(r) else Val(r)
    ensures Candidate(md, exp, p) == (Trim(r), if carry then exp + 1 else exp)
  {
    DigitsOfVal(r);
    ValBound(r);
    if carry {
      assert Digits(10 * Val(r)) == r + [0];
      assert (r + [0])[..p] == r;
    }
  }

  /** The digits after the carry out of the first digit. */
  lemma CarryDigits(zeros: seq<Digit>)
    requires zeros != [] && Val(zeros) == 0
    ensures var r := [1] + zeros[..|zeros| - 1]; r[0] != 0 && 10 * Val(r) == Pow10(|zeros|)
  {
    var front := zeros[..|zeros| - 1];
    ValConcat([1], front);
    assert Val([1]) == 1;
  }

  lemma NoCarryDigits(was: seq<Digit>, r: seq<Digit>)
    requires was != [] && was[0] != 0 && |r| == |was| && Val(r) >= Val(was)
    ensures r[0] != 0
  {
    ValBound(was);
    if r[0] == 0 {
      LeadingZero(r);
    }
  }

  lemma TrimStep(ds: seq<Digit>)
    requires ds != []
    ensures Trim(ds) == if |ds| > 1 && ds[|ds| - 1] == 0 then Trim(ds[..|ds| - 1]) else ds
  {
  }

  method TrimZeros(r: array<Digit>, p: nat) returns (rn: nat)
    requires 1 <= p <= r.Length
    ensures rn <= p && r[..rn] == Trim(r[..p])
  {
    hide Trim;
    rn := p;
    while rn > 1 && r[rn - 1] == 0
      invariant 1 <= rn <= p && Trim(r[..rn]) == Trim(r[..p])
    {
      TrimStep(r[..rn]);
      assert r[..rn][..rn - 1] == r[..rn - 1];
      rn := rn - 1;
    }
    TrimStep(r[..rn]);
  }

  method RoundDigits(md: seq<Digit>, exp: int, p: nat) returns (best: seq<Digit>, bestExp: int)
    requires 1 <= p <= |md| && p < 48 && md[0] != 0
    ensures (best, bestExp) == Candidate(md, exp, p)
  {
    hide Val, Pow10, Candidate, HalfUp, Trim;
    var r := new Digit[48];
    var rexp := exp;
    for i := 0 to p
      invariant r[..i] == md[..i]
    {
      r[i] := md[i];
    }
    RoundsUp(md, p);
    ghost var carry := false;
    if p < |md| && md[p] >= 5 {
      var i := Increment(r, p);
      if i < 0 {
        ghost var zeros := r[..p];
        forall j | 0 <= j < p {
          r[j + 1] := r[j];
        }
        r[0] := 1;
        rexp := rexp + 1;
        carry := true;
        CarryDigits(zeros);
        assert r[..p] == [1] + zeros[..p - 1];
      }
    }
    if !carry {
      NoCarryDigits(md[..p], r[..p]);
    }
    CandidateDigits(md, exp, p, r[..p], carry);
    var rn := TrimZeros(r, p);
    best, bestExp := r[..rn], rexp;
  }

  // ----- The choice of precision -----

  /** The first precision from `k` on whose candidate reads back as the printed double, or the last one tried. */
  function Precision(md: seq<Digit>, exp: int, readsBack: (seq<Digit>, int) -> bool, k: nat): (p: nat)
    requires MAX_DIGITS <= |md| && 1 <= k <= MAX_DIGITS
    ensures k <= p <= MAX_DIGITS && forall j :: k <= j < p ==> !Accepted(md, exp, readsBack, j)
    ensures p < MAX_DIGITS ==> Accepted(md, exp, readsBack, p)
    decreases MAX_DIGITS - k
  {
    if k == MAX_DIGITS || Accepted(md, exp, readsBack, k) then k else Precision(md, exp, readsBack, k + 1)
  }

  predicate Accepted(md: seq<Digit>, exp: int, readsBack: (seq<Digit>, int) -> bool, p: nat)
    requires 1 <= p <= |md|
  {
    var (ds, e) := Candidate(md, exp, p);
    readsBack(ds, e)
  }

  method Shortest(md: seq<Digit>, exp: int, readsBack: (seq<Digit>, int) -> bool)
    returns (best: seq<Digit>, bestExp: int)
    requires MAX_DIGITS <= |md| && md[0] != 0
    ensures (best, bestExp) == Candidate(md, exp, Precision(md, exp, readsBack, 1))
  {
    hide Candidate;
    best, bestExp := [0], 0;
    for k := 1 to MAX_DIGITS + 1
      invariant k <= MAX_DIGITS ==> Precision(md, exp, readsBack, 1) == Precision(md, exp, readsBack, k)
      invariant k == MAX_DIGITS + 1 ==> (best, bestExp) == Candidate(md, exp, Precision(md, exp, readsBack, 1))
    {
      best, bestExp := RoundDigits(md, exp, k);
      if readsBack(best, bestExp) {
        return;
      }
    }
  }
}
