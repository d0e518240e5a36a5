/** Writing a printed double into a fixed buffer, character by character. */
module FloatBuffer {
  import opened FloatPrint
  import opened FloatText

  /** A double as the formatter sees it: a special value, or a sign with its decimal expansion. */
  datatype Double =
    | NaN
    | Infinity(neg: bool)
    | Zero(neg: bool)
    | Finite(neg: bool, md: seq<Digit>, exp: int)

  predicate Expanded(v: Double) {
    v.Finite? ==> MAX_DIGITS <= |v.md| && v.md[0] != 0
  }

  /** The complete text; a finite value has the least precision that reads back. */
  function Rendering(v: Double, readsBack: (seq<Digit>, int) -> bool): string
    requires Expanded(v)
  {
    match v
    case NaN => "NaN"
    case Infinity(neg) => if neg then "-inf" else "inf"
    case Zero(neg) => if neg then "-0" else "0"
    case Finite(neg, md, exp) =>
      var (ds, e) := Candidate(md, exp, Precision(md, exp, readsBack, 1));
      Layout(neg, ds, e)
  }

  /** As much of a text as fits. */
  function Cut(t: string, room: nat): string {
    if |t| <= room then t else t[..room]
  }

  /** The buffer holds what fits of the text written so far. */
  predicate Holds(out: array<char>, o: nat, t: string)
    reads out
  {
    o < out.Length && out[..o] == Cut(t, out.Length - 1)
  }

  method Put(out: array<char>, o: nat, c: char, ghost t: string) returns (o': nat)
    requires Holds(out, o, t)
    modifies out
    ensures Holds(out, o', t + [c])
  {
    o' := o;
    if o < out.Length - 1 {
      out[o] := c;
      o' := o + 1;
    }
  }

  method PutDigits(out: array<char>, o: nat, ds: seq<Digit>, ghost t: string) returns (o': nat)
    requires Holds(out, o, t)
    modifies out
    ensures Holds(out, o', t + Chars(ds))
  {
    o' := o;
    var i := 0;
    assert t + Chars(ds[..0]) == t;
    while i < |ds| && o' < out.Length - 1
      invariant 0 <= i <= |ds| && Holds(out, o', t + Chars(ds[..i]))
    {
      CharsConcat(ds[..i], [ds[i]]);
      assert ds[..i + 1] == ds[..i] + [ds[i]];
      assert t + Chars(ds[..i]) + Chars([ds[i]]) == t + Chars(ds[..i + 1]);
      assert Chars([ds[i]]) == [DigitChar(ds[i])];
      o' := Put(out, o', DigitChar(ds[i]), t + Chars(ds[..i]));
      i := i + 1;
    }
    CharsConcat(ds[..i], ds[i..]);
    assert ds == ds[..i] + ds[i..];
    assert t + Chars(ds) == t + Chars(ds[..i]) + Chars(ds[i..]);
  }

  method PutZeros(out: array<char>, o: nat, n: nat, ghost t: string) returns (o': nat)
    requires Holds(out, o, t)
    modifies out
    ensures Holds(out, o', t + Chars(Zeros(n)))
  {
    o' := o;
    var i := 0;
    assert t + Chars(Zeros(0)) == t;
    while i < n && o' < out.Length - 1
      invariant 0 <= i <= n && Holds(out, o', t + Chars(Zeros(i)))
    {
      assert t + Chars(Zeros(i)) + ['0'] == t + Chars(Zeros(i + 1));
      o' := Put(out, o', '0', t + Chars(Zeros(i)));
      i := i + 1;
    }
    assert t + Chars(Zeros(i)) <= t + Chars(Zeros(n));
  }

  lemma Append(s: string, a: string, b: string, c: string)
    ensures s + a + b == s + (a + b) && s + a + b + c == s + (a + b + c)
  {
  }

  /** Places the digits and the point behind an optional sign. */
  method Place(out: array<char>, neg: bool, best: seq<Digit>, bestExp: int) returns (o: nat)
    requires out.Length > 0
    modifies out
    ensures Holds(out, o, Layout(neg, best, bestExp))
  {
    var point := bestExp + 1;
    ghost var t := if neg then "-" else "";
    o := 0;
    assert Holds(out, 0, "") && "" + ['-'] == "-";
    hide Holds, Body;
    if neg {
      o := Put(out, o, '-', "");
    }
    if point <= 0 {
      o := PlaceSmall(out, o, best, point, t);
    } else if point >= |best| {
      o := PlaceWhole(out, o, best, point, t);
    } else {
      o := PlaceInside(out, o, best, point, t);
    }
  }

  method PlaceSmall(out: array<char>, o: nat, best: seq<Digit>, point: int, ghost t: string) returns (o': nat)
    requires Holds(out, o, t) && point <= 0
    modifies out
    ensures Holds(out, o', t + Body(best, point))
  {
    hide Chars, Zeros, Holds;
    o' := Put(out, o, '0', t);
    o' := Put(out, o', '.', t + ['0']);
    Append(t, ['0'], ['.'], "");
    assert ['0'] + ['.'] == "0.";
    o' := PutZeros(out, o', -point, t + "0.");
    o' := PutDigits(out, o', best, t + "0." + Chars(Zeros(-point)));
    Append(t, "0.", Chars(Zeros(-point)), Chars(best));
  }

  method PlaceWhole(out: array<char>, o: nat, best: seq<Digit>, point: nat, ghost t: string) returns (o': nat)
    requires Holds(out, o, t) && 0 < point && point >= |best|
    modifies out
    ensures Holds(out, o', t + Body(best, point))
  {
    hide Chars, Zeros, Holds;
    o' := PutDigits(out, o, best, t);
    o' := PutZeros(out, o', point - |best|, t + Chars(best));
    Append(t, Chars(best), Chars(Zeros(point - |best|)), "");
  }

  method PlaceInside(out: array<char>, o: nat, best: seq<Digit>, point: nat, ghost t: string) returns (o': nat)
    requires Holds(out, o, t) && 0 < point < |best|
    modifies out
    ensures Holds(out, o', t + Body(best, point))
  {
    hide Chars, Holds;
    o' := PutDigits(out, o, best[..point], t);
    o' := Put(out, o', '.', t + Chars(best[..point]));
    o' := PutDigits(out, o', best[point..], t + Chars(best[..point]) + ['.']);
    Append(t, Chars(best[..point]), ['.'], Chars(best[point..]));
  }

  method Write(out: array<char>, t: string) returns (o: nat)
    requires out.Length > 0
    modifies out
    ensures Holds(out, o, t)
  {
    o := 0;
    for i := 0 to |t|
      invariant Holds(out, o, t[..i])
    {
      assert t[..i + 1] == t[..i] + [t[i]];
      o := Put(out, o, t[i], t[..i]);
    }
    assert t[..|t|] == t;
  }

  /** The formatter: the text at the chosen precision, as far as it fits, and a terminating zero. */
  method FormatFloat(v: Double, readsBack: (seq<Digit>, int) -> bool, out: array<char>) returns (o: nat)
    requires Expanded(v) && out.Length > 0
    modifies out
    ensures Holds(out, o, Rendering(v, readsBack)) && out[o] == '\0'
  {
    hide Candidate, Layout, Precision;
    if v.NaN? {
      o := Write(out, "NaN");
    } else if v.Infinity? {
      o := Write(out, if v.neg then "-inf" else "inf");
    } else if v.Zero? {
      o := Write(out, if v.neg then "-0" else "0");
    } else {
      var best, bestExp := Shortest(v.md, v.exp, readsBack);
      o := Place(out, v.neg, best, bestExp);
    }
    ghost var text := out[..o];
    out[o] := '\0';
    assert out[..o] == text;
  }

  /** Infinity and zero have their own texts, and so has NaN. A sign stands in front of the text of the number
      without it. */
  lemma SpecialTexts(md: seq<Digit>, exp: int, readsBack: (seq<Digit>, int) -> bool)
    requires Expanded(Finite(false, md, exp))
    ensures Rendering(NaN, readsBack) == ['N', 'a', 'N']
    ensures Rendering(Infinity(false), readsBack) == ['i', 'n', 'f'] && Rendering(Zero(false), readsBack) == ['0']
    ensures Rendering(Infinity(true), readsBack) == ['-'] + Rendering(Infinity(false), readsBack)
    ensures Rendering(Zero(true), readsBack) == ['-'] + Rendering(Zero(false), readsBack)
    ensures Rendering(Finite(true, md, exp), readsBack) == ['-'] + Rendering(Finite(false, md, exp), readsBack)
  {
    hide Candidate, Precision, Body;
  }

  /** What the formatter prints for a finite double: canonical fixed notation, within half a unit of its last
      tried digit of the value of its expansion. */
  lemma RenderedValue(neg: bool, md: seq<Digit>, exp: int, readsBack: (seq<Digit>, int) -> bool)
    requires Expanded(Finite(neg, md, exp))
    ensures var p := Precision(md, exp, readsBack, 1);
      exists w, f :: Canonical(w, f)
        && Rendering(Finite(neg, md, exp), readsBack) == (if neg then "-" else "") + TextOf(w, f)
        && 2.0 * Magnitude(ValueOf(TextOf(w, f)) - Real(Val(md), exp - (|md| - 1))) <= Real(1, exp - (p - 1))
  {
    hide Candidate, Precision, Real, Val, ValueOf, TextOf, Canonical;
    PrintedValue(md, exp, Precision(md, exp, readsBack, 1));
  }

  /** With the exponents of doubles nothing is ever cut off in a buffer of 400 characters. */
  lemma {:induction false} NeverCut(v: Double, readsBack: (seq<Digit>, int) -> bool)
    requires Expanded(v) && (v.Finite? ==> LEAST_EXP <= v.exp <= MOST_EXP)
    ensures Cut(Rendering(v, readsBack), 399) == Rendering(v, readsBack)
  {
    hide Candidate, Chars, Zeros, Precision;
    if v.Finite? {
      var p := Precision(v.md, v.exp, readsBack, 1);
      CandidateValue(v.md, v.exp, p);
      var (ds, e) := Candidate(v.md, v.exp, p);
      assert |Layout(v.neg, ds, e)| <= 399;
    }
  }
}
