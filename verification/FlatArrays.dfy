/** Row-major flattening of subscripts, for any number of dimensions. */
module FlatArrays {
  import opened Ir
  import Labels

  /** The emitted C expression, over the emitted subscripts and sizes. */
  datatype CExpr = Atom(e: IrExpr) | One | Plus(left: CExpr, right: CExpr) | Times(left: CExpr, right: CExpr)

  function Eval(c: CExpr, value: IrExpr -> int): int {
    match c
    case Atom(e) => value(e)
    case One => 1
    case Plus(l, r) => Eval(l, value) + Eval(r, value)
    case Times(l, r) => Eval(l, value) * Eval(r, value)
  }

  function Values(es: seq<IrExpr>, value: IrExpr -> int): (vs: seq<int>)
    ensures |vs| == |es|
  {
    seq(|es|, k requires 0 <= k < |es| => value(es[k]))
  }

  // ----- Offsets as arithmetic -----

  /** The number of elements; a dimension with upper bound `d` has `d + 1`. */
  function Size(ds: seq<int>): int {
    if ds == [] then 1 else Size(ds[..|ds| - 1]) * (ds[|ds| - 1] + 1)
  }

  lemma {:induction false} SizeFirst(ds: seq<int>)
    requires ds != []
    ensures Size(ds) == (ds[0] + 1) * Size(ds[1..])
  {
    var n := |ds| - 1;
    if n == 0 {
      assert ds[..0] == [] && ds[1..] == [];
    } else {
      SizeFirst(ds[..n]);
      assert ds[1..][..n - 1] == ds[..n][1..];
      var a, b, e := ds[0] + 1, Size(ds[..n][1..]), ds[n] + 1;
      assert (a * b) * e == a * (b * e);
    }
  }

  predicate InBounds(ds: seq<int>, xs: seq<int>) {
    |xs| == |ds| && forall k :: 0 <= k < |ds| ==> 0 <= xs[k] <= ds[k]
  }

  /** The interpreter's form: scale up by each dimension and add its subscript. */
  function Horner(ds: seq<int>, xs: seq<int>): int
    requires |xs| == |ds|
  {
    if ds == [] then 0
    else Horner(ds[..|ds| - 1], xs[..|ds| - 1]) * (ds[|ds| - 1] + 1) + xs[|ds| - 1]
  }

  /** The sum of the first `n` subscripts, each times the sizes of all later dimensions. */
  function Sum(ds: seq<int>, xs: seq<int>, n: nat): int
    requires |xs| == |ds| && n <= |ds|
  {
    if n == 0 then 0 else Sum(ds, xs, n - 1) + xs[n - 1] * Size(ds[n..])
  }

  lemma SizeLast(ds: seq<int>, n: nat)
    requires n < |ds|
    ensures Size(ds[n..]) == Size(ds[..|ds| - 1][n..]) * (ds[|ds| - 1] + 1)
  {
    assert ds[n..][..|ds[n..]| - 1] == ds[..|ds| - 1][n..];
  }

  lemma TermScaled(s: int, i: int, z: int, e: int)
    ensures s * e + i * (z * e) == (s + i * z) * e
  {
    assert i * (z * e) == (i * z) * e;
  }

  lemma {:induction false} SumScaled(ds: seq<int>, xs: seq<int>, n: nat)
    requires |xs| == |ds| && n < |ds|
    ensures Sum(ds, xs, n) == Sum(ds[..|ds| - 1], xs[..|ds| - 1], n) * (ds[|ds| - 1] + 1)
  {
    hide Size;
    if n > 0 {
      var front, xfront := ds[..|ds| - 1], xs[..|ds| - 1];
      SumScaled(ds, xs, n - 1);
      SizeLast(ds, n);
      TermScaled(Sum(front, xfront, n - 1), xs[n - 1], Size(front[n..]), ds[|ds| - 1] + 1);
    }
  }

  /** The emitted sum of products is the interpreter's offset. */
  lemma {:induction false} SumIsHorner(ds: seq<int>, xs: seq<int>)
    requires |xs| == |ds|
    ensures Sum(ds, xs, |ds|) == Horner(ds, xs)
  {
    if ds != [] {
      var n := |ds| - 1;
      SumIsHorner(ds[..n], xs[..n]);
      SumScaled(ds, xs, n);
      assert ds[n + 1..] == [];
    }
  }

  lemma {:induction false} Grow(a: int, b: int, e: nat)
    requires a <= b
    ensures a * e <= b * e
    decreases b - a
  {
    if a < b {
      Grow(a, b - 1, e);
      assert b * e == (b - 1) * e + e;
    }
  }

  lemma Row(q: int, n: int, e: int, i: int)
    requires 0 <= q < n && 0 <= i < e
    ensures 0 <= q * e + i < n * e
  {
    Grow(0, q, e);
    Grow(q + 1, n, e);
    assert (q + 1) * e == q * e + e;
  }

  /** Subscripts in bounds give an offset inside the array. */
  lemma {:induction false} OffsetInRange(ds: seq<int>, xs: seq<int>)
    requires InBounds(ds, xs)
    ensures 0 <= Horner(ds, xs) < Size(ds)
  {
    if ds != [] {
      var n := |ds| - 1;
      OffsetInRange(ds[..n], xs[..n]);
      Row(Horner(ds[..n], xs[..n]), Size(ds[..n]), ds[n] + 1, xs[n]);
    }
  }

  /** The subscripts of the element at an offset. */
  function Subscripts(ds: seq<int>, off: int): (xs: seq<int>)
    requires forall k :: 0 <= k < |ds| ==> ds[k] >= 0
    ensures |xs| == |ds|
  {
    if ds == [] then []
    else
      var n := |ds| - 1;
      Subscripts(ds[..n], off / (ds[n] + 1)) + [off % (ds[n] + 1)]
  }

  lemma Split(q: int, e: int, i: int)
    requires 0 <= i < e
    ensures (q * e + i) / e == q && (q * e + i) % e == i
  {
    var x := q * e + i;
    var p := x / e;
    assert x == p * e + x % e;
    assert (q + 1) * e == q * e + e && (p + 1) * e == p * e + e;
    if p < q {
      Grow(p + 1, q, e);
    } else if p > q {
      Grow(q + 1, p, e);
    }
  }

  lemma NoSubscripts(off: int)
    ensures Subscripts([], off) == []
  {
  }

  lemma SubscriptsStep(ds: seq<int>, q: int, i: int)
    requires ds != [] && (forall k :: 0 <= k < |ds| ==> ds[k] >= 0) && 0 <= i <= ds[|ds| - 1]
    ensures Subscripts(ds, q * (ds[|ds| - 1] + 1) + i) == Subscripts(ds[..|ds| - 1], q) + [i]
  {
    Split(q, ds[|ds| - 1] + 1, i);
  }

  /** Different subscripts have different offsets: the offset determines them. */
  lemma {:induction false} SubscriptsOfOffset(ds: seq<int>, xs: seq<int>)
    requires InBounds(ds, xs)
    ensures Subscripts(ds, Horner(ds, xs)) == xs
  {
    hide Subscripts;
    if ds == [] {
      NoSubscripts(0);
    } else {
      var n := |ds| - 1;
      SubscriptsOfOffset(ds[..n], xs[..n]);
      SubscriptsStep(ds, Horner(ds[..n], xs[..n]), xs[n]);
      assert xs == xs[..n] + [xs[n]];
    }
  }

  /** Every offset inside the array is that of some subscripts in bounds. */
  lemma {:induction false} OffsetOfSubscripts(ds: seq<int>, off: int)
    requires (forall k :: 0 <= k < |ds| ==> ds[k] >= 0) && 0 <= off < Size(ds)
    ensures InBounds(ds, Subscripts(ds, off)) && Horner(ds, Subscripts(ds, off)) == off
  {
    if ds != [] {
      var n, e := |ds| - 1, ds[|ds| - 1] + 1;
      QuotientInRange(off, Size(ds[..n]), e);
      OffsetOfSubscripts(ds[..n], off / e);
      var xs := Subscripts(ds, off);
      assert xs[..n] == Subscripts(ds[..n], off / e);
    }
  }

  lemma QuotientInRange(off: int, n: int, e: int)
    requires e > 0 && 0 <= off < n * e
    ensures 0 <= off / e < n && off == off / e * e + off % e
  {
    var q := off / e;
    if q >= n {
      Grow(n, q, e);
    }
  }

  // ----- Sizes at the DIM and sizes at the access -----

  predicate Sizes(ds: seq<int>) {
    forall k :: 0 <= k < |ds| ==> ds[k] >= 0
  }

  /** Two shapes put every element of the first at the same offset. */
  ghost predicate SameOffsets(ds: seq<int>, ds': seq<int>)
    requires |ds'| == |ds|
  {
    forall xs :: InBounds(ds, xs) ==> Horner(ds', xs) == Horner(ds, xs)
  }

  /** The subscripts that are zero but for a one in place `k`. */
  function Unit(n: nat, k: nat): (xs: seq<int>)
    ensures |xs| == n
  {
    seq(n, j => if j == k then 1 else 0)
  }

  lemma {:induction false} UnitSum(ds: seq<int>, k: nat, n: nat)
    requires k < |ds| && n <= |ds|
    ensures Sum(ds, Unit(|ds|, k), n) == if k < n then Size(ds[k + 1..]) else 0
  {
    hide Size;
    if n > 0 {
      UnitSum(ds, k, n - 1);
    }
  }

  lemma UnitOffset(ds: seq<int>, k: nat)
    requires k < |ds|
    ensures Horner(ds, Unit(|ds|, k)) == Size(ds[k + 1..])
  {
    UnitSum(ds, k, |ds|);
    SumIsHorner(ds, Unit(|ds|, k));
  }

  lemma {:induction false} SameTerms(ds: seq<int>, ds': seq<int>, xs: seq<int>, n: nat)
    requires |ds'| == |ds| && InBounds(ds, xs) && n <= |ds|
    requires forall k :: 0 <= k < |ds| && ds[k] > 0 ==> Size(ds'[k + 1..]) == Size(ds[k + 1..])
    ensures Sum(ds', xs, n) == Sum(ds, xs, n)
  {
    hide Size;
    if n > 0 {
      SameTerms(ds, ds', xs, n - 1);
      if ds[n - 1] == 0 {
        assert xs[n - 1] == 0;
      }
    }
  }

  /** The offsets agree exactly when behind every dimension with more than one element the two shapes have the
      same number of elements. */
  lemma SameOffsetsExactly(ds: seq<int>, ds': seq<int>)
    requires |ds'| == |ds| && Sizes(ds)
    ensures SameOffsets(ds, ds') <==> forall k :: 0 <= k < |ds| && ds[k] > 0 ==> Size(ds'[k + 1..]) == Size(ds[k + 1..])
  {
    hide Size, Horner;
    if SameOffsets(ds, ds') {
      forall k | 0 <= k < |ds| && ds[k] > 0 ensures Size(ds'[k + 1..]) == Size(ds[k + 1..]) {
        assert InBounds(ds, Unit(|ds|, k));
        UnitOffset(ds, k);
        UnitOffset(ds', k);
      }
    } else {
      var xs :| InBounds(ds, xs) && Horner(ds', xs) != Horner(ds, xs);
      SumIsHorner(ds, xs);
      SumIsHorner(ds', xs);
      if forall k :: 0 <= k < |ds| && ds[k] > 0 ==> Size(ds'[k + 1..]) == Size(ds[k + 1..]) {
        SameTerms(ds, ds', xs, |ds|);
      }
    }
  }

  lemma {:induction false} SizePositive(ds: seq<int>)
    requires Sizes(ds)
    ensures Size(ds) > 0
  {
    if ds != [] {
      SizePositive(ds[..|ds| - 1]);
      Grow(1, Size(ds[..|ds| - 1]), ds[|ds| - 1] + 1);
    }
  }

  lemma Cancel(a: int, b: int, e: int)
    requires a * e == b * e && e > 0
    ensures a == b
  {
  }

  lemma {:induction false} SameSizes(ds: seq<int>, ds': seq<int>, k: nat)
    requires |ds'| == |ds| && Sizes(ds) && k <= |ds|
    requires forall j :: k <= j < |ds| ==> Size(ds'[j..]) == Size(ds[j..])
    ensures ds'[k..] == ds[k..]
    decreases |ds| - k
  {
    if k < |ds| {
      SameSizes(ds, ds', k + 1);
      SizeFirst(ds[k..]);
      SizeFirst(ds'[k..]);
      assert ds[k..][1..] == ds[k + 1..] && ds'[k..][1..] == ds'[k + 1..];
      SizePositive(ds[k + 1..]);
      Cancel(ds[k] + 1, ds'[k] + 1, Size(ds[k + 1..]));
    }
  }

  /** When every dimension but the last has more than one element, the offsets agree exactly when all dimensions
      after the first are the same. */
  lemma InnerSizesDecide(ds: seq<int>, ds': seq<int>)
    requires |ds'| == |ds| > 0 && Sizes(ds) && forall k :: 0 <= k < |ds| - 1 ==> ds[k] > 0
    ensures SameOffsets(ds, ds') <==> ds'[1..] == ds[1..]
  {
    hide Size, SameOffsets;
    SameOffsetsExactly(ds, ds');
    if SameOffsets(ds, ds') {
      forall j | 1 <= j < |ds| ensures Size(ds'[j..]) == Size(ds[j..]) {
        assert ds[j - 1] > 0;
      }
      SameSizes(ds, ds', 1);
    }
    if ds'[1..] == ds[1..] {
      forall k | 0 <= k < |ds| && ds[k] > 0 ensures Size(ds'[k + 1..]) == Size(ds[k + 1..]) {
        assert ds'[k + 1..] == ds'[1..][k..] && ds[k + 1..] == ds[1..][k..];
      }
    }
  }

  /** What the interpreter records when a DIM runs: its dimensions then, with zero for a negative one. */
  function Recorded(dims: seq<IrExpr>, atDim: IrExpr -> int): (ds: seq<int>)
    ensures |ds| == |dims| && Sizes(ds)
  {
    seq(|dims|, k requires 0 <= k < |dims| => if atDim(dims[k]) < 0 then 0 else atDim(dims[k]))
  }

  /** The code that was emitted for the dimension texts `dims` finds all elements of an array that the DIM
      with the texts `dimmed` has made where the interpreter has them, exactly when no inner dimension differs
      between the DIM and the access. */
  lemma AccessExactly(dimmed: seq<IrExpr>, atDim: IrExpr -> int, dims: seq<IrExpr>, atAccess: IrExpr -> int)
    requires |dimmed| == |dims| > 0 && forall k :: 0 <= k < |dims| - 1 ==> atDim(dimmed[k]) > 0
    ensures SameOffsets(Recorded(dimmed, atDim), Values(dims, atAccess)) <==>
              forall k :: 1 <= k < |dims| ==> atAccess(dims[k]) == Recorded(dimmed, atDim)[k]
  {
    hide SameOffsets;
    var ds, ds' := Recorded(dimmed, atDim), Values(dims, atAccess);
    InnerSizesDecide(ds, ds');
    if ds'[1..] == ds[1..] {
      assert forall k :: 1 <= k < |ds| ==> ds'[k] == ds'[1..][k - 1] && ds[k] == ds[1..][k - 1];
    }
  }

  /** A size that is a variable and changes after the DIM moves the elements: `DIM a[9, n]` with `n` 3, then
      `n = 5`, and `a[1, 0]` is element 4 for the interpreter and element 6 for the emitted code. */
  lemma SizeChanged(nine: IrExpr, n: IrExpr, atDim: IrExpr -> int, atAccess: IrExpr -> int)
    requires atDim(nine) == atAccess(nine) == 9 && atDim(n) == 3 && atAccess(n) == 5
    ensures Horner(Recorded([nine, n], atDim), [1, 0]) == 4
    ensures Horner(Values([nine, n], atAccess), [1, 0]) == 6
    ensures !SameOffsets(Recorded([nine, n], atDim), Values([nine, n], atAccess))
  {
    TwoSubscripts(9, 3, 1, 0);
    TwoSubscripts(9, 5, 1, 0);
    assert Recorded([nine, n], atDim) == [9, 3] && Values([nine, n], atAccess) == [9, 5];
    assert InBounds([9, 3], [1, 0]);
  }

  lemma TwoSubscripts(d: int, e: int, x: int, y: int)
    ensures Horner([d, e], [x, y]) == x * (e + 1) + y
  {
    assert [d, e][..1] == [d] && [x, y][..1] == [x] && [d][..0] == [] && [x][..0] == [];
    assert Horner([], []) == 0 && Horner([d], [x]) == Horner([], []) * (d + 1) + x;
  }

  /** The first subscript alone, which is emitted where the shape is not known, finds the elements exactly when
      all inner dimensions have one element. */
  lemma FirstAlone(ds: seq<int>)
    requires Sizes(ds) && |ds| > 0 && ds[0] > 0
    ensures (forall xs :: InBounds(ds, xs) ==> xs[0] == Horner(ds, xs)) <==> forall k :: 1 <= k < |ds| ==> ds[k] == 0
  {
    if forall xs :: InBounds(ds, xs) ==> xs[0] == Horner(ds, xs) {
      forall k | 1 <= k < |ds| ensures ds[k] == 0 {
        if ds[k] > 0 {
          assert InBounds(ds, Unit(|ds|, k));
          UnitOffset(ds, k);
          SizePositive(ds[k + 1..]);
        }
      }
    }
    if forall k :: 1 <= k < |ds| ==> ds[k] == 0 {
      forall xs | InBounds(ds, xs) ensures xs[0] == Horner(ds, xs) {
        FirstOnly(ds, xs);
      }
    }
  }

  lemma {:induction false} FirstOnly(ds: seq<int>, xs: seq<int>)
    requires InBounds(ds, xs) && |ds| > 0 && forall k :: 1 <= k < |ds| ==> ds[k] == 0
    ensures Horner(ds, xs) == xs[0]
  {
    var n := |ds| - 1;
    if n == 0 {
      assert ds[..0] == [] && xs[..0] == [];
    } else {
      FirstOnly(ds[..n], xs[..n]);
    }
  }

  // ----- Which dimension texts a name has -----

  /** The item is a DIM or REDIM with a size. */
  predicate Sized(it: IrItem, n: string) {
    it.Dim? && it.size.Some? && it.symbol.name == n
  }

  type ShapeTable = map<string, seq<IrExpr>>

  function Put(m: ShapeTable, it: IrItem): ShapeTable {
    if it.Dim? && it.size.Some? then m[it.symbol.name := [it.size.value] + it.extraDims] else m
  }

  /** The table after the items, in order. */
  function Shapes(m: ShapeTable, flat: seq<IrItem>): ShapeTable
    decreases |flat|
  {
    if flat == [] then m else Shapes(Put(m, flat[0]), flat[1..])
  }

  lemma {:induction false} ShapesConcat(m: ShapeTable, a: seq<IrItem>, b: seq<IrItem>)
    ensures Shapes(m, a + b) == Shapes(Shapes(m, a), b)
    decreases |a|
  {
    hide Put;
    if a == [] {
      assert a + b == b;
    } else {
      assert (a + b)[1..] == a[1..] + b;
      ShapesConcat(Put(m, a[0]), a[1..], b);
    }
  }

  /** A name has the dimension texts of its last DIM or REDIM with a size, in the order of the text. */
  lemma {:induction false} LastDimWins(m: ShapeTable, flat: seq<IrItem>, n: string)
    ensures n in Shapes(m, flat) <==> n in m || exists k :: 0 <= k < |flat| && Sized(flat[k], n)
    ensures forall k :: 0 <= k < |flat| && Sized(flat[k], n) && (forall j :: k < j < |flat| ==> !Sized(flat[j], n)) ==>
              Shapes(m, flat)[n] == [flat[k].size.value] + flat[k].extraDims
    ensures n in m && (forall k :: 0 <= k < |flat| ==> !Sized(flat[k], n)) ==> Shapes(m, flat)[n] == m[n]
    decreases |flat|
  {
    if flat != [] {
      var rest := flat[1..];
      LastDimWins(Put(m, flat[0]), rest, n);
      assert forall k :: 0 <= k < |rest| ==> rest[k] == flat[k + 1];
      assert forall k :: 1 <= k < |flat| ==> flat[k] == rest[k - 1];
    }
  }

  method CollectArrayDims(items: seq<IrItem>, out: ShapeTable) returns (r: ShapeTable)
    ensures r == Shapes(out, Labels.Flatten(items))
    decreases items
  {
    hide Shapes, Put, Labels.Inside;
    r := out;
    assert items[0..] == items;
    for i := 0 to |items|
      invariant Shapes(r, Labels.Flatten(items[i..])) == Shapes(out, Labels.Flatten(items))
    {
      var it := items[i];
      assert items[i..][0] == it && items[i..][1..] == items[i + 1..];
      ShapesConcat(r, [it] + Labels.Inside(it), Labels.Flatten(items[i + 1..]));
      ShapesConcat(r, [it], Labels.Inside(it));
      OneShape(r, it);
      if it.Dim? && it.size.Some? {
        r := r[it.symbol.name := [it.size.value] + it.extraDims];
      }
      r := CollectInside(it, r);
    }
    NoShapes(r);
    assert items[|items|..] == [];
  }

  lemma NoShapes(m: ShapeTable)
    ensures Shapes(m, []) == m
  {
  }

  lemma OneShape(m: ShapeTable, it: IrItem)
    ensures Shapes(m, [it]) ==
              if it.Dim? && it.size.Some? then m[it.symbol.name := [it.size.value] + it.extraDims] else m
  {
    assert [it][1..] == [];
    NoShapes(Put(m, it));
  }

  method CollectInside(it: IrItem, out: ShapeTable) returns (r: ShapeTable)
    ensures r == Shapes(out, Labels.Inside(it))
    decreases it
  {
    hide Shapes, Labels.Flatten, Labels.FlattenOpt, Labels.FlattenCases;
    r := out;
    NoShapes(out);
    if it.If? {
      r := CollectArrayDims(it.thenBody, r);
      r := CollectBranch(it.elseBody, r);
      ShapesConcat(out, Labels.Flatten(it.thenBody), Labels.FlattenOpt(it.elseBody));
    } else if it.While? || it.For? || it.DoLoop? || it.Compound? {
      r := CollectArrayDims(it.body, r);
    } else if it.SelectCase? {
      r := CollectClauses(it.cases, r);
      r := CollectBranch(it.default, r);
      ShapesConcat(out, Labels.FlattenCases(it.cases), Labels.FlattenOpt(it.default));
    }
  }

  method CollectBranch(b: OptBody, out: ShapeTable) returns (r: ShapeTable)
    ensures r == Shapes(out, Labels.FlattenOpt(b))
    decreases b
  {
    r := out;
    NoShapes(out);
    if b.Body? {
      r := CollectArrayDims(b.items, r);
    }
  }

  method CollectClauses(cases: seq<IrCaseClause>, out: ShapeTable) returns (r: ShapeTable)
    ensures r == Shapes(out, Labels.FlattenCases(cases))
    decreases cases
  {
    hide Shapes, Labels.Flatten;
    r := out;
    assert cases[0..] == cases;
    for c := 0 to |cases|
      invariant Shapes(r, Labels.FlattenCases(cases[c..])) == Shapes(out, Labels.FlattenCases(cases))
    {
      assert cases[c..][0] == cases[c] && cases[c..][1..] == cases[c + 1..];
      ShapesConcat(r, Labels.Flatten(cases[c].body), Labels.FlattenCases(cases[c + 1..]));
      r := CollectArrayDims(cases[c].body, r);
    }
    NoShapes(r);
    assert cases[|cases|..] == [];
  }

  // ----- The emitters -----

  lemma Regroup(a: int, b: int, c: int)
    ensures a * b * c == a * (b * c)
  {
  }

  /** The product of a term and the sizes of the given dimensions. */
  method EmitScaled(term: CExpr, dims: seq<IrExpr>, ghost value: IrExpr -> int) returns (c: CExpr)
    ensures Eval(c, value) == Eval(term, value) * Size(Values(dims, value))
  {
    c := term;
    assert Values(dims[..0], value) == [];
    for m := 0 to |dims|
      invariant Eval(c, value) == Eval(term, value) * Size(Values(dims[..m], value))
    {
      ghost var vs := Values(dims[..m + 1], value);
      assert vs[..m] == Values(dims[..m], value) && vs[m] == value(dims[m]);
      Regroup(Eval(term, value), Size(vs[..m]), vs[m] + 1);
      var count := Plus(Atom(dims[m]), One);
      assert Eval(One, value) == 1 && Eval(Atom(dims[m]), value) == vs[m];
      assert Eval(count, value) == vs[m] + 1;
      c := Times(c, count);
    }
    assert dims[..|dims|] == dims;
  }

  /** The flat offset as the compiler prints it, a sum with one product for each subscript: at the values that
      the dimension texts and the subscripts have at the access, it is the Horner form. */
  method EmitFlatOffset(dims: seq<IrExpr>, indices: seq<IrExpr>, ghost value: IrExpr -> int) returns (c: CExpr)
    requires |indices| == |dims| > 0
    ensures Eval(c, value) == Horner(Values(dims, value), Values(indices, value))
  {
    ghost var ds, xs := Values(dims, value), Values(indices, value);
    c := EmitScaled(Atom(indices[0]), dims[1..], value);
    assert Values(dims[1..], value) == ds[1..];
    assert Sum(ds, xs, 1) == Sum(ds, xs, 0) + xs[0] * Size(ds[1..]);
    for k := 1 to |indices|
      invariant Eval(c, value) == Sum(ds, xs, k)
    {
      var term := EmitScaled(Atom(indices[k]), dims[k + 1..], value);
      assert Values(dims[k + 1..], value) == ds[k + 1..];
      c := Plus(c, term);
    }
    SumIsHorner(ds, xs);
  }

  /** The element count as the compiler prints it. */
  method EmitFlatSize(dims: seq<IrExpr>, ghost value: IrExpr -> int) returns (c: CExpr)
    requires dims != []
    ensures Eval(c, value) == Size(Values(dims, value))
  {
    c := EmitScaled(Plus(Atom(dims[0]), One), dims[1..], value);
    ghost var ds := Values(dims, value);
    assert Values(dims[1..], value) == ds[1..];
    SizeFirst(ds);
  }

  /** The subscript of an access to a contiguous array: flattened when the shape is known and fits the number
      of subscripts, else the first subscript alone. */
  method EmitSubscript(dims: Option<seq<IrExpr>>, index: IrExpr, extra: seq<IrExpr>, ghost value: IrExpr -> int)
    returns (c: CExpr)
    ensures Eval(c, value) ==
              if extra != [] && dims.Some? && |dims.value| == 1 + |extra|
              then Horner(Values(dims.value, value), Values([index] + extra, value))
              else value(index)
  {
    if extra != [] && dims.Some? && |dims.value| == 1 + |extra| {
      c := EmitFlatOffset(dims.value, [index] + extra, value);
    } else {
      c := Atom(index);
    }
  }
}
