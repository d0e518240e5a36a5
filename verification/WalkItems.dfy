/** What the walk over a body knows of its names, in terms of the items of the body. */
module WalkItems {
  import opened Ir
  import opened DynNames
  import opened TraceItems
  import FlatItems
  import Labels

  // ----- How many DIMs -----

  function DimItems(its: seq<IrItem>, n: string): nat {
    if its == [] then 0 else (if its[0].Dim? && its[0].symbol.name == n then 1 else 0) + DimItems(its[1..], n)
  }

  lemma {:induction false} DimItemsJoined(a: seq<IrItem>, b: seq<IrItem>, n: string)
    ensures DimItems(a + b, n) == DimItems(a, n) + DimItems(b, n)
  {
    if a == [] {
      assert a + b == b;
    } else {
      assert (a + b)[1..] == a[1..] + b;
      DimItemsJoined(a[1..], b, n);
    }
  }

  lemma {:induction false} DimTotalJoined(a: seq<Event>, b: seq<Event>, n: string)
    ensures DimTotal(a + b, n) == DimTotal(a, n) + DimTotal(b, n)
  {
    if b == [] {
      assert a + b == a;
    } else {
      assert (a + b)[..|a + b| - 1] == a + b[..|b| - 1];
      DimTotalJoined(a, b[..|b| - 1], n);
    }
  }

  lemma DimTotalNone(tr: seq<Event>, n: string)
    requires forall ev :: ev in tr ==> !ev.Declare?
    ensures DimTotal(tr, n) == 0
  {
    NoDims(tr, n);
    assert forall j :: 0 <= j < |tr| ==> tr[j] in tr;
  }

  lemma {:induction false} BodyDims(items: seq<IrItem>, nested: bool, n: string)
    ensures DimTotal(Trace(items, nested, false), n) == DimItems(Labels.Flatten(items), n)
    decreases items
  {
    hide DimTotal, DimItems, ItemTrace, Labels.Inside;
    if items == [] {
      NoDimsAtAll(n);
    } else {
      ItemDims(items[0], nested, n);
      BodyDims(items[1..], nested, n);
      DimTotalJoined(ItemTrace(items[0], nested, false), Trace(items[1..], nested, false), n);
      DimItemsJoined([items[0]] + Labels.Inside(items[0]), Labels.Flatten(items[1..]), n);
    }
  }

  lemma NoDimsAtAll(n: string)
    ensures DimTotal([], n) == 0 && DimItems([], n) == 0
  {
  }

  lemma {:induction false} ItemDims(it: IrItem, nested: bool, n: string)
    ensures DimTotal(ItemTrace(it, nested, false), n) == DimItems([it] + Labels.Inside(it), n)
    decreases it
  {
    hide DimTotal, Trace, BranchTrace, CaseTrace, ExprTrace, LoopHead, LoopTail, LeafTrace, Labels.Flatten;
    NoDimsAtAll(n);
    if IsLeaf(it) {
      LeafDims(it, nested, n);
    } else {
      assert ([it] + Labels.Inside(it))[1..] == Labels.Inside(it);
      assert DimItems([it] + Labels.Inside(it), n) == DimItems(Labels.Inside(it), n);
      hide DimItems;
      if it.If? {
        ExprDims(it.condition, n);
        BodyDims(it.thenBody, true, n);
        BranchDims(it.elseBody, n);
        DimTotalJoined(ExprTrace(it.condition), Trace(it.thenBody, true, false), n);
        DimTotalJoined(ExprTrace(it.condition) + Trace(it.thenBody, true, false), BranchTrace(it.elseBody, false), n);
        DimItemsJoined(Labels.Flatten(it.thenBody), Labels.FlattenOpt(it.elseBody), n);
      } else if it.SelectCase? {
        ExprDims(it.selector, n);
        CaseDims(it.cases, n);
        BranchDims(it.default, n);
        DimTotalJoined(ExprTrace(it.selector), CaseTrace(it.cases, false), n);
        DimTotalJoined(ExprTrace(it.selector) + CaseTrace(it.cases, false), BranchTrace(it.default, false), n);
        DimItemsJoined(Labels.FlattenCases(it.cases), Labels.FlattenOpt(it.default), n);
      } else {
        LoopDims(it, n);
        BodyDims(it.body, nested || IsControl(it), n);
        LoopTrace(it, nested, false);
        var inner := Trace(it.body, nested || IsControl(it), false);
        DimTotalJoined(LoopHead(it), inner, n);
        DimTotalJoined(LoopHead(it) + inner, LoopTail(it), n);
      }
    }
  }

  lemma ExprDims(e: IrExpr, n: string)
    ensures DimTotal(ExprTrace(e), n) == 0
  {
    hide ExprTrace;
    forall ev | ev in ExprTrace(e) ensures !ev.Declare? {
      ExprUses(e, ev);
    }
    DimTotalNone(ExprTrace(e), n);
  }

  lemma LoopDims(it: IrItem, n: string)
    requires it.While? || it.DoLoop? || it.For? || it.Compound?
    ensures DimTotal(LoopHead(it), n) == 0 && DimTotal(LoopTail(it), n) == 0
  {
    hide LoopHead, LoopTail, DimTotal;
    var r := |Labels.Flatten(it.body)| + 1;
    forall ev | ev in LoopHead(it) || ev in LoopTail(it) ensures !ev.Declare? {
      LoopGives(it, r, ev, false, false);
    }
    DimTotalNone(LoopHead(it), n);
    DimTotalNone(LoopTail(it), n);
  }

  lemma LeafDims(it: IrItem, nested: bool, n: string)
    requires IsLeaf(it)
    ensures DimTotal(ItemTrace(it, nested, false), n) == DimItems([it] + Labels.Inside(it), n)
  {
    hide ExprTrace, OptTrace, LeafTrace;
    NoDimsAtAll(n);
    assert Labels.Inside(it) == [] && [it] + [] == [it] && [it][1..] == [];
    var tr := ItemTrace(it, nested, false);
    if it.Dim? {
      assert tr == [tr[0]] + OptTrace(it.size);
      forall ev | ev in OptTrace(it.size) ensures !ev.Declare? {
        OptUses(it.size, ev);
      }
      DimTotalNone(OptTrace(it.size), n);
      DimTotalJoined([tr[0]], OptTrace(it.size), n);
    } else {
      forall ev | ev in tr ensures !ev.Declare? {
        LeafGives(it, 1, ev, nested, false);
      }
      DimTotalNone(tr, n);
    }
  }

  lemma {:induction false} BranchDims(b: OptBody, n: string)
    ensures DimTotal(BranchTrace(b, false), n) == DimItems(Labels.FlattenOpt(b), n)
    decreases b
  {
    if b.Body? {
      BodyDims(b.items, true, n);
    }
  }

  lemma {:induction false} CaseDims(cases: seq<IrCaseClause>, n: string)
    ensures DimTotal(CaseTrace(cases, false), n) == DimItems(Labels.FlattenCases(cases), n)
    decreases cases
  {
    hide DimTotal, DimItems, Trace, ExprsTrace, Labels.Flatten;
    NoDimsAtAll(n);
    if cases != [] {
      var tests, inner := ExprsTrace(cases[0].conditions), Trace(cases[0].body, true, false);
      forall ev | ev in tests ensures !ev.Declare? {
        ExprsUses(cases[0].conditions, ev);
      }
      DimTotalNone(tests, n);
      BodyDims(cases[0].body, true, n);
      CaseDims(cases[1..], n);
      DimTotalJoined(tests, inner, n);
      DimTotalJoined(tests + inner, CaseTrace(cases[1..], false), n);
      DimItemsJoined(Labels.Flatten(cases[0].body), Labels.FlattenCases(cases[1..]), n);
    }
  }

  // ----- The walker's fields -----

  /** Before the first DIM of the name, or anywhere when there is none, some item uses it. */
  ghost predicate UsedFirst(flat: seq<IrItem>, n: string) {
    exists p :: 0 <= p <= |flat| && FirstDim(flat, p, n) && UsedBefore(flat, p, n)
  }

  /** `p` is the first DIM of the name, or the end when there is none. */
  predicate FirstDim(flat: seq<IrItem>, p: nat, n: string)
    requires p <= |flat|
  {
    (forall q :: 0 <= q < p ==> !Dims(flat[q], n)) && (p < |flat| ==> Dims(flat[p], n))
  }

  ghost predicate UsedBefore(flat: seq<IrItem>, p: nat, n: string)
    requires p <= |flat|
  {
    exists q :: 0 <= q < p && Uses(flat[q], p - q, n)
  }

  ghost predicate SomeItem(flat: seq<IrItem>, n: string, what: nat -> bool) {
    exists p :: 0 <= p < |flat| && Dims(flat[p], n) && what(p)
  }

  lemma UsesBefore(items: seq<IrItem>, p: nat, n: string) returns (d: nat)
    requires p <= |Labels.Flatten(items)| && FirstDim(Labels.Flatten(items), p, n)
    ensures var flat, tr := Labels.Flatten(items), Trace(items, false, false);
      && d <= |tr| && (p < |flat| ==> d < |tr| && tr[d] == Declaration(flat[p], InControl(flat, p)))
      && (p == |flat| ==> d == |tr|)
      && (Use(n) in tr[..d] <==> UsedBefore(flat, p, n))
      && forall j :: 0 <= j < d ==> !Declares(tr[j], n)
  {
    hide Uses, InControl, Trace, Labels.Flatten;
    var flat, tr := Labels.Flatten(items), Trace(items, false, false);
    d := BodySplits(items, p, false, false);
    forall j | 0 <= j < d ensures !Declares(tr[j], n) {
      assert tr[j] == tr[..d][j] && tr[j] in tr[..d];
      BeforeIs(flat, p, tr[j], false);
    }
    BeforeIs(flat, p, Use(n), false);
    assert UsedBefore(flat, p, n) <==>
      exists q :: 0 <= q < p && Gives(flat[q], p - q, Use(n), InControl(flat, q), false);
  }

  /** A name is late exactly when some item before its first DIM uses it. */
  lemma LateExactly(items: seq<IrItem>, n: string)
    ensures UsedEarly(Trace(items, false, false), n) <==> UsedFirst(Labels.Flatten(items), n)
  {
    hide Uses, InControl, Trace, Labels.Flatten, UsedBefore;
    var flat, tr := Labels.Flatten(items), Trace(items, false, false);
    var p := First(flat, n);
    var d := UsesBefore(items, p, n);
    if UsedFirst(flat, n) {
      var p' :| 0 <= p' <= |flat| && FirstDim(flat, p', n) && UsedBefore(flat, p', n);
      assert p' == p;
      var j :| 0 <= j < d && tr[..d][j] == Use(n);
      assert tr[j] == Use(n);
    }
    if UsedEarly(tr, n) {
      var i :| 0 <= i < |tr| && tr[i] == Use(n) && forall j :: 0 <= j < i ==> !Declares(tr[j], n);
      assert i < d;
      assert tr[..d][i] == Use(n);
    }
  }

  lemma First(flat: seq<IrItem>, n: string) returns (p: nat)
    ensures p <= |flat| && FirstDim(flat, p, n)
  {
    p := 0;
    while p < |flat| && !Dims(flat[p], n)
      invariant p <= |flat| && forall q :: 0 <= q < p ==> !Dims(flat[q], n)
    {
      p := p + 1;
    }
  }

  /** Declarations of the name with some property are DIM items with it. */
  lemma SomeDimIs(items: seq<IrItem>, n: string, what: Event -> bool)
    ensures var flat := Labels.Flatten(items);
      SomeDim(Trace(items, false, false), n, what) <==>
        exists p :: 0 <= p < |flat| && Dims(flat[p], n) && what(Declaration(flat[p], InControl(flat, p)))
  {
    hide Uses, InControl, Trace, Labels.Flatten;
    var flat, tr := Labels.Flatten(items), Trace(items, false, false);
    if SomeDim(tr, n, what) {
      var i :| 0 <= i < |tr| && Declares(tr[i], n) && what(tr[i]);
      EventsAre(items, false, tr[i]);
      assert tr[i] in tr;
      var q :| 0 <= q < |flat| && Gives(flat[q], |flat| - q, tr[i], InControl(flat, q), false);
    }
    if p :| 0 <= p < |flat| && Dims(flat[p], n) && what(Declaration(flat[p], InControl(flat, p))) {
      var d := DeclaredAt(items, p, false);
      assert Declares(tr[d], n) && what(tr[d]);
    }
  }

  /** What each field of the walker says of a name, in terms of the items at any depth: how often it has a DIM,
      whether one is as an array, as an array inside control flow, or without a size, and whether an item uses
      the name before the first of them. */
  lemma FieldsExactly(items: seq<IrItem>, n: string)
    ensures var s, flat := Steps(START, Trace(items, false, false)), Labels.Flatten(items);
      && (n in s.dimCount <==> DimItems(flat, n) > 0) && (n in s.dimInfo <==> n in s.dimCount)
      && (n in s.dimCount ==> s.dimCount[n] == DimItems(flat, n))
      && (n in s.dimInfo ==>
            (s.dimInfo[n].0 <==> exists p :: 0 <= p < |flat| && Dims(flat[p], n) && AsArray(flat[p])))
      && (n in s.late <==> UsedFirst(flat, n))
      && (n in s.nestedArrays <==>
            exists p :: 0 <= p < |flat| && Dims(flat[p], n) && AsArray(flat[p]) && InControl(flat, p))
      && (n in s.unsizedArrays <==> exists p :: 0 <= p < |flat| && Dims(flat[p], n) && Unsized(flat[p]))
  {
    hide Steps, SomeDim, UsedEarly, UsedFirst, DimItems, Trace, Labels.Flatten, InControl;
    WalkMeaning(Trace(items, false, false), n);
    BodyDims(items, false, n);
    LateExactly(items, n);
    SomeDimIs(items, n, ARRAY);
    SomeDimIs(items, n, NESTED_ARRAY);
    SomeDimIs(items, n, UNSIZED);
  }

  /** The type kept for a name is that of the first of its DIM items. */
  lemma TypeIsFirst(items: seq<IrItem>, p: nat, n: string)
    requires p < |Labels.Flatten(items)| && FirstDim(Labels.Flatten(items), p, n)
    ensures var s := Steps(START, Trace(items, false, false));
      n in s.dimInfo && s.dimInfo[n].1 == Labels.Flatten(items)[p].symbol.valueType
  {
    hide Steps, Trace, Labels.Flatten, UsedBefore, InControl;
    var d := UsesBefore(items, p, n);
    FirstDimType(Trace(items, false, false), n, d);
  }

  // ----- The decision -----

  /** An array is dynamic exactly when it is no parameter, and it is passed to a descriptor position, or it has a
      DIM as an array and: the body uses GOSUB, or an array DIM stands inside control flow or has no size, or an
      item uses the name before its first DIM, or there are two DIMs. */
  lemma DynArraysAre(items: seq<IrItem>, params: seq<IrParam>, locals: map<string, ValueType>, n: string)
    ensures var flat := Labels.Flatten(items);
      DynArray(Steps(START, Trace(items, false, false)), params, HasGosub(items), locals, n) <==> (
        && (forall p :: p in params ==> p.name != n)
        && (n in locals
            || ((exists p :: 0 <= p < |flat| && Dims(flat[p], n) && AsArray(flat[p]))
                && ((exists it :: it in flat && (it.Gosub? || it.GosubExpr? || it.GosubReturn?))
                    || (exists p :: 0 <= p < |flat| && Dims(flat[p], n) && AsArray(flat[p]) && InControl(flat, p))
                    || (exists p :: 0 <= p < |flat| && Dims(flat[p], n) && Unsized(flat[p]))
                    || UsedFirst(flat, n)
                    || DimItems(flat, n) >= 2))))
  {
    hide Steps, UsedFirst, DimItems, Trace, Labels.Flatten, InControl, HasGosub;
    FieldsExactly(items, n);
    FlatItems.GosubExactly(items);
    var flat := Labels.Flatten(items);
    if p :| 0 <= p < |flat| && Dims(flat[p], n) && AsArray(flat[p]) {
      SomeCount(flat, p, n);
    }
  }

  lemma {:induction false} SomeCount(flat: seq<IrItem>, p: nat, n: string)
    requires p < |flat| && Dims(flat[p], n)
    ensures DimItems(flat, n) > 0
    ensures DimItems(flat, n) == 1 <==> forall q :: 0 <= q < |flat| && q != p ==> !Dims(flat[q], n)
  {
    if p == 0 {
      NoneCount(flat[1..], n);
      assert forall q :: 1 <= q < |flat| ==> flat[1..][q - 1] == flat[q];
    } else {
      SomeCount(flat[1..], p - 1, n);
      assert forall q :: 1 <= q < |flat| ==> flat[1..][q - 1] == flat[q];
    }
  }

  lemma {:induction false} NoneCount(flat: seq<IrItem>, n: string)
    ensures DimItems(flat, n) == 0 <==> forall q :: 0 <= q < |flat| ==> !Dims(flat[q], n)
  {
    if flat != [] {
      NoneCount(flat[1..], n);
      assert forall q :: 1 <= q < |flat| ==> flat[1..][q - 1] == flat[q];
    }
  }

  /** The item at `p` is the only DIM of the name: an array with a size, outside control flow, and no item before
      it uses the name. */
  ghost predicate OnlyDim(flat: seq<IrItem>, p: nat, n: string) {
    && p < |flat| && flat[p].Dim? && flat[p].symbol.name == n && (flat[p].isArray || flat[p].size.Some?)
    && (flat[p].size.Some? || flat[p].extraDims != []) && !InControl(flat, p)
    && (forall q :: 0 <= q < |flat| && q != p ==> !Dims(flat[q], n))
    && (forall q :: 0 <= q < p ==> !Uses(flat[q], p - q, n))
  }

  /** An array stays an in-place declaration exactly when it has such an only DIM, no item is a GOSUB, and it is not
      passed to a descriptor position. */
  lemma InPlaceItems(items: seq<IrItem>, params: seq<IrParam>, locals: map<string, ValueType>, n: string)
    requires exists p :: 0 <= p < |Labels.Flatten(items)| && Dims(Labels.Flatten(items)[p], n)
                         && AsArray(Labels.Flatten(items)[p])
    requires forall p :: p in params ==> p.name != n
    ensures var flat := Labels.Flatten(items);
      !DynArray(Steps(START, Trace(items, false, false)), params, HasGosub(items), locals, n) <==> (
        && n !in locals && (forall it :: it in flat ==> !it.Gosub? && !it.GosubExpr? && !it.GosubReturn?)
        && exists p :: OnlyDim(flat, p, n))
  {
    DynArraysAre(items, params, locals, n);
    hide DynArray, Steps, DimItems, Trace, Labels.Flatten, InControl, HasGosub, Uses;
    var flat := Labels.Flatten(items);
    var p :| 0 <= p < |flat| && Dims(flat[p], n) && AsArray(flat[p]);
    SomeCount(flat, p, n);
    if DimItems(flat, n) == 1 {
      OnlyIsFirst(flat, p, n);
      assert OnlyDim(flat, p, n) <==> !Unsized(flat[p]) && !InControl(flat, p) && !UsedFirst(flat, n);
    }
    if p' :| OnlyDim(flat, p', n) {
      assert p' == p;
    }
  }

  lemma OnlyIsFirst(flat: seq<IrItem>, p: nat, n: string)
    requires p < |flat| && Dims(flat[p], n) && forall q :: 0 <= q < |flat| && q != p ==> !Dims(flat[q], n)
    ensures UsedFirst(flat, n) <==> exists q :: 0 <= q < p && Uses(flat[q], p - q, n)
  {
    hide Uses;
    assert FirstDim(flat, p, n);
  }
}
