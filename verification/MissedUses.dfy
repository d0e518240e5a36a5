/** The uses that the walk over a body passes over, and what they do to an in-place declaration. */
module MissedUses {
  import opened Ir
  import opened DynNames
  import opened TraceItems
  import opened WalkItems
  import Labels

  lemma {:induction false} MissedSteps(s: State, tr: seq<Event>)
    ensures Steps(s, AsMissed(tr)) == s
  {
    if tr != [] {
      MissedSteps(s, tr[1..]);
      StepsConcat(s, [Missed(tr[0].name)], AsMissed(tr[1..]));
      StepsOne(s, Missed(tr[0].name));
    }
  }

  lemma MissedTail(s: State, a: seq<Event>, tr: seq<Event>)
    ensures Steps(s, a + AsMissed(tr)) == Steps(s, a)
  {
    StepsConcat(s, a, AsMissed(tr));
    MissedSteps(Steps(s, a), tr);
  }

  /** The uses that the walk misses leave no mark. */
  lemma {:induction false} SameSteps(s: State, items: seq<IrItem>, nested: bool)
    ensures Steps(s, Trace(items, nested, true)) == Steps(s, Trace(items, nested, false))
    decreases items, 0
  {
    hide Steps, ItemTrace;
    if items != [] {
      ItemSteps(s, items[0], nested);
      SameSteps(Steps(s, ItemTrace(items[0], nested, false)), items[1..], nested);
      StepsConcat(s, ItemTrace(items[0], nested, true), Trace(items[1..], nested, true));
      StepsConcat(s, ItemTrace(items[0], nested, false), Trace(items[1..], nested, false));
    }
  }

  lemma {:induction false} ItemSteps(s: State, it: IrItem, nested: bool)
    ensures Steps(s, ItemTrace(it, nested, true)) == Steps(s, ItemTrace(it, nested, false))
    decreases it
  {
    hide Steps, Trace, BranchTrace, CaseTrace, ExprTrace, ExprsTrace, OptTrace, ConditionTrace, LeafTrace, DimTrace;
    if it.Dim? {
      DimSteps(s, it, nested);
    } else if it.If? {
      var s1 := Steps(s, ExprTrace(it.condition));
      SameSteps(s1, it.thenBody, true);
      BranchSteps(Steps(s1, Trace(it.thenBody, true, false)), it.elseBody);
      Steps3(s, ExprTrace(it.condition), Trace(it.thenBody, true, true), BranchTrace(it.elseBody, true));
      Steps3(s, ExprTrace(it.condition), Trace(it.thenBody, true, false), BranchTrace(it.elseBody, false));
    } else if it.While? {
      BodySteps(s, ExprTrace(it.condition), it.body, []);
    } else if it.DoLoop? {
      BodySteps(s, ConditionTrace(it.preCondition), it.body, ConditionTrace(it.postCondition));
    } else if it.For? {
      BodySteps(s, [Use(it.loopVar.name)] + ExprTrace(it.start) + ExprTrace(it.end) + OptTrace(it.step), it.body, []);
    } else if it.SelectCase? {
      var s1 := Steps(s, ExprTrace(it.selector));
      CaseSteps(s1, it.cases);
      BranchSteps(Steps(s1, CaseTrace(it.cases, false)), it.default);
      Steps3(s, ExprTrace(it.selector), CaseTrace(it.cases, true), BranchTrace(it.default, true));
      Steps3(s, ExprTrace(it.selector), CaseTrace(it.cases, false), BranchTrace(it.default, false));
    } else if it.Compound? {
      SameSteps(s, it.body, nested);
    } else {
      LeafSteps(s, it);
    }
  }

  lemma {:induction false} BodySteps(s: State, head: seq<Event>, body: seq<IrItem>, tail: seq<Event>)
    ensures Steps(s, head + Trace(body, true, true) + tail) == Steps(s, head + Trace(body, true, false) + tail)
    ensures Steps(s, head + Trace(body, true, true)) == Steps(s, head + Trace(body, true, false))
    decreases body, 1
  {
    hide Steps, Trace;
    SameSteps(Steps(s, head), body, true);
    Steps3(s, head, Trace(body, true, true), tail);
    Steps3(s, head, Trace(body, true, false), tail);
    StepsConcat(s, head, Trace(body, true, true));
    StepsConcat(s, head, Trace(body, true, false));
  }

  lemma {:induction false} BranchSteps(s: State, b: OptBody)
    ensures Steps(s, BranchTrace(b, true)) == Steps(s, BranchTrace(b, false))
    decreases b
  {
    if b.Body? {
      SameSteps(s, b.items, true);
    }
  }

  lemma {:induction false} CaseSteps(s: State, cases: seq<IrCaseClause>)
    ensures Steps(s, CaseTrace(cases, true)) == Steps(s, CaseTrace(cases, false))
    decreases cases
  {
    hide Steps, Trace, ExprsTrace;
    if cases != [] {
      var c, rest := cases[0], cases[1..];
      var s1 := Steps(s, ExprsTrace(c.conditions));
      SameSteps(s1, c.body, true);
      CaseSteps(Steps(s1, Trace(c.body, true, false)), rest);
      Steps3(s, ExprsTrace(c.conditions), Trace(c.body, true, true), CaseTrace(rest, true));
      Steps3(s, ExprsTrace(c.conditions), Trace(c.body, true, false), CaseTrace(rest, false));
    }
  }

  lemma DimSteps(s: State, it: IrItem, nested: bool)
    requires it.Dim?
    ensures Steps(s, DimTrace(it, nested, true)) == Steps(s, DimTrace(it, nested, false))
  {
    hide Steps, AsMissed, ExprsTrace, OptTrace;
    MissedTail(s, DimTrace(it, nested, false), ExprsTrace(it.extraDims));
    assert DimTrace(it, nested, true) == DimTrace(it, nested, false) + AsMissed(ExprsTrace(it.extraDims));
  }

  lemma LeafSteps(s: State, it: IrItem)
    ensures Steps(s, LeafTrace(it, true)) == Steps(s, LeafTrace(it, false))
  {
    hide AsMissed, ExprsTrace;
    if it.Attach? {
      var operands := [Missed(it.left.name), Missed(it.right.name)];
      MissedTail(s, operands, ExprsTrace(it.leftIndices + it.rightIndices));
      assert operands[1..] == [operands[1]] && operands[1..][1..] == [];
    }
  }

  predicate Touches(ev: Event, n: string) {
    ev == Use(n) || ev == Missed(n)
  }

  /** An array that stays an in-place declaration has a single DIM, at the item `p`, before which no item uses it
      where the walk looks. Its declaration comes before every use there is exactly when no item before `p` uses it
      where the walk does not look: as an operand or in a subscript of ATTACH, or in the size of a further
      dimension. */
  lemma DeclaredBeforeUse(items: seq<IrItem>, params: seq<IrParam>, locals: map<string, ValueType>, n: string)
    returns (p: nat, d: nat)
    requires exists k :: 0 <= k < |Labels.Flatten(items)| && Dims(Labels.Flatten(items)[k], n)
                         && AsArray(Labels.Flatten(items)[k])
    requires forall q :: q in params ==> q.name != n
    requires !DynArray(Steps(START, Trace(items, false, false)), params, HasGosub(items), locals, n)
    ensures OnlyDim(Labels.Flatten(items), p, n)
    ensures var flat, tr := Labels.Flatten(items), Trace(items, false, true);
      && SingleSizedDim(tr, n, d, HasGosub(items))
      && ((forall j :: 0 <= j < |tr| && Touches(tr[j], n) ==> j > d)
          <==> forall q :: 0 <= q < p ==> !Overlooks(flat[q], n))
  {
    InPlaceItems(items, params, locals, n);
    var flat, tr := Labels.Flatten(items), Trace(items, false, true);
    p :| OnlyDim(flat, p, n);
    d := DeclaredAt(items, p, true);
    hide Uses, Overlooks, InControl, Trace, Labels.Flatten, Steps, HasGosub;
    assert Use(n) !in tr[..d];
    assert Missed(n) in tr[..d] <==> exists q :: 0 <= q < p && Overlooks(flat[q], n) by {
      if q :| 0 <= q < p && Overlooks(flat[q], n) {
        assert Gives(flat[q], p - q, Missed(n), InControl(flat, q), true);
      }
    }
    OnlyDeclared(items, params, locals, n, d);
    hide DynArray, OnlyDim;
    TouchesFrom(tr, n, d);
  }

  lemma TouchesFrom(tr: seq<Event>, n: string, d: nat)
    requires d < |tr| && Declares(tr[d], n) && Use(n) !in tr[..d]
    ensures (forall j :: 0 <= j < |tr| && Touches(tr[j], n) ==> j > d) <==> Missed(n) !in tr[..d]
  {
    assert forall j :: 0 <= j < d ==> tr[j] == tr[..d][j];
  }

  lemma OnlyDeclared(items: seq<IrItem>, params: seq<IrParam>, locals: map<string, ValueType>, n: string, d: nat)
    requires forall q :: q in params ==> q.name != n
    requires !DynArray(Steps(START, Trace(items, false, false)), params, HasGosub(items), locals, n)
    requires d < |Trace(items, false, true)| && Declares(Trace(items, false, true)[d], n)
    requires Trace(items, false, true)[d].isArray
    ensures SingleSizedDim(Trace(items, false, true), n, d, HasGosub(items))
  {
    hide Steps, Trace, DynArray, HasGosub;
    var tr := Trace(items, false, true);
    SameSteps(START, items, false);
    assert SomeDim(tr, n, ARRAY);
    InPlaceExactly(tr, params, HasGosub(items), locals, n);
  }

  /** `a[index] = value` before `DIM a[size]`: the walk sees the use, and the array gets storage on the heap. */
  lemma WrittenFirst(a: IrSymbol, index: IrExpr, value: IrExpr, size: IrExpr, params: seq<IrParam>,
                     locals: map<string, ValueType>)
    requires forall q :: q in params ==> q.name != a.name
    ensures var items := [ArrayAssignment(a, index, [], value), Dim(a, Some(size), [], true, false, false)];
      DynArray(Steps(START, Trace(items, false, false)), params, HasGosub(items), locals, a.name)
  {
    hide Steps, Trace, HasGosub, DynArray;
    var items := [ArrayAssignment(a, index, [], value), Dim(a, Some(size), [], true, false, false)];
    TwoLeaves(items[0], items[1]);
    assert FirstDim(items, 1, a.name) && Uses(items[0], 1, a.name);
    assert UsedBefore(items, 1, a.name);
    assert UsedFirst(items, a.name);
    assert Dims(items[1], a.name) && AsArray(items[1]);
    DynArraysAre(items, params, locals, a.name);
  }

  lemma TwoLeaves(x: IrItem, y: IrItem)
    requires IsLeaf(x) && IsLeaf(y)
    ensures Labels.Flatten([x, y]) == [x, y]
  {
    assert [x, y][1..] == [y] && [y][1..] == [];
    assert Labels.Inside(x) == [] && Labels.Inside(y) == [];
    assert Labels.Flatten([y]) == [y] + [] + Labels.Flatten([]);
  }
}
