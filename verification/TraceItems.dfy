/** Which items of a body the events of the walk come from, and in which order. */
module TraceItems {
  import opened Ir
  import opened DynNames
  import HiddenEdges
  import Labels

  // ----- What one item gives -----

  /** The expression names `n` as a symbol or as an array, at any depth. */
  ghost predicate Mentions(e: IrExpr, n: string) {
    exists x :: HiddenEdges.Occurs(x, e) && Names(x, n)
  }

  predicate Names(x: IrExpr, n: string) {
    match x.kind
    case Symbol(s) => s.name == n
    case ArrayUBound(s) => s.name == n
    case SizeOf(s) => s.name == n
    case ArrayAccess(s, _, _) => s.name == n
    case _ => false
  }

  /** The walk looks at the expression `e` of the item itself before it comes to the item `r` places further on:
      the test at the end of a loop counts behind its body, and the conditions of a case before its body. Other
      than the edge collector it looks at computed addresses. */
  ghost predicate LooksAt(it: IrItem, r: nat, e: IrExpr) {
    match it
    case DoLoop(pre, post, body) =>
      (pre.Some? && e == pre.value.0) || (post.Some? && e == post.value.0 && |Labels.Flatten(body)| < r)
    case SelectCase(selector, cases, _) => e == selector || InConditions(cases, r, e)
    case GosubExpr(address) => e == address
    case GotoExpr(address) => e == address
    case _ => HiddenEdges.LooksInto(it, e)
  }

  ghost predicate InConditions(cases: seq<IrCaseClause>, r: nat, e: IrExpr) {
    exists c: nat :: InCondition(cases, r, e, c)
  }

  predicate InCondition(cases: seq<IrCaseClause>, r: nat, e: IrExpr, c: nat) {
    c < |cases| && e in cases[c].conditions && |Labels.FlattenCases(cases[..c])| < r
  }

  /** The item uses `n`: as a target, a loop variable, an operand of SWAP or READ, or in an expression. */
  ghost predicate Uses(it: IrItem, r: nat, n: string) {
    || (it.Assignment? && it.target.name == n)
    || (it.ArrayAssignment? && it.target.name == n)
    || (it.For? && it.loopVar.name == n)
    || (it.Swap? && (it.left.name == n || it.right.name == n))
    || (it.Read? && exists s :: s in it.symbols && s.name == n)
    || exists e :: LooksAt(it, r, e) && Mentions(e, n)
  }

  /** The item uses `n` where the walk does not look: as an operand or in a subscript of ATTACH, or in the size of
      a further dimension. */
  ghost predicate Overlooks(it: IrItem, n: string) {
    || (it.Attach? && (it.left.name == n || it.right.name == n))
    || (it.Attach? && exists e :: e in it.leftIndices + it.rightIndices && Mentions(e, n))
    || (it.Dim? && exists e :: e in it.extraDims && Mentions(e, n))
  }

  predicate Dims(it: IrItem, n: string) {
    it.Dim? && it.symbol.name == n
  }

  predicate AsArray(it: IrItem) {
    it.Dim? && (it.isArray || it.size.Some?)
  }

  predicate Unsized(it: IrItem) {
    it.Dim? && it.isArray && it.size.None? && it.extraDims == []
  }

  predicate IsControl(it: IrItem) {
    it.If? || it.While? || it.DoLoop? || it.For? || it.SelectCase?
  }

  /** The item at `p` stands in a body of control flow. */
  ghost predicate InControl(flat: seq<IrItem>, p: nat)
    requires p <= |flat|
  {
    exists q :: 0 <= q < p && IsControl(flat[q]) && p <= q + |Labels.Inside(flat[q])|
  }

  function Declaration(it: IrItem, nested: bool): Event
    requires it.Dim?
  {
    Declare(it.symbol.name, AsArray(it), it.symbol.valueType, nested, Unsized(it))
  }

  /** The item gives the event before the walk comes to the item `r` places further on. */
  ghost predicate Gives(it: IrItem, r: nat, ev: Event, nested: bool, deep: bool) {
    match ev
    case Use(n) => Uses(it, r, n)
    case Missed(n) => deep && Overlooks(it, n)
    case Declare(_, _, _, _, _) => it.Dim? && ev == Declaration(it, nested)
  }

  /** Some item before position `p` gives the event before the walk comes to `p`. */
  ghost predicate Before(flat: seq<IrItem>, p: nat, ev: Event, nested: bool, deep: bool)
    requires p <= |flat|
  {
    exists q :: 0 <= q < p && GivenAt(flat, p, q, ev, nested, deep)
  }

  ghost predicate GivenAt(flat: seq<IrItem>, p: nat, q: nat, ev: Event, nested: bool, deep: bool)
    requires q < p <= |flat|
  {
    Gives(flat[q], p - q, ev, nested || InControl(flat, q), deep)
  }

  // ----- Events of expressions -----

  lemma {:induction false} ExprUses(e: IrExpr, ev: Event)
    ensures ev in ExprTrace(e) <==> ev.Use? && Mentions(e, ev.name)
    decreases e
  {
    hide ExprsTrace, Names;
    var k := e.kind;
    if k.ArrayAccess? {
      ExprUses(k.index, ev);
      ExprsUses(k.extra, ev);
    } else if HasOperand(k) {
      ExprUses(k.operand, ev);
    } else if HasPair(k) {
      ExprUses(k.left, ev);
      ExprUses(k.right, ev);
    } else if k.FunctionCall? {
      ExprsUses(k.args, ev);
    }
    MentionsWithin(e, ev.name);
  }

  ghost predicate SomeMentions(es: seq<IrExpr>, n: string) {
    exists x :: HiddenEdges.OccursInSome(x, es) && Names(x, n)
  }

  lemma MentionsWithin(e: IrExpr, n: string)
    ensures var k := e.kind;
      Mentions(e, n) <==> (
        || ((k.Symbol? || k.ArrayUBound? || k.SizeOf? || k.ArrayAccess?) && k.symbol.name == n)
        || (HasOperand(k) && Mentions(k.operand, n))
        || (HasPair(k) && (Mentions(k.left, n) || Mentions(k.right, n)))
        || (k.FunctionCall? && SomeMentions(k.args, n))
        || (k.ArrayAccess? && (Mentions(k.index, n) || SomeMentions(k.extra, n))))
  {
    assert Names(e, n) <==> (
      (e.kind.Symbol? || e.kind.ArrayUBound? || e.kind.SizeOf? || e.kind.ArrayAccess?) && e.kind.symbol.name == n);
    hide Names;
    assert HiddenEdges.Occurs(e, e);
    if Mentions(e, n) {
      var x :| HiddenEdges.Occurs(x, e) && Names(x, n);
    }
  }

  lemma {:induction false} ExprsUses(es: seq<IrExpr>, ev: Event)
    ensures ev in ExprsTrace(es) <==> ev.Use? && SomeMentions(es, ev.name)
    ensures ev in ExprsTrace(es) <==> ev.Use? && exists e :: e in es && Mentions(e, ev.name)
    decreases es
  {
    hide ExprTrace, Names, HiddenEdges.Occurs;
    if es != [] {
      ExprUses(es[0], ev);
      ExprsUses(es[1..], ev);
      assert es == [es[0]] + es[1..];
      SomeMentionsSplit(es, ev.name);
    }
  }

  lemma SomeMentionsSplit(es: seq<IrExpr>, n: string)
    requires es != []
    ensures SomeMentions(es, n) <==> Mentions(es[0], n) || SomeMentions(es[1..], n)
  {
    hide Names, HiddenEdges.Occurs;
    if SomeMentions(es, n) {
      var x :| HiddenEdges.OccursInSome(x, es) && Names(x, n);
    }
  }

  lemma {:induction false} SymbolUses(syms: seq<IrSymbol>, ev: Event)
    ensures ev in SymbolsTrace(syms) <==> ev.Use? && exists s :: s in syms && s.name == ev.name
  {
    if syms != [] {
      SymbolUses(syms[1..], ev);
      assert syms == [syms[0]] + syms[1..];
    }
  }

  lemma {:induction false} MissedAre(tr: seq<Event>, ev: Event)
    ensures ev in AsMissed(tr) <==> ev.Missed? && exists x :: x in tr && x.name == ev.name
  {
    if tr != [] {
      MissedAre(tr[1..], ev);
      assert tr == [tr[0]] + tr[1..];
    }
  }

  lemma ExprsMissed(es: seq<IrExpr>, ev: Event)
    ensures ev in AsMissed(ExprsTrace(es)) <==> ev.Missed? && exists e :: e in es && Mentions(e, ev.name)
  {
    hide ExprsTrace, AsMissed, Mentions;
    MissedAre(ExprsTrace(es), ev);
    ExprsUses(es, Use(ev.name));
    forall x | x in ExprsTrace(es) ensures x.Use? {
      ExprsUses(es, x);
    }
  }

  // ----- Events of one item -----

  lemma OptUses(e: Option<IrExpr>, ev: Event)
    ensures ev in OptTrace(e) <==> ev.Use? && e.Some? && Mentions(e.value, ev.name)
  {
    hide ExprTrace;
    if e.Some? {
      ExprUses(e.value, ev);
    }
  }

  predicate IsLeaf(it: IrItem) {
    !IsControl(it) && !it.Compound?
  }

  lemma LeafGives(it: IrItem, r: nat, ev: Event, nested: bool, deep: bool)
    requires IsLeaf(it)
    ensures ev in ItemTrace(it, nested, deep) <==> Gives(it, r, ev, nested, deep)
  {
    hide Trace, ExprTrace, ExprsTrace, OptTrace, ConditionTrace, CaseTrace, BranchTrace, AsMissed, Mentions,
      SymbolsTrace, SomeMentions;
    if it.Dim? {
      OptUses(it.size, ev);
      ExprsMissed(it.extraDims, ev);
    } else if it.Attach? {
      ExprsMissed(it.leftIndices + it.rightIndices, ev);
    } else {
      LeafUses(it, r, ev, nested, deep);
    }
  }

  lemma LeafUses(it: IrItem, r: nat, ev: Event, nested: bool, deep: bool)
    requires IsLeaf(it) && !it.Dim? && !it.Attach?
    ensures ev in ItemTrace(it, nested, deep) <==> Gives(it, r, ev, nested, deep)
  {
    if it.ArrayAssignment? || it.MidAssign? || it.BuiltinAssign? {
      StoreUses(it, r, ev, nested, deep);
    } else {
      OtherUses(it, r, ev, nested, deep);
    }
  }

  lemma StoreUses(it: IrItem, r: nat, ev: Event, nested: bool, deep: bool)
    requires it.ArrayAssignment? || it.MidAssign? || it.BuiltinAssign?
    ensures ev in ItemTrace(it, nested, deep) <==> Gives(it, r, ev, nested, deep)
  {
    hide Trace, ExprTrace, ExprsTrace, OptTrace, ConditionTrace, CaseTrace, BranchTrace, AsMissed, Mentions,
      SymbolsTrace, SomeMentions;
    ExprUses(it.value, ev);
    if it.ArrayAssignment? {
      ExprUses(it.index, ev);
      ExprsUses(it.extraIndices, ev);
    } else if it.MidAssign? {
      ExprUses(it.place, ev);
      ExprUses(it.start, ev);
      OptUses(it.length, ev);
    } else {
      ExprsUses(it.args, ev);
    }
  }

  lemma OtherUses(it: IrItem, r: nat, ev: Event, nested: bool, deep: bool)
    requires IsLeaf(it) && !it.Dim? && !it.Attach? && !it.ArrayAssignment? && !it.MidAssign? && !it.BuiltinAssign?
    ensures ev in ItemTrace(it, nested, deep) <==> Gives(it, r, ev, nested, deep)
  {
    hide Trace, ExprTrace, ExprsTrace, OptTrace, ConditionTrace, CaseTrace, BranchTrace, AsMissed, Mentions,
      SymbolsTrace, SomeMentions;
    if it.Print? {
      ExprsUses(it.exprs, ev);
    } else if it.Assignment? || it.SharedAssignment? {
      ExprUses(it.value, ev);
    } else if it.Return? {
      OptUses(it.result, ev);
    } else if it.Call? {
      ExprsUses(it.args, ev);
    } else if it.Read? {
      SymbolUses(it.symbols, ev);
    } else if it.GosubExpr? || it.GotoExpr? {
      ExprUses(it.address, ev);
    }
  }

  // ----- Concatenation -----

  /** No item's bodies reach beyond the list. */
  ghost predicate Whole(flat: seq<IrItem>) {
    forall q :: 0 <= q < |flat| ==> q + |Labels.Inside(flat[q])| < |flat|
  }

  lemma WholeJoined(a: seq<IrItem>, b: seq<IrItem>)
    requires Whole(a) && Whole(b)
    ensures Whole(a + b)
  {
    hide Labels.Inside;
    var c := a + b;
    forall q | 0 <= q < |c| ensures q + |Labels.Inside(c[q])| < |c| {
      if q >= |a| {
        assert c[q] == b[q - |a|];
      }
    }
  }

  lemma WholeHead(it: IrItem)
    requires Whole(Labels.Inside(it))
    ensures Whole([it] + Labels.Inside(it))
  {
    hide Labels.Inside;
    var c, inside := [it] + Labels.Inside(it), Labels.Inside(it);
    forall q | 0 <= q < |c| ensures q + |Labels.Inside(c[q])| < |c| {
      if q > 0 {
        assert c[q] == inside[q - 1];
      }
    }
  }

  /** In emission order every item is followed by all that its bodies hold. */
  lemma {:induction false} FlattenWhole(items: seq<IrItem>)
    ensures Whole(Labels.Flatten(items))
    decreases items
  {
    hide Whole, Labels.Inside;
    WholeNone();
    if items != [] {
      InsideWhole(items[0]);
      FlattenWhole(items[1..]);
      WholeHead(items[0]);
      WholeJoined([items[0]] + Labels.Inside(items[0]), Labels.Flatten(items[1..]));
    }
  }

  lemma WholeNone()
    ensures Whole([])
  {
  }

  lemma {:induction false} InsideWhole(it: IrItem)
    ensures Whole(Labels.Inside(it))
    decreases it
  {
    hide Whole, Labels.Flatten, Labels.FlattenCases;
    WholeNone();
    if it.If? {
      FlattenWhole(it.thenBody);
      OptWhole(it.elseBody);
      WholeJoined(Labels.Flatten(it.thenBody), Labels.FlattenOpt(it.elseBody));
    } else if it.While? || it.For? || it.DoLoop? || it.Compound? {
      FlattenWhole(it.body);
    } else if it.SelectCase? {
      CasesWhole(it.cases);
      OptWhole(it.default);
      WholeJoined(Labels.FlattenCases(it.cases), Labels.FlattenOpt(it.default));
    }
  }

  lemma {:induction false} OptWhole(b: OptBody)
    ensures Whole(Labels.FlattenOpt(b))
    decreases b
  {
    hide Whole, Labels.Flatten;
    WholeNone();
    if b.Body? {
      FlattenWhole(b.items);
    }
  }

  lemma {:induction false} CasesWhole(cases: seq<IrCaseClause>)
    ensures Whole(Labels.FlattenCases(cases))
    decreases cases
  {
    hide Whole, Labels.Flatten;
    WholeNone();
    if cases != [] {
      FlattenWhole(cases[0].body);
      CasesWhole(cases[1..]);
      WholeJoined(Labels.Flatten(cases[0].body), Labels.FlattenCases(cases[1..]));
    }
  }

  /** Behind its bodies an item has given all it gives. */
  lemma Saturated(it: IrItem, r: nat, r': nat, ev: Event, nested: bool, deep: bool)
    requires r > |Labels.Inside(it)| && r' > |Labels.Inside(it)|
    ensures Gives(it, r, ev, nested, deep) <==> Gives(it, r', ev, nested, deep)
  {
    hide Mentions, Labels.Flatten, Labels.FlattenCases;
    if ev.Use? {
      forall e ensures LooksAt(it, r, e) <==> LooksAt(it, r', e) {
        if it.SelectCase? {
          AllConditions(it, r, e);
          AllConditions(it, r', e);
        }
      }
    }
  }

  lemma AllConditions(it: IrItem, r: nat, e: IrExpr)
    requires it.SelectCase? && r > |Labels.Inside(it)|
    ensures InConditions(it.cases, r, e) <==> exists c :: 0 <= c < |it.cases| && e in it.cases[c].conditions
  {
    PastConditions(it.cases, r, e);
  }

  lemma PastConditions(cases: seq<IrCaseClause>, r: nat, e: IrExpr)
    requires r > |Labels.FlattenCases(cases)|
    ensures InConditions(cases, r, e) <==> exists c :: 0 <= c < |cases| && e in cases[c].conditions
  {
    hide Labels.Flatten, Labels.FlattenCases;
    forall c: nat ensures InCondition(cases, r, e, c) <==> c < |cases| && e in cases[c].conditions {
      if c < |cases| {
        CasesApart(cases, c);
      }
    }
  }

  lemma {:induction false} CasesApart(cases: seq<IrCaseClause>, c: nat)
    requires c <= |cases|
    ensures Labels.FlattenCases(cases) == Labels.FlattenCases(cases[..c]) + Labels.FlattenCases(cases[c..])
  {
    hide Labels.Flatten;
    if c > 0 {
      assert cases[..c][0] == cases[0] && cases[..c][1..] == cases[1..][..c - 1] && cases[c..] == cases[1..][c - 1..];
      CasesApart(cases[1..], c - 1);
    } else {
      assert cases[c..] == cases;
    }
  }

  lemma ControlJoined(a: seq<IrItem>, b: seq<IrItem>, p: nat)
    requires Whole(a) && p <= |b|
    ensures InControl(a + b, |a| + p) <==> InControl(b, p)
  {
    hide Labels.Inside;
    var c := a + b;
    if q :| 0 <= q < p && IsControl(b[q]) && p <= q + |Labels.Inside(b[q])| {
      assert c[|a| + q] == b[q];
    }
    if q :| 0 <= q < |a| + p && IsControl(c[q]) && |a| + p <= q + |Labels.Inside(c[q])| {
      if q >= |a| {
        assert c[q] == b[q - |a|];
      }
    }
  }

  lemma ControlPrefix(a: seq<IrItem>, b: seq<IrItem>, p: nat)
    requires p <= |a|
    ensures InControl(a + b, p) <==> InControl(a, p)
  {
    hide Labels.Inside;
    var c := a + b;
    assert forall q :: 0 <= q < p ==> c[q] == a[q];
  }

  lemma ControlHead(it: IrItem, p: nat)
    requires p < |Labels.Inside(it)|
    ensures InControl([it] + Labels.Inside(it), p + 1) <==> IsControl(it) || InControl(Labels.Inside(it), p)
  {
    hide Labels.Inside;
    var inside, c := Labels.Inside(it), [it] + Labels.Inside(it);
    if q :| 0 <= q < p && IsControl(inside[q]) && p <= q + |Labels.Inside(inside[q])| {
      assert c[q + 1] == inside[q];
    }
    if q :| 0 <= q < p + 1 && IsControl(c[q]) && p + 1 <= q + |Labels.Inside(c[q])| {
      assert q > 0 ==> c[q] == inside[q - 1];
    }
    if IsControl(it) {
      assert c[0] == it;
    }
  }

  lemma BeforePrefix(a: seq<IrItem>, b: seq<IrItem>, p: nat, ev: Event, nested: bool, deep: bool)
    requires p <= |a|
    ensures Before(a + b, p, ev, nested, deep) <==> Before(a, p, ev, nested, deep)
  {
    hide GivenAt;
    forall q: nat | q < p ensures GivenAt(a + b, p, q, ev, nested, deep) <==> GivenAt(a, p, q, ev, nested, deep) {
      GivenPrefix(a, b, p, q, ev, nested, deep);
    }
  }

  lemma GivenPrefix(a: seq<IrItem>, b: seq<IrItem>, p: nat, q: nat, ev: Event, nested: bool, deep: bool)
    requires q < p <= |a|
    ensures GivenAt(a + b, p, q, ev, nested, deep) <==> GivenAt(a, p, q, ev, nested, deep)
  {
    hide Gives, InControl;
    ControlPrefix(a, b, q);
  }

  lemma BeforeJoined(a: seq<IrItem>, b: seq<IrItem>, p: nat, ev: Event, nested: bool, deep: bool)
    requires Whole(a) && p <= |b|
    ensures Before(a + b, |a| + p, ev, nested, deep)
       <==> Before(a, |a|, ev, nested, deep) || Before(b, p, ev, nested, deep)
  {
    hide GivenAt, Whole;
    var c, n, end := a + b, |a|, |a| + p;
    forall q: nat | q < n ensures GivenAt(c, end, q, ev, nested, deep) <==> GivenAt(a, n, q, ev, nested, deep) {
      GivenFirst(a, b, p, q, ev, nested, deep);
    }
    forall q: nat | n <= q < end
      ensures GivenAt(c, end, q, ev, nested, deep) <==> GivenAt(b, p, q - n, ev, nested, deep)
    {
      GivenSecond(a, b, p, q - n, ev, nested, deep);
    }
    if q: nat :| q < p && GivenAt(b, p, q, ev, nested, deep) {
      assert GivenAt(c, end, n + q, ev, nested, deep);
    }
    assert Before(c, end, ev, nested, deep) <==> exists q :: 0 <= q < end && GivenAt(c, end, q, ev, nested, deep);
  }

  lemma GivenFirst(a: seq<IrItem>, b: seq<IrItem>, p: nat, q: nat, ev: Event, nested: bool, deep: bool)
    requires Whole(a) && p <= |b| && q < |a|
    ensures GivenAt(a + b, |a| + p, q, ev, nested, deep) <==> GivenAt(a, |a|, q, ev, nested, deep)
  {
    hide Gives, InControl, Labels.Inside;
    ControlPrefix(a, b, q);
    Saturated(a[q], |a| + p - q, |a| - q, ev, nested || InControl(a, q), deep);
  }

  lemma GivenSecond(a: seq<IrItem>, b: seq<IrItem>, p: nat, q: nat, ev: Event, nested: bool, deep: bool)
    requires Whole(a) && q < p <= |b|
    ensures GivenAt(a + b, |a| + p, |a| + q, ev, nested, deep) <==> GivenAt(b, p, q, ev, nested, deep)
  {
    hide Gives, InControl, Whole;
    ControlJoined(a, b, q);
    assert (a + b)[|a| + q] == b[q];
  }

  lemma BeforeHead(it: IrItem, p: nat, ev: Event, nested: bool, deep: bool)
    requires p <= |Labels.Inside(it)|
    ensures Before([it] + Labels.Inside(it), p + 1, ev, nested, deep)
       <==> Gives(it, p + 1, ev, nested, deep) || Before(Labels.Inside(it), p, ev, nested || IsControl(it), deep)
  {
    hide Gives, GivenAt, Labels.Inside, IsControl;
    var inside, c, end, within := Labels.Inside(it), [it] + Labels.Inside(it), p + 1, nested || IsControl(it);
    GivenByHead(it, p, ev, nested, deep);
    forall q: nat | 0 < q < end
      ensures GivenAt(c, end, q, ev, nested, deep) <==> GivenAt(inside, p, q - 1, ev, within, deep)
    {
      GivenInside(it, p, q - 1, ev, nested, deep);
    }
    if q: nat :| q < p && GivenAt(inside, p, q, ev, within, deep) {
      assert GivenAt(c, end, q + 1, ev, nested, deep);
    }
    assert Before(c, end, ev, nested, deep) <==> exists q :: 0 <= q < end && GivenAt(c, end, q, ev, nested, deep);
  }

  lemma GivenByHead(it: IrItem, p: nat, ev: Event, nested: bool, deep: bool)
    requires p <= |Labels.Inside(it)|
    ensures GivenAt([it] + Labels.Inside(it), p + 1, 0, ev, nested, deep) <==> Gives(it, p + 1, ev, nested, deep)
  {
    hide Gives, Labels.Inside;
    NotInControl([it] + Labels.Inside(it));
    hide InControl;
  }

  lemma GivenInside(it: IrItem, p: nat, q: nat, ev: Event, nested: bool, deep: bool)
    requires q < p <= |Labels.Inside(it)|
    ensures GivenAt([it] + Labels.Inside(it), p + 1, q + 1, ev, nested, deep)
       <==> GivenAt(Labels.Inside(it), p, q, ev, nested || IsControl(it), deep)
  {
    hide Gives, InControl, Labels.Inside, IsControl;
    ControlHead(it, q);
    assert ([it] + Labels.Inside(it))[q + 1] == Labels.Inside(it)[q];
  }

  lemma NotInControl(flat: seq<IrItem>)
    ensures !InControl(flat, 0)
  {
  }

  // ----- The events before an item -----

  ghost predicate Cut(pre: seq<Event>, flat: seq<IrItem>, p: nat, nested: bool, deep: bool)
    requires p <= |flat|
  {
    forall ev :: ev in pre <==> Before(flat, p, ev, nested, deep)
  }

  /** The events stop at `d` where the items stop at `p`: at the end, or at a declaration. */
  ghost predicate Meets(tr: seq<Event>, d: nat, flat: seq<IrItem>, p: nat, nested: bool)
    requires p <= |flat|
  {
    && d <= |tr| && (p == |flat| ==> d == |tr|)
    && (p < |flat| && flat[p].Dim? ==> d < |tr| && tr[d] == Declaration(flat[p], nested || InControl(flat, p)))
  }

  ghost predicate Splits(tr: seq<Event>, d: nat, flat: seq<IrItem>, p: nat, nested: bool, deep: bool)
    requires p <= |flat|
  {
    Meets(tr, d, flat, p, nested) && Cut(tr[..d], flat, p, nested, deep)
  }

  lemma MeetsPrefix(tr: seq<Event>, d: nat, a: seq<IrItem>, p: nat, nested: bool, tr': seq<Event>, b: seq<IrItem>)
    requires p < |a| && Meets(tr, d, a, p, nested)
    ensures Meets(tr + tr', d, a + b, p, nested)
  {
    hide InControl;
    ControlPrefix(a, b, p);
  }

  lemma MeetsJoined(tr: seq<Event>, a: seq<IrItem>, tr': seq<Event>, d: nat, b: seq<IrItem>, p: nat, nested: bool)
    requires Whole(a) && p <= |b| && Meets(tr', d, b, p, nested)
    ensures Meets(tr + tr', |tr| + d, a + b, |a| + p, nested)
  {
    hide InControl, Whole;
    ControlJoined(a, b, p);
  }

  lemma SplitsPrefix(tr: seq<Event>, d: nat, a: seq<IrItem>, p: nat, nested: bool, deep: bool,
                     tr': seq<Event>, b: seq<IrItem>)
    requires p < |a| && Splits(tr, d, a, p, nested, deep)
    ensures Splits(tr + tr', d, a + b, p, nested, deep)
  {
    hide Before, Meets, InControl;
    MeetsBound(tr, d, a, p, nested);
    MeetsPrefix(tr, d, a, p, nested, tr', b);
    assert (tr + tr')[..d] == tr[..d];
    forall ev ensures ev in tr[..d] <==> Before(a + b, p, ev, nested, deep) {
      BeforePrefix(a, b, p, ev, nested, deep);
    }
  }

  lemma MeetsBound(tr: seq<Event>, d: nat, flat: seq<IrItem>, p: nat, nested: bool)
    requires p <= |flat| && Meets(tr, d, flat, p, nested)
    ensures d <= |tr| && (p == |flat| ==> d == |tr|)
  {
  }

  lemma SplitsJoined(tr: seq<Event>, a: seq<IrItem>, tr': seq<Event>, d: nat, b: seq<IrItem>, p: nat,
                     nested: bool, deep: bool)
    requires Whole(a) && p <= |b| && Splits(tr, |tr|, a, |a|, nested, deep) && Splits(tr', d, b, p, nested, deep)
    ensures Splits(tr + tr', |tr| + d, a + b, |a| + p, nested, deep)
  {
    hide Before, Meets, InControl, Whole;
    MeetsBound(tr', d, b, p, nested);
    MeetsJoined(tr, a, tr', d, b, p, nested);
    assert tr[..|tr|] == tr && (tr + tr')[..|tr| + d] == tr + tr'[..d];
    forall ev ensures ev in tr + tr'[..d] <==> Before(a + b, |a| + p, ev, nested, deep) {
      BeforeJoined(a, b, p, ev, nested, deep);
    }
  }

  lemma SplitsStart(tr: seq<Event>, flat: seq<IrItem>, nested: bool, deep: bool)
    requires Meets(tr, 0, flat, 0, nested)
    ensures Splits(tr, 0, flat, 0, nested, deep)
  {
    hide Meets;
    MeetsBound(tr, 0, flat, 0, nested);
    forall ev ensures ev in tr[..0] <==> Before(flat, 0, ev, nested, deep) {
    }
  }

  /** An item with its own events in front of those of its bodies, and perhaps some behind them. */
  lemma SplitsHead(it: IrItem, own: seq<Event>, inner: seq<Event>, tail: seq<Event>, d: nat, p: nat,
                   nested: bool, deep: bool) returns (d': nat)
    requires !it.Dim? && p <= |Labels.Inside(it)|
    requires Meets(inner, d, Labels.Inside(it), p, nested || IsControl(it))
    requires var pre := own + inner[..d] + (if p == |Labels.Inside(it)| then tail else []);
      forall ev :: ev in pre <==>
        Gives(it, p + 1, ev, nested, deep) || Before(Labels.Inside(it), p, ev, nested || IsControl(it), deep)
    ensures Splits(own + inner + tail, d', [it] + Labels.Inside(it), p + 1, nested, deep)
  {
    hide Before, Gives, InControl, Labels.Inside;
    var inside, flat, tr := Labels.Inside(it), [it] + Labels.Inside(it), own + inner + tail;
    d' := if p == |inside| then |tr| else |own| + d;
    var pre := own + inner[..d] + (if p == |inside| then tail else []);
    assert tr[..d'] == pre;
    forall ev ensures ev in pre <==> Before(flat, p + 1, ev, nested, deep) {
      BeforeHead(it, p, ev, nested, deep);
    }
    if p < |inside| {
      ControlHead(it, p);
      assert flat[p + 1] == inside[p];
    }
  }

  /** The events before the item at position `p`, or before the end, are those that the items before it give. */
  lemma {:induction false} BodySplits(items: seq<IrItem>, p: nat, nested: bool, deep: bool) returns (d: nat)
    requires p <= |Labels.Flatten(items)|
    ensures Splits(Trace(items, nested, deep), d, Labels.Flatten(items), p, nested, deep)
    decreases items
  {
    hide Splits, Whole, Before, Labels.Inside, ItemTrace;
    if p == 0 {
      d := 0;
      FirstMeets(items, nested, deep);
      SplitsStart(Trace(items, nested, deep), Labels.Flatten(items), nested, deep);
    } else {
      var it, rest := items[0], items[1..];
      var head := [it] + Labels.Inside(it);
      if p < |head| {
        d := ItemSplits(it, p, nested, deep);
        SplitsPrefix(ItemTrace(it, nested, deep), d, head, p, nested, deep,
                     Trace(rest, nested, deep), Labels.Flatten(rest));
      } else {
        var d0 := ItemSplits(it, |head|, nested, deep);
        SplitsAll(ItemTrace(it, nested, deep), d0, head, nested, deep);
        var d1 := BodySplits(rest, p - |head|, nested, deep);
        InsideWhole(it);
        WholeHead(it);
        SplitsJoined(ItemTrace(it, nested, deep), head, Trace(rest, nested, deep), d1, Labels.Flatten(rest),
                     p - |head|, nested, deep);
        d := |ItemTrace(it, nested, deep)| + d1;
      }
    }
  }

  lemma SplitsAll(tr: seq<Event>, d: nat, flat: seq<IrItem>, nested: bool, deep: bool)
    requires Splits(tr, d, flat, |flat|, nested, deep)
    ensures d == |tr|
  {
  }

  lemma FirstMeets(items: seq<IrItem>, nested: bool, deep: bool)
    ensures Meets(Trace(items, nested, deep), 0, Labels.Flatten(items), 0, nested)
  {
    hide OptTrace, AsMissed, ExprsTrace, LeafTrace, Labels.Inside;
    NotInControl(Labels.Flatten(items));
    hide InControl;
  }

  lemma {:induction false} ItemSplits(it: IrItem, p: nat, nested: bool, deep: bool) returns (d: nat)
    requires 1 <= p <= 1 + |Labels.Inside(it)|
    ensures Splits(ItemTrace(it, nested, deep), d, [it] + Labels.Inside(it), p, nested, deep)
    decreases it, 1
  {
    hide Splits, Before, Gives, Meets, ItemTrace, Labels.Inside;
    if it.If? {
      d := IfSplits(it, p, nested, deep);
    } else if it.SelectCase? {
      d := SelectSplits(it, p, nested, deep);
    } else if it.While? || it.DoLoop? || it.For? || it.Compound? {
      d := LoopSplits(it, p, nested, deep);
    } else {
      d := LeafSplits(it, p, nested, deep);
    }
  }

  lemma LeafSplits(it: IrItem, p: nat, nested: bool, deep: bool) returns (d: nat)
    requires IsLeaf(it) && 1 <= p <= 1 + |Labels.Inside(it)|
    ensures Splits(ItemTrace(it, nested, deep), d, [it] + Labels.Inside(it), p, nested, deep)
  {
    hide Before, Gives, ItemTrace, InControl;
    var tr := ItemTrace(it, nested, deep);
    assert Labels.Inside(it) == [] && p == 1;
    d := |tr|;
    assert tr[..d] == tr;
    forall ev ensures ev in tr <==> Before([it] + Labels.Inside(it), p, ev, nested, deep) {
      LeafGives(it, p, ev, nested, deep);
      BeforeHead(it, 0, ev, nested, deep);
      NoneBefore(Labels.Inside(it), ev, nested || IsControl(it), deep);
    }
  }

  lemma NoneBefore(flat: seq<IrItem>, ev: Event, nested: bool, deep: bool)
    ensures !Before(flat, 0, ev, nested, deep)
  {
  }

  // ----- Items with bodies -----

  lemma {:induction false} BranchSplits(b: OptBody, p: nat, deep: bool) returns (d: nat)
    requires p <= |Labels.FlattenOpt(b)|
    ensures Splits(BranchTrace(b, deep), d, Labels.FlattenOpt(b), p, true, deep)
    decreases b
  {
    hide Splits, Trace, Labels.Flatten;
    if b.Body? {
      d := BodySplits(b.items, p, true, deep);
    } else {
      d := 0;
      NothingSplits(true, deep);
    }
  }

  lemma NothingSplits(nested: bool, deep: bool)
    ensures Splits([], 0, [], 0, nested, deep)
  {
    SplitsStart([], [], nested, deep);
  }

  lemma {:induction false} IfSplits(it: IrItem, p: nat, nested: bool, deep: bool) returns (d: nat)
    requires it.If? && 1 <= p <= 1 + |Labels.Inside(it)|
    ensures Splits(ItemTrace(it, nested, deep), d, [it] + Labels.Inside(it), p, nested, deep)
    decreases it, 0
  {
    hide Splits, Before, Gives, Meets, Trace, ExprTrace, BranchTrace, Whole, Labels.Flatten, Labels.FlattenOpt;
    var first, second := Labels.Flatten(it.thenBody), Labels.FlattenOpt(it.elseBody);
    var thenTrace, elseTrace := Trace(it.thenBody, true, deep), BranchTrace(it.elseBody, deep);
    var d0;
    if p - 1 < |first| {
      d0 := BodySplits(it.thenBody, p - 1, true, deep);
      SplitsPrefix(thenTrace, d0, first, p - 1, true, deep, elseTrace, second);
    } else {
      var all := BodySplits(it.thenBody, |first|, true, deep);
      SplitsAll(thenTrace, all, first, true, deep);
      var d1 := BranchSplits(it.elseBody, p - 1 - |first|, deep);
      FlattenWhole(it.thenBody);
      SplitsJoined(thenTrace, first, elseTrace, d1, second, p - 1 - |first|, true, deep);
      d0 := |thenTrace| + d1;
    }
    forall ev ensures ev in ExprTrace(it.condition) <==> Gives(it, p, ev, nested, deep) {
      IfGives(it, p, ev, nested, deep);
    }
    d := OwnFirst(it, ExprTrace(it.condition), thenTrace + elseTrace, [], d0, p - 1, nested, deep);
    assert ExprTrace(it.condition) + (thenTrace + elseTrace) + [] == ItemTrace(it, nested, deep);
  }

  lemma IfGives(it: IrItem, r: nat, ev: Event, nested: bool, deep: bool)
    requires it.If?
    ensures ev in ExprTrace(it.condition) <==> Gives(it, r, ev, nested, deep)
  {
    hide ExprTrace, Mentions;
    ExprUses(it.condition, ev);
  }

  /** `SplitsHead`, for bodies whose events are known apart from those of the item. */
  lemma OwnFirst(it: IrItem, own: seq<Event>, inner: seq<Event>, tail: seq<Event>, d: nat, p: nat,
                 nested: bool, deep: bool) returns (d': nat)
    requires !it.Dim? && p <= |Labels.Inside(it)|
    requires Splits(inner, d, Labels.Inside(it), p, nested || IsControl(it), deep)
    requires forall ev ::
      ev in own || (ev in tail && p == |Labels.Inside(it)|) <==> Gives(it, p + 1, ev, nested, deep)
    ensures Splits(own + inner + tail, d', [it] + Labels.Inside(it), p + 1, nested, deep)
  {
    hide Before, Gives, Labels.Inside;
    MeetsBound(inner, d, Labels.Inside(it), p, nested || IsControl(it));
    hide Meets;
    var last := if p == |Labels.Inside(it)| then tail else [];
    forall ev ensures ev in own + inner[..d] + last <==>
        Gives(it, p + 1, ev, nested, deep) || Before(Labels.Inside(it), p, ev, nested || IsControl(it), deep)
    {
      assert ev in own + inner[..d] + last <==> ev in own + last || ev in inner[..d];
    }
    d' := SplitsHead(it, own, inner, tail, d, p, nested, deep);
  }

  function LoopHead(it: IrItem): seq<Event> {
    if it.While? then ExprTrace(it.condition)
    else if it.DoLoop? then ConditionTrace(it.preCondition)
    else if it.For? then [Use(it.loopVar.name)] + ExprTrace(it.start) + ExprTrace(it.end) + OptTrace(it.step)
    else []
  }

  function LoopTail(it: IrItem): seq<Event> {
    if it.DoLoop? then ConditionTrace(it.postCondition) else []
  }

  lemma LoopGives(it: IrItem, r: nat, ev: Event, nested: bool, deep: bool)
    requires it.While? || it.DoLoop? || it.For? || it.Compound?
    ensures ev in LoopHead(it) || (ev in LoopTail(it) && r > |Labels.Flatten(it.body)|)
       <==> Gives(it, r, ev, nested, deep)
  {
    hide ExprTrace, Mentions, OptTrace, Labels.Flatten;
    if it.While? {
      ExprUses(it.condition, ev);
    } else if it.DoLoop? {
      if it.preCondition.Some? {
        ExprUses(it.preCondition.value.0, ev);
      }
      if it.postCondition.Some? {
        ExprUses(it.postCondition.value.0, ev);
      }
    } else if it.For? {
      ExprUses(it.start, ev);
      ExprUses(it.end, ev);
      OptUses(it.step, ev);
    }
  }

  lemma {:induction false} LoopSplits(it: IrItem, p: nat, nested: bool, deep: bool) returns (d: nat)
    requires (it.While? || it.DoLoop? || it.For? || it.Compound?) && 1 <= p <= 1 + |Labels.Inside(it)|
    ensures Splits(ItemTrace(it, nested, deep), d, [it] + Labels.Inside(it), p, nested, deep)
    decreases it, 0
  {
    hide Splits, Before, Gives, Meets, Trace, LoopHead, LoopTail, Labels.Flatten;
    var inner := Trace(it.body, nested || IsControl(it), deep);
    var d0 := BodySplits(it.body, p - 1, nested || IsControl(it), deep);
    forall ev ensures
        ev in LoopHead(it) || (ev in LoopTail(it) && p - 1 == |Labels.Inside(it)|) <==> Gives(it, p, ev, nested, deep)
    {
      LoopGives(it, p, ev, nested, deep);
    }
    d := OwnFirst(it, LoopHead(it), inner, LoopTail(it), d0, p - 1, nested, deep);
    LoopTrace(it, nested, deep);
  }

  lemma LoopTrace(it: IrItem, nested: bool, deep: bool)
    requires it.While? || it.DoLoop? || it.For? || it.Compound?
    ensures ItemTrace(it, nested, deep) == LoopHead(it) + Trace(it.body, nested || IsControl(it), deep) + LoopTail(it)
  {
    hide Trace, ExprTrace, OptTrace, ConditionTrace;
  }

  // ----- SELECT CASE -----

  ghost predicate ConditionsGive(cases: seq<IrCaseClause>, r: nat, ev: Event) {
    ev.Use? && exists e :: InConditions(cases, r, e) && Mentions(e, ev.name)
  }

  lemma ConditionsHead(cases: seq<IrCaseClause>, r: nat, e: IrExpr)
    requires cases != [] && r > 0
    ensures InConditions(cases, r, e) <==> (
      || e in cases[0].conditions
      || (r > |Labels.Flatten(cases[0].body)| && InConditions(cases[1..], r - |Labels.Flatten(cases[0].body)|, e)))
  {
    var rest, n := cases[1..], |Labels.Flatten(cases[0].body)|;
    assert InCondition(cases, r, e, 0) <==> e in cases[0].conditions by {
      assert cases[..0] == [];
    }
    forall c: nat | c > 0
      ensures InCondition(cases, r, e, c) <==> r > n && InCondition(rest, r - n, e, c - 1)
    {
      LaterCondition(cases, r, e, c);
    }
    hide InCondition, Labels.Flatten;
    if r > n {
      var left := r - n;
      if c: nat :| InCondition(rest, left, e, c) {
        assert InCondition(cases, r, e, c + 1);
      }
    }
  }

  lemma LaterCondition(cases: seq<IrCaseClause>, r: nat, e: IrExpr, c: nat)
    requires cases != [] && c > 0
    ensures var n := |Labels.Flatten(cases[0].body)|;
      InCondition(cases, r, e, c) <==> r > n && InCondition(cases[1..], r - n, e, c - 1)
  {
    hide Labels.Flatten;
    if c < |cases| {
      assert cases[..c][0] == cases[0] && cases[..c][1..] == cases[1..][..c - 1];
    }
  }

  lemma ConditionsGiveHead(cases: seq<IrCaseClause>, r: nat, ev: Event)
    requires cases != [] && r > 0
    ensures ConditionsGive(cases, r, ev) <==> (
      || ev in ExprsTrace(cases[0].conditions)
      || (r > |Labels.Flatten(cases[0].body)| && ConditionsGive(cases[1..], r - |Labels.Flatten(cases[0].body)|, ev)))
  {
    hide InConditions, Mentions, Labels.Flatten, ExprsTrace, SomeMentions;
    ExprsUses(cases[0].conditions, ev);
    forall e ensures InConditions(cases, r, e) <==> (
      || e in cases[0].conditions
      || (r > |Labels.Flatten(cases[0].body)| && InConditions(cases[1..], r - |Labels.Flatten(cases[0].body)|, e)))
    {
      ConditionsHead(cases, r, e);
    }
  }

  /** The events of the cases before position `p` of their bodies. */
  ghost predicate CasesStop(cases: seq<IrCaseClause>, d: nat, p: nat, deep: bool)
    requires p <= |Labels.FlattenCases(cases)|
  {
    && Meets(CaseTrace(cases, deep), d, Labels.FlattenCases(cases), p, true)
    && forall ev :: ev in CaseTrace(cases, deep)[..d] <==>
         ConditionsGive(cases, p + 1, ev) || Before(Labels.FlattenCases(cases), p, ev, true, deep)
  }

  lemma {:induction false} ClausesStop(cases: seq<IrCaseClause>, p: nat, deep: bool) returns (d: nat)
    requires p <= |Labels.FlattenCases(cases)|
    ensures CasesStop(cases, d, p, deep)
    decreases cases
  {
    hide CasesStop, Splits, Meets, Trace, Labels.Flatten;
    if cases == [] {
      d := 0;
      NoClauses(deep);
    } else {
      var first := Labels.Flatten(cases[0].body);
      if p < |first| {
        var d1 := BodySplits(cases[0].body, p, true, deep);
        d := |ExprsTrace(cases[0].conditions)| + d1;
        FirstClause(cases, p, d1, deep);
      } else {
        var all := BodySplits(cases[0].body, |first|, true, deep);
        SplitsAll(Trace(cases[0].body, true, deep), all, first, true, deep);
        var d1 := ClausesStop(cases[1..], p - |first|, deep);
        d := |ExprsTrace(cases[0].conditions)| + (|Trace(cases[0].body, true, deep)| + d1);
        LaterClause(cases, p, d1, deep);
      }
    }
  }

  lemma NoClauses(deep: bool)
    ensures CasesStop([], 0, 0, deep)
  {
    forall ev ensures !ConditionsGive([], 1, ev) && !Before([], 0, ev, true, deep) {
    }
  }

  lemma MeetsShift(head: seq<Event>, tr: seq<Event>, d: nat, flat: seq<IrItem>, p: nat, nested: bool)
    requires p <= |flat| && Meets(tr, d, flat, p, nested)
    ensures Meets(head + tr, |head| + d, flat, p, nested)
  {
    hide InControl;
  }

  lemma FirstClause(cases: seq<IrCaseClause>, p: nat, d: nat, deep: bool)
    requires cases != [] && p < |Labels.Flatten(cases[0].body)|
    requires Splits(Trace(cases[0].body, true, deep), d, Labels.Flatten(cases[0].body), p, true, deep)
    ensures p <= |Labels.FlattenCases(cases)| && CasesStop(cases, |ExprsTrace(cases[0].conditions)| + d, p, deep)
  {
    hide Meets, Before, ConditionsGive, Trace, ExprsTrace, Labels.Flatten;
    var tests, first := ExprsTrace(cases[0].conditions), Labels.Flatten(cases[0].body);
    var tr, tr' := Trace(cases[0].body, true, deep), CaseTrace(cases[1..], deep);
    var flat := first + Labels.FlattenCases(cases[1..]);
    SplitsPrefix(tr, d, first, p, true, deep, tr', Labels.FlattenCases(cases[1..]));
    MeetsBound(tr, d, first, p, true);
    MeetsShift(tests, tr + tr', d, flat, p, true);
    assert CaseTrace(cases, deep) == tests + (tr + tr') && Labels.FlattenCases(cases) == flat;
    assert CaseTrace(cases, deep)[..|tests| + d] == tests + (tr + tr')[..d];
    forall ev ensures ev in CaseTrace(cases, deep)[..|tests| + d] <==>
        ConditionsGive(cases, p + 1, ev) || Before(flat, p, ev, true, deep)
    {
      ConditionsGiveHead(cases, p + 1, ev);
    }
  }

  lemma LaterClause(cases: seq<IrCaseClause>, p: nat, d: nat, deep: bool)
    requires cases != [] && |Labels.Flatten(cases[0].body)| <= p <= |Labels.FlattenCases(cases)|
    requires var tr, first := Trace(cases[0].body, true, deep), Labels.Flatten(cases[0].body);
      && Splits(tr, |tr|, first, |first|, true, deep) && CasesStop(cases[1..], d, p - |first|, deep)
    ensures CasesStop(cases, |ExprsTrace(cases[0].conditions)| + (|Trace(cases[0].body, true, deep)| + d), p, deep)
  {
    hide Meets, Before, ConditionsGive, Trace, ExprsTrace, Labels.Flatten, Whole;
    var tests, first := ExprsTrace(cases[0].conditions), Labels.Flatten(cases[0].body);
    var tr, tr' := Trace(cases[0].body, true, deep), CaseTrace(cases[1..], deep);
    var rest := Labels.FlattenCases(cases[1..]);
    FlattenWhole(cases[0].body);
    MeetsBound(tr', d, rest, p - |first|, true);
    MeetsJoined(tr, first, tr', d, rest, p - |first|, true);
    MeetsShift(tests, tr + tr', |tr| + d, first + rest, p, true);
    assert CaseTrace(cases, deep) == tests + (tr + tr') && Labels.FlattenCases(cases) == first + rest;
    assert CaseTrace(cases, deep)[..|tests| + (|tr| + d)] == tests + tr + tr'[..d];
    assert tr[..|tr|] == tr;
    forall ev ensures ev in tests + tr + tr'[..d] <==>
        ConditionsGive(cases, p + 1, ev) || Before(first + rest, p, ev, true, deep)
    {
      ConditionsGiveHead(cases, p + 1, ev);
      BeforeJoined(first, rest, p - |first|, ev, true, deep);
    }
  }

  lemma SelectGives(it: IrItem, r: nat, ev: Event, nested: bool, deep: bool)
    requires it.SelectCase?
    ensures ev in ExprTrace(it.selector) || ConditionsGive(it.cases, r, ev) <==> Gives(it, r, ev, nested, deep)
  {
    hide ExprTrace, Mentions, InConditions;
    ExprUses(it.selector, ev);
  }

  lemma ConditionsAll(cases: seq<IrCaseClause>, r: nat, ev: Event)
    requires r > |Labels.FlattenCases(cases)|
    ensures ConditionsGive(cases, r, ev) <==> ConditionsGive(cases, |Labels.FlattenCases(cases)| + 1, ev)
  {
    hide Mentions, Labels.Flatten, Labels.FlattenCases;
    forall e ensures InConditions(cases, r, e) <==> InConditions(cases, |Labels.FlattenCases(cases)| + 1, e) {
      PastConditions(cases, r, e);
      PastConditions(cases, |Labels.FlattenCases(cases)| + 1, e);
    }
    hide InConditions;
  }

  lemma {:induction false} SelectSplits(it: IrItem, p: nat, nested: bool, deep: bool) returns (d: nat)
    requires it.SelectCase? && 1 <= p <= 1 + |Labels.Inside(it)|
    ensures Splits(ItemTrace(it, nested, deep), d, [it] + Labels.Inside(it), p, nested, deep)
    decreases it, 0
  {
    hide Splits, CasesStop, Meets, Before, Gives, CaseTrace, BranchTrace, ExprTrace, Labels.FlattenCases,
      Labels.FlattenOpt;
    var clauses, other := Labels.FlattenCases(it.cases), Labels.FlattenOpt(it.default);
    var d0;
    if p - 1 < |clauses| {
      d0 := ClausesStop(it.cases, p - 1, deep);
      InClauses(it, p, d0, nested, deep);
    } else {
      var all := ClausesStop(it.cases, |clauses|, deep);
      var d1 := BranchSplits(it.default, p - 1 - |clauses|, deep);
      d0 := |CaseTrace(it.cases, deep)| + d1;
      BehindClauses(it, p, all, d1, nested, deep);
    }
    d := SplitsHead(it, ExprTrace(it.selector), CaseTrace(it.cases, deep) + BranchTrace(it.default, deep), [],
                    d0, p - 1, nested, deep);
    SelectTrace(it, nested, deep);
  }

  lemma SelectTrace(it: IrItem, nested: bool, deep: bool)
    requires it.SelectCase?
    ensures ItemTrace(it, nested, deep)
         == ExprTrace(it.selector) + (CaseTrace(it.cases, deep) + BranchTrace(it.default, deep)) + []
  {
    hide ExprTrace, CaseTrace, BranchTrace;
  }

  lemma InClauses(it: IrItem, p: nat, d: nat, nested: bool, deep: bool)
    requires it.SelectCase? && 1 <= p <= |Labels.FlattenCases(it.cases)| && CasesStop(it.cases, d, p - 1, deep)
    ensures var inner := CaseTrace(it.cases, deep) + BranchTrace(it.default, deep);
      && Meets(inner, d, Labels.Inside(it), p - 1, true)
      && forall ev :: ev in ExprTrace(it.selector) + inner[..d] + [] <==>
           Gives(it, p, ev, nested, deep) || Before(Labels.Inside(it), p - 1, ev, true, deep)
  {
    hide Meets, Before, Gives, ConditionsGive, CaseTrace, BranchTrace, ExprTrace, Labels.FlattenCases,
      Labels.FlattenOpt;
    var clauses, other := Labels.FlattenCases(it.cases), Labels.FlattenOpt(it.default);
    var tr, tr' := CaseTrace(it.cases, deep), BranchTrace(it.default, deep);
    MeetsBound(tr, d, clauses, p - 1, true);
    MeetsPrefix(tr, d, clauses, p - 1, true, tr', other);
    assert (tr + tr')[..d] == tr[..d];
    forall ev ensures ev in ExprTrace(it.selector) + (tr + tr')[..d] + [] <==>
        Gives(it, p, ev, nested, deep) || Before(clauses + other, p - 1, ev, true, deep)
    {
      SelectGives(it, p, ev, nested, deep);
      BeforePrefix(clauses, other, p - 1, ev, true, deep);
    }
  }

  lemma BehindClauses(it: IrItem, p: nat, all: nat, d: nat, nested: bool, deep: bool)
    requires it.SelectCase? && 1 + |Labels.FlattenCases(it.cases)| <= p <= 1 + |Labels.Inside(it)|
    requires CasesStop(it.cases, all, |Labels.FlattenCases(it.cases)|, deep)
    requires Splits(BranchTrace(it.default, deep), d, Labels.FlattenOpt(it.default),
                    p - 1 - |Labels.FlattenCases(it.cases)|, true, deep)
    ensures var tr := CaseTrace(it.cases, deep);
            var inner := tr + BranchTrace(it.default, deep);
      && Meets(inner, |tr| + d, Labels.Inside(it), p - 1, true)
      && forall ev :: ev in ExprTrace(it.selector) + inner[..|tr| + d] + [] <==>
           Gives(it, p, ev, nested, deep) || Before(Labels.Inside(it), p - 1, ev, true, deep)
  {
    hide Meets, Before, Gives, ConditionsGive, CaseTrace, BranchTrace, ExprTrace, Labels.FlattenCases,
      Labels.FlattenOpt, Whole;
    var clauses, other := Labels.FlattenCases(it.cases), Labels.FlattenOpt(it.default);
    var tr, tr' := CaseTrace(it.cases, deep), BranchTrace(it.default, deep);
    CasesWhole(it.cases);
    MeetsBound(tr, all, clauses, |clauses|, true);
    MeetsBound(tr', d, other, p - 1 - |clauses|, true);
    MeetsJoined(tr, clauses, tr', d, other, p - 1 - |clauses|, true);
    assert tr[..all] == tr && (tr + tr')[..|tr| + d] == tr + tr'[..d];
    forall ev ensures ev in ExprTrace(it.selector) + (tr + tr')[..|tr| + d] + [] <==>
        Gives(it, p, ev, nested, deep) || Before(clauses + other, p - 1, ev, true, deep)
    {
      SelectGives(it, p, ev, nested, deep);
      ConditionsAll(it.cases, p, ev);
      BeforeJoined(clauses, other, p - 1 - |clauses|, ev, true, deep);
    }
  }

  // ----- The walk over all items -----

  lemma BeforeIs(flat: seq<IrItem>, p: nat, ev: Event, deep: bool)
    requires p <= |flat|
    ensures Before(flat, p, ev, false, deep) <==>
              exists q :: 0 <= q < p && Gives(flat[q], p - q, ev, InControl(flat, q), deep)
  {
    hide Gives, InControl;
    if q :| 0 <= q < p && Gives(flat[q], p - q, ev, InControl(flat, q), deep) {
      assert GivenAt(flat, p, q, ev, false, deep);
    }
  }

  /** The events of a body are those that its items give, at any depth. */
  lemma EventsAre(items: seq<IrItem>, deep: bool, ev: Event)
    ensures var flat := Labels.Flatten(items);
      ev in Trace(items, false, deep) <==>
        exists q :: 0 <= q < |flat| && Gives(flat[q], |flat| - q, ev, InControl(flat, q), deep)
  {
    hide Gives, InControl, Trace, Labels.Flatten;
    var flat, tr := Labels.Flatten(items), Trace(items, false, deep);
    var d := BodySplits(items, |flat|, false, deep);
    assert tr[..d] == tr;
    BeforeIs(flat, |flat|, ev, deep);
  }

  /** A DIM at position `p` gives the declaration at `d`, and the events before `d` are those given by the items
      before `p`. */
  lemma DeclaredAt(items: seq<IrItem>, p: nat, deep: bool) returns (d: nat)
    requires p < |Labels.Flatten(items)| && Labels.Flatten(items)[p].Dim?
    ensures var flat, tr := Labels.Flatten(items), Trace(items, false, deep);
      && d < |tr| && tr[d] == Declaration(flat[p], InControl(flat, p))
      && forall ev :: ev in tr[..d] <==>
           exists q :: 0 <= q < p && Gives(flat[q], p - q, ev, InControl(flat, q), deep)
  {
    hide Gives, InControl, Trace, Labels.Flatten;
    var flat, tr := Labels.Flatten(items), Trace(items, false, deep);
    d := BodySplits(items, p, false, deep);
    forall ev ensures ev in tr[..d] <==>
        exists q :: 0 <= q < p && Gives(flat[q], p - q, ev, InControl(flat, q), deep)
    {
      BeforeIs(flat, p, ev, deep);
    }
  }
}
