/** Which calls the edge collector sees, which it does not, and what that does to the descriptor analysis. */
module HiddenEdges {
  import opened Ir
  import opened CallEdges
  import Labels

  // ----- Edges by where they occur -----

  /** `x` is `e` or a part of it. */
  predicate Occurs(x: IrExpr, e: IrExpr)
    decreases e
  {
    var k := e.kind;
    || x == e
    || (HasOperand(k) && Occurs(x, k.operand))
    || (HasPair(k) && (Occurs(x, k.left) || Occurs(x, k.right)))
    || (k.FunctionCall? && OccursInSome(x, k.args))
    || (k.ArrayAccess? && (Occurs(x, k.index) || OccursInSome(x, k.extra)))
  }

  predicate OccursInSome(x: IrExpr, es: seq<IrExpr>)
    decreases es
  {
    es != [] && (Occurs(x, es[0]) || OccursInSome(x, es[1..]))
  }

  /** The edge is an argument of this call. */
  predicate ArgOf(e: Edge, callee: string, args: seq<IrExpr>) {
    e.callee == callee && e.pos < |args| && ByRefArray(args[e.pos]) == Some(IrSymbol(e.sym, e.valueType))
  }

  /** `arg` is the whole array `s`, with or without the by-reference mark. */
  predicate IsWhole(arg: IrExpr, s: IrSymbol) {
    match arg.kind
    case Symbol(t) => t == s
    case SharedVariable(t) => t == s
    case ByRef(inner) => inner.kind == Symbol(s) || inner.kind == SharedVariable(s)
    case _ => false
  }

  /** An edge is an argument of a call exactly when the call names its callee and has its array, whole, at its
      position. */
  lemma ArgumentIs(e: Edge, callee: string, args: seq<IrExpr>)
    ensures ArgOf(e, callee, args) <==>
              callee == e.callee && e.pos < |args| && IsWhole(args[e.pos], IrSymbol(e.sym, e.valueType))
  {
    if e.pos < |args| && args[e.pos].kind.ByRef? {
      var inner := args[e.pos].kind.operand.kind;
      assert inner.Symbol? ==> inner == Symbol(inner.symbol);
      assert inner.SharedVariable? ==> inner == SharedVariable(inner.symbol);
    }
  }

  /** `y` stands directly inside the expression. */
  predicate PartOf(y: IrExpr, e: IrExpr) {
    match e.kind
    case ByRef(x) => y == x
    case Unary(_, x) => y == x
    case Not(x) => y == x
    case Comparison(_, l, r) => y == l || y == r
    case Arithmetic(_, l, r) => y == l || y == r
    case Boolean(_, l, r) => y == l || y == r
    case Logical(_, l, r) => y == l || y == r
    case FunctionCall(_, args) => y in args
    case ArrayAccess(_, index, extra) => y == index || y in extra
    case _ => false
  }

  /** What occurs in an expression is the expression, or occurs in one of its parts. */
  lemma OccursInParts(x: IrExpr, e: IrExpr)
    ensures Occurs(x, e) <==> x == e || exists y :: PartOf(y, e) && Occurs(x, y)
  {
    var k := e.kind;
    if k.FunctionCall? {
      OccursInMember(x, k.args);
    } else if k.ArrayAccess? {
      OccursInMember(x, k.extra);
      assert PartOf(k.index, e);
    } else if HasOperand(k) {
      assert PartOf(k.operand, e);
    } else if HasPair(k) {
      assert PartOf(k.left, e) && PartOf(k.right, e);
    }
  }

  lemma {:induction false} OccursInMember(x: IrExpr, es: seq<IrExpr>)
    ensures OccursInSome(x, es) <==> exists y :: y in es && Occurs(x, y)
  {
    hide Occurs;
    if es != [] {
      OccursInMember(x, es[1..]);
      assert es == [es[0]] + es[1..];
      if y :| y in es && Occurs(x, y) {
        assert y == es[0] || y in es[1..];
      }
      if y :| y in es[1..] && Occurs(x, y) {
        assert y in es;
      } else {
        assert OccursInSome(x, es) ==> Occurs(x, es[0]);
      }
    }
  }

  /** Some call inside the expression has the edge as an argument. */
  ghost predicate InExpr(e: Edge, x: IrExpr) {
    exists c :: Occurs(c, x) && c.kind.FunctionCall? && ArgOf(e, c.kind.name, c.kind.args)
  }

  ghost predicate InExprs(e: Edge, xs: seq<IrExpr>) {
    exists i :: 0 <= i < |xs| && InExpr(e, xs[i])
  }

  /** The expressions of an item that the collector looks at, those of its bodies aside. */
  function Looked(it: IrItem): seq<IrExpr> {
    if it.Call? then it.args
    else if it.Assignment? || it.SharedAssignment? then [it.value]
    else if it.ArrayAssignment? then [it.index] + it.extraIndices + [it.value]
    else if it.MidAssign? then [it.place, it.start] + OptExpr(it.length) + [it.value]
    else if it.BuiltinAssign? then it.args + [it.value]
    else if it.Print? then it.exprs
    else if it.If? || it.While? then [it.condition]
    else if it.DoLoop? then Condition(it.preCondition) + Condition(it.postCondition)
    else if it.For? then [it.start, it.end] + OptExpr(it.step)
    else if it.Return? then OptExpr(it.result)
    else if it.SelectCase? then [it.selector]
    else if it.Dim? then OptExpr(it.size)
    else []
  }

  function OptExpr(e: Option<IrExpr>): seq<IrExpr> {
    if e.None? then [] else [e.value]
  }

  function Condition(c: Option<(IrExpr, bool)>): seq<IrExpr> {
    if c.None? then [] else [c.value.0]
  }

  function Conditions(cases: seq<IrCaseClause>): seq<IrExpr> {
    if cases == [] then [] else cases[0].conditions + Conditions(cases[1..])
  }

  /** `e` is an expression of the item itself that the collector looks at. */
  predicate LooksInto(it: IrItem, e: IrExpr) {
    match it
    case Print(exprs, _) => e in exprs
    case Dim(_, size, _, _, _, _) => size == Some(e)
    case Assignment(_, value) => e == value
    case ArrayAssignment(_, index, extraIndices, value) => e == index || e in extraIndices || e == value
    case MidAssign(place, start, length, value) => e == place || e == start || length == Some(e) || e == value
    case BuiltinAssign(_, args, value) => e in args || e == value
    case SharedAssignment(_, value) => e == value
    case If(condition, _, _) => e == condition
    case While(condition, _) => e == condition
    case DoLoop(pre, post, _) => (pre.Some? && e == pre.value.0) || (post.Some? && e == post.value.0)
    case For(_, start, end, step, _) => e == start || e == end || step == Some(e)
    case Return(result) => result == Some(e)
    case Call(_, args) => e in args
    case SelectCase(selector, cases, _) => e == selector || exists c :: c in cases && e in c.conditions
    case _ => false
  }

  /** `e` is an expression of the item itself that the collector passes over. */
  predicate PassesOver(it: IrItem, e: IrExpr) {
    match it
    case Dim(_, _, extraDims, _, _, _) => e in extraDims
    case Attach(_, leftIndices, _, _, rightIndices, _) => e in leftIndices || e in rightIndices
    case GosubExpr(address) => e == address
    case GotoExpr(address) => e == address
    case _ => false
  }

  /** The expressions of an item, each as one that is looked at or as one that is not. */
  lemma LookedAre(it: IrItem, e: IrExpr)
    ensures LooksInto(it, e) <==> e in Looked(it) || (it.SelectCase? && e in Conditions(it.cases))
    ensures PassesOver(it, e) <==> e in Unlooked(it)
  {
    hide LooksInto, Looked, PassesOver, Unlooked;
    UnlookedAre(it, e);
    if it.Print? || it.Call? || it.BuiltinAssign? || it.ArrayAssignment? || it.MidAssign? || it.SelectCase? {
      LookedInLists(it, e);
    } else {
      LookedInOthers(it, e);
    }
  }

  lemma UnlookedAre(it: IrItem, e: IrExpr)
    ensures PassesOver(it, e) <==> e in Unlooked(it)
  {
  }

  lemma LookedInLists(it: IrItem, e: IrExpr)
    requires it.Print? || it.Call? || it.BuiltinAssign? || it.ArrayAssignment? || it.MidAssign? || it.SelectCase?
    ensures LooksInto(it, e) <==> e in Looked(it) || (it.SelectCase? && e in Conditions(it.cases))
  {
    if it.SelectCase? {
      ConditionsAre(it.cases, e);
    }
  }

  lemma LookedInOthers(it: IrItem, e: IrExpr)
    requires !it.Print? && !it.Call? && !it.BuiltinAssign? && !it.ArrayAssignment? && !it.MidAssign?
    requires !it.SelectCase?
    ensures LooksInto(it, e) <==> e in Looked(it)
  {
  }

  lemma {:induction false} ConditionsAre(cases: seq<IrCaseClause>, e: IrExpr)
    ensures e in Conditions(cases) <==> exists c :: c in cases && e in c.conditions
  {
    if cases != [] {
      ConditionsAre(cases[1..], e);
      assert cases == [cases[0]] + cases[1..];
    }
  }

  /** The item itself has the edge: as an argument of its own call, or in an expression of its own. */
  ghost predicate EdgeAt(e: Edge, it: IrItem, deep: bool) {
    || (it.Call? && ArgOf(e, it.name, it.args))
    || InExprs(e, Looked(it))
    || (it.SelectCase? && InExprs(e, Conditions(it.cases)))
    || (deep && InExprs(e, Unlooked(it)))
  }

  ghost predicate SomeAt(e: Edge, its: seq<IrItem>, deep: bool) {
    exists k :: 0 <= k < |its| && EdgeAt(e, its[k], deep)
  }

  /** All items of a body at any depth; without `deep`, those outside every Compound. */
  function Flat(items: seq<IrItem>, deep: bool): seq<IrItem>
    decreases items
  {
    if items == [] then [] else [items[0]] + Inner(items[0], deep) + Flat(items[1..], deep)
  }

  function Inner(it: IrItem, deep: bool): seq<IrItem>
    decreases it
  {
    if it.If? then Flat(it.thenBody, deep) + FlatOpt(it.elseBody, deep)
    else if it.While? || it.DoLoop? || it.For? then Flat(it.body, deep)
    else if it.SelectCase? then FlatCases(it.cases, deep) + FlatOpt(it.default, deep)
    else if it.Compound? && deep then Flat(it.body, deep)
    else []
  }

  function FlatOpt(b: OptBody, deep: bool): seq<IrItem>
    decreases b
  {
    if b.NoBody? then [] else Flat(b.items, deep)
  }

  function FlatCases(cases: seq<IrCaseClause>, deep: bool): seq<IrItem>
    decreases cases
  {
    if cases == [] then [] else Flat(cases[0].body, deep) + FlatCases(cases[1..], deep)
  }

  /** With `deep` these are the items in emission order. */
  lemma {:induction false} FlatIsEmission(items: seq<IrItem>)
    ensures Flat(items, true) == Labels.Flatten(items)
    decreases items
  {
    if items != [] {
      InnerIsEmission(items[0]);
      FlatIsEmission(items[1..]);
    }
  }

  lemma {:induction false} InnerIsEmission(it: IrItem)
    ensures Inner(it, true) == Labels.Inside(it)
    decreases it
  {
    if it.If? {
      FlatIsEmission(it.thenBody);
      OptIsEmission(it.elseBody);
    } else if it.While? || it.DoLoop? || it.For? || it.Compound? {
      FlatIsEmission(it.body);
    } else if it.SelectCase? {
      CasesIsEmission(it.cases);
      OptIsEmission(it.default);
    }
  }

  lemma {:induction false} OptIsEmission(b: OptBody)
    ensures FlatOpt(b, true) == Labels.FlattenOpt(b)
    decreases b
  {
    if b.Body? {
      FlatIsEmission(b.items);
    }
  }

  lemma {:induction false} CasesIsEmission(cases: seq<IrCaseClause>)
    ensures FlatCases(cases, true) == Labels.FlattenCases(cases)
    decreases cases
  {
    if cases != [] {
      FlatIsEmission(cases[0].body);
      CasesIsEmission(cases[1..]);
    }
  }

  // ----- The collected edges are those that occur -----

  lemma {:induction false} ArgEdgesAre(callee: string, args: seq<IrExpr>, first: nat, e: Edge)
    ensures e in ArgEdges(callee, args, first) <==> (
      && e.callee == callee && first <= e.pos < first + |args|
      && ByRefArray(args[e.pos - first]) == Some(IrSymbol(e.sym, e.valueType)))
  {
    hide ByRefArray;
    if args != [] {
      ArgEdgesAre(callee, args[1..], first + 1, e);
    }
  }

  lemma {:induction false} ExprEdgesAre(x: IrExpr, e: Edge)
    ensures e in ExprEdges(x) <==> InExpr(e, x)
    decreases x
  {
    hide ArgOf, ArgEdges, ExprsEdges;
    var k := x.kind;
    if k.FunctionCall? {
      CallArgs(k.name, k.args, e);
      ExprsEdgesAre(k.args, e);
      SomeOccurs(e, k.args);
    } else if HasOperand(k) {
      ExprEdgesAre(k.operand, e);
    } else if HasPair(k) {
      ExprEdgesAre(k.left, e);
      ExprEdgesAre(k.right, e);
    } else if k.ArrayAccess? {
      ExprEdgesAre(k.index, e);
      ExprsEdgesAre(k.extra, e);
      SomeOccurs(e, k.extra);
    }
    CallsWithin(e, x);
  }

  lemma CallArgs(callee: string, args: seq<IrExpr>, e: Edge)
    ensures e in ArgEdges(callee, args, 0) <==> ArgOf(e, callee, args)
  {
    ArgEdgesAre(callee, args, 0, e);
  }

  /** The calls inside an expression are the expression itself, if it is one, and those inside its parts. */
  lemma CallsWithin(e: Edge, x: IrExpr)
    ensures var k := x.kind;
      InExpr(e, x) <==> (
        || (k.FunctionCall? && ArgOf(e, k.name, k.args))
        || (HasOperand(k) && InExpr(e, k.operand))
        || (HasPair(k) && (InExpr(e, k.left) || InExpr(e, k.right)))
        || (k.FunctionCall? && CallInSome(e, k.args))
        || (k.ArrayAccess? && (InExpr(e, k.index) || CallInSome(e, k.extra))))
  {
    hide ArgOf;
    var k := x.kind;
    if InExpr(e, x) {
      var c :| Occurs(c, x) && c.kind.FunctionCall? && ArgOf(e, c.kind.name, c.kind.args);
    }
    assert Occurs(x, x);
  }

  ghost predicate CallInSome(e: Edge, es: seq<IrExpr>) {
    exists c :: OccursInSome(c, es) && c.kind.FunctionCall? && ArgOf(e, c.kind.name, c.kind.args)
  }

  lemma {:induction false} SomeOccurs(e: Edge, es: seq<IrExpr>)
    ensures CallInSome(e, es) <==> InExprs(e, es)
  {
    hide ArgOf, Occurs;
    if es != [] {
      SomeOccurs(e, es[1..]);
      InExprsSplit(e, [es[0]], es[1..]);
      assert [es[0]] + es[1..] == es;
      assert InExprs(e, [es[0]]) <==> InExpr(e, es[0]) by {
        assert [es[0]][0] == es[0];
      }
      if CallInSome(e, es) {
        var c :| OccursInSome(c, es) && c.kind.FunctionCall? && ArgOf(e, c.kind.name, c.kind.args);
      }
    }
  }

  lemma InExprsSplit(e: Edge, a: seq<IrExpr>, b: seq<IrExpr>)
    ensures InExprs(e, a + b) <==> InExprs(e, a) || InExprs(e, b)
  {
    hide InExpr;
    var c := a + b;
    if i :| 0 <= i < |a| && InExpr(e, a[i]) {
      assert c[i] == a[i];
    }
    if i :| 0 <= i < |b| && InExpr(e, b[i]) {
      assert c[|a| + i] == b[i];
    }
    if i :| 0 <= i < |c| && InExpr(e, c[i]) {
      assert c[i] == if i < |a| then a[i] else b[i - |a|];
    }
  }

  lemma InExprsOne(e: Edge, x: IrExpr)
    ensures InExprs(e, [x]) <==> InExpr(e, x)
    ensures !InExprs(e, [])
  {
    assert [x][0] == x;
  }

  lemma {:induction false} ExprsEdgesAre(xs: seq<IrExpr>, e: Edge)
    ensures e in ExprsEdges(xs) <==> InExprs(e, xs)
    decreases xs
  {
    hide ExprEdges, InExpr;
    if xs != [] {
      ExprEdgesAre(xs[0], e);
      ExprsEdgesAre(xs[1..], e);
      InExprsOne(e, xs[0]);
      InExprsSplit(e, [xs[0]], xs[1..]);
      assert [xs[0]] + xs[1..] == xs;
    }
  }

  lemma {:induction false} ExprsEdgesConcat(a: seq<IrExpr>, b: seq<IrExpr>)
    ensures ExprsEdges(a + b) == ExprsEdges(a) + ExprsEdges(b)
  {
    hide ExprEdges;
    if a == [] {
      assert a + b == b;
    } else {
      assert (a + b)[1..] == a[1..] + b;
      ExprsEdgesConcat(a[1..], b);
    }
  }

  lemma ExprsEdgesOne(x: IrExpr)
    ensures ExprsEdges([x]) == ExprEdges(x)
  {
    hide ExprEdges;
    assert [x][1..] == [];
  }

  lemma ExprsEdgesTwo(x: IrExpr, y: IrExpr)
    ensures ExprsEdges([x, y]) == ExprEdges(x) + ExprEdges(y)
  {
    hide ExprEdges;
    assert [x, y][1..] == [y];
    ExprsEdgesOne(y);
  }

  lemma OptEdgesAre(e: Option<IrExpr>)
    ensures OptEdges(e) == ExprsEdges(OptExpr(e))
  {
    if e.Some? {
      ExprsEdgesOne(e.value);
    }
  }

  lemma ConditionEdgesAre(c: Option<(IrExpr, bool)>)
    ensures ConditionEdges(c) == ExprsEdges(Condition(c))
  {
    if c.Some? {
      ExprsEdgesOne(c.value.0);
    }
  }

  /** What the collector takes from the item itself: its own call's arguments and its expressions, in order. */
  lemma LookedEdgesAre(it: IrItem)
    ensures LookedEdges(it) == (if it.Call? then ArgEdges(it.name, it.args, 0) else []) + ExprsEdges(Looked(it))
  {
    hide ExprEdges, ExprsEdges, ArgEdges, OptEdges, ConditionEdges, OptExpr, Condition;
    NoExprs();
    if it.Assignment? || it.SharedAssignment? {
      ExprsEdgesOne(it.value);
    } else if it.ArrayAssignment? {
      ExprsEdgesOne(it.index);
      ExprsEdgesOne(it.value);
      ExprsEdgesConcat([it.index], it.extraIndices);
      ExprsEdgesConcat([it.index] + it.extraIndices, [it.value]);
    } else if it.MidAssign? {
      ExprsEdgesTwo(it.place, it.start);
      OptEdgesAre(it.length);
      ExprsEdgesOne(it.value);
      ExprsEdgesConcat([it.place, it.start], OptExpr(it.length));
      ExprsEdgesConcat([it.place, it.start] + OptExpr(it.length), [it.value]);
    } else if it.BuiltinAssign? {
      ExprsEdgesOne(it.value);
      ExprsEdgesConcat(it.args, [it.value]);
    } else if it.If? || it.While? {
      ExprsEdgesOne(it.condition);
    } else if it.DoLoop? {
      ConditionEdgesAre(it.preCondition);
      ConditionEdgesAre(it.postCondition);
      ExprsEdgesConcat(Condition(it.preCondition), Condition(it.postCondition));
    } else if it.For? {
      ExprsEdgesTwo(it.start, it.end);
      OptEdgesAre(it.step);
      ExprsEdgesConcat([it.start, it.end], OptExpr(it.step));
    } else if it.Return? {
      OptEdgesAre(it.result);
    } else if it.SelectCase? {
      ExprsEdgesOne(it.selector);
    } else if it.Dim? {
      OptEdgesAre(it.size);
    }
  }

  lemma NoExprs()
    ensures ExprsEdges([]) == []
  {
  }

  lemma OwnEdgesAre(it: IrItem, deep: bool, e: Edge)
    ensures e in OwnEdges(it, deep) <==> (
      || (it.Call? && ArgOf(e, it.name, it.args)) || InExprs(e, Looked(it)) || (deep && InExprs(e, Unlooked(it))))
  {
    hide LookedEdges, Looked, Unlooked, ExprsEdges, ArgEdges, ArgOf, InExprs;
    LookedEdgesAre(it);
    if it.Call? {
      CallArgs(it.name, it.args, e);
    }
    ExprsEdgesAre(Looked(it), e);
    ExprsEdgesAre(Unlooked(it), e);
  }

  lemma SomeAtSplit(e: Edge, a: seq<IrItem>, b: seq<IrItem>, deep: bool)
    ensures SomeAt(e, a + b, deep) <==> SomeAt(e, a, deep) || SomeAt(e, b, deep)
  {
    hide EdgeAt;
    var c := a + b;
    if i :| 0 <= i < |a| && EdgeAt(e, a[i], deep) {
      assert c[i] == a[i];
    }
    if i :| 0 <= i < |b| && EdgeAt(e, b[i], deep) {
      assert c[|a| + i] == b[i];
    }
    if i :| 0 <= i < |c| && EdgeAt(e, c[i], deep) {
      assert c[i] == if i < |a| then a[i] else b[i - |a|];
    }
  }

  lemma SomeAtOne(e: Edge, it: IrItem, deep: bool)
    ensures SomeAt(e, [it], deep) <==> EdgeAt(e, it, deep)
    ensures !SomeAt(e, [], deep)
  {
    assert [it][0] == it;
  }

  /** An edge is collected exactly when some item outside every Compound has it as an argument of its call, or
      of a call inside an expression that is looked at; with `deep`, when any item at any depth has it. */
  lemma {:induction false} BodyEdgesAre(items: seq<IrItem>, deep: bool, e: Edge)
    ensures e in BodyEdges(items, deep) <==> SomeAt(e, Flat(items, deep), deep)
    decreases items
  {
    hide EdgeAt, SomeAt, ItemEdges, Inner;
    if items == [] {
      SomeAtNone(e, deep);
    } else {
      ItemEdgesAre(items[0], deep, e);
      BodyEdgesAre(items[1..], deep, e);
      SomeAtSplit(e, [items[0]], Inner(items[0], deep), deep);
      SomeAtSplit(e, [items[0]] + Inner(items[0], deep), Flat(items[1..], deep), deep);
    }
  }

  lemma SomeAtNone(e: Edge, deep: bool)
    ensures !SomeAt(e, [], deep)
  {
  }

  lemma {:induction false} ItemEdgesAre(it: IrItem, deep: bool, e: Edge)
    ensures e in ItemEdges(it, deep) <==> SomeAt(e, [it], deep) || SomeAt(e, Inner(it, deep), deep)
    decreases it
  {
    hide SomeAt, InExprs, ArgOf, Looked, Unlooked, OwnEdges, BodyEdges, Flat, FlatOpt, FlatCases, Conditions;
    OwnEdgesAre(it, deep, e);
    SomeAtOne(e, it, deep);
    if it.If? {
      BodyEdgesAre(it.thenBody, deep, e);
      BranchEdgesAre(it.elseBody, deep, e);
      SomeAtSplit(e, Flat(it.thenBody, deep), FlatOpt(it.elseBody, deep), deep);
    } else if it.While? || it.DoLoop? || it.For? || it.Compound? {
      BodyEdgesAre(it.body, deep, e);
    } else if it.SelectCase? {
      CaseEdgesAre(it.cases, deep, e);
      BranchEdgesAre(it.default, deep, e);
      SomeAtSplit(e, FlatCases(it.cases, deep), FlatOpt(it.default, deep), deep);
    }
  }

  lemma {:induction false} BranchEdgesAre(b: OptBody, deep: bool, e: Edge)
    ensures e in BranchEdges(b, deep) <==> SomeAt(e, FlatOpt(b, deep), deep)
    decreases b
  {
    hide SomeAt, BodyEdges, Flat;
    SomeAtNone(e, deep);
    if b.Body? {
      BodyEdgesAre(b.items, deep, e);
    }
  }

  lemma {:induction false} CaseEdgesAre(cases: seq<IrCaseClause>, deep: bool, e: Edge)
    ensures e in CaseEdges(cases, deep) <==> InExprs(e, Conditions(cases)) || SomeAt(e, FlatCases(cases, deep), deep)
    decreases cases
  {
    hide SomeAt, InExprs, BodyEdges, Flat, ExprsEdges;
    if cases == [] {
      SomeAtNone(e, deep);
      NothingIn(e);
    } else {
      ExprsEdgesAre(cases[0].conditions, e);
      BodyEdgesAre(cases[0].body, deep, e);
      CaseEdgesAre(cases[1..], deep, e);
      InExprsSplit(e, cases[0].conditions, Conditions(cases[1..]));
      SomeAtSplit(e, Flat(cases[0].body, deep), FlatCases(cases[1..], deep), deep);
    }
  }

  lemma NothingIn(e: Edge)
    ensures !InExprs(e, [])
  {
  }

  // ----- Calls the collector sees -----

  ghost predicate CallIn(xs: seq<IrExpr>, callee: string, args: seq<IrExpr>) {
    exists i, c :: 0 <= i < |xs| && Occurs(c, xs[i]) && c.kind == FunctionCall(callee, args)
  }

  ghost predicate CallAt(it: IrItem, callee: string, args: seq<IrExpr>) {
    || it == Call(callee, args)
    || CallIn(Looked(it), callee, args)
    || (it.SelectCase? && CallIn(Conditions(it.cases), callee, args))
  }

  /** A call outside every Compound, as a statement or in an expression that is looked at. */
  ghost predicate SeenCall(items: seq<IrItem>, callee: string, args: seq<IrExpr>) {
    exists k :: 0 <= k < |Flat(items, false)| && CallAt(Flat(items, false)[k], callee, args)
  }

  lemma CallInExprs(e: Edge, xs: seq<IrExpr>)
    ensures InExprs(e, xs) <==> exists args :: CallIn(xs, e.callee, args) && ArgOf(e, e.callee, args)
  {
    hide Occurs;
    if InExprs(e, xs) {
      var i :| 0 <= i < |xs| && InExpr(e, xs[i]);
      var c :| Occurs(c, xs[i]) && c.kind.FunctionCall? && ArgOf(e, c.kind.name, c.kind.args);
      assert c.kind == FunctionCall(e.callee, c.kind.args);
      assert CallIn(xs, e.callee, c.kind.args);
    }
    if args :| CallIn(xs, e.callee, args) && ArgOf(e, e.callee, args) {
      var i, c :| 0 <= i < |xs| && Occurs(c, xs[i]) && c.kind == FunctionCall(e.callee, args);
      assert InExpr(e, xs[i]);
    }
  }

  lemma CallAtEdge(e: Edge, it: IrItem)
    ensures EdgeAt(e, it, false) <==> exists args :: CallAt(it, e.callee, args) && ArgOf(e, e.callee, args)
  {
    hide InExprs, CallIn, ArgOf, Looked, Conditions;
    CallInExprs(e, Looked(it));
    if it.SelectCase? {
      CallInExprs(e, Conditions(it.cases));
    }
    if it.Call? && ArgOf(e, it.name, it.args) {
      CalleeOf(e, it.name, it.args);
      assert CallAt(it, e.callee, it.args);
    }
  }

  lemma CalleeOf(e: Edge, callee: string, args: seq<IrExpr>)
    requires ArgOf(e, callee, args)
    ensures e.callee == callee
  {
  }

  /** The collected edges are the whole-array arguments of the calls that are seen. */
  lemma EdgeArguments(items: seq<IrItem>, e: Edge)
    ensures e in BodyEdges(items, false) <==>
              exists args :: SeenCall(items, e.callee, args) && ArgOf(e, e.callee, args)
  {
    hide BodyEdges, Flat, EdgeAt, CallAt, ArgOf;
    BodyEdgesAre(items, false, e);
    var flat := Flat(items, false);
    if SomeAt(e, flat, false) {
      var k :| 0 <= k < |flat| && EdgeAt(e, flat[k], false);
      CallAtEdge(e, flat[k]);
      var args :| CallAt(flat[k], e.callee, args) && ArgOf(e, e.callee, args);
      assert SeenCall(items, e.callee, args);
    }
    if args :| SeenCall(items, e.callee, args) && ArgOf(e, e.callee, args) {
      var k :| 0 <= k < |flat| && CallAt(flat[k], e.callee, args);
      CallAtEdge(e, flat[k]);
    }
  }

  // ----- When nothing is hidden -----

  /** The item hides no call: none in an expression that is not looked at, and none in a Compound. */
  predicate Clear(it: IrItem) {
    ExprsEdges(Unlooked(it)) == [] && (it.Compound? ==> BodyEdges(it.body, true) == [])
  }

  ghost predicate NothingHidden(its: seq<IrItem>) {
    forall k :: 0 <= k < |its| ==> Clear(its[k])
  }

  lemma NothingHiddenSplit(a: seq<IrItem>, b: seq<IrItem>)
    ensures NothingHidden(a + b) <==> NothingHidden(a) && NothingHidden(b)
    ensures NothingHidden([])
  {
    hide Clear;
    var c := a + b;
    assert forall k :: 0 <= k < |a| ==> c[k] == a[k];
    assert forall k :: 0 <= k < |b| ==> c[|a| + k] == b[k];
  }

  lemma NothingHiddenOne(it: IrItem)
    ensures NothingHidden([it]) <==> Clear(it)
  {
    hide Clear;
    assert [it][0] == it;
  }

  /** Fewer edges are collected than there are, unless nothing is hidden. */
  ghost predicate Collects(some: seq<Edge>, all: seq<Edge>, its: seq<IrItem>) {
    && |some| <= |all| && (all == [] ==> NothingHidden(its)) && (forall e :: e in some ==> e in all)
    && (if NothingHidden(its) then some == all else |some| < |all|)
  }

  lemma CollectsConcat(s: seq<Edge>, a: seq<Edge>, x: seq<IrItem>, s': seq<Edge>, a': seq<Edge>, x': seq<IrItem>)
    requires Collects(s, a, x) && Collects(s', a', x')
    ensures Collects(s + s', a + a', x + x')
  {
    hide NothingHidden;
    NothingHiddenSplit(x, x');
  }

  lemma CollectsNone()
    ensures Collects([], [], [])
  {
  }

  lemma {:induction false} BodyCollects(items: seq<IrItem>)
    ensures Collects(BodyEdges(items, false), BodyEdges(items, true), Flat(items, true))
    decreases items
  {
    hide Collects, ItemEdges, Inner;
    if items == [] {
      CollectsNone();
    } else {
      ItemCollects(items[0]);
      BodyCollects(items[1..]);
      CollectsConcat(ItemEdges(items[0], false), ItemEdges(items[0], true), [items[0]] + Inner(items[0], true),
                     BodyEdges(items[1..], false), BodyEdges(items[1..], true), Flat(items[1..], true));
    }
  }

  lemma {:induction false} ItemCollects(it: IrItem)
    ensures Collects(ItemEdges(it, false), ItemEdges(it, true), [it] + Inner(it, true))
    decreases it
  {
    if it.Compound? {
      BodyCollects(it.body);
      CompoundCollects(it);
    } else {
      InnerCollects(it);
      OwnCollects(it);
      CollectsConcat(OwnEdges(it, false), OwnEdges(it, true), [it],
                     InnerEdges(it, false), InnerEdges(it, true), Inner(it, true));
    }
  }

  lemma OwnCollects(it: IrItem)
    requires !it.Compound?
    ensures Collects(OwnEdges(it, false), OwnEdges(it, true), [it])
  {
    hide LookedEdges, ExprsEdges, NothingHidden;
    NothingHiddenOne(it);
  }

  lemma CompoundCollects(it: IrItem)
    requires it.Compound? && Collects(BodyEdges(it.body, false), BodyEdges(it.body, true), Flat(it.body, true))
    ensures Collects(ItemEdges(it, false), ItemEdges(it, true), [it] + Inner(it, true))
  {
    hide NothingHidden, BodyEdges, Flat;
    NothingHiddenOne(it);
    NothingHiddenSplit([it], Flat(it.body, true));
    NoExprs();
  }

  lemma {:induction false} InnerCollects(it: IrItem)
    requires !it.Compound?
    ensures Collects(InnerEdges(it, false), InnerEdges(it, true), Inner(it, true))
    decreases it, 0
  {
    hide Collects, BodyEdges, BranchEdges, CaseEdges, Flat, FlatOpt, FlatCases;
    CollectsNone();
    if it.If? {
      BodyCollects(it.thenBody);
      BranchCollects(it.elseBody);
      CollectsConcat(BodyEdges(it.thenBody, false), BodyEdges(it.thenBody, true), Flat(it.thenBody, true),
                     BranchEdges(it.elseBody, false), BranchEdges(it.elseBody, true), FlatOpt(it.elseBody, true));
    } else if it.While? || it.DoLoop? || it.For? {
      BodyCollects(it.body);
    } else if it.SelectCase? {
      CasesCollect(it.cases);
      BranchCollects(it.default);
      CollectsConcat(CaseEdges(it.cases, false), CaseEdges(it.cases, true), FlatCases(it.cases, true),
                     BranchEdges(it.default, false), BranchEdges(it.default, true), FlatOpt(it.default, true));
    }
  }

  lemma {:induction false} BranchCollects(b: OptBody)
    ensures Collects(BranchEdges(b, false), BranchEdges(b, true), FlatOpt(b, true))
    decreases b
  {
    hide Collects;
    CollectsNone();
    if b.Body? {
      BodyCollects(b.items);
    }
  }

  lemma {:induction false} CasesCollect(cases: seq<IrCaseClause>)
    ensures Collects(CaseEdges(cases, false), CaseEdges(cases, true), FlatCases(cases, true))
    decreases cases
  {
    hide Collects, BodyEdges, Flat, ExprsEdges;
    CollectsNone();
    if cases != [] {
      BodyCollects(cases[0].body);
      CasesCollect(cases[1..]);
      var own := ExprsEdges(cases[0].conditions);
      CollectsMore(own, BodyEdges(cases[0].body, false), BodyEdges(cases[0].body, true), Flat(cases[0].body, true));
      CollectsConcat(own + BodyEdges(cases[0].body, false), own + BodyEdges(cases[0].body, true),
                     Flat(cases[0].body, true),
                     CaseEdges(cases[1..], false), CaseEdges(cases[1..], true), FlatCases(cases[1..], true));
    }
  }

  lemma CollectsMore(own: seq<Edge>, s: seq<Edge>, a: seq<Edge>, x: seq<IrItem>)
    requires Collects(s, a, x)
    ensures Collects(own + s, own + a, x)
  {
    hide NothingHidden;
  }

  /** The collected edges are all edges exactly when no Compound at any depth holds a call with a whole-array
      argument, and no expression that is not looked at does. */
  lemma AllCollected(items: seq<IrItem>)
    ensures BodyEdges(items, false) == BodyEdges(items, true) <==> NothingHidden(Labels.Flatten(items))
    ensures forall e :: e in BodyEdges(items, false) ==> e in BodyEdges(items, true)
  {
    hide BodyEdges, NothingHidden;
    BodyCollects(items);
    FlatIsEmission(items);
  }
}
