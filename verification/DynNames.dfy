/** The order-sensitive walk that decides which names may keep an in-place C declaration. */
module DynNames {
  import opened Ir

  // ----- The walk as a trace of events -----

  /** A use of a name, a use that the walk misses, or a DIM: as an array or not, in a nested block or not, with a
      size or not. */
  datatype Event =
    | Use(name: string)
    | Missed(name: string)
    | Declare(name: string, isArray: bool, valueType: ValueType, nested: bool, noSize: bool)

  function ExprTrace(e: IrExpr): seq<Event>
    decreases e
  {
    var k := e.kind;
    if k.Symbol? || k.ArrayUBound? || k.SizeOf? then [Use(k.symbol.name)]
    else if k.ArrayAccess? then [Use(k.symbol.name)] + ExprTrace(k.index) + ExprsTrace(k.extra)
    else if HasOperand(k) then ExprTrace(k.operand)
    else if HasPair(k) then ExprTrace(k.left) + ExprTrace(k.right)
    else if k.FunctionCall? then ExprsTrace(k.args)
    else []
  }

  function ExprsTrace(es: seq<IrExpr>): seq<Event>
    decreases es
  {
    if es == [] then [] else ExprTrace(es[0]) + ExprsTrace(es[1..])
  }

  function OptTrace(e: Option<IrExpr>): seq<Event> {
    if e.None? then [] else ExprTrace(e.value)
  }

  function ConditionTrace(c: Option<(IrExpr, bool)>): seq<Event> {
    if c.None? then [] else ExprTrace(c.value.0)
  }

  function SymbolsTrace(syms: seq<IrSymbol>): seq<Event> {
    if syms == [] then [] else [Use(syms[0].name)] + SymbolsTrace(syms[1..])
  }

  function AsMissed(tr: seq<Event>): seq<Event> {
    if tr == [] then [] else [Missed(tr[0].name)] + AsMissed(tr[1..])
  }

  /** A DIM counts before its size expression is looked at; the sizes of further dimensions are not, and show
      only with `deep`. */
  function DimTrace(it: IrItem, nested: bool, deep: bool): seq<Event>
    requires it.Dim?
  {
    [Declare(it.symbol.name, it.isArray || it.size.Some?, it.symbol.valueType, nested,
             it.isArray && it.size.None? && it.extraDims == [])] + OptTrace(it.size)
    + (if deep then AsMissed(ExprsTrace(it.extraDims)) else [])
  }

  /** The operands of ATTACH, which the walk passes over. */
  function AttachTrace(it: IrItem): seq<Event>
    requires it.Attach?
  {
    [Missed(it.left.name), Missed(it.right.name)] + AsMissed(ExprsTrace(it.leftIndices + it.rightIndices))
  }

  /** The events of a body in order: those of the walk, or with `deep` also the uses that it misses. */
  function Trace(items: seq<IrItem>, nested: bool, deep: bool): seq<Event>
    decreases items
  {
    if items == [] then [] else ItemTrace(items[0], nested, deep) + Trace(items[1..], nested, deep)
  }

  /** Events of one item; bodies of control flow count as nested, a Compound does not. */
  function ItemTrace(it: IrItem, nested: bool, deep: bool): seq<Event>
    decreases it
  {
    if it.Dim? then DimTrace(it, nested, deep)
    else if it.If? then ExprTrace(it.condition) + Trace(it.thenBody, true, deep) + BranchTrace(it.elseBody, deep)
    else if it.While? then ExprTrace(it.condition) + Trace(it.body, true, deep)
    else if it.DoLoop? then
      ConditionTrace(it.preCondition) + Trace(it.body, true, deep) + ConditionTrace(it.postCondition)
    else if it.For? then
      [Use(it.loopVar.name)] + ExprTrace(it.start) + ExprTrace(it.end) + OptTrace(it.step)
      + Trace(it.body, true, deep)
    else if it.SelectCase? then ExprTrace(it.selector) + CaseTrace(it.cases, deep) + BranchTrace(it.default, deep)
    else if it.Compound? then Trace(it.body, nested, deep)
    else LeafTrace(it, deep)
  }

  function LeafTrace(it: IrItem, deep: bool): seq<Event> {
    if it.Print? then ExprsTrace(it.exprs)
    else if it.Assignment? then [Use(it.target.name)] + ExprTrace(it.value)
    else if it.ArrayAssignment? then
      [Use(it.target.name)] + ExprTrace(it.index) + ExprsTrace(it.extraIndices) + ExprTrace(it.value)
    else if it.MidAssign? then ExprTrace(it.place) + ExprTrace(it.start) + OptTrace(it.length) + ExprTrace(it.value)
    else if it.BuiltinAssign? then ExprsTrace(it.args) + ExprTrace(it.value)
    else if it.SharedAssignment? then ExprTrace(it.value)
    else if it.Return? then OptTrace(it.result)
    else if it.Call? then ExprsTrace(it.args)
    else if it.Swap? then [Use(it.left.name), Use(it.right.name)]
    else if it.Read? then SymbolsTrace(it.symbols)
    else if it.GosubExpr? || it.GotoExpr? then ExprTrace(it.address)
    else if it.Attach? && deep then AttachTrace(it)
    else []
  }

  function BranchTrace(b: OptBody, deep: bool): seq<Event>
    decreases b
  {
    if b.NoBody? then [] else Trace(b.items, true, deep)
  }

  function CaseTrace(cases: seq<IrCaseClause>, deep: bool): seq<Event>
    decreases cases
  {
    if cases == [] then []
    else ExprsTrace(cases[0].conditions) + Trace(cases[0].body, true, deep) + CaseTrace(cases[1..], deep)
  }

  // ----- Bookkeeping -----

  datatype State = State(used: set<string>, late: set<string>, dimCount: map<string, nat>,
                         dimInfo: map<string, (bool, ValueType)>, nestedArrays: set<string>, unsizedArrays: set<string>)

  const START := State({}, {}, map[], map[], {}, {})

  function Step(s: State, ev: Event): State {
    match ev
    case Missed(_) => s
    case Use(n) => s.(used := s.used + {n}, late := if n in s.dimCount then s.late else s.late + {n})
    case Declare(n, isArray, vt, nested, noSize) =>
      var info := if n in s.dimInfo then s.dimInfo[n] else (false, vt);
      s.(dimInfo := s.dimInfo[n := (info.0 || isArray, info.1)],
         dimCount := s.dimCount[n := (if n in s.dimCount then s.dimCount[n] else 0) + 1],
         nestedArrays := if nested && isArray then s.nestedArrays + {n} else s.nestedArrays,
         unsizedArrays := if noSize then s.unsizedArrays + {n} else s.unsizedArrays)
  }

  function Steps(s: State, tr: seq<Event>): State
    decreases tr
  {
    if tr == [] then s else Steps(Step(s, tr[0]), tr[1..])
  }

  lemma {:induction false} StepsConcat(s: State, a: seq<Event>, b: seq<Event>)
    ensures Steps(s, a + b) == Steps(Steps(s, a), b)
    decreases a
  {
    if a == [] {
      assert a + b == b;
    } else {
      assert (a + b)[1..] == a[1..] + b;
      StepsConcat(Step(s, a[0]), a[1..], b);
    }
  }

  lemma StepsOne(s: State, ev: Event)
    ensures Steps(s, [ev]) == Step(s, ev)
  {
    assert [ev][1..] == [];
  }

  /** The walker, whose methods update its fields as they meet names and DIMs. */
  class DynWalk {
    var used: set<string>
    var late: set<string>
    var dimCount: map<string, nat>
    var dimInfo: map<string, (bool, ValueType)>
    var nestedArrays: set<string>
    var unsizedArrays: set<string>

    constructor ()
      ensures Current() == START
    {
      used, late, dimCount, dimInfo, nestedArrays, unsizedArrays := {}, {}, map[], map[], {}, {};
    }

    ghost function Current(): State
      reads this
    {
      State(used, late, dimCount, dimInfo, nestedArrays, unsizedArrays)
    }

    method Touch(name: string)
      modifies this
      ensures Current() == Steps(old(Current()), [Use(name)])
    {
      StepsOne(Current(), Use(name));
      if name !in dimCount {
        late := late + {name};
      }
      used := used + {name};
    }

    method Expr(e: IrExpr)
      modifies this
      ensures Current() == Steps(old(Current()), ExprTrace(e))
      decreases e
    {
      hide Steps;
      ghost var s := Current();
      StepsNone(s);
      var k := e.kind;
      if k.Symbol? || k.ArrayUBound? || k.SizeOf? {
        Touch(k.symbol.name);
      } else if k.ArrayAccess? {
        Touch(k.symbol.name);
        Expr(k.index);
        Exprs(k.extra);
        Steps3(s, [Use(k.symbol.name)], ExprTrace(k.index), ExprsTrace(k.extra));
      } else if HasOperand(k) {
        Expr(k.operand);
      } else if HasPair(k) {
        Expr(k.left);
        Expr(k.right);
        StepsConcat(s, ExprTrace(k.left), ExprTrace(k.right));
      } else if k.FunctionCall? {
        Exprs(k.args);
      }
    }

    /** The loops over argument, index and item lists. */
    method Exprs(es: seq<IrExpr>)
      modifies this
      ensures Current() == Steps(old(Current()), ExprsTrace(es))
      decreases es
    {
      hide Steps, ExprTrace;
      ghost var s := Current();
      assert es[0..] == es;
      for k := 0 to |es|
        invariant Steps(Current(), ExprsTrace(es[k..])) == Steps(s, ExprsTrace(es))
      {
        assert es[k..][0] == es[k] && es[k..][1..] == es[k + 1..];
        StepsConcat(Current(), ExprTrace(es[k]), ExprsTrace(es[k + 1..]));
        Expr(es[k]);
      }
      assert es[|es|..] == [];
      StepsNone(Current());
    }

    method Opt(e: Option<IrExpr>)
      modifies this
      ensures Current() == Steps(old(Current()), OptTrace(e))
    {
      StepsNone(Current());
      if e.Some? {
        Expr(e.value);
      }
    }

    method Condition(c: Option<(IrExpr, bool)>)
      modifies this
      ensures Current() == Steps(old(Current()), ConditionTrace(c))
    {
      StepsNone(Current());
      if c.Some? {
        Expr(c.value.0);
      }
    }

    method DimItem(it: IrItem, nested: bool)
      requires it.Dim?
      modifies this
      ensures Current() == Steps(old(Current()), DimTrace(it, nested, false))
    {
      ghost var s := Current();
      ghost var ev := DimTrace(it, nested, false)[0];
      var n := it.symbol.name;
      var info := if n in dimInfo then dimInfo[n] else (false, it.symbol.valueType);
      var arr := it.isArray || it.size.Some?;
      dimInfo := dimInfo[n := (info.0 || arr, info.1)];
      dimCount := dimCount[n := (if n in dimCount then dimCount[n] else 0) + 1];
      if nested && arr {
        nestedArrays := nestedArrays + {n};
      }
      if it.isArray && it.size.None? && it.extraDims == [] {
        unsizedArrays := unsizedArrays + {n};
      }
      assert Current() == Step(s, ev);
      StepsOne(s, ev);
      Opt(it.size);
      StepsConcat(s, [ev], OptTrace(it.size));
      assert DimTrace(it, nested, false) == [ev] + OptTrace(it.size);
    }

    method Items(items: seq<IrItem>, nested: bool)
      modifies this
      ensures Current() == Steps(old(Current()), Trace(items, nested, false))
      decreases items
    {
      hide Steps, ItemTrace;
      ghost var s := Current();
      assert items[0..] == items;
      for k := 0 to |items|
        invariant Steps(Current(), Trace(items[k..], nested, false)) == Steps(s, Trace(items, nested, false))
      {
        assert items[k..][0] == items[k] && items[k..][1..] == items[k + 1..];
        StepsConcat(Current(), ItemTrace(items[k], nested, false), Trace(items[k + 1..], nested, false));
        Item(items[k], nested);
      }
      assert items[|items|..] == [];
      StepsNone(Current());
    }

    method Item(it: IrItem, nested: bool)
      modifies this
      ensures Current() == Steps(old(Current()), ItemTrace(it, nested, false))
      decreases it
    {
      hide Steps, Trace, ExprTrace, ExprsTrace, OptTrace, ConditionTrace, CaseTrace, BranchTrace, LeafTrace, DimTrace;
      ghost var s := Current();
      if it.Dim? {
        DimItem(it, nested);
      } else if it.If? {
        Expr(it.condition);
        Items(it.thenBody, true);
        Branch(it.elseBody);
        Steps3(s, ExprTrace(it.condition), Trace(it.thenBody, true, false), BranchTrace(it.elseBody, false));
      } else if it.While? {
        Expr(it.condition);
        Items(it.body, true);
        StepsConcat(s, ExprTrace(it.condition), Trace(it.body, true, false));
      } else if it.DoLoop? {
        Condition(it.preCondition);
        Items(it.body, true);
        Condition(it.postCondition);
        Steps3(s, ConditionTrace(it.preCondition), Trace(it.body, true, false), ConditionTrace(it.postCondition));
      } else if it.For? {
        Touch(it.loopVar.name);
        Expr(it.start);
        Expr(it.end);
        Opt(it.step);
        Items(it.body, true);
        var head := [Use(it.loopVar.name)] + ExprTrace(it.start) + ExprTrace(it.end);
        Steps3(s, [Use(it.loopVar.name)], ExprTrace(it.start), ExprTrace(it.end));
        Steps3(s, head, OptTrace(it.step), Trace(it.body, true, false));
      } else if it.SelectCase? {
        Expr(it.selector);
        Clauses(it.cases);
        Branch(it.default);
        Steps3(s, ExprTrace(it.selector), CaseTrace(it.cases, false), BranchTrace(it.default, false));
      } else if it.Compound? {
        Items(it.body, nested);
      } else {
        Leaf(it);
      }
    }

    method Branch(b: OptBody)
      modifies this
      ensures Current() == Steps(old(Current()), BranchTrace(b, false))
      decreases b
    {
      StepsNone(Current());
      if b.Body? {
        Items(b.items, true);
      }
    }

    method Clauses(cases: seq<IrCaseClause>)
      modifies this
      ensures Current() == Steps(old(Current()), CaseTrace(cases, false))
      decreases cases
    {
      hide Steps, Trace, ExprsTrace;
      ghost var s := Current();
      assert cases[0..] == cases;
      for k := 0 to |cases|
        invariant Steps(Current(), CaseTrace(cases[k..], false)) == Steps(s, CaseTrace(cases, false))
      {
        assert cases[k..][0] == cases[k] && cases[k..][1..] == cases[k + 1..];
        Steps3(Current(), ExprsTrace(cases[k].conditions), Trace(cases[k].body, true, false),
               CaseTrace(cases[k + 1..], false));
        Exprs(cases[k].conditions);
        Items(cases[k].body, true);
      }
      assert cases[|cases|..] == [];
      StepsNone(Current());
    }

    method Leaf(it: IrItem)
      modifies this
      ensures Current() == Steps(old(Current()), LeafTrace(it, false))
    {
      hide Steps, ExprTrace, ExprsTrace, OptTrace;
      ghost var s := Current();
      StepsNone(s);
      if it.Print? {
        Exprs(it.exprs);
      } else if it.Assignment? {
        Touch(it.target.name);
        Expr(it.value);
        StepsConcat(s, [Use(it.target.name)], ExprTrace(it.value));
      } else if it.ArrayAssignment? {
        Touch(it.target.name);
        Expr(it.index);
        Exprs(it.extraIndices);
        Expr(it.value);
        var head := [Use(it.target.name)] + ExprTrace(it.index);
        StepsConcat(s, [Use(it.target.name)], ExprTrace(it.index));
        Steps3(s, head, ExprsTrace(it.extraIndices), ExprTrace(it.value));
      } else if it.MidAssign? {
        Expr(it.place);
        Expr(it.start);
        Opt(it.length);
        Expr(it.value);
        StepsConcat(s, ExprTrace(it.place), ExprTrace(it.start));
        Steps3(s, ExprTrace(it.place) + ExprTrace(it.start), OptTrace(it.length), ExprTrace(it.value));
      } else if it.BuiltinAssign? {
        Exprs(it.args);
        Expr(it.value);
        StepsConcat(s, ExprsTrace(it.args), ExprTrace(it.value));
      } else if it.SharedAssignment? {
        Expr(it.value);
      } else if it.Return? {
        Opt(it.result);
      } else if it.Call? {
        Exprs(it.args);
      } else if it.Swap? {
        Touch(it.left.name);
        Touch(it.right.name);
        StepsConcat(s, [Use(it.left.name)], [Use(it.right.name)]);
        assert [Use(it.left.name)] + [Use(it.right.name)] == LeafTrace(it, false);
      } else if it.Read? {
        ReadSymbols(it.symbols);
      } else if it.GosubExpr? || it.GotoExpr? {
        Expr(it.address);
      }
    }

    method ReadSymbols(syms: seq<IrSymbol>)
      modifies this
      ensures Current() == Steps(old(Current()), SymbolsTrace(syms))
    {
      hide Steps;
      ghost var s := Current();
      assert syms[0..] == syms;
      for k := 0 to |syms|
        invariant Steps(Current(), SymbolsTrace(syms[k..])) == Steps(s, SymbolsTrace(syms))
      {
        assert syms[k..][0] == syms[k] && syms[k..][1..] == syms[k + 1..];
        StepsConcat(Current(), [Use(syms[k].name)], SymbolsTrace(syms[k + 1..]));
        Touch(syms[k].name);
      }
      assert syms[|syms|..] == [];
      StepsNone(Current());
    }
  }

  lemma StepsNone(s: State)
    ensures Steps(s, []) == s
  {
  }

  lemma Steps3(s: State, a: seq<Event>, b: seq<Event>, c: seq<Event>)
    ensures Steps(s, a + b + c) == Steps(Steps(Steps(s, a), b), c)
  {
    StepsConcat(s, a, b);
    StepsConcat(s, a + b, c);
  }

  // ----- What the walker knows at the end, in terms of the trace -----

  predicate Declares(ev: Event, n: string) {
    ev.Declare? && ev.name == n
  }

  function DimTotal(tr: seq<Event>, n: string): nat {
    if tr == [] then 0 else DimTotal(tr[..|tr| - 1], n) + (if Declares(tr[|tr| - 1], n) then 1 else 0)
  }

  /** Some use comes before every DIM of the name. */
  ghost predicate UsedEarly(tr: seq<Event>, n: string) {
    exists i :: 0 <= i < |tr| && tr[i] == Use(n) && forall j :: 0 <= j < i ==> !Declares(tr[j], n)
  }

  ghost predicate SomeDim(tr: seq<Event>, n: string, what: Event -> bool) {
    exists i :: 0 <= i < |tr| && Declares(tr[i], n) && what(tr[i])
  }

  const ARRAY := (ev: Event) => ev.Declare? && ev.isArray
  const NESTED_ARRAY := (ev: Event) => ev.Declare? && ev.isArray && ev.nested
  const UNSIZED := (ev: Event) => ev.Declare? && ev.noSize

  lemma {:induction false} NoDims(tr: seq<Event>, n: string)
    ensures DimTotal(tr, n) == 0 <==> forall j :: 0 <= j < |tr| ==> !Declares(tr[j], n)
  {
    if tr != [] {
      var front := tr[..|tr| - 1];
      NoDims(front, n);
      assert forall j :: 0 <= j < |front| ==> front[j] == tr[j];
    }
  }

  lemma SomeDimLast(tr: seq<Event>, ev: Event, n: string, what: Event -> bool)
    ensures SomeDim(tr + [ev], n, what) <==> SomeDim(tr, n, what) || (Declares(ev, n) && what(ev))
  {
    var longer := tr + [ev];
    assert forall i :: 0 <= i < |tr| ==> longer[i] == tr[i];
    assert longer[|tr|] == ev;
  }

  lemma UsedEarlyLast(tr: seq<Event>, ev: Event, n: string)
    ensures UsedEarly(tr + [ev], n) <==> UsedEarly(tr, n) || (ev == Use(n) && DimTotal(tr, n) == 0)
  {
    var longer := tr + [ev];
    assert forall i :: 0 <= i < |tr| ==> longer[i] == tr[i];
    assert longer[|tr|] == ev;
    NoDims(tr, n);
  }

  /** The walker's fields mean what their names say about the whole trace. */
  lemma {:induction false} WalkMeaning(tr: seq<Event>, n: string)
    ensures var s := Steps(START, tr);
            && (n in s.dimCount <==> DimTotal(tr, n) > 0)
            && (n in s.dimCount ==> n in s.dimInfo && s.dimCount[n] == DimTotal(tr, n))
            && (n in s.dimInfo ==> n in s.dimCount && (s.dimInfo[n].0 <==> SomeDim(tr, n, ARRAY)))
            && (n in s.late <==> UsedEarly(tr, n))
            && (n in s.nestedArrays <==> SomeDim(tr, n, NESTED_ARRAY))
            && (n in s.unsizedArrays <==> SomeDim(tr, n, UNSIZED))
  {
    hide SomeDim, UsedEarly;
    if tr == [] {
      NothingYet(n);
    } else {
      var front, ev := tr[..|tr| - 1], tr[|tr| - 1];
      assert tr == front + [ev];
      WalkMeaning(front, n);
      StepsConcat(START, front, [ev]);
      StepsOne(Steps(START, front), ev);
      SomeDimLast(front, ev, n, ARRAY);
      SomeDimLast(front, ev, n, NESTED_ARRAY);
      SomeDimLast(front, ev, n, UNSIZED);
      UsedEarlyLast(front, ev, n);
      if DimTotal(front, n) == 0 {
        NoDims(front, n);
        NoDimAtAll(front, n);
      }
    }
  }

  /** The type kept for a name is that of its first DIM. */
  lemma {:induction false} FirstDimType(tr: seq<Event>, n: string, d: nat)
    requires d < |tr| && Declares(tr[d], n) && forall j :: 0 <= j < d ==> !Declares(tr[j], n)
    ensures n in Steps(START, tr).dimInfo && Steps(START, tr).dimInfo[n].1 == tr[d].valueType
  {
    hide Steps;
    var front, ev := tr[..|tr| - 1], tr[|tr| - 1];
    assert tr == front + [ev];
    StepsConcat(START, front, [ev]);
    StepsOne(Steps(START, front), ev);
    if d < |front| {
      FirstDimType(front, n, d);
    } else {
      WalkMeaning(front, n);
      NoDims(front, n);
    }
  }

  lemma NothingYet(n: string)
    ensures !UsedEarly([], n) && forall what :: !SomeDim([], n, what)
  {
  }

  lemma NoDimAtAll(tr: seq<Event>, n: string)
    requires forall j :: 0 <= j < |tr| ==> !Declares(tr[j], n)
    ensures forall what :: !SomeDim(tr, n, what)
  {
  }

  // ----- The decision -----

  predicate IsParam(params: seq<IrParam>, n: string) {
    exists p :: p in params && p.name == n
  }

  /** A declared name that cannot stay an in-place declaration. */
  predicate MustBeDynamic(s: State, n: string, hasGosub: bool, descriptorLocals: map<string, ValueType>)
    requires n in s.dimCount && n in s.dimInfo
  {
    || (s.dimInfo[n].0 && (hasGosub || n in s.nestedArrays || n in s.unsizedArrays || n in descriptorLocals))
    || n in s.late || s.dimCount[n] >= 2
  }

  predicate DynArray(s: State, params: seq<IrParam>, hasGosub: bool, descriptorLocals: map<string, ValueType>,
                     n: string)
  {
    && !IsParam(params, n)
    && (n in descriptorLocals
        || (n in s.dimCount && n in s.dimInfo && s.dimInfo[n].0 && MustBeDynamic(s, n, hasGosub, descriptorLocals)))
  }

  method CollectDynNames(items: seq<IrItem>, params: seq<IrParam>, hasGosub: bool,
                         descriptorLocals: map<string, ValueType>)
    returns (arrays: map<string, ValueType>, scalars: map<string, ValueType>)
    ensures var s := Steps(START, Trace(items, false, false));
            && (forall n :: n in arrays <==> DynArray(s, params, hasGosub, descriptorLocals, n))
            && (forall n :: n in scalars <==>
                  !IsParam(params, n) && n !in descriptorLocals && n in s.dimCount && n in s.dimInfo && !s.dimInfo[n].0
                  && (n in s.late || s.dimCount[n] >= 2))
            && (forall n :: n in arrays ==>
                  arrays[n] == if n in s.dimInfo && s.dimInfo[n].0 then s.dimInfo[n].1 else descriptorLocals[n])
            && (forall n :: n in scalars ==> scalars[n] == s.dimInfo[n].1)
  {
    hide Steps;
    var w := new DynWalk();
    w.Items(items, false);
    ghost var s := w.Current();
    var names := set p | p in params :: p.name;
    assert forall n :: n in names <==> IsParam(params, n);
    hide IsParam;
    forall n ensures n in w.dimCount <==> n in w.dimInfo {
      WalkMeaning(Trace(items, false, false), n);
    }
    arrays, scalars := map[], map[];
    var todo := w.dimCount.Keys;
    while todo != {}
      invariant todo <= w.dimCount.Keys && w.Current() == s
      invariant forall n :: n in arrays <==> (
        && n in w.dimCount - todo && !IsParam(params, n) && s.dimInfo[n].0
        && MustBeDynamic(s, n, hasGosub, descriptorLocals))
      invariant forall n :: n in scalars <==> (
        && n in w.dimCount - todo && !IsParam(params, n) && !s.dimInfo[n].0
        && MustBeDynamic(s, n, hasGosub, descriptorLocals))
      invariant forall n :: n in arrays ==> arrays[n] == s.dimInfo[n].1
      invariant forall n :: n in scalars ==> scalars[n] == s.dimInfo[n].1
      decreases todo
    {
      var n :| n in todo;
      todo := todo - {n};
      if n !in names {
        var (isArray, vt) := w.dimInfo[n];
        var force := isArray && (hasGosub || n in w.nestedArrays || n in w.unsizedArrays || n in descriptorLocals);
        if force || n in w.late || w.dimCount[n] >= 2 {
          if isArray {
            arrays := arrays[n := vt];
          } else {
            scalars := scalars[n := vt];
          }
        }
      }
    }
    ghost var a0, s0 := arrays, scalars;
    var more := descriptorLocals.Keys;
    while more != {}
      invariant more <= descriptorLocals.Keys
      invariant forall n :: n in arrays <==> n in a0 || (n in descriptorLocals && n !in more && !IsParam(params, n))
      invariant forall n :: n in scalars <==> n in s0 && !(n in descriptorLocals && n !in more && !IsParam(params, n))
      invariant forall n :: n in arrays ==> arrays[n] == if n in a0 then a0[n] else descriptorLocals[n]
      invariant forall n :: n in scalars ==> scalars[n] == s0[n]
      decreases more
    {
      var n :| n in more;
      more := more - {n};
      if n !in names {
        if n !in arrays {
          arrays := arrays[n := descriptorLocals[n]];
        }
        scalars := scalars - {n};
      }
    }
  }

  /** The name's only DIM is event `d`: an array with a size, at the top level of a body without GOSUB,
      and every use the walk sees comes after it. */
  predicate SingleSizedDim(tr: seq<Event>, n: string, d: nat, hasGosub: bool) {
    && d < |tr| && Declares(tr[d], n) && tr[d].isArray && !tr[d].nested && !tr[d].noSize && !hasGosub
    && (forall j :: 0 <= j < |tr| && j != d ==> !Declares(tr[j], n))
    && (forall j :: 0 <= j < |tr| && tr[j] == Use(n) ==> j > d)
  }

  /** An array stays an in-place declaration exactly when it has a single such DIM and is not passed to a
      descriptor position. */
  lemma InPlaceExactly(tr: seq<Event>, params: seq<IrParam>, hasGosub: bool,
                       descriptorLocals: map<string, ValueType>, n: string)
    requires SomeDim(tr, n, ARRAY) && !IsParam(params, n)
    ensures !DynArray(Steps(START, tr), params, hasGosub, descriptorLocals, n)
       <==> n !in descriptorLocals && exists d :: SingleSizedDim(tr, n, d, hasGosub)
  {
    hide Steps, IsParam, UsedEarly;
    WalkMeaning(tr, n);
    NoDims(tr, n);
    assert DimTotal(tr, n) > 0;
    if !DynArray(Steps(START, tr), params, hasGosub, descriptorLocals, n) {
      var d :| 0 <= d < |tr| && Declares(tr[d], n) && tr[d].isArray;
      OneDim(tr, n, d);
      assert NESTED_ARRAY(tr[d]) <==> tr[d].nested;
      assert UNSIZED(tr[d]) <==> tr[d].noSize;
      UsesAfter(tr, n, d);
      assert SingleSizedDim(tr, n, d, hasGosub);
    }
    if d: nat :| SingleSizedDim(tr, n, d, hasGosub) {
      UsesAfter(tr, n, d);
      OneDim(tr, n, d);
      assert NESTED_ARRAY(tr[d]) <==> tr[d].nested;
      assert UNSIZED(tr[d]) <==> tr[d].noSize;
    }
  }

  lemma UsesAfter(tr: seq<Event>, n: string, d: nat)
    requires d < |tr| && Declares(tr[d], n)
    requires forall j :: 0 <= j < |tr| && j != d ==> !Declares(tr[j], n)
    ensures !UsedEarly(tr, n) <==> forall j :: 0 <= j < |tr| && tr[j] == Use(n) ==> j > d
  {
    if j :| 0 <= j < |tr| && tr[j] == Use(n) && j <= d {
      assert forall i :: 0 <= i < j ==> !Declares(tr[i], n);
    }
  }

  lemma {:induction false} OneDim(tr: seq<Event>, n: string, d: nat)
    requires d < |tr| && Declares(tr[d], n)
    ensures DimTotal(tr, n) < 2 <==> forall j :: 0 <= j < |tr| && j != d ==> !Declares(tr[j], n)
  {
    var front := tr[..|tr| - 1];
    assert forall j :: 0 <= j < |front| ==> front[j] == tr[j];
    NoDims(front, n);
    if d < |front| {
      OneDim(front, n, d);
    }
  }

  // ----- Does the body use GOSUB? -----

  predicate HasGosub(items: seq<IrItem>)
    decreases items
  {
    items != [] && (GosubIn(items[0]) || HasGosub(items[1..]))
  }

  predicate GosubIn(it: IrItem)
    decreases it
  {
    || it.Gosub? || it.GosubExpr? || it.GosubReturn?
    || (it.If? && (HasGosub(it.thenBody) || (it.elseBody.Body? && HasGosub(it.elseBody.items))))
    || ((it.While? || it.For? || it.DoLoop? || it.Compound?) && HasGosub(it.body))
    || (it.SelectCase? && (SomeCaseGosub(it.cases) || (it.default.Body? && HasGosub(it.default.items))))
  }

  predicate SomeCaseGosub(cases: seq<IrCaseClause>)
    decreases cases
  {
    cases != [] && (HasGosub(cases[0].body) || SomeCaseGosub(cases[1..]))
  }
}
