/** Agreement between callers and callees on which arrays travel as pointer-and-bound pairs. */
module CallSites {
  import opened Ir
  import opened CallEdges
  import opened Descriptors
  import opened DynNames
  import opened HiddenEdges
  import FlatItems
  import Labels

  /** The function's parameter `n` is passed as a descriptor. */
  ghost predicate IsDescriptor(fns: seq<F>, f: F, n: string) {
    ReachesResize(fns, f, n)
  }

  /** The function has an array `n` on the heap, with a cell for its address and one for its bound. */
  ghost predicate IsDynamic(fns: seq<F>, it: IrItem, n: string)
    requires it.Function?
  {
    var f := Summary(it, false);
    DynArray(Steps(START, Trace(it.body, false, false)), it.params, HasGosub(it.body), LocalsOf(fns, f, f.edges), n)
  }

  /** How an argument at a position of a user's function that takes a descriptor is emitted. */
  datatype Form =
    | OwnDescriptor(n: string)
    | AddressPair(n: string)
    | CopyPair(n: string)
    | SharedAddress(n: string)
    | Single

  /** `copied`: the name is a scalar as well and has an array, so that the array is copied when passed by value. */
  function FormOf(arg: IrExpr, descriptor: string -> bool, copied: string -> bool): Form {
    if arg.kind.ByRef? && arg.kind.operand.kind.Symbol? then
      var n := arg.kind.operand.kind.symbol.name;
      if descriptor(n) then OwnDescriptor(n) else AddressPair(n)
    else if arg.kind.ByRef? && arg.kind.operand.kind.SharedVariable? then
      SharedAddress(arg.kind.operand.kind.symbol.name)
    else if (arg.kind.Symbol? || arg.kind.SharedVariable?) && copied(arg.kind.symbol.name) then
      CopyPair(arg.kind.symbol.name)
    else Single
  }

  /** How many C arguments are passed; the callee's descriptor takes two. */
  function Passed(form: Form): nat {
    if form.OwnDescriptor? || form.AddressPair? || form.CopyPair? then 2 else 1
  }

  /** What a descriptor position of a call that the collector sees is given: a whole array is a collected edge,
      and the callee gets the two C arguments it takes exactly when that array is a marked symbol, or unmarked
      and copied; they are cells of that array. Anything else gives it one argument. */
  lemma EdgeForms(fns: seq<F>, it: IrItem, callee: string, args: seq<IrExpr>, pos: nat, copied: string -> bool)
    requires it.Function? && SeenCall(it.body, callee, args) && pos < |args|
    ensures var f, arg := Summary(it, false), args[pos];
            var form := FormOf(arg, n => IsDescriptor(fns, f, n), copied);
      match ByRefArray(arg)
      case None => form == Single && Passed(form) == 1
      case Some(s) =>
        && Edge(callee, pos, s.name, s.valueType) in f.edges
        && (Passed(form) == 2 <==>
              if arg.kind.ByRef? then arg.kind.operand.kind.Symbol? else copied(s.name))
        && (form.Single? || form.n == s.name)
  {
    hide SeenCall, BodyEdges, ReachesResize;
    var s := ByRefArray(args[pos]);
    if s.Some? {
      var e := Edge(callee, pos, s.value.name, s.value.valueType);
      assert ArgOf(e, callee, args);
      EdgeArguments(it.body, e);
    }
  }

  /** At every collected edge whose position takes a descriptor: a marked symbol is passed as the caller's own
      descriptor exactly if it is one; otherwise its address and that of its bound are passed, and the caller
      has these two cells exactly if the symbol is no parameter declared without brackets. */
  lemma Agreement(items: seq<IrItem>, it: IrItem, e: Edge, arg: IrExpr, copied: string -> bool)
    requires it.Function? && Summary(it, false) in Functions(items, false) && e in BodyEdges(it.body, false)
    requires LeadsToResize(Functions(items, false), e)
    requires arg.kind.ByRef? && arg.kind.operand.kind == Symbol(IrSymbol(e.sym, e.valueType))
    ensures var fns, f := Functions(items, false), Summary(it, false);
            var form := FormOf(arg, n => IsDescriptor(fns, f, n), copied);
      && (form == OwnDescriptor(e.sym) <==> IsArrayParam(f, e.sym))
      && (form == AddressPair(e.sym) <==> !IsArrayParam(f, e.sym))
      && (!IsArrayParam(f, e.sym) ==> (IsDynamic(fns, it, e.sym) <==> !IsParam(it.params, e.sym)))
  {
    hide LeadsToResize, ReachesResize, Steps, Trace, HasGosub, LocalsOf;
    var fns, f := Functions(items, false), Summary(it, false);
    LocalsKeys(fns, f, f.edges);
    if IsArrayParam(f, e.sym) {
      EdgeReaches(fns, f, e);
    } else if ReachesResize(fns, f, e.sym) {
      OnlyArrayParams(fns, f, e.sym);
    }
  }

  lemma EdgeReaches(fns: seq<F>, f: F, e: Edge)
    requires f in fns && e in f.edges && LeadsToResize(fns, e) && IsArrayParam(f, e.sym)
    ensures ReachesResize(fns, f, e.sym)
  {
    hide ReachesResize;
    if BuiltinNeeds(e.callee, e.pos) {
      SeedReaches(fns, f, e.sym);
    } else {
      var g :| g in fns && g.name == e.callee && e.pos < |g.params| && ReachesResize(fns, g, g.params[e.pos].name);
      ForwardReaches(fns, f, e.sym, g, g.params[e.pos].name);
    }
  }

  /** Only array parameters can reach a resize. */
  lemma OnlyArrayParams(fns: seq<F>, f: F, x: string)
    requires ReachesResize(fns, f, x)
    ensures IsArrayParam(f, x)
  {
    var links: seq<(F, string)> :| Chain(fns, links) && links[0] == (f, x);
    if |links| > 1 {
      assert Forwards(links[0].0, links[0].1, links[1].0, links[1].1);
    }
  }

  // ----- What the analysis loses with the edges it does not collect -----

  /** A parameter is a descriptor exactly when it is resized in its function or one of the edges passes it on
      to a library position or to a descriptor. */
  lemma OneStep(fns: seq<F>, f: F, x: string)
    requires f in fns
    ensures ReachesResize(fns, f, x) <==> (
      && IsArrayParam(f, x)
      && (x in f.resized || exists e :: e in f.edges && e.sym == x && LeadsToResize(fns, e)))
  {
    hide IsArrayParam, BuiltinNeeds;
    if ReachesResize(fns, f, x) {
      OnlyArrayParams(fns, f, x);
      FirstLink(fns, f, x);
    }
    if IsArrayParam(f, x) {
      if x in f.resized {
        SeedReaches(fns, f, x);
      } else if e :| e in f.edges && e.sym == x && LeadsToResize(fns, e) {
        EdgeReaches(fns, f, e);
      }
    }
  }

  lemma FirstLink(fns: seq<F>, f: F, x: string)
    requires ReachesResize(fns, f, x)
    ensures x in f.resized || exists e :: e in f.edges && e.sym == x && LeadsToResize(fns, e)
  {
    hide IsArrayParam, BuiltinNeeds;
    var links: seq<(F, string)> :| Chain(fns, links) && links[0] == (f, x);
    if |links| > 1 {
      var g, y, rest := links[1].0, links[1].1, links[1..];
      assert Forwards(links[0].0, links[0].1, links[1].0, links[1].1);
      assert forall k {:trigger rest[k]} :: 0 <= k < |rest| - 1 ==>
        Forwards(links[k + 1].0, links[k + 1].1, links[k + 2].0, links[k + 2].1);
      assert Chain(fns, rest) && rest[0] == (g, y);
    }
  }

  /** Some call that is seen passes `x` whole to a position that leads to a resize: the first or second of one of
      the two library routines, or one where the function of that name has a descriptor. */
  ghost predicate PassedOn(fns: seq<F>, items: seq<IrItem>, x: string) {
    exists callee, args, pos ::
      && SeenCall(items, callee, args) && 0 <= pos < |args| && Passes(args[pos], x)
      && (|| ((callee == "XstQuickSort" || callee == "XstCopyArray") && (pos == 0 || pos == 1))
          || exists g :: g in fns && g.name == callee && pos < |g.params| && ReachesResize(fns, g, g.params[pos].name))
  }

  /** The descriptors in terms of the program: a parameter is one exactly when it is declared as an array, and an
      item of its function at any depth resizes it or a call passes it on to a position that leads to a resize. */
  lemma DescriptorsAre(items: seq<IrItem>, it: IrItem, x: string)
    requires it.Function? && Summary(it, false) in Functions(items, false)
    ensures var fns := Functions(items, false);
      ReachesResize(fns, Summary(it, false), x) <==> (
        && (exists p :: p in it.params && p.isArray && p.name == x)
        && (PassedOn(fns, it.body, x)
            || exists inner :: inner in Labels.Flatten(it.body) && inner.Dim? && (inner.redim || inner.size.Some?)
                               && inner.symbol.name == x))
  {
    hide PassedOn, ReachesResize, BodyEdges, ResizedNames, Functions, Labels.Flatten, LeadsToResize;
    var fns, f := Functions(items, false), Summary(it, false);
    OneStep(fns, f, x);
    FlatItems.ResizedAre(it.body, x);
    EdgesPassOn(fns, it, x);
    assert IsArrayParam(f, x) <==> exists p :: p in it.params && p.isArray && p.name == x;
  }

  lemma EdgesPassOn(fns: seq<F>, it: IrItem, x: string)
    requires it.Function?
    ensures PassedOn(fns, it.body, x) <==>
              exists e :: e in BodyEdges(it.body, false) && e.sym == x && LeadsToResize(fns, e)
  {
    hide BodyEdges, SeenCall, ArgOf, IsWhole, ReachesResize;
    if PassedOn(fns, it.body, x) {
      var callee, args, pos :|
        && SeenCall(it.body, callee, args) && 0 <= pos < |args| && Passes(args[pos], x)
        && (|| ((callee == "XstQuickSort" || callee == "XstCopyArray") && (pos == 0 || pos == 1))
            || exists g :: g in fns && g.name == callee && pos < |g.params|
                           && ReachesResize(fns, g, g.params[pos].name));
      var t :| IsWhole(args[pos], IrSymbol(x, t));
      var e := Edge(callee, pos, x, t);
      ArgumentIs(e, callee, args);
      EdgeArguments(it.body, e);
      assert e in BodyEdges(it.body, false) && LeadsToResize(fns, e);
    }
    if e :| e in BodyEdges(it.body, false) && e.sym == x && LeadsToResize(fns, e) {
      EdgeArguments(it.body, e);
      var args :| SeenCall(it.body, e.callee, args) && ArgOf(e, e.callee, args);
      ArgumentIs(e, e.callee, args);
      assert Passes(args[e.pos], x);
    }
  }

  /** No function of the program hides a call with a whole-array argument from the collector. */
  ghost predicate NothingHiddenIn(items: seq<IrItem>) {
    forall k :: 0 <= k < |items| && items[k].Function? ==> NothingHidden(Labels.Flatten(items[k].body))
  }

  /** The same functions, of which the second may have more edges. */
  ghost predicate MoreEdges(fns: seq<F>, all: seq<F>) {
    && |fns| == |all|
    && forall i :: 0 <= i < |fns| ==> fns[i].name == all[i].name && MoreEdgesOf(fns[i], all[i])
  }

  ghost predicate MoreEdgesOf(f: F, g: F) {
    && f.name == g.name && f.params == g.params && f.resized == g.resized
    && forall e :: e in f.edges ==> e in g.edges
  }

  lemma SummaryEdges(it: IrItem)
    requires it.Function?
    ensures MoreEdgesOf(Summary(it, false), Summary(it, true))
    ensures NothingHidden(Labels.Flatten(it.body)) <==> Summary(it, false) == Summary(it, true)
  {
    hide BodyEdges, ResizedNames, NothingHidden;
    AllCollected(it.body);
  }

  /** The collected functions are those of the program, perhaps with fewer edges; in a program that hides no
      call they are the same. */
  lemma {:induction false} CollectedFunctions(items: seq<IrItem>)
    ensures MoreEdges(Functions(items, false), Functions(items, true))
    ensures NothingHiddenIn(items) ==> Functions(items, false) == Functions(items, true)
  {
    hide Summary, NothingHidden, MoreEdgesOf;
    if items != [] {
      var last, rest := items[|items| - 1], items[..|items| - 1];
      CollectedFunctions(rest);
      SameNames(Functions(rest, false), Functions(rest, true), last);
      if last.Function? {
        SummaryEdges(last);
        SummaryNames(last);
      }
    }
  }

  lemma SummaryNames(it: IrItem)
    requires it.Function?
    ensures Summary(it, false).name == Summary(it, true).name
  {
  }

  lemma SameNames(fns: seq<F>, all: seq<F>, it: IrItem)
    requires MoreEdges(fns, all)
    ensures it.Function? ==> ((exists f :: f in fns && f.name == it.name) <==>
                            exists f :: f in all && f.name == it.name)
  {
    hide MoreEdgesOf;
    if it.Function? {
      if f :| f in fns && f.name == it.name {
        var i :| 0 <= i < |fns| && fns[i] == f;
        assert all[i] in all;
      }
      if f :| f in all && f.name == it.name {
        var i :| 0 <= i < |all| && all[i] == f;
        assert fns[i] in fns;
      }
    }
  }

  /** In a program that hides no call, callers and callees agree at every call there is. */
  lemma AgreementEverywhere(items: seq<IrItem>, it: IrItem, e: Edge, arg: IrExpr, copied: string -> bool)
    requires NothingHiddenIn(items) && it in items && it.Function?
    requires Summary(it, true) in Functions(items, true) && e in BodyEdges(it.body, true)
    requires LeadsToResize(Functions(items, true), e)
    requires arg.kind.ByRef? && arg.kind.operand.kind == Symbol(IrSymbol(e.sym, e.valueType))
    ensures var fns, f := Functions(items, true), Summary(it, true);
            var form := FormOf(arg, n => IsDescriptor(fns, f, n), copied);
      && (form == OwnDescriptor(e.sym) <==> IsArrayParam(f, e.sym))
      && (form == AddressPair(e.sym) <==> !IsArrayParam(f, e.sym))
      && (!IsArrayParam(f, e.sym) ==> (IsDynamic(fns, it, e.sym) <==> !IsParam(it.params, e.sym)))
  {
    hide LeadsToResize, BodyEdges, NothingHidden, IsDescriptor, IsDynamic, Functions;
    CollectedFunctions(items);
    AllCollected(it.body);
    SummaryEdges(it);
    Agreement(items, it, e, arg, copied);
  }

  /** What the collected edges reach, all edges reach. */
  lemma {:induction false} MoreReaches(fns: seq<F>, all: seq<F>, links: seq<(F, string)>, i: nat)
    requires MoreEdges(fns, all) && Chain(fns, links) && i < |fns| && links[0].0 == fns[i]
    ensures ReachesResize(all, all[i], links[0].1)
    decreases |links|
  {
    hide ReachesResize;
    var f, x, f' := links[0].0, links[0].1, all[i];
    assert IsArrayParam(f, x) <==> IsArrayParam(f', x);
    if |links| == 1 {
      assert Seed(f', x);
      SeedReaches(all, f', x);
    } else {
      var rest := links[1..];
      assert forall k {:trigger rest[k]} :: 0 <= k < |rest| - 1 ==>
        Forwards(links[k + 1].0, links[k + 1].1, links[k + 2].0, links[k + 2].1);
      var j: nat :| j < |fns| && fns[j] == links[1].0;
      MoreReaches(fns, all, rest, j);
      assert Forwards(links[0].0, links[0].1, links[1].0, links[1].1);
      ForwardReaches(all, f', x, all[j], links[1].1);
    }
  }

  lemma Monotone(fns: seq<F>, all: seq<F>, i: nat, x: string)
    requires MoreEdges(fns, all) && i < |fns| && ReachesResize(fns, fns[i], x)
    ensures ReachesResize(all, all[i], x)
  {
    var links: seq<(F, string)> :| Chain(fns, links) && links[0] == (fns[i], x);
    MoreReaches(fns, all, links, i);
  }

  /** Every edge there is that passes an array parameter on to a library position or a descriptor has had its
      effect: the parameter is a descriptor. */
  ghost predicate EdgesServed(fns: seq<F>, all: seq<F>)
    requires MoreEdges(fns, all)
  {
    forall i, e :: 0 <= i < |fns| && e in all[i].edges && IsArrayParam(fns[i], e.sym) && LeadsToResize(fns, e) ==>
      IsDescriptor(fns, fns[i], e.sym)
  }

  lemma {:induction false} ServedReaches(fns: seq<F>, all: seq<F>, links: seq<(F, string)>, i: nat)
    requires MoreEdges(fns, all) && EdgesServed(fns, all)
    requires Chain(all, links) && i < |fns| && links[0].0 == all[i]
    ensures ReachesResize(fns, fns[i], links[0].1)
    decreases |links|
  {
    hide ReachesResize;
    var f, x, f' := fns[i], links[0].1, all[i];
    assert IsArrayParam(f, x) <==> IsArrayParam(f', x);
    if |links| == 1 {
      if x in f'.resized {
        SeedReaches(fns, f, x);
      } else {
        var e :| e in f'.edges && e.sym == x && BuiltinNeeds(e.callee, e.pos);
      }
    } else {
      var rest := links[1..];
      assert forall k {:trigger rest[k]} :: 0 <= k < |rest| - 1 ==>
        Forwards(links[k + 1].0, links[k + 1].1, links[k + 2].0, links[k + 2].1);
      var j: nat :| j < |all| && all[j] == links[1].0;
      ServedReaches(fns, all, rest, j);
      assert Forwards(links[0].0, links[0].1, links[1].0, links[1].1);
      var e :| e in f'.edges && e.sym == x && e.callee == all[j].name && e.pos < |all[j].params|
               && all[j].params[e.pos].name == links[1].1;
      assert fns[j] in fns && LeadsToResize(fns, e);
    }
  }

  /** The same parameters are descriptors. */
  ghost predicate SameDescriptors(fns: seq<F>, all: seq<F>)
    requires MoreEdges(fns, all)
  {
    forall i, x :: 0 <= i < |fns| ==> (IsDescriptor(fns, fns[i], x) <==> IsDescriptor(all, all[i], x))
  }

  /** The descriptors of the collected edges are the descriptors of all edges exactly when every uncollected
      edge at an array parameter finds it a descriptor already, or leads to none. */
  lemma CollectionSuffices(items: seq<IrItem>)
    ensures var fns, all := Functions(items, false), Functions(items, true);
      MoreEdges(fns, all) && (SameDescriptors(fns, all) <==> EdgesServed(fns, all))
  {
    hide Functions, NothingHiddenIn, SameDescriptors, EdgesServed, MoreEdges;
    var fns, all := Functions(items, false), Functions(items, true);
    CollectedFunctions(items);
    if EdgesServed(fns, all) {
      SameIfServed(fns, all);
    }
    if SameDescriptors(fns, all) {
      ServedIfSame(fns, all);
    }
  }

  lemma SameIfServed(fns: seq<F>, all: seq<F>)
    requires MoreEdges(fns, all) && EdgesServed(fns, all)
    ensures SameDescriptors(fns, all)
  {
    hide EdgesServed, ReachesResize;
    forall i, x | 0 <= i < |fns| ensures IsDescriptor(fns, fns[i], x) <==> IsDescriptor(all, all[i], x) {
      if IsDescriptor(fns, fns[i], x) {
        Monotone(fns, all, i, x);
      }
      if IsDescriptor(all, all[i], x) {
        ServedChain(fns, all, i, x);
      }
    }
  }

  lemma ServedChain(fns: seq<F>, all: seq<F>, i: nat, x: string)
    requires MoreEdges(fns, all) && EdgesServed(fns, all) && i < |fns| && ReachesResize(all, all[i], x)
    ensures ReachesResize(fns, fns[i], x)
  {
    hide EdgesServed;
    var links: seq<(F, string)> :| Chain(all, links) && links[0] == (all[i], x);
    ServedReaches(fns, all, links, i);
  }

  lemma ServedIfSame(fns: seq<F>, all: seq<F>)
    requires MoreEdges(fns, all) && SameDescriptors(fns, all)
    ensures EdgesServed(fns, all)
  {
    hide ReachesResize;
    forall i, e | 0 <= i < |fns| && e in all[i].edges && IsArrayParam(fns[i], e.sym) && LeadsToResize(fns, e)
      ensures IsDescriptor(fns, fns[i], e.sym)
    {
      assert IsArrayParam(all[i], e.sym);
      if !BuiltinNeeds(e.callee, e.pos) {
        var g :| g in fns && g.name == e.callee && e.pos < |g.params| && ReachesResize(fns, g, g.params[e.pos].name);
        var j: nat :| j < |fns| && fns[j] == g;
        Monotone(fns, all, j, g.params[e.pos].name);
        assert all[j] in all && LeadsToResize(all, e);
      }
      EdgeReaches(all, all[i], e);
    }
  }

  /** A library call that is not collected is lost: if the array parameter it sorts or copies is not resized in
      the function and no collected edge passes it on to a descriptor, then it gets no descriptor, although it
      would with all edges. */
  lemma HiddenCallLost(items: seq<IrItem>, i: nat, e: Edge)
    requires i < |Functions(items, true)| == |Functions(items, false)|
    requires e in Functions(items, true)[i].edges && BuiltinNeeds(e.callee, e.pos)
    requires IsArrayParam(Functions(items, false)[i], e.sym)
    ensures var fns, all := Functions(items, false), Functions(items, true);
      && IsDescriptor(all, all[i], e.sym)
      && (IsDescriptor(fns, fns[i], e.sym) <==>
            e.sym in fns[i].resized || exists c :: c in fns[i].edges && c.sym == e.sym && LeadsToResize(fns, c))
  {
    hide Functions, ReachesResize;
    var fns, all := Functions(items, false), Functions(items, true);
    hide NothingHiddenIn;
    CollectedFunctions(items);
    OneStep(fns, fns[i], e.sym);
    assert IsArrayParam(all[i], e.sym);
    SeedReaches(all, all[i], e.sym);
  }

  /** A function with one array parameter `a` and the given body. */
  function SortsA(body: seq<IrItem>): IrItem {
    Function("F", [IrParam("a", Integer, true)], Integer, None, body)
  }

  const SORT: IrItem :=
    Call("XstQuickSort", [IrExpr(ByRef(IrExpr(Symbol(IrSymbol("a", Integer)), Integer)), Integer)])

  /** The parts of a `SELECT CASE TRUE` with one case that sorts `a`. */
  function SortIf(condition: IrExpr): seq<IrItem> {
    [If(condition, [SORT], NoBody), Label("select_1")]
  }

  /** `SELECT CASE TRUE` with one case that sorts `a` is a Compound of an IF and a label: the function gets no
      descriptor for `a`, although it gets one when the IF stands outside the Compound. */
  lemma CompoundOverlooked(condition: IrExpr)
    requires ExprEdges(condition) == []
    ensures var inside := Functions([SortsA([Compound(SortIf(condition))])], false);
            var outside := Functions([SortsA(SortIf(condition))], false);
      |inside| == |outside| == 1 && !IsDescriptor(inside, inside[0], "a") && IsDescriptor(outside, outside[0], "a")
  {
    hide ReachesResize, ExprEdges, SORT, SortIf, Functions, BodyEdges, ResizedNames;
    OneFunction(SortsA([Compound(SortIf(condition))]));
    OneFunction(SortsA(SortIf(condition)));
    SortIfSummary(condition);
    var f, g := Summary(SortsA([Compound(SortIf(condition))]), false), Summary(SortsA(SortIf(condition)), false);
    OneStep([f], f, "a");
    assert IrParam("a", Integer, true) in g.params;
    SeedReaches([g], g, "a");
  }

  lemma SortIfSummary(condition: IrExpr)
    requires ExprEdges(condition) == []
    ensures BodyEdges([Compound(SortIf(condition))], false) == [] && ResizedNames([Compound(SortIf(condition))]) == {}
    ensures BodyEdges(SortIf(condition), false) == [Edge("XstQuickSort", 0, "a", Integer)]
  {
    hide ExprEdges;
    var choice := SortIf(condition);
    OneItem(Compound(choice));
    OneItem(choice[1]);
    assert choice[1..] == [choice[1]];
    IfParts(condition);
    assert BodyEdges(choice, false) == ItemEdges(choice[0], false) + ItemEdges(choice[1], false);
    assert ResizedNames(choice) == ResizedIn(choice[0]) + ResizedIn(choice[1]) == {};
    assert ResizedIn(Compound(choice)) == {};
  }

  lemma IfParts(condition: IrExpr)
    requires ExprEdges(condition) == []
    ensures var it := SortIf(condition)[0];
      ItemEdges(it, false) == [Edge("XstQuickSort", 0, "a", Integer)] && ResizedIn(it) == {}
  {
    hide ExprEdges, SORT;
    OneItem(SORT);
    SortEdges();
    var it := SortIf(condition)[0];
    assert BranchEdges(it.elseBody, false) == [];
    assert OwnEdges(it, false) == [];
  }

  lemma SortEdges()
    ensures ItemEdges(SORT, false) == [Edge("XstQuickSort", 0, "a", Integer)] && ResizedIn(SORT) == {}
  {
    assert SORT.args[1..] == [];
  }

  lemma OneFunction(it: IrItem)
    requires it.Function?
    ensures Functions([it], false) == [Summary(it, false)]
  {
    assert [it][..0] == [];
  }

  lemma OneItem(it: IrItem)
    ensures BodyEdges([it], false) == ItemEdges(it, false) && ResizedNames([it]) == ResizedIn(it)
  {
    hide ItemEdges, ResizedIn;
    assert [it][1..] == [];
    assert BodyEdges([], false) == [] && ResizedNames([]) == {};
  }
}
