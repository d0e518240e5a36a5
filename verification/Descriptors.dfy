/** The whole-program closure that decides which array parameters are passed as descriptors. */
module Descriptors {
  import opened Ir
  import opened CallEdges
  import opened CollectEdges
  import FlatItems
  import HiddenEdges
  import Labels

  /** What the closure knows of one function. */
  datatype F = F(name: string, params: seq<IrParam>, resized: set<string>, edges: seq<Edge>)

  predicate IsArrayParam(f: F, x: string) {
    exists p :: p in f.params && p.isArray && p.name == x
  }

  /** A function with its collected edges, or with `deep` all its edges. */
  function Summary(it: IrItem, deep: bool): F
    requires it.Function?
  {
    F(it.name, it.params, ResizedNames(it.body), BodyEdges(it.body, deep))
  }

  /** The functions of a program in order; of two with the same name the first counts. */
  function Functions(items: seq<IrItem>, deep: bool): (fns: seq<F>)
  {
    if items == [] then []
    else
      var last := items[|items| - 1];
      var fns := Functions(items[..|items| - 1], deep);
      if last.Function? && !exists f :: f in fns && f.name == last.name then fns + [Summary(last, deep)] else fns
  }

  /** The functions of a program are its function items, of each name the first. */
  lemma {:induction false} FunctionsAre(items: seq<IrItem>, deep: bool, f: F)
    ensures f in Functions(items, deep) <==>
              exists k :: 0 <= k < |items| && items[k].Function? && f == Summary(items[k], deep)
                          && forall j :: 0 <= j < k && items[j].Function? ==> items[j].name != items[k].name
  {
    hide ResizedNames, BodyEdges;
    if items != [] {
      var front, last := items[..|items| - 1], items[|items| - 1];
      assert forall k :: 0 <= k < |front| ==> items[k] == front[k];
      FunctionsAre(front, deep, f);
      FunctionNames(front, deep, if last.Function? then last.name else "");
    }
  }

  lemma {:induction false} FunctionNames(items: seq<IrItem>, deep: bool, n: string)
    ensures (exists f :: f in Functions(items, deep) && f.name == n) <==> NamesFunction(items, n)
  {
    hide ResizedNames, BodyEdges;
    if items != [] {
      var front, last := items[..|items| - 1], items[|items| - 1];
      FunctionNames(front, deep, n);
      NamesFunctionLast(items, n);
      if last.Function? && last.name == n && !NamesFunction(front, n) {
        assert Summary(last, deep) in Functions(items, deep);
      }
    }
  }

  predicate NamesFunction(items: seq<IrItem>, n: string) {
    exists k :: 0 <= k < |items| && items[k].Function? && items[k].name == n
  }

  lemma NamesFunctionLast(items: seq<IrItem>, n: string)
    requires items != []
    ensures var last := items[|items| - 1];
      NamesFunction(items, n) <==> NamesFunction(items[..|items| - 1], n) || (last.Function? && last.name == n)
  {
    var front := items[..|items| - 1];
    assert forall k :: 0 <= k < |front| ==> items[k] == front[k];
  }

  predicate DistinctNames(fns: seq<F>) {
    forall i, j :: 0 <= i < j < |fns| ==> fns[i].name != fns[j].name
  }

  lemma {:induction false} FunctionsDistinct(items: seq<IrItem>, deep: bool)
    ensures DistinctNames(Functions(items, deep))
  {
    if items != [] {
      FunctionsDistinct(items[..|items| - 1], deep);
      var fns := Functions(items[..|items| - 1], deep);
      assert forall i :: 0 <= i < |fns| ==> fns[i] in fns;
    }
  }

  /** The library routines whose first two arguments need a length. */
  predicate BuiltinNeeds(callee: string, pos: nat) {
    (callee == "XstQuickSort" || callee == "XstCopyArray") && pos < 2
  }

  // ----- Reachability: the meaning of the closure -----

  /** The array parameter is resized in its own function or handed to a library routine that needs a length. */
  predicate Seed(f: F, x: string) {
    IsArrayParam(f, x)
    && (x in f.resized || exists e :: e in f.edges && e.sym == x && BuiltinNeeds(e.callee, e.pos))
  }

  /** The argument is the whole array `x`, with or without the by-reference mark. */
  predicate Passes(arg: IrExpr, x: string) {
    exists t :: HiddenEdges.IsWhole(arg, IrSymbol(x, t))
  }

  /** Some item of the body at any depth is a REDIM of `x`, or a DIM of it with a size. */
  ghost predicate ResizesAt(items: seq<IrItem>, x: string) {
    exists it :: it in Labels.Flatten(items) && it.Dim? && (it.redim || it.size.Some?) && it.symbol.name == x
  }

  /** A call that is seen sorts `x`, copies it, or copies to it. */
  ghost predicate HandsOver(items: seq<IrItem>, x: string) {
    exists callee, args, pos ::
      && HiddenEdges.SeenCall(items, callee, args) && (callee == "XstQuickSort" || callee == "XstCopyArray")
      && 0 <= pos < |args| && (pos == 0 || pos == 1) && Passes(args[pos], x)
  }

  /** An array parameter that an item at any depth resizes, or that is handed whole to one of the two library
      routines that need a length. */
  ghost predicate NeedsLength(it: IrItem, x: string)
    requires it.Function?
  {
    && (exists p :: p in it.params && p.isArray && p.name == x)
    && (ResizesAt(it.body, x) || HandsOver(it.body, x))
  }

  /** The seeds in terms of the function's own parameters, items and calls. */
  lemma SeedExactly(it: IrItem, x: string)
    requires it.Function?
    ensures Seed(Summary(it, false), x) <==> NeedsLength(it, x)
  {
    hide BodyEdges, ResizedNames, HandsOver, BuiltinNeeds, Labels.Flatten;
    FlatItems.ResizedAre(it.body, x);
    HandedEdges(it, x);
    assert ResizesAt(it.body, x) <==> x in ResizedNames(it.body);
    hide ResizesAt;
    assert IsArrayParam(Summary(it, false), x) <==> exists p :: p in it.params && p.isArray && p.name == x;
  }

  lemma HandedEdges(it: IrItem, x: string)
    requires it.Function?
    ensures HandsOver(it.body, x) <==>
              exists e :: e in BodyEdges(it.body, false) && e.sym == x && BuiltinNeeds(e.callee, e.pos)
  {
    hide BodyEdges, HiddenEdges.SeenCall, HiddenEdges.ArgOf, HiddenEdges.IsWhole;
    if HandsOver(it.body, x) {
      var callee, args, pos :|
        && HiddenEdges.SeenCall(it.body, callee, args) && (callee == "XstQuickSort" || callee == "XstCopyArray")
        && 0 <= pos < |args| && (pos == 0 || pos == 1) && Passes(args[pos], x);
      var t :| HiddenEdges.IsWhole(args[pos], IrSymbol(x, t));
      var e := Edge(callee, pos, x, t);
      HiddenEdges.ArgumentIs(e, callee, args);
      HiddenEdges.EdgeArguments(it.body, e);
      assert e in BodyEdges(it.body, false);
    }
    if e :| e in BodyEdges(it.body, false) && e.sym == x && BuiltinNeeds(e.callee, e.pos) {
      HiddenEdges.EdgeArguments(it.body, e);
      var args :| HiddenEdges.SeenCall(it.body, e.callee, args) && HiddenEdges.ArgOf(e, e.callee, args);
      HiddenEdges.ArgumentIs(e, e.callee, args);
      assert Passes(args[e.pos], x);
    }
  }

  /** `f` forwards its array parameter `x` by reference to the parameter `y` of `g`. */
  predicate Forwards(f: F, x: string, g: F, y: string) {
    IsArrayParam(f, x)
    && exists e :: e in f.edges && e.sym == x && e.callee == g.name && e.pos < |g.params| && g.params[e.pos].name == y
  }

  /** A finite chain of forwards that ends at a seed. */
  ghost predicate Chain(fns: seq<F>, links: seq<(F, string)>) {
    && links != []
    && (forall k :: 0 <= k < |links| ==> links[k].0 in fns)
    && (forall k {:trigger links[k]} :: 0 <= k < |links| - 1 ==>
          Forwards(links[k].0, links[k].1, links[k + 1].0, links[k + 1].1))
    && Seed(links[|links| - 1].0, links[|links| - 1].1)
  }

  ghost predicate ReachesResize(fns: seq<F>, f: F, x: string) {
    exists links :: Chain(fns, links) && links[0] == (f, x)
  }

  lemma SeedReaches(fns: seq<F>, f: F, x: string)
    requires f in fns && Seed(f, x)
    ensures ReachesResize(fns, f, x)
  {
    assert Chain(fns, [(f, x)]);
  }

  lemma ForwardReaches(fns: seq<F>, f: F, x: string, g: F, y: string)
    requires f in fns && Forwards(f, x, g, y) && ReachesResize(fns, g, y)
    ensures ReachesResize(fns, f, x)
  {
    var links :| Chain(fns, links) && links[0] == (g, y);
    var longer := [(f, x)] + links;
    assert forall k {:trigger longer[k]} :: 0 <= k < |longer| - 1 ==>
      Forwards(longer[k].0, longer[k].1, longer[k + 1].0, longer[k + 1].1);
    assert Chain(fns, longer);
  }

  /** The order of the functions does not matter. */
  lemma OrderIrrelevant(fns: seq<F>, fns': seq<F>, f: F, x: string)
    requires forall g :: g in fns <==> g in fns'
    ensures ReachesResize(fns, f, x) <==> ReachesResize(fns', f, x)
  {
    if links :| Chain(fns, links) && links[0] == (f, x) {
      assert Chain(fns', links);
    }
    if links :| Chain(fns', links) && links[0] == (f, x) {
      assert Chain(fns, links);
    }
  }

  // ----- The closure loop -----

  type Desc = map<string, set<string>>
  type Dyn = map<string, map<string, ValueType>>

  function DescOf(desc: Desc, f: string): set<string> {
    if f in desc then desc[f] else {}
  }

  function DynOf(dyn_: Dyn, f: string): map<string, ValueType> {
    if f in dyn_ then dyn_[f] else map[]
  }

  /** The position an edge leads to takes a descriptor. */
  predicate LeadsToDescriptor(params: map<string, seq<IrParam>>, desc: Desc, e: Edge) {
    || BuiltinNeeds(e.callee, e.pos)
    || (e.callee in params && e.pos < |params[e.callee]| && params[e.callee][e.pos].name in DescOf(desc, e.callee))
  }

  ghost predicate ParamsOf(fns: seq<F>, params: map<string, seq<IrParam>>) {
    && (forall f :: f in fns ==> f.name in params && params[f.name] == f.params)
    && (forall n :: n in params ==> exists f :: f in fns && f.name == n)
  }

  /** The edge has had its effect: a parameter is a descriptor, any other name a dynamic local. */
  predicate Recorded(f: F, e: Edge, desc: Desc, dyn_: Dyn) {
    if IsArrayParam(f, e.sym) then e.sym in DescOf(desc, f.name) else e.sym in DynOf(dyn_, f.name)
  }

  predicate Closed(f: F, params: map<string, seq<IrParam>>, desc: Desc, dyn_: Dyn, edges: seq<Edge>) {
    forall e :: e in edges && LeadsToDescriptor(params, desc, e) ==> Recorded(f, e, desc, dyn_)
  }

  /** Every recorded descriptor is one by a finite chain of forwards. */
  ghost predicate Sound(fns: seq<F>, desc: Desc) {
    forall f, x :: f in fns && x in DescOf(desc, f.name) ==> ReachesResize(fns, f, x)
  }

  /** A closed table that holds the seeds holds everything that reaches a resize. */
  lemma {:induction false} ClosedIsComplete(fns: seq<F>, params: map<string, seq<IrParam>>, desc: Desc, dyn_: Dyn,
                                            links: seq<(F, string)>)
    requires ParamsOf(fns, params) && Chain(fns, links)
    requires forall f, x :: f in fns && Seed(f, x) ==> x in DescOf(desc, f.name)
    requires forall f :: f in fns ==> Closed(f, params, desc, dyn_, f.edges)
    ensures links[0].1 in DescOf(desc, links[0].0.name)
    decreases |links|
  {
    if |links| > 1 {
      var rest := links[1..];
      assert forall k {:trigger rest[k]} :: 0 <= k < |rest| - 1 ==>
        Forwards(links[k + 1].0, links[k + 1].1, links[k + 2].0, links[k + 2].1);
      ClosedIsComplete(fns, params, desc, dyn_, rest);
      var f, x, g, y := links[0].0, links[0].1, links[1].0, links[1].1;
      assert Forwards(links[0].0, links[0].1, links[1].0, links[1].1);
      var e :| e in f.edges && e.sym == x && e.callee == g.name && e.pos < |g.params| && g.params[e.pos].name == y;
      assert LeadsToDescriptor(params, desc, e);
    }
  }

  /** The locals a function's edges make dynamic; the last edge with a name gives its type. */
  function DynLocals(f: F, params: map<string, seq<IrParam>>, desc: Desc, edges: seq<Edge>): map<string, ValueType> {
    if edges == [] then map[]
    else
      var e := edges[|edges| - 1];
      var m := DynLocals(f, params, desc, edges[..|edges| - 1]);
      if LeadsToDescriptor(params, desc, e) && !IsArrayParam(f, e.sym) then m[e.sym := e.valueType] else m
  }

  lemma {:induction false} DynLocalsKeys(f: F, params: map<string, seq<IrParam>>, desc: Desc, edges: seq<Edge>)
    ensures forall x :: x in DynLocals(f, params, desc, edges) <==>
              exists e :: e in edges && e.sym == x && LeadsToDescriptor(params, desc, e) && !IsArrayParam(f, x)
  {
    hide LeadsToDescriptor, IsArrayParam;
    if edges != [] {
      var last := edges[|edges| - 1];
      DynLocalsKeys(f, params, desc, edges[..|edges| - 1]);
      assert edges == edges[..|edges| - 1] + [last];
    }
  }

  /** The position an edge leads to is a library position that needs a length, or a parameter from which a
      resize can be reached. */
  ghost predicate LeadsToResize(fns: seq<F>, e: Edge) {
    || BuiltinNeeds(e.callee, e.pos)
    || exists g :: g in fns && g.name == e.callee && e.pos < |g.params| && ReachesResize(fns, g, g.params[e.pos].name)
  }

  /** The locals that a function's edges make dynamic; the last edge with a name gives its type. */
  ghost function LocalsOf(fns: seq<F>, f: F, edges: seq<Edge>): map<string, ValueType> {
    if edges == [] then map[]
    else
      var e := edges[|edges| - 1];
      var m := LocalsOf(fns, f, edges[..|edges| - 1]);
      if LeadsToResize(fns, e) && !IsArrayParam(f, e.sym) then m[e.sym := e.valueType] else m
  }

  /** The table holds exactly the parameters that reach a resize. */
  ghost predicate Exact(fns: seq<F>, desc: Desc) {
    forall f, x :: f in fns ==> (x in DescOf(desc, f.name) <==> ReachesResize(fns, f, x))
  }

  lemma LeadsExactly(fns: seq<F>, params: map<string, seq<IrParam>>, desc: Desc, e: Edge)
    requires DistinctNames(fns) && ParamsOf(fns, params) && Exact(fns, desc)
    ensures LeadsToDescriptor(params, desc, e) <==> LeadsToResize(fns, e)
  {
    hide ReachesResize, BuiltinNeeds;
    if e.callee in params {
      var g :| g in fns && g.name == e.callee;
      forall h | h in fns && h.name == e.callee ensures h == g {
        var i, j :| 0 <= i < |fns| && 0 <= j < |fns| && fns[i] == g && fns[j] == h;
        assert i == j;
      }
    }
  }

  lemma {:induction false} LocalsExactly(fns: seq<F>, f: F, params: map<string, seq<IrParam>>, desc: Desc,
                                         edges: seq<Edge>)
    requires DistinctNames(fns) && ParamsOf(fns, params) && Exact(fns, desc)
    ensures DynLocals(f, params, desc, edges) == LocalsOf(fns, f, edges)
  {
    hide LeadsToDescriptor, LeadsToResize, IsArrayParam, ParamsOf, Exact, DistinctNames;
    if edges != [] {
      LeadsExactly(fns, params, desc, edges[|edges| - 1]);
      LocalsExactly(fns, f, params, desc, edges[..|edges| - 1]);
    }
  }

  /** A name is a dynamic local exactly when it is no array parameter and is passed to a position from which a
      resize can be reached. */
  lemma {:induction false} LocalsKeys(fns: seq<F>, f: F, edges: seq<Edge>)
    ensures forall x :: x in LocalsOf(fns, f, edges) <==>
              !IsArrayParam(f, x) && exists e :: e in edges && e.sym == x && LeadsToResize(fns, e)
  {
    hide LeadsToResize, IsArrayParam;
    if edges != [] {
      var last := edges[|edges| - 1];
      LocalsKeys(fns, f, edges[..|edges| - 1]);
      assert edges == edges[..|edges| - 1] + [last];
    }
  }

  /** The type of a dynamic local is that of the last edge that passes it to such a position. */
  lemma {:induction false} LocalsTypes(fns: seq<F>, f: F, edges: seq<Edge>, k: nat)
    requires k < |edges| && LeadsToResize(fns, edges[k]) && !IsArrayParam(f, edges[k].sym)
    requires forall j :: k < j < |edges| && edges[j].sym == edges[k].sym ==> !LeadsToResize(fns, edges[j])
    ensures edges[k].sym in LocalsOf(fns, f, edges) && LocalsOf(fns, f, edges)[edges[k].sym] == edges[k].valueType
  {
    hide LeadsToResize, IsArrayParam;
    var front := edges[..|edges| - 1];
    if k < |front| {
      assert forall j :: 0 <= j < |front| ==> front[j] == edges[j];
      LocalsTypes(fns, f, front, k);
    }
  }

  /** Every local recorded as dynamic is passed to a descriptor position. */
  ghost predicate DynSound(fns: seq<F>, params: map<string, seq<IrParam>>, desc: Desc, dyn_: Dyn) {
    forall f, x :: f in fns && x in DynOf(dyn_, f.name) ==>
      !IsArrayParam(f, x) && exists e :: e in f.edges && e.sym == x && LeadsToDescriptor(params, desc, e)
  }

  predicate Grows(desc: Desc, dyn_: Dyn, desc': Desc, dyn': Dyn) {
    && (forall n :: n in desc ==> DescOf(desc, n) <= DescOf(desc', n))
    && (forall n :: n in dyn_ ==> DynOf(dyn_, n).Keys <= DynOf(dyn', n).Keys)
  }

  /** The positions of edges without effect so far: what the loop's termination counts down. */
  ghost function Open(fns: seq<F>, desc: Desc, dyn_: Dyn): set<(nat, nat)> {
    set i: nat, k: nat | i < |fns| && k < |fns[i].edges| && !Recorded(fns[i], fns[i].edges[k], desc, dyn_) :: (i, k)
  }

  /** One edge's effect: a by-ref argument at a descriptor position is recorded, and nothing else moves. */
  ghost predicate Visited(f: F, e: Edge, params: map<string, seq<IrParam>>, d: Desc, y: Dyn, d': Desc, y': Dyn,
                          now: bool)
  {
    var leads, own := LeadsToDescriptor(params, d, e), IsArrayParam(f, e.sym);
    && Grows(d, y, d', y') && SameElsewhere(f.name, d, y, d', y')
    && DescOf(d', f.name) == DescOf(d, f.name) + (if leads && own then {e.sym} else {})
    && DynOf(y', f.name) == DynOf(y, f.name) + (if leads && !own then map[e.sym := e.valueType] else map[])
    && (now <==> leads && !Recorded(f, e, d, y))
    && (!now ==> d' == d)
    && (leads ==> Recorded(f, e, d', y'))
  }

  ghost predicate SameElsewhere(name: string, d: Desc, y: Dyn, d': Desc, y': Dyn) {
    forall n :: n != name ==> DescOf(d', n) == DescOf(d, n) && DynOf(y', n) == DynOf(y, n)
  }

  /** One edge of one function. */
  method Visit(f: F, e: Edge, params: map<string, seq<IrParam>>, desc: Desc, dyn_: Dyn)
    returns (desc': Desc, dyn': Dyn, changed: bool)
    ensures Visited(f, e, params, desc, dyn_, desc', dyn', changed)
  {
    hide LeadsToDescriptor;
    desc', dyn', changed := desc, dyn_, false;
    if LeadsToDescriptor(params, desc, e) {
      changed := !Recorded(f, e, desc, dyn_);
      if IsArrayParam(f, e.sym) {
        assert !changed ==> DescOf(desc, f.name) + {e.sym} == DescOf(desc, f.name);
        desc' := desc[f.name := DescOf(desc, f.name) + {e.sym}];
      } else {
        dyn' := dyn_[f.name := DynOf(dyn_, f.name)[e.sym := e.valueType]];
      }
    }
  }

  lemma GrowsMonotone(f: F, e: Edge, params: map<string, seq<IrParam>>, desc: Desc, dyn_: Dyn, desc': Desc, dyn': Dyn)
    requires Grows(desc, dyn_, desc', dyn')
    ensures LeadsToDescriptor(params, desc, e) ==> LeadsToDescriptor(params, desc', e)
    ensures Recorded(f, e, desc, dyn_) ==> Recorded(f, e, desc', dyn')
  {
    hide IsArrayParam, BuiltinNeeds;
  }

  lemma GrowsTransitive(desc: Desc, dyn_: Dyn, desc': Desc, dyn': Dyn, desc'': Desc, dyn'': Dyn)
    requires Grows(desc, dyn_, desc', dyn') && Grows(desc', dyn', desc'', dyn'')
    ensures Grows(desc, dyn_, desc'', dyn'')
  {
  }

  lemma LeadingReaches(fns: seq<F>, params: map<string, seq<IrParam>>, desc: Desc, f: F, e: Edge)
    requires ParamsOf(fns, params) && Sound(fns, desc) && f in fns && e in f.edges
    requires LeadsToDescriptor(params, desc, e) && IsArrayParam(f, e.sym)
    ensures ReachesResize(fns, f, e.sym)
  {
    if BuiltinNeeds(e.callee, e.pos) {
      SeedReaches(fns, f, e.sym);
    } else {
      var g :| g in fns && g.name == e.callee;
      ForwardReaches(fns, f, e.sym, g, g.params[e.pos].name);
    }
  }

  lemma VisitSound(fns: seq<F>, params: map<string, seq<IrParam>>, f: F, e: Edge, desc: Desc, dyn_: Dyn, desc': Desc,
                   dyn': Dyn, now: bool)
    requires DistinctNames(fns) && ParamsOf(fns, params) && f in fns && e in f.edges
    requires Sound(fns, desc) && DynSound(fns, params, desc, dyn_)
    requires Visited(f, e, params, desc, dyn_, desc', dyn', now)
    ensures Sound(fns, desc') && DynSound(fns, params, desc', dyn')
  {
    hide LeadsToDescriptor, IsArrayParam, ReachesResize, Grows, ParamsOf;
    forall g, x | g in fns && x in DescOf(desc', g.name) ensures ReachesResize(fns, g, x) {
      if x !in DescOf(desc, g.name) {
        assert g == f;
        LeadingReaches(fns, params, desc, f, e);
      }
    }
    forall g, x | g in fns && x in DynOf(dyn', g.name)
      ensures !IsArrayParam(g, x) && exists e' :: e' in g.edges && e'.sym == x && LeadsToDescriptor(params, desc', e')
    {
      if x in DynOf(dyn_, g.name) {
        var e' :| e' in g.edges && e'.sym == x && LeadsToDescriptor(params, desc, e');
        GrowsMonotone(g, e', params, desc, dyn_, desc', dyn');
      } else {
        assert g == f && x == e.sym;
        GrowsMonotone(f, e, params, desc, dyn_, desc', dyn');
      }
    }
  }

  /** What holds after a stretch of one function's edges. */
  ghost predicate Progress(f: F, params: map<string, seq<IrParam>>, edges: seq<Edge>,
                           desc: Desc, dyn_: Dyn, desc': Desc, dyn': Dyn, changed: bool)
  {
    && Grows(desc, dyn_, desc', dyn')
    && SameElsewhere(f.name, desc, dyn_, desc', dyn')
    && (!changed ==> desc' == desc && Closed(f, params, desc', dyn', edges))
    && (!changed ==> DynOf(dyn', f.name) == DynOf(dyn_, f.name) + DynLocals(f, params, desc, edges))
    && (changed ==> exists e :: e in f.edges && !Recorded(f, e, desc, dyn_) && Recorded(f, e, desc', dyn'))
  }

  lemma ProgressStep(f: F, e: Edge, params: map<string, seq<IrParam>>, edges: seq<Edge>,
                     desc: Desc, dyn_: Dyn, d: Desc, y: Dyn, changed: bool, d': Desc, y': Dyn, now: bool)
    requires e in f.edges && Progress(f, params, edges, desc, dyn_, d, y, changed)
    requires Visited(f, e, params, d, y, d', y', now)
    ensures Progress(f, params, edges + [e], desc, dyn_, d', y', changed || now)
  {
    hide LeadsToDescriptor, IsArrayParam, Grows, Recorded, Closed, DynLocals, SameElsewhere;
    GrowsTransitive(desc, dyn_, d, y, d', y');
    SameTransitive(f.name, desc, dyn_, d, y, d', y');
    EffectsStay(f, params, e, edges, desc, dyn_, d, y, d', y');
    if changed {
      var x :| x in f.edges && !Recorded(f, x, desc, dyn_) && Recorded(f, x, d, y);
      assert Recorded(f, x, d', y');
    } else if now {
      assert !Recorded(f, e, desc, dyn_) && Recorded(f, e, d', y');
    } else {
      LastLocal(f, e, params, edges, desc);
      assert DynOf(y', f.name) == DynOf(dyn_, f.name) + DynLocals(f, params, desc, edges + [e]);
    }
  }

  lemma SameTransitive(name: string, desc: Desc, dyn_: Dyn, d: Desc, y: Dyn, d': Desc, y': Dyn)
    requires SameElsewhere(name, desc, dyn_, d, y) && SameElsewhere(name, d, y, d', y')
    ensures SameElsewhere(name, desc, dyn_, d', y')
  {
  }

  lemma EffectsStay(f: F, params: map<string, seq<IrParam>>, e: Edge, edges: seq<Edge>,
                    desc: Desc, dyn_: Dyn, d: Desc, y: Dyn, d': Desc, y': Dyn)
    requires Grows(desc, dyn_, d, y) && Grows(d, y, d', y')
    ensures d' == d && Closed(f, params, d, y, edges) && (LeadsToDescriptor(params, d, e) ==> Recorded(f, e, d', y'))
            ==> Closed(f, params, d', y', edges + [e])
    ensures forall x :: Recorded(f, x, d, y) ==> Recorded(f, x, d', y')
    ensures forall x :: Recorded(f, x, desc, dyn_) ==> Recorded(f, x, d, y)
  {
    hide LeadsToDescriptor, Recorded, Grows;
    forall x ensures Recorded(f, x, d, y) ==> Recorded(f, x, d', y') {
      GrowsMonotone(f, x, params, d, y, d', y');
    }
    forall x ensures Recorded(f, x, desc, dyn_) ==> Recorded(f, x, d, y) {
      GrowsMonotone(f, x, params, desc, dyn_, d, y);
    }
  }

  lemma LastLocal(f: F, e: Edge, params: map<string, seq<IrParam>>, edges: seq<Edge>, desc: Desc)
    ensures DynLocals(f, params, desc, edges + [e])
         == DynLocals(f, params, desc, edges)
            + (if LeadsToDescriptor(params, desc, e) && !IsArrayParam(f, e.sym)
               then map[e.sym := e.valueType] else map[])
  {
    hide LeadsToDescriptor, IsArrayParam;
    var longer := edges + [e];
    assert longer[..|longer| - 1] == edges && longer[|longer| - 1] == e;
  }

  /** All edges of one function, in order. */
  method VisitFunction(fns: seq<F>, f: F, params: map<string, seq<IrParam>>, desc: Desc, dyn_: Dyn)
    returns (desc': Desc, dyn': Dyn, changed: bool)
    requires DistinctNames(fns) && ParamsOf(fns, params) && f in fns
    requires Sound(fns, desc) && DynSound(fns, params, desc, dyn_)
    ensures Sound(fns, desc') && DynSound(fns, params, desc', dyn')
    ensures Progress(f, params, f.edges, desc, dyn_, desc', dyn', changed)
    ensures !changed ==> DynOf(dyn', f.name) == DynLocals(f, params, desc, f.edges)
  {
    hide LeadsToDescriptor, IsArrayParam, ParamsOf, Sound, DynSound, DistinctNames, Grows, Recorded, Visited;
    desc', dyn', changed := desc, dyn_, false;
    GrowsRefl(desc, dyn_);
    assert f.edges[..0] == [];
    for k := 0 to |f.edges|
      invariant Sound(fns, desc') && DynSound(fns, params, desc', dyn')
      invariant Progress(f, params, f.edges[..k], desc, dyn_, desc', dyn', changed)
    {
      hide Progress;
      var e := f.edges[k];
      ghost var d, y := desc', dyn';
      assert f.edges[..k + 1] == f.edges[..k] + [e];
      var now;
      desc', dyn', now := Visit(f, e, params, desc', dyn');
      VisitSound(fns, params, f, e, d, y, desc', dyn', now);
      ProgressStep(f, e, params, f.edges[..k], desc, dyn_, d, y, changed, desc', dyn', now);
      changed := changed || now;
    }
    assert f.edges[..|f.edges|] == f.edges;
    NothingStale(fns, f, params, desc, dyn_);
  }

  lemma GrowsRefl(desc: Desc, dyn_: Dyn)
    ensures Grows(desc, dyn_, desc, dyn_)
  {
  }

  lemma NothingStale(fns: seq<F>, f: F, params: map<string, seq<IrParam>>, desc: Desc, dyn_: Dyn)
    requires f in fns && DynSound(fns, params, desc, dyn_)
    ensures DynOf(dyn_, f.name) + DynLocals(f, params, desc, f.edges) == DynLocals(f, params, desc, f.edges)
  {
    hide LeadsToDescriptor, IsArrayParam;
    DynLocalsKeys(f, params, desc, f.edges);
  }

  // ----- Passes over all functions, until nothing changes -----

  /** The functions already visited in a pass without change are closed and their locals final. */
  ghost predicate Settled(params: map<string, seq<IrParam>>, desc: Desc, dyn_: Dyn, fns: seq<F>) {
    forall f :: f in fns ==>
      Closed(f, params, desc, dyn_, f.edges) && DynOf(dyn_, f.name) == DynLocals(f, params, desc, f.edges)
  }

  method Pass(fns: seq<F>, params: map<string, seq<IrParam>>, desc: Desc, dyn_: Dyn)
    returns (desc': Desc, dyn': Dyn, changed: bool)
    requires DistinctNames(fns) && ParamsOf(fns, params) && Sound(fns, desc) && DynSound(fns, params, desc, dyn_)
    ensures Sound(fns, desc') && DynSound(fns, params, desc', dyn') && Grows(desc, dyn_, desc', dyn')
    ensures !changed ==> desc' == desc && Settled(params, desc', dyn', fns)
    ensures Open(fns, desc', dyn') <= Open(fns, desc, dyn_)
    ensures changed ==> Open(fns, desc', dyn') < Open(fns, desc, dyn_)
  {
    hide ParamsOf, Sound, DynSound, DistinctNames, Grows, Settled, Progress, Open;
    desc', dyn', changed := desc, dyn_, false;
    GrowsRefl(desc, dyn_);
    assert fns[..0] == [];
    SettledNone(params, desc, dyn_);
    for i := 0 to |fns|
      invariant Sound(fns, desc') && DynSound(fns, params, desc', dyn') && Grows(desc, dyn_, desc', dyn')
      invariant !changed ==> desc' == desc && Settled(params, desc', dyn', fns[..i])
      invariant Open(fns, desc', dyn') <= Open(fns, desc, dyn_)
      invariant changed ==> Open(fns, desc', dyn') < Open(fns, desc, dyn_)
    {
      ghost var d, y := desc', dyn';
      var now;
      desc', dyn', now := VisitFunction(fns, fns[i], params, desc', dyn');
      OpenShrinks(fns, i, params, desc, dyn_, d, y, desc', dyn', now);
      if !changed && !now {
        SettledStep(fns, i, params, d, y, desc', dyn');
      }
      changed := changed || now;
    }
    assert fns[..|fns|] == fns;
  }

  lemma SettledNone(params: map<string, seq<IrParam>>, desc: Desc, dyn_: Dyn)
    ensures Settled(params, desc, dyn_, [])
  {
  }

  lemma OpenShrinks(fns: seq<F>, i: nat, params: map<string, seq<IrParam>>,
                    desc: Desc, dyn_: Dyn, d: Desc, y: Dyn, d': Desc, y': Dyn, now: bool)
    requires i < |fns| && Grows(desc, dyn_, d, y) && Progress(fns[i], params, fns[i].edges, d, y, d', y', now)
    ensures Grows(desc, dyn_, d', y')
    ensures Open(fns, d, y) <= Open(fns, desc, dyn_) && Open(fns, d', y') <= Open(fns, d, y)
    ensures now ==> Open(fns, d', y') < Open(fns, d, y)
    ensures !now ==> d' == d
  {
    hide Grows, Recorded, Closed, DynLocals;
    GrowsTransitive(desc, dyn_, d, y, d', y');
    forall j: nat, k: nat | j < |fns| && k < |fns[j].edges|
      ensures Recorded(fns[j], fns[j].edges[k], d, y) ==> Recorded(fns[j], fns[j].edges[k], d', y')
      ensures Recorded(fns[j], fns[j].edges[k], desc, dyn_) ==> Recorded(fns[j], fns[j].edges[k], d, y)
    {
      GrowsMonotone(fns[j], fns[j].edges[k], params, d, y, d', y');
      GrowsMonotone(fns[j], fns[j].edges[k], params, desc, dyn_, d, y);
    }
    if now {
      var e :| e in fns[i].edges && !Recorded(fns[i], e, d, y) && Recorded(fns[i], e, d', y');
      var k: nat :| k < |fns[i].edges| && fns[i].edges[k] == e;
      assert (i, k) in Open(fns, d, y) && (i, k) !in Open(fns, d', y');
    }
  }

  lemma SettledStep(fns: seq<F>, i: nat, params: map<string, seq<IrParam>>, d: Desc, y: Dyn, d': Desc, y': Dyn)
    requires DistinctNames(fns) && i < |fns| && Settled(params, d, y, fns[..i])
    requires Progress(fns[i], params, fns[i].edges, d, y, d', y', false)
    requires DynOf(y', fns[i].name) == DynLocals(fns[i], params, d, fns[i].edges)
    ensures Settled(params, d', y', fns[..i + 1])
  {
    hide LeadsToDescriptor, IsArrayParam, DynLocals, Grows;
    assert fns[..i + 1] == fns[..i] + [fns[i]];
    forall f | f in fns[..i]
      ensures Closed(f, params, d', y', f.edges) && DynOf(y', f.name) == DynLocals(f, params, d', f.edges)
    {
      assert f.name != fns[i].name;
    }
  }

  method SeedsOf(f: F) returns (d: set<string>)
    ensures forall x :: x in d <==> Seed(f, x)
  {
    d := {};
    for k := 0 to |f.params|
      invariant forall x :: x in d <==>
        x in f.resized && exists j :: 0 <= j < k && f.params[j].isArray && f.params[j].name == x
    {
      if f.params[k].isArray && f.params[k].name in f.resized {
        d := d + {f.params[k].name};
      }
    }
    assert forall x :: x in d <==> IsArrayParam(f, x) && x in f.resized;
    for k := 0 to |f.edges|
      invariant forall x :: x in d ==> IsArrayParam(f, x)
      invariant forall x :: IsArrayParam(f, x) ==> (x in d <==>
        || x in f.resized
        || exists j :: 0 <= j < k && f.edges[j].sym == x && BuiltinNeeds(f.edges[j].callee, f.edges[j].pos))
    {
      var e := f.edges[k];
      if BuiltinNeeds(e.callee, e.pos) && IsArrayParam(f, e.sym) {
        d := d + {e.sym};
      }
    }
  }

  method Summarize(it: IrItem) returns (f: F)
    requires it.Function?
    ensures f == Summary(it, false) && f.name == it.name && f.params == it.params
  {
    var edges := CollectBody(it.body, []);
    var resized := CollectResized(it.body, {});
    assert [] + BodyEdges(it.body, false) == BodyEdges(it.body, false);
    assert {} + ResizedNames(it.body) == ResizedNames(it.body);
    f := F(it.name, it.params, resized, edges);
  }

  lemma FunctionsNext(items: seq<IrItem>, it: IrItem)
    ensures Functions(items + [it], false) ==
              if it.Function? && !exists f :: f in Functions(items, false) && f.name == it.name
              then Functions(items, false) + [Summary(it, false)]
              else Functions(items, false)
  {
    hide Summary;
    var longer := items + [it];
    assert longer[..|longer| - 1] == items && longer[|longer| - 1] == it;
  }

  lemma ParamsNext(fns: seq<F>, params: map<string, seq<IrParam>>, f: F)
    requires ParamsOf(fns, params)
    ensures f.name in params <==> exists g :: g in fns && g.name == f.name
    ensures f.name !in params ==> ParamsOf(fns + [f], params[f.name := f.params])
  {
  }

  /** One scan of the program: summaries, parameter lists and seeds of the first function of each name. */
  method CollectFunctions(items: seq<IrItem>) returns (fns: seq<F>, params: map<string, seq<IrParam>>, desc: Desc)
    ensures fns == Functions(items, false) && ParamsOf(fns, params)
    ensures forall f, x :: f in fns ==> (x in DescOf(desc, f.name) <==> Seed(f, x))
    ensures forall it, x :: it in items && it.Function? && Summary(it, false) in fns ==>
              (x in DescOf(desc, it.name) <==> NeedsLength(it, x))
  {
    fns, params, desc := [], map[], map[];
    assert items[..0] == [] && ParamsOf([], map[]);
    hide Seed, Summary, ParamsOf, Functions, NeedsLength;
    FunctionsNone();
    for k := 0 to |items|
      invariant fns == Functions(items[..k], false) && ParamsOf(fns, params) && params.Keys >= desc.Keys
      invariant forall f, x :: f in fns ==> (x in DescOf(desc, f.name) <==> Seed(f, x))
    {
      var it := items[k];
      assert items[..k + 1] == items[..k] + [it];
      FunctionsNext(items[..k], it);
      if it.Function? {
        ParamsNext(fns, params, Summary(it, false));
        SummaryName(it);
      }
      if it.Function? && it.name !in params {
        var f := Summarize(it);
        var d := SeedsOf(f);
        params := params[it.name := it.params];
        if d != {} {
          desc := desc[it.name := d];
        }
        fns := fns + [f];
      }
    }
    assert items[..|items|] == items;
    forall it, x | it in items && it.Function? && Summary(it, false) in fns
      ensures x in DescOf(desc, it.name) <==> NeedsLength(it, x)
    {
      SummaryName(it);
      SeedExactly(it, x);
    }
  }

  lemma FunctionsNone()
    ensures Functions([], false) == []
  {
  }

  lemma SummaryName(it: IrItem)
    requires it.Function?
    ensures Summary(it, false).name == it.name && Summary(it, false).params == it.params
  {
  }

  /** The whole analysis: a parameter is a descriptor exactly when a chain of forwards leads it to a
      resize; the dynamic locals are those passed to such positions. */
  method CollectDescriptorParams(items: seq<IrItem>)
    returns (result: map<string, (set<string>, map<string, ValueType>)>)
    ensures var fns := Functions(items, false);
      && (forall n :: n in result <==> exists f :: f in fns && f.name == n)
      && (forall f, x :: f in fns ==> (x in result[f.name].0 <==> ReachesResize(fns, f, x)))
      && (forall f :: f in fns ==> result[f.name].1 == LocalsOf(fns, f, f.edges))
    ensures forall it, x :: it in items && it.Function? && Summary(it, false) in Functions(items, false) ==>
              (NeedsLength(it, x) ==> x in result[it.name].0)
  {
    hide Seed, ReachesResize, ParamsOf, IsArrayParam, Sound, Grows, Open, Settled, DynSound, LocalsOf, DistinctNames;
    var fns, ps, d := CollectFunctions(items);
    FunctionsDistinct(items, false);
    SeedsSound(fns, ps, d);
    ghost var d0 := d;
    var y: Dyn := map[];
    GrowsRefl(d, y);
    var changed := true;
    while changed
      invariant Sound(fns, d) && DynSound(fns, ps, d, y) && Grows(d0, map[], d, y)
      invariant !changed ==> Settled(ps, d, y, fns)
      decreases Open(fns, d, y), changed
    {
      ghost var d1, y1 := d, y;
      d, y, changed := Pass(fns, ps, d, y);
      GrowsTransitive(d0, map[], d1, y1, d, y);
    }
    Fixpoint(fns, ps, d0, d, y);
    result := Combine(fns, d, y);
    forall f | f in fns ensures DynOf(y, f.name) == LocalsOf(fns, f, f.edges) {
      SettledLocals(ps, d, y, fns);
      LocalsExactly(fns, f, ps, d, f.edges);
    }
    SeedItems(items);
  }

  lemma SeedItems(items: seq<IrItem>)
    ensures forall it, x :: it in items && it.Function? && Summary(it, false) in Functions(items, false) ==>
              (NeedsLength(it, x) ==> ReachesResize(Functions(items, false), Summary(it, false), x))
  {
    hide Seed, Functions, NeedsLength, ReachesResize;
    forall it, x | it in items && it.Function? && Summary(it, false) in Functions(items, false) && NeedsLength(it, x)
      ensures ReachesResize(Functions(items, false), Summary(it, false), x)
    {
      SeedExactly(it, x);
      SeedReaches(Functions(items, false), Summary(it, false), x);
    }
  }

  method Combine(fns: seq<F>, d: Desc, y: Dyn) returns (result: map<string, (set<string>, map<string, ValueType>)>)
    ensures forall n :: n in result <==> exists f :: f in fns && f.name == n
    ensures forall f :: f in fns ==> result[f.name] == (DescOf(d, f.name), DynOf(y, f.name))
  {
    result := map[];
    for k := 0 to |fns|
      invariant forall n :: n in result <==> exists j :: 0 <= j < k && fns[j].name == n
      invariant forall j :: 0 <= j < k ==>
        result[fns[j].name] == (DescOf(d, fns[j].name), DynOf(y, fns[j].name))
    {
      result := result[fns[k].name := (DescOf(d, fns[k].name), DynOf(y, fns[k].name))];
    }
  }

  lemma SettledLocals(params: map<string, seq<IrParam>>, desc: Desc, dyn_: Dyn, fns: seq<F>)
    requires Settled(params, desc, dyn_, fns)
    ensures forall f :: f in fns ==> DynOf(dyn_, f.name) == DynLocals(f, params, desc, f.edges)
  {
  }

  lemma SeedsSound(fns: seq<F>, params: map<string, seq<IrParam>>, desc: Desc)
    requires forall f, x :: f in fns ==> (x in DescOf(desc, f.name) <==> Seed(f, x))
    ensures Sound(fns, desc) && DynSound(fns, params, desc, map[])
  {
    hide Seed, ReachesResize;
    forall f, x | f in fns && x in DescOf(desc, f.name) ensures ReachesResize(fns, f, x) {
      SeedReaches(fns, f, x);
    }
  }

  lemma {:induction false} Fixpoint(fns: seq<F>, params: map<string, seq<IrParam>>, d0: Desc, desc: Desc, dyn_: Dyn)
    requires ParamsOf(fns, params) && Sound(fns, desc) && Settled(params, desc, dyn_, fns)
    requires Grows(d0, map[], desc, dyn_)
    requires forall f, x :: f in fns ==> (x in DescOf(d0, f.name) <==> Seed(f, x))
    ensures Exact(fns, desc)
  {
    hide Seed, ParamsOf, Closed, DynLocals;
    forall f, x | f in fns && ReachesResize(fns, f, x) ensures x in DescOf(desc, f.name) {
      var links :| Chain(fns, links) && links[0] == (f, x);
      ClosedIsComplete(fns, params, desc, dyn_, links);
    }
  }
}
