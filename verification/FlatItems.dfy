/** What the recursive walks over bodies mean for the list of all items in emission order. */
module FlatItems {
  import opened Ir
  import AttachGroups
  import CallEdges
  import DynNames
  import HiddenEdges
  import Labels

  // ----- The items of a body at any depth -----

  /** `body` stands directly inside `it`. */
  predicate BodyOf(it: IrItem, body: seq<IrItem>) {
    match it
    case If(_, thenBody, elseBody) => body == thenBody || elseBody == Body(body)
    case While(_, inner) => body == inner
    case DoLoop(_, _, inner) => body == inner
    case For(_, _, _, _, inner) => body == inner
    case SelectCase(_, cases, default) => (exists c :: c in cases && c.body == body) || default == Body(body)
    case Compound(inner) => body == inner
    case _ => false
  }

  ghost predicate InBodyOf(x: IrItem, y: IrItem) {
    exists body :: BodyOf(y, body) && x in body
  }

  /** An item of the list has `x` directly inside; without `deep`, an item other than a Compound. */
  ghost predicate Deeper(x: IrItem, flat: seq<IrItem>, deep: bool) {
    exists y :: y in flat && (deep || !y.Compound?) && InBodyOf(x, y)
  }

  /** The items at any depth are those of the body and those of the bodies of such items. */
  lemma Flattened(items: seq<IrItem>, x: IrItem)
    ensures var flat := Labels.Flatten(items);
      x in flat <==> x in items || exists y, body :: y in flat && BodyOf(y, body) && x in body
  {
    hide BodyOf, Labels.Flatten;
    FlatIs(items, true, x);
    HiddenEdges.FlatIsEmission(items);
    var flat := Labels.Flatten(items);
    if y, body :| y in flat && BodyOf(y, body) && x in body {
      assert InBodyOf(x, y);
    }
  }

  /** The items outside every Compound are those of the body and those of the bodies of such items, unless they are
      Compounds. */
  lemma FlattenedShallow(items: seq<IrItem>, x: IrItem)
    ensures var flat := HiddenEdges.Flat(items, false);
      x in flat <==> x in items || exists y, body :: y in flat && !y.Compound? && BodyOf(y, body) && x in body
  {
    hide BodyOf, HiddenEdges.Flat;
    FlatIs(items, false, x);
    var flat := HiddenEdges.Flat(items, false);
    if y, body :| y in flat && !y.Compound? && BodyOf(y, body) && x in body {
      assert InBodyOf(x, y);
    }
  }

  lemma {:induction false} FlatIs(items: seq<IrItem>, deep: bool, x: IrItem)
    ensures x in HiddenEdges.Flat(items, deep) <==> x in items || Deeper(x, HiddenEdges.Flat(items, deep), deep)
    decreases items
  {
    hide InBodyOf, HiddenEdges.Inner;
    if items != [] {
      InnerIs(items[0], deep, x);
      FlatIs(items[1..], deep, x);
      assert items == [items[0]] + items[1..];
    }
  }

  lemma {:induction false} InnerIs(it: IrItem, deep: bool, x: IrItem)
    ensures x in HiddenEdges.Inner(it, deep) <==>
              ((deep || !it.Compound?) && InBodyOf(x, it)) || Deeper(x, HiddenEdges.Inner(it, deep), deep)
    decreases it
  {
    hide Deeper, HiddenEdges.Flat, HiddenEdges.FlatOpt, HiddenEdges.FlatCases;
    NoneDeeper(x, deep);
    if it.If? {
      FlatIs(it.thenBody, deep, x);
      OptIs(it.elseBody, deep, x);
      DeeperSplit(x, HiddenEdges.Flat(it.thenBody, deep), HiddenEdges.FlatOpt(it.elseBody, deep), deep);
      assert BodyOf(it, it.thenBody);
      assert it.elseBody.Body? ==> BodyOf(it, it.elseBody.items);
    } else if it.While? || it.DoLoop? || it.For? || it.Compound? {
      FlatIs(it.body, deep, x);
      assert BodyOf(it, it.body);
    } else if it.SelectCase? {
      CasesIs(it.cases, deep, x);
      OptIs(it.default, deep, x);
      DeeperSplit(x, HiddenEdges.FlatCases(it.cases, deep), HiddenEdges.FlatOpt(it.default, deep), deep);
      assert forall c :: c in it.cases ==> BodyOf(it, c.body);
      assert it.default.Body? ==> BodyOf(it, it.default.items);
    }
  }

  lemma NoneDeeper(x: IrItem, deep: bool)
    ensures !Deeper(x, [], deep)
  {
  }

  lemma DeeperSplit(x: IrItem, a: seq<IrItem>, b: seq<IrItem>, deep: bool)
    ensures Deeper(x, a + b, deep) <==> Deeper(x, a, deep) || Deeper(x, b, deep)
  {
    hide InBodyOf;
  }

  lemma {:induction false} OptIs(b: OptBody, deep: bool, x: IrItem)
    ensures x in HiddenEdges.FlatOpt(b, deep) <==>
              (b.Body? && x in b.items) || Deeper(x, HiddenEdges.FlatOpt(b, deep), deep)
    decreases b
  {
    hide Deeper, HiddenEdges.Flat;
    NoneDeeper(x, deep);
    if b.Body? {
      FlatIs(b.items, deep, x);
    }
  }

  lemma {:induction false} CasesIs(cases: seq<IrCaseClause>, deep: bool, x: IrItem)
    ensures x in HiddenEdges.FlatCases(cases, deep) <==>
              (exists c :: c in cases && x in c.body) || Deeper(x, HiddenEdges.FlatCases(cases, deep), deep)
    decreases cases
  {
    hide Deeper, HiddenEdges.Flat;
    NoneDeeper(x, deep);
    if cases != [] {
      FlatIs(cases[0].body, deep, x);
      CasesIs(cases[1..], deep, x);
      DeeperSplit(x, HiddenEdges.Flat(cases[0].body, deep), HiddenEdges.FlatCases(cases[1..], deep), deep);
      assert cases == [cases[0]] + cases[1..];
    }
  }

  /** The bodies of an item in the order of the text. */
  function BodiesOf(it: IrItem): seq<IrItem> {
    match it
    case If(_, thenBody, elseBody) => thenBody + OptItems(elseBody)
    case While(_, body) => body
    case DoLoop(_, _, body) => body
    case For(_, _, _, _, body) => body
    case SelectCase(_, cases, default) => CaseItems(cases) + OptItems(default)
    case Compound(body) => body
    case _ => []
  }

  function OptItems(b: OptBody): seq<IrItem> {
    if b.Body? then b.items else []
  }

  function CaseItems(cases: seq<IrCaseClause>): seq<IrItem> {
    if cases == [] then [] else cases[0].body + CaseItems(cases[1..])
  }

  lemma {:induction false} FlattenJoined(a: seq<IrItem>, b: seq<IrItem>)
    ensures Labels.Flatten(a + b) == Labels.Flatten(a) + Labels.Flatten(b)
  {
    hide Labels.Inside;
    if a == [] {
      assert a + b == b;
    } else {
      assert (a + b)[0] == a[0] && (a + b)[1..] == a[1..] + b;
      FlattenJoined(a[1..], b);
    }
  }

  lemma {:induction false} CasesJoined(cases: seq<IrCaseClause>)
    ensures Labels.FlattenCases(cases) == Labels.Flatten(CaseItems(cases))
  {
    hide Labels.Flatten;
    FlattenNone();
    if cases != [] {
      CasesJoined(cases[1..]);
      FlattenJoined(cases[0].body, CaseItems(cases[1..]));
    }
  }

  lemma FlattenNone()
    ensures Labels.Flatten([]) == []
  {
  }

  lemma FlattenOne(it: IrItem)
    ensures Labels.Flatten([it]) == [it] + Labels.Inside(it)
  {
    hide Labels.Inside;
    assert [it][1..] == [];
    FlattenNone();
  }

  /** Emission order: an item, then what its bodies hold in the order of the text, then what follows it. */
  lemma EmissionOrder(before: seq<IrItem>, it: IrItem, after: seq<IrItem>)
    ensures Labels.Flatten(before + [it] + after)
         == Labels.Flatten(before) + [it] + Labels.Flatten(BodiesOf(it)) + Labels.Flatten(after)
  {
    FlattenJoined(before + [it], after);
    FlattenJoined(before, [it]);
    FlattenOne(it);
    InsideBodies(it);
    hide Labels.Flatten, Labels.Inside, BodiesOf;
  }

  lemma InsideBodies(it: IrItem)
    ensures Labels.Inside(it) == Labels.Flatten(BodiesOf(it))
  {
    hide Labels.Flatten, Labels.FlattenCases, CaseItems;
    FlattenNone();
    if it.If? {
      FlattenJoined(it.thenBody, OptItems(it.elseBody));
    } else if it.SelectCase? {
      CasesJoined(it.cases);
      FlattenJoined(CaseItems(it.cases), OptItems(it.default));
    }
  }

  // ----- Names that are resized -----

  ghost predicate Resizes(it: IrItem, x: string) {
    it.Dim? && (it.redim || it.size.Some?) && it.symbol.name == x
  }

  ghost predicate SomeResizes(its: seq<IrItem>, x: string) {
    exists k :: 0 <= k < |its| && Resizes(its[k], x)
  }

  lemma ResizesSplit(a: seq<IrItem>, b: seq<IrItem>, x: string)
    ensures SomeResizes(a + b, x) <==> SomeResizes(a, x) || SomeResizes(b, x)
    ensures !SomeResizes([], x)
  {
    hide Resizes;
    var c := a + b;
    if k :| 0 <= k < |a| && Resizes(a[k], x) {
      assert c[k] == a[k];
    }
    if k :| 0 <= k < |b| && Resizes(b[k], x) {
      assert c[|a| + k] == b[k];
    }
    if k :| 0 <= k < |c| && Resizes(c[k], x) {
      assert c[k] == if k < |a| then a[k] else b[k - |a|];
    }
  }

  lemma ResizesOne(it: IrItem, x: string)
    ensures SomeResizes([it], x) <==> Resizes(it, x)
  {
    assert [it][0] == it;
  }

  /** A name is collected exactly when some item at any depth is a REDIM of it, or a DIM of it with a size. */
  lemma ResizedAre(items: seq<IrItem>, x: string)
    ensures x in CallEdges.ResizedNames(items) <==>
              exists it :: it in Labels.Flatten(items) && it.Dim? && (it.redim || it.size.Some?) && it.symbol.name == x
  {
    hide CallEdges.ResizedNames, Labels.Flatten;
    ResizedBody(items, x);
  }

  lemma {:induction false} ResizedBody(items: seq<IrItem>, x: string)
    ensures x in CallEdges.ResizedNames(items) <==> SomeResizes(Labels.Flatten(items), x)
    decreases items
  {
    hide SomeResizes, CallEdges.ResizedIn, Labels.Inside;
    ResizesSplit([], [], x);
    if items != [] {
      ResizedItem(items[0], x);
      ResizedBody(items[1..], x);
      ResizesSplit([items[0]] + Labels.Inside(items[0]), Labels.Flatten(items[1..]), x);
    }
  }

  lemma {:induction false} ResizedItem(it: IrItem, x: string)
    ensures x in CallEdges.ResizedIn(it) <==> SomeResizes([it] + Labels.Inside(it), x)
    decreases it
  {
    hide SomeResizes, CallEdges.ResizedNames, CallEdges.ResizedCases, Labels.Flatten, Labels.FlattenCases;
    ResizesOne(it, x);
    ResizesSplit([it], Labels.Inside(it), x);
    ResizesSplit([], [], x);
    if it.If? {
      ResizedBody(it.thenBody, x);
      ResizedOpt(it.elseBody, x);
      ResizesSplit(Labels.Flatten(it.thenBody), Labels.FlattenOpt(it.elseBody), x);
    } else if it.While? || it.For? || it.DoLoop? || it.Compound? {
      ResizedBody(it.body, x);
    } else if it.SelectCase? {
      ResizedClauses(it.cases, x);
      ResizedOpt(it.default, x);
      ResizesSplit(Labels.FlattenCases(it.cases), Labels.FlattenOpt(it.default), x);
    }
  }

  lemma {:induction false} ResizedOpt(b: OptBody, x: string)
    ensures x in CallEdges.ResizedBranch(b) <==> SomeResizes(Labels.FlattenOpt(b), x)
    decreases b
  {
    hide SomeResizes;
    ResizesSplit([], [], x);
    if b.Body? {
      ResizedBody(b.items, x);
    }
  }

  lemma {:induction false} ResizedClauses(cases: seq<IrCaseClause>, x: string)
    ensures x in CallEdges.ResizedCases(cases) <==> SomeResizes(Labels.FlattenCases(cases), x)
    decreases cases
  {
    hide SomeResizes, CallEdges.ResizedNames, Labels.Flatten;
    ResizesSplit([], [], x);
    if cases != [] {
      ResizedBody(cases[0].body, x);
      ResizedClauses(cases[1..], x);
      ResizesSplit(Labels.Flatten(cases[0].body), Labels.FlattenCases(cases[1..]), x);
    }
  }

  // ----- GOSUB in a body -----

  ghost predicate SomeGosub(its: seq<IrItem>) {
    exists k :: 0 <= k < |its| && (its[k].Gosub? || its[k].GosubExpr? || its[k].GosubReturn?)
  }

  lemma GosubSplit(a: seq<IrItem>, b: seq<IrItem>)
    ensures SomeGosub(a + b) <==> SomeGosub(a) || SomeGosub(b)
    ensures !SomeGosub([])
  {
    var c := a + b;
    assert forall k :: 0 <= k < |a| ==> c[k] == a[k];
    assert forall k :: 0 <= k < |b| ==> c[|a| + k] == b[k];
  }

  lemma GosubOne(it: IrItem)
    ensures SomeGosub([it]) <==> it.Gosub? || it.GosubExpr? || it.GosubReturn?
  {
    assert [it][0] == it;
  }

  /** A body uses GOSUB exactly when some item at any depth is a GOSUB, a computed one, or its RETURN. */
  lemma GosubExactly(items: seq<IrItem>)
    ensures DynNames.HasGosub(items) <==>
              exists it :: it in Labels.Flatten(items) && (it.Gosub? || it.GosubExpr? || it.GosubReturn?)
  {
    hide DynNames.HasGosub, Labels.Flatten;
    GosubBody(items);
  }

  lemma {:induction false} GosubBody(items: seq<IrItem>)
    ensures DynNames.HasGosub(items) <==> SomeGosub(Labels.Flatten(items))
    decreases items
  {
    hide SomeGosub, DynNames.GosubIn, Labels.Inside;
    GosubSplit([], []);
    if items != [] {
      GosubItem(items[0]);
      GosubBody(items[1..]);
      GosubSplit([items[0]] + Labels.Inside(items[0]), Labels.Flatten(items[1..]));
    }
  }

  lemma {:induction false} GosubItem(it: IrItem)
    ensures DynNames.GosubIn(it) <==> SomeGosub([it] + Labels.Inside(it))
    decreases it
  {
    hide SomeGosub, DynNames.HasGosub, DynNames.SomeCaseGosub, Labels.Flatten, Labels.FlattenCases;
    GosubOne(it);
    GosubSplit([it], Labels.Inside(it));
    GosubSplit([], []);
    if it.If? {
      GosubBody(it.thenBody);
      GosubOpt(it.elseBody);
      GosubSplit(Labels.Flatten(it.thenBody), Labels.FlattenOpt(it.elseBody));
    } else if it.While? || it.For? || it.DoLoop? || it.Compound? {
      GosubBody(it.body);
    } else if it.SelectCase? {
      GosubClauses(it.cases);
      GosubOpt(it.default);
      GosubSplit(Labels.FlattenCases(it.cases), Labels.FlattenOpt(it.default));
    }
  }

  lemma {:induction false} GosubOpt(b: OptBody)
    ensures (b.Body? && DynNames.HasGosub(b.items)) <==> SomeGosub(Labels.FlattenOpt(b))
    decreases b
  {
    hide SomeGosub;
    GosubSplit([], []);
    if b.Body? {
      GosubBody(b.items);
    }
  }

  lemma {:induction false} GosubClauses(cases: seq<IrCaseClause>)
    ensures DynNames.SomeCaseGosub(cases) <==> SomeGosub(Labels.FlattenCases(cases))
    decreases cases
  {
    hide SomeGosub, DynNames.HasGosub, Labels.Flatten;
    GosubSplit([], []);
    if cases != [] {
      GosubBody(cases[0].body);
      GosubClauses(cases[1..]);
      GosubSplit(Labels.Flatten(cases[0].body), Labels.FlattenCases(cases[1..]));
    }
  }

  // ----- ATTACH links -----

  /** The links of a list of items that are looked at one by one. */
  function FlatLinks(bar: AttachGroups.Barred, its: seq<IrItem>): seq<AttachGroups.Link> {
    if its == [] then []
    else
      var it, tail := its[0], FlatLinks(bar, its[1..]);
      if it.Attach? && !it.leftIsRow && !it.rightIsRow && |it.leftIndices| + |it.rightIndices| == 0
         && it.left.valueType == it.right.valueType
         && !Bars(bar, it.left.name) && !Bars(bar, it.right.name)
      then [AttachGroups.Link(it.left.name, it.right.name, it.left.valueType)] + tail
      else tail
  }

  predicate Bars(bar: AttachGroups.Barred, n: string) {
    n in bar.params + bar.descriptors + bar.descriptorLocals + bar.dualUse + bar.shared
  }

  lemma {:induction false} FlatLinksJoined(bar: AttachGroups.Barred, a: seq<IrItem>, b: seq<IrItem>)
    ensures FlatLinks(bar, a + b) == FlatLinks(bar, a) + FlatLinks(bar, b)
  {
    hide Bars;
    if a == [] {
      assert a + b == b;
    } else {
      assert (a + b)[0] == a[0] && (a + b)[1..] == a[1..] + b;
      FlatLinksJoined(bar, a[1..], b);
    }
  }

  lemma FlatLinksOne(bar: AttachGroups.Barred, it: IrItem)
    ensures FlatLinks(bar, [it]) == (
      if AttachGroups.MakesLink(bar, it)
      then [AttachGroups.Link(it.left.name, it.right.name, it.left.valueType)] else [])
    ensures FlatLinks(bar, []) == []
  {
    assert [it][1..] == [];
  }

  /** The links of a body are those of its items at any depth, in emission order: of the whole-array ATTACHes
      between two arrays of one type that nothing bars. */
  lemma {:induction false} LinksAre(bar: AttachGroups.Barred, items: seq<IrItem>)
    ensures AttachGroups.Links(bar, items) == FlatLinks(bar, Labels.Flatten(items))
    decreases items
  {
    hide AttachGroups.ItemLinks, FlatLinks, Labels.Inside;
    if items == [] {
      FlatLinksNone(bar);
    } else {
      ItemLinksAre(bar, items[0]);
      LinksAre(bar, items[1..]);
      FlatLinksJoined(bar, [items[0]] + Labels.Inside(items[0]), Labels.Flatten(items[1..]));
    }
  }

  lemma FlatLinksNone(bar: AttachGroups.Barred)
    ensures FlatLinks(bar, []) == []
  {
  }

  lemma {:induction false} ItemLinksAre(bar: AttachGroups.Barred, it: IrItem)
    ensures AttachGroups.ItemLinks(bar, it) == FlatLinks(bar, [it] + Labels.Inside(it))
    decreases it
  {
    hide AttachGroups.Linkable, AttachGroups.Links, AttachGroups.CaseLinks, FlatLinks;
    hide Labels.Flatten, Labels.FlattenCases;
    FlatLinksOne(bar, it);
    FlatLinksJoined(bar, [it], Labels.Inside(it));
    if it.If? {
      LinksAre(bar, it.thenBody);
      BranchLinksAre(bar, it.elseBody);
      FlatLinksJoined(bar, Labels.Flatten(it.thenBody), Labels.FlattenOpt(it.elseBody));
    } else if it.While? || it.DoLoop? || it.For? || it.Compound? {
      LinksAre(bar, it.body);
    } else if it.SelectCase? {
      CaseLinksAre(bar, it.cases);
      BranchLinksAre(bar, it.default);
      FlatLinksJoined(bar, Labels.FlattenCases(it.cases), Labels.FlattenOpt(it.default));
    }
  }

  lemma {:induction false} BranchLinksAre(bar: AttachGroups.Barred, b: OptBody)
    ensures AttachGroups.BranchLinks(bar, b) == FlatLinks(bar, Labels.FlattenOpt(b))
    decreases b
  {
    if b.Body? {
      LinksAre(bar, b.items);
    }
  }

  lemma {:induction false} CaseLinksAre(bar: AttachGroups.Barred, cases: seq<IrCaseClause>)
    ensures AttachGroups.CaseLinks(bar, cases) == FlatLinks(bar, Labels.FlattenCases(cases))
    decreases cases
  {
    hide AttachGroups.Links, FlatLinks, Labels.Flatten;
    FlatLinksNone(bar);
    if cases != [] {
      LinksAre(bar, cases[0].body);
      CaseLinksAre(bar, cases[1..]);
      FlatLinksJoined(bar, Labels.Flatten(cases[0].body), Labels.FlattenCases(cases[1..]));
    }
  }
}
