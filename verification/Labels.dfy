/** Making the labels of a function body distinct: flatten, rename later duplicates, rebuild by index. */
module Labels {
  import opened Ir

  // ----- Emission order -----

  /** All items in emission order (depth-first, parents first); nested functions are not entered. */
  function Flatten(items: seq<IrItem>): seq<IrItem>
    decreases items
  {
    if items == [] then [] else [items[0]] + Inside(items[0]) + Flatten(items[1..])
  }

  function Inside(it: IrItem): seq<IrItem>
    decreases it
  {
    match it
    case If(_, thenBody, elseBody) => Flatten(thenBody) + FlattenOpt(elseBody)
    case While(_, body) => Flatten(body)
    case For(_, _, _, _, body) => Flatten(body)
    case DoLoop(_, _, body) => Flatten(body)
    case SelectCase(_, cases, default) => FlattenCases(cases) + FlattenOpt(default)
    case Compound(body) => Flatten(body)
    case _ => []
  }

  function FlattenOpt(b: OptBody): seq<IrItem>
    decreases b
  {
    if b.NoBody? then [] else Flatten(b.items)
  }

  function FlattenCases(cases: seq<IrCaseClause>): seq<IrItem>
    decreases cases
  {
    if cases == [] then [] else Flatten(cases[0].body) + FlattenCases(cases[1..])
  }

  /** The walk that pushes onto one vector. */
  method FlattenInto(items: seq<IrItem>, out: seq<IrItem>) returns (r: seq<IrItem>)
    ensures r == out + Flatten(items)
    decreases items
  {
    hide Inside;
    r := out;
    for k := 0 to |items|
      invariant r + Flatten(items[k..]) == out + Flatten(items)
    {
      var it := items[k];
      assert items[k..][0] == it && items[k..][1..] == items[k + 1..];
      ghost var before := r;
      r := FlattenInside(it, r + [it]);
      assert r + Flatten(items[k + 1..]) == before + ([it] + Inside(it) + Flatten(items[k + 1..]));
    }
  }

  method FlattenInside(it: IrItem, out: seq<IrItem>) returns (r: seq<IrItem>)
    ensures r == out + Inside(it)
    decreases it
  {
    hide Flatten, FlattenCases, FlattenOpt;
    r := out;
    if it.If? {
      r := FlattenInto(it.thenBody, r);
      r := FlattenBranch(it.elseBody, r);
      assert r == out + (Flatten(it.thenBody) + FlattenOpt(it.elseBody));
    } else if it.While? || it.For? || it.DoLoop? || it.Compound? {
      r := FlattenInto(it.body, r);
    } else if it.SelectCase? {
      r := FlattenClauses(it.cases, r);
      r := FlattenBranch(it.default, r);
      assert r == out + (FlattenCases(it.cases) + FlattenOpt(it.default));
    }
  }

  method FlattenBranch(b: OptBody, out: seq<IrItem>) returns (r: seq<IrItem>)
    ensures r == out + FlattenOpt(b)
    decreases b
  {
    r := out;
    if b.Body? {
      r := FlattenInto(b.items, r);
    }
  }

  method FlattenClauses(cases: seq<IrCaseClause>, out: seq<IrItem>) returns (r: seq<IrItem>)
    ensures r == out + FlattenCases(cases)
    decreases cases
  {
    r := out;
    assert cases[0..] == cases;
    for c := 0 to |cases|
      invariant r + FlattenCases(cases[c..]) == out + FlattenCases(cases)
    {
      assert cases[c..][0] == cases[c] && cases[c..][1..] == cases[c + 1..];
      ghost var here := r;
      r := FlattenInto(cases[c].body, r);
      assert r + FlattenCases(cases[c + 1..]) == here + (Flatten(cases[c].body) + FlattenCases(cases[c + 1..]));
    }
    assert cases[|cases|..] == [];
  }

  // ----- Occurrences -----

  /** Positions of the label `n`, in increasing order. */
  function Positions(flat: seq<IrItem>, n: string): seq<nat> {
    if flat == [] then []
    else
      var last := |flat| - 1;
      Positions(flat[..last], n) + (if flat[last] == Label(n) then [last] else [])
  }

  /** How many earlier labels have the same name. */
  function Rank(flat: seq<IrItem>, p: nat): nat
    requires p < |flat| && flat[p].Label?
  {
    |Positions(flat[..p], flat[p].labelName)|
  }

  function Decimal(k: nat): (r: string)
    ensures |r| > 0 && forall i :: 0 <= i < |r| ==> '0' <= r[i] <= '9'
  {
    if k < 10 then ["0123456789"[k]] else Decimal(k / 10) + ["0123456789"[k % 10]]
  }

  /** The number that a string of digits stands for. */
  function NumberOf(s: string): int {
    if s == "" then 0 else 10 * NumberOf(s[..|s| - 1]) + (s[|s| - 1] as int - 48)
  }

  lemma {:induction false} DecimalIs(k: nat)
    ensures NumberOf(Decimal(k)) == k && (k > 0 ==> Decimal(k)[0] != '0')
  {
    if k < 10 {
      assert Decimal(k)[..0] == "";
    } else {
      DecimalIs(k / 10);
      assert Decimal(k)[..|Decimal(k)| - 1] == Decimal(k / 10);
    }
  }

  function DupName(n: string, k: nat): string {
    n + "_dup" + Decimal(k)
  }

  /** The name the label at `p` ends up with. */
  function NewLabel(flat: seq<IrItem>, p: nat): string
    requires p < |flat| && flat[p].Label?
  {
    if Rank(flat, p) == 0 then flat[p].labelName else DupName(flat[p].labelName, Rank(flat, p))
  }

  /** Index into an increasing list of the first position after `i`, or the length when there is none. */
  function FirstAfter(ps: seq<nat>, i: nat): (k: nat)
    ensures k <= |ps| && (forall j :: 0 <= j < k ==> ps[j] <= i) && (k < |ps| ==> ps[k] > i)
  {
    if ps == [] || ps[0] > i then 0
    else
      var k := FirstAfter(ps[1..], i);
      assert forall j :: 0 < j < 1 + k ==> ps[j] == ps[1..][j - 1];
      1 + k
  }

  lemma {:induction false} PositionsPrefix(flat: seq<IrItem>, n: string, m: nat)
    requires m <= |flat|
    ensures Positions(flat[..m], n) <= Positions(flat, n)
  {
    if m < |flat| {
      var last := |flat| - 1;
      assert flat[..last][..m] == flat[..m];
      PositionsPrefix(flat[..last], n, m);
    } else {
      assert flat[..m] == flat;
    }
  }

  lemma {:induction false} PositionsSound(flat: seq<IrItem>, n: string)
    ensures forall k :: 0 <= k < |Positions(flat, n)| ==>
      var p := Positions(flat, n)[k];
      p < |flat| && flat[p] == Label(n) && |Positions(flat[..p], n)| == k
    ensures forall j, k :: 0 <= j < k < |Positions(flat, n)| ==> Positions(flat, n)[j] < Positions(flat, n)[k]
  {
    if flat != [] {
      var last := |flat| - 1;
      PositionsSound(flat[..last], n);
      forall k | 0 <= k < |Positions(flat[..last], n)|
        ensures var p := Positions(flat, n)[k]; flat[..last][..p] == flat[..p]
      {
      }
    }
  }

  lemma PositionsComplete(flat: seq<IrItem>, p: nat)
    requires p < |flat| && flat[p].Label?
    ensures var n := flat[p].labelName;
            Rank(flat, p) < |Positions(flat, n)| && Positions(flat, n)[Rank(flat, p)] == p
  {
    var n := flat[p].labelName;
    assert flat[..p + 1][..p] == flat[..p];
    assert Positions(flat[..p + 1], n) == Positions(flat[..p], n) + [p];
    PositionsPrefix(flat, n, p + 1);
  }

  /** The position a jump from `i` to the label name `n` is meant to reach: the next occurrence, else the first. */
  function TargetOf(flat: seq<IrItem>, i: nat, n: string): (t: nat)
    requires Positions(flat, n) != []
    ensures t < |flat| && flat[t] == Label(n)
  {
    PositionsSound(flat, n);
    var ps := Positions(flat, n);
    var k := FirstAfter(ps, i);
    if k < |ps| then ps[k] else ps[0]
  }

  // ----- Generated names are unambiguous -----

  lemma {:induction false} DecimalInjective(j: nat, k: nat)
    requires Decimal(j) == Decimal(k)
    ensures j == k
  {
    var d := "0123456789";
    assert forall a, b :: 0 <= a < 10 && 0 <= b < 10 && d[a] == d[b] ==> a == b;
    if j < 10 || k < 10 {
      assert j >= 10 ==> |Decimal(j)| > 1;
      assert k >= 10 ==> |Decimal(k)| > 1;
    } else {
      var s := Decimal(j);
      assert s[..|s| - 1] == Decimal(j / 10) && s[|s| - 1] == d[j % 10];
      assert s[..|s| - 1] == Decimal(k / 10) && s[|s| - 1] == d[k % 10];
      DecimalInjective(j / 10, k / 10);
    }
  }

  lemma DupNameInjective(n: string, k: nat, n': string, k': nat)
    requires DupName(n, k) == DupName(n', k')
    ensures n == n' && k == k'
  {
    var s := DupName(n, k);
    LastUnderscore(n, k);
    LastUnderscore(n', k');
    assert |n| == |n'|;
    assert n == s[..|n|] == n';
    assert Decimal(k) == s[|n| + 4..] == Decimal(k');
    DecimalInjective(k, k');
  }

  lemma LastUnderscore(n: string, k: nat)
    ensures var s := DupName(n, k); s[|n|] == '_' && forall i :: |n| < i < |s| ==> s[i] != '_'
  {
    var s := DupName(n, k);
    assert s[|n|..|n| + 4] == "_dup";
    forall i | |n| < i < |s| ensures s[i] != '_' {
      if i < |n| + 4 {
        assert s[i] == "_dup"[i - |n|];
      } else {
        assert s[i] == Decimal(k)[i - |n| - 4];
      }
    }
  }

  // ----- Rebuilding the tree with a running index -----

  /** New names by position in emission order, for labels and for jumps. */
  datatype Renaming = Renaming(labels: map<nat, string>, gotos: map<nat, string>)

  function Rename(it: IrItem, i: nat, ren: Renaming): IrItem {
    match it
    case Label(n) => if i in ren.labels then Label(ren.labels[i]) else it
    case Goto(n) => if i in ren.gotos then Goto(ren.gotos[i]) else it
    case _ => it
  }

  function Rebuild(items: seq<IrItem>, i: nat, ren: Renaming): seq<IrItem>
    decreases items
  {
    if items == [] then []
    else [RebuildItem(items[0], i, ren)] + Rebuild(items[1..], i + 1 + |Inside(items[0])|, ren)
  }

  /** The item at index `i`, with what is inside it numbered from `i + 1`. */
  function RebuildItem(it: IrItem, i: nat, ren: Renaming): IrItem
    decreases it
  {
    match it
    case If(condition, thenBody, elseBody) =>
      If(condition, Rebuild(thenBody, i + 1, ren), RebuildOpt(elseBody, i + 1 + |Flatten(thenBody)|, ren))
    case While(condition, body) => While(condition, Rebuild(body, i + 1, ren))
    case DoLoop(pre, post, body) => DoLoop(pre, post, Rebuild(body, i + 1, ren))
    case For(v, start, end, step, body) => For(v, start, end, step, Rebuild(body, i + 1, ren))
    case SelectCase(selector, cases, default) =>
      SelectCase(selector, RebuildCases(cases, i + 1, ren), RebuildOpt(default, i + 1 + |FlattenCases(cases)|, ren))
    case Compound(body) => Compound(Rebuild(body, i + 1, ren))
    case _ => Rename(it, i, ren)
  }

  function RebuildOpt(b: OptBody, i: nat, ren: Renaming): OptBody
    decreases b
  {
    if b.NoBody? then NoBody else Body(Rebuild(b.items, i, ren))
  }

  function RebuildCases(cases: seq<IrCaseClause>, i: nat, ren: Renaming): seq<IrCaseClause>
    decreases cases
  {
    if cases == [] then []
    else [IrCaseClause(cases[0].conditions, Rebuild(cases[0].body, i, ren))]
         + RebuildCases(cases[1..], i + |Flatten(cases[0].body)|, ren)
  }

  /** The walk with its index counter: the counter always equals the item's position in emission order. */
  method RebuildInto(items: seq<IrItem>, idx: nat, ren: Renaming) returns (out: seq<IrItem>, next: nat)
    ensures out == Rebuild(items, idx, ren) && next == idx + |Flatten(items)|
    decreases items
  {
    hide Inside, RebuildItem;
    out, next := [], idx;
    assert items[0..] == items;
    for k := 0 to |items|
      invariant next + |Flatten(items[k..])| == idx + |Flatten(items)|
      invariant out + Rebuild(items[k..], next, ren) == Rebuild(items, idx, ren)
    {
      assert items[k..][0] == items[k] && items[k..][1..] == items[k + 1..];
      ghost var rest := Rebuild(items[k + 1..], next + 1 + |Inside(items[k])|, ren);
      var it;
      it, next := RebuildOne(items[k], next, ren);
      assert out + [it] + rest == out + ([it] + rest);
      out := out + [it];
    }
    assert items[|items|..] == [] && out + [] == out;
  }

  method RebuildOne(it: IrItem, idx: nat, ren: Renaming) returns (r: IrItem, next: nat)
    ensures r == RebuildItem(it, idx, ren) && next == idx + 1 + |Inside(it)|
    decreases it
  {
    hide Flatten, Rebuild, FlattenCases, RebuildCases, FlattenOpt, RebuildOpt;
    next := idx + 1;
    var b;
    if it.If? {
      b, next := RebuildInto(it.thenBody, next, ren);
      var eb;
      eb, next := RebuildBranch(it.elseBody, next, ren);
      r := If(it.condition, b, eb);
    } else if it.While? {
      b, next := RebuildInto(it.body, next, ren);
      r := While(it.condition, b);
    } else if it.DoLoop? {
      b, next := RebuildInto(it.body, next, ren);
      r := DoLoop(it.preCondition, it.postCondition, b);
    } else if it.For? {
      b, next := RebuildInto(it.body, next, ren);
      r := For(it.loopVar, it.start, it.end, it.step, b);
    } else if it.SelectCase? {
      var cs, d;
      cs, next := RebuildClauses(it.cases, next, ren);
      d, next := RebuildBranch(it.default, next, ren);
      r := SelectCase(it.selector, cs, d);
    } else if it.Compound? {
      b, next := RebuildInto(it.body, next, ren);
      r := Compound(b);
    } else {
      r := Rename(it, idx, ren);
    }
  }

  method RebuildBranch(b: OptBody, idx: nat, ren: Renaming) returns (r: OptBody, next: nat)
    ensures r == RebuildOpt(b, idx, ren) && next == idx + |FlattenOpt(b)|
    decreases b
  {
    r, next := NoBody, idx;
    if b.Body? {
      var v;
      v, next := RebuildInto(b.items, next, ren);
      r := Body(v);
    }
  }

  method RebuildClauses(cases: seq<IrCaseClause>, idx: nat, ren: Renaming) returns (cs: seq<IrCaseClause>, next: nat)
    ensures cs == RebuildCases(cases, idx, ren) && next == idx + |FlattenCases(cases)|
    decreases cases
  {
    cs, next := [], idx;
    assert cases[0..] == cases;
    for c := 0 to |cases|
      invariant next + |FlattenCases(cases[c..])| == idx + |FlattenCases(cases)|
      invariant cs + RebuildCases(cases[c..], next, ren) == RebuildCases(cases, idx, ren)
    {
      assert cases[c..][0] == cases[c] && cases[c..][1..] == cases[c + 1..];
      ghost var rest := RebuildCases(cases[c + 1..], next + |Flatten(cases[c].body)|, ren);
      var b;
      b, next := RebuildInto(cases[c].body, next, ren);
      var clause := IrCaseClause(cases[c].conditions, b);
      assert cs + [clause] + rest == cs + ([clause] + rest);
      cs := cs + [clause];
    }
    assert cases[|cases|..] == [] && cs + [] == cs;
  }

  // ----- Rebuilding changes names only -----

  /** Equal up to the names of labels and jump targets. */
  predicate SameButNames(a: seq<IrItem>, b: seq<IrItem>)
    decreases a
  {
    |a| == |b| && (a != [] ==> SameItem(a[0], b[0]) && SameButNames(a[1..], b[1..]))
  }

  predicate SameItem(a: IrItem, b: IrItem)
    decreases a
  {
    match a
    case Label(_) => b.Label?
    case Goto(_) => b.Goto?
    case If(c, t, e) => b.If? && b.condition == c && SameButNames(t, b.thenBody) && SameOpt(e, b.elseBody)
    case While(c, body) => b.While? && b.condition == c && SameButNames(body, b.body)
    case DoLoop(pre, post, body) =>
      b.DoLoop? && b.preCondition == pre && b.postCondition == post && SameButNames(body, b.body)
    case For(v, start, end, step, body) =>
      && b.For? && b.loopVar == v && b.start == start && b.end == end && b.step == step
      && SameButNames(body, b.body)
    case SelectCase(s, cases, d) =>
      b.SelectCase? && b.selector == s && SameCases(cases, b.cases) && SameOpt(d, b.default)
    case Compound(body) => b.Compound? && SameButNames(body, b.body)
    case _ => a == b
  }

  predicate SameOpt(a: OptBody, b: OptBody)
    decreases a
  {
    a.Body? == b.Body? && (a.Body? ==> SameButNames(a.items, b.items))
  }

  predicate SameCases(a: seq<IrCaseClause>, b: seq<IrCaseClause>)
    decreases a
  {
    && |a| == |b|
    && (a != [] ==>
          a[0].conditions == b[0].conditions && SameButNames(a[0].body, b[0].body) && SameCases(a[1..], b[1..]))
  }

  /** Position by position, `b` is `a` with the items at `i`, `i + 1`, .. renamed; containers count as equal. */
  ghost predicate Renamed(a: seq<IrItem>, b: seq<IrItem>, i: nat, ren: Renaming) {
    && |a| == |b|
    && forall k :: 0 <= k < |a| ==>
         if a[k].Label? || a[k].Goto? then b[k] == Rename(a[k], i + k, ren) else !b[k].Label? && !b[k].Goto?
  }

  lemma RenamedConcat(a: seq<IrItem>, b: seq<IrItem>, a': seq<IrItem>, b': seq<IrItem>, i: nat, ren: Renaming)
    requires Renamed(a, b, i, ren) && Renamed(a', b', i + |a|, ren)
    ensures Renamed(a + a', b + b', i, ren)
  {
  }

  lemma {:induction false} RebuildRenames(items: seq<IrItem>, i: nat, ren: Renaming)
    ensures var out := Rebuild(items, i, ren);
            SameButNames(items, out) && Renamed(Flatten(items), Flatten(out), i, ren)
    decreases items
  {
    hide Renamed, Inside, RebuildItem;
    if items == [] {
      assert Renamed([], [], i, ren) by {
        NothingRenamed(i, ren);
      }
    } else {
      var it := items[0];
      RebuildItemRenames(it, i, ren);
      RebuildRenames(items[1..], i + 1 + |Inside(it)|, ren);
      var out := Rebuild(items, i, ren);
      assert out[0] == RebuildItem(it, i, ren) && out[1..] == Rebuild(items[1..], i + 1 + |Inside(it)|, ren);
      RenamedConcat([it] + Inside(it), [out[0]] + Inside(out[0]), Flatten(items[1..]), Flatten(out[1..]), i, ren);
    }
  }

  lemma NothingRenamed(i: nat, ren: Renaming)
    ensures Renamed([], [], i, ren)
  {
  }

  lemma OneRenamed(a: IrItem, b: IrItem, i: nat, ren: Renaming)
    requires if a.Label? || a.Goto? then b == Rename(a, i, ren) else !b.Label? && !b.Goto?
    ensures Renamed([a], [b], i, ren)
  {
  }

  lemma {:induction false} RebuildItemRenames(it: IrItem, i: nat, ren: Renaming)
    ensures var r := RebuildItem(it, i, ren);
            SameItem(it, r) && Renamed([it] + Inside(it), [r] + Inside(r), i, ren)
    decreases it
  {
    hide Renamed, Rebuild, Flatten, SameButNames, FlattenOpt, FlattenCases;
    hide RebuildOpt, RebuildCases, SameOpt, SameCases;
    var r := RebuildItem(it, i, ren);
    OneRenamed(it, r, i, ren);
    NothingRenamed(i + 1, ren);
    if it.If? {
      RebuildRenames(it.thenBody, i + 1, ren);
      RebuildOptRenames(it.elseBody, i + 1 + |Flatten(it.thenBody)|, ren);
      RenamedConcat(Flatten(it.thenBody), Flatten(r.thenBody), FlattenOpt(it.elseBody),
                    FlattenOpt(r.elseBody), i + 1, ren);
    } else if it.While? || it.For? || it.DoLoop? || it.Compound? {
      RebuildRenames(it.body, i + 1, ren);
    } else if it.SelectCase? {
      RebuildCasesRenames(it.cases, i + 1, ren);
      RebuildOptRenames(it.default, i + 1 + |FlattenCases(it.cases)|, ren);
      RenamedConcat(FlattenCases(it.cases), FlattenCases(r.cases), FlattenOpt(it.default),
                    FlattenOpt(r.default), i + 1, ren);
    }
    RenamedConcat([it], [r], Inside(it), Inside(r), i, ren);
  }

  lemma {:induction false} RebuildOptRenames(b: OptBody, i: nat, ren: Renaming)
    ensures var r := RebuildOpt(b, i, ren);
            SameOpt(b, r) && Renamed(FlattenOpt(b), FlattenOpt(r), i, ren)
    decreases b
  {
    hide Renamed, Rebuild, Flatten, SameButNames;
    NothingRenamed(i, ren);
    if b.Body? {
      RebuildRenames(b.items, i, ren);
    }
  }

  lemma {:induction false} RebuildCasesRenames(cases: seq<IrCaseClause>, i: nat, ren: Renaming)
    ensures var r := RebuildCases(cases, i, ren);
            SameCases(cases, r) && Renamed(FlattenCases(cases), FlattenCases(r), i, ren)
    decreases cases
  {
    hide Renamed, Rebuild, Flatten, SameButNames;
    NothingRenamed(i, ren);
    if cases != [] {
      var first := cases[0].body;
      RebuildRenames(first, i, ren);
      RebuildCasesRenames(cases[1..], i + |Flatten(first)|, ren);
      var r := RebuildCases(cases, i, ren);
      assert r[1..] == RebuildCases(cases[1..], i + |Flatten(first)|, ren);
      RenamedConcat(Flatten(first), Flatten(r[0].body), FlattenCases(cases[1..]), FlattenCases(r[1..]), i, ren);
    }
  }

  // ----- The pass -----

  /** A label whose name occurred before. */
  predicate IsLater(flat: seq<IrItem>, p: nat) {
    p < |flat| && flat[p].Label? && Rank(flat, p) > 0
  }

  ghost predicate HasDuplicate(flat: seq<IrItem>) {
    exists p: nat :: IsLater(flat, p)
  }

  /** A jump to a name that occurs more than once. */
  predicate JumpsToDuplicate(flat: seq<IrItem>, i: nat) {
    i < |flat| && flat[i].Goto? && |Positions(flat, flat[i].labelName)| > 1
  }

  function JumpName(flat: seq<IrItem>, i: nat): string
    requires JumpsToDuplicate(flat, i)
  {
    NewLabel(flat, TargetOf(flat, i, flat[i].labelName))
  }

  /** The renaming the pass decides on: later occurrences get a numbered name, and jumps to a duplicated
      name get the new name of the occurrence they are meant to reach. */
  function Decided(flat: seq<IrItem>): Renaming {
    Renaming(
      map p: nat | p < |flat| && IsLater(flat, p) :: NewLabel(flat, p),
      map i: nat | i < |flat| && JumpsToDuplicate(flat, i) :: JumpName(flat, i))
  }

  method CollectOccurrences(flat: seq<IrItem>) returns (occ: map<string, seq<nat>>)
    ensures forall n :: n in occ <==> Positions(flat, n) != []
    ensures forall n :: n in occ ==> occ[n] == Positions(flat, n)
  {
    occ := map[];
    for i := 0 to |flat|
      invariant forall n :: n in occ <==> Positions(flat[..i], n) != []
      invariant forall n :: n in occ ==> occ[n] == Positions(flat[..i], n)
    {
      assert flat[..i + 1][..i] == flat[..i];
      if flat[i].Label? {
        var n := flat[i].labelName;
        occ := occ[n := (if n in occ then occ[n] else []) + [i]];
      }
    }
    assert flat[..|flat|] == flat;
  }

  /** The loop over the names, in any order, and over each name's later occurrences. */
  method RenameLabels(flat: seq<IrItem>, occ: map<string, seq<nat>>) returns (rename: map<nat, string>)
    requires forall n :: n in occ <==> Positions(flat, n) != []
    requires forall n :: n in occ ==> occ[n] == Positions(flat, n)
    ensures forall p: nat :: p in rename <==> IsLater(flat, p)
    ensures forall p: nat :: p in rename ==> IsLater(flat, p) && rename[p] == NewLabel(flat, p)
  {
    hide Positions, DupName;
    rename := map[];
    var todo := occ.Keys;
    forall p | 0 <= p < |flat| && flat[p].Label? ensures flat[p].labelName in occ {
      PositionsComplete(flat, p);
    }
    while todo != {}
      invariant todo <= occ.Keys
      invariant forall p: nat :: p in rename <==> IsLater(flat, p) && flat[p].labelName !in todo
      invariant forall p: nat :: p in rename ==> rename[p] == NewLabel(flat, p)
      decreases todo
    {
      var n :| n in todo;
      rename := RenameOne(flat, n, occ[n], rename);
      todo := todo - {n};
    }
  }

  method RenameOne(flat: seq<IrItem>, n: string, positions: seq<nat>, before: map<nat, string>)
    returns (rename: map<nat, string>)
    requires positions == Positions(flat, n) && positions != []
    ensures forall p: nat :: p in rename <==>
              p in before || (IsLater(flat, p) && flat[p] == Label(n))
    ensures forall p: nat :: p in rename ==>
              rename[p] == if IsLater(flat, p) && flat[p] == Label(n) then NewLabel(flat, p) else before[p]
  {
    hide Positions, DupName;
    PositionsSound(flat, n);
    forall p | 0 <= p < |flat| && flat[p] == Label(n)
      ensures Rank(flat, p) < |positions| && positions[Rank(flat, p)] == p
    {
      PositionsComplete(flat, p);
    }
    rename := before;
    for k := 1 to |positions|
      invariant forall p: nat :: p in rename <==>
                  p in before || (IsLater(flat, p) && flat[p] == Label(n) && Rank(flat, p) < k)
      invariant forall p: nat :: p in rename ==>
                  rename[p] == if IsLater(flat, p) && flat[p] == Label(n) && Rank(flat, p) < k then NewLabel(flat, p)
                  else before[p]
    {
      rename := rename[positions[k] := DupName(n, k)];
    }
  }

  method FindFirstAfter(ps: seq<nat>, i: nat) returns (k: nat)
    requires forall a, b :: 0 <= a < b < |ps| ==> ps[a] < ps[b]
    ensures k == FirstAfter(ps, i)
  {
    k := 0;
    while k < |ps| && ps[k] <= i
      invariant k <= |ps| && forall j :: 0 <= j < k ==> ps[j] <= i
    {
      k := k + 1;
    }
  }

  /** The loop over the jumps. */
  method ResolveGotos(flat: seq<IrItem>, occ: map<string, seq<nat>>, rename: map<nat, string>)
    returns (gotos: map<nat, string>)
    requires forall n :: n in occ <==> Positions(flat, n) != []
    requires forall n :: n in occ ==> occ[n] == Positions(flat, n)
    requires forall p: nat :: p in rename <==> IsLater(flat, p)
    requires forall p: nat :: p in rename ==> IsLater(flat, p) && rename[p] == NewLabel(flat, p)
    ensures forall j: nat :: j in gotos <==> JumpsToDuplicate(flat, j)
    ensures forall j: nat :: j in gotos ==> JumpsToDuplicate(flat, j) && gotos[j] == JumpName(flat, j)
  {
    hide Positions, DupName, JumpName, FirstAfter;
    gotos := map[];
    for i := 0 to |flat|
      invariant forall j: nat :: j in gotos <==> j < i && JumpsToDuplicate(flat, j)
      invariant forall j: nat :: j in gotos ==> JumpsToDuplicate(flat, j) && gotos[j] == JumpName(flat, j)
    {
      if flat[i].Goto? && flat[i].labelName in occ && |occ[flat[i].labelName]| > 1 {
        var n := flat[i].labelName;
        var ps := occ[n];
        PositionsSound(flat, n);
        var k := FindFirstAfter(ps, i);
        JumpNameIs(flat, i);
        gotos := gotos[i := if k < |ps| && ps[k] in rename then rename[ps[k]] else n];
      }
    }
  }

  lemma JumpNameIs(flat: seq<IrItem>, i: nat)
    requires JumpsToDuplicate(flat, i)
    ensures var n := flat[i].labelName;
            var ps := Positions(flat, n);
            var k := FirstAfter(ps, i);
            (forall j :: 0 <= j < |ps| ==> ps[j] < |flat| && flat[ps[j]] == Label(n))
            && JumpName(flat, i) == if k < |ps| && IsLater(flat, ps[k]) then NewLabel(flat, ps[k]) else n
  {
    hide Positions, DupName, FirstAfter;
    PositionsSound(flat, flat[i].labelName);
  }

  /** The whole pass: None when no label name occurs twice. */
  method DisambiguateLabels(items: seq<IrItem>) returns (r: Option<seq<IrItem>>)
    ensures r == None <==> !HasDuplicate(Flatten(items))
    ensures r != None ==> r.value == Disambiguated(items)
  {
    hide Positions, Flatten, Rebuild, Decided, HasDuplicate, IsLater, JumpsToDuplicate, JumpName, NewLabel;
    var flat := FlattenInto(items, []);
    assert flat == Flatten(items);
    var occ := CollectOccurrences(flat);
    var dups := set n | n in occ && |occ[n]| > 1;
    DuplicateNames(flat, occ);
    assert forall n :: n in occ && |occ[n]| > 1 ==> n in dups;
    if dups == {} {
      return None;
    }
    var rename := RenameLabels(flat, occ);
    var gotos := ResolveGotos(flat, occ, rename);
    DecidedIs(flat, rename, gotos);
    var out, _ := RebuildInto(items, 0, Renaming(rename, gotos));
    r := Some(out);
  }

  lemma DecidedIs(flat: seq<IrItem>, rename: map<nat, string>, gotos: map<nat, string>)
    requires forall p: nat :: p in rename <==> IsLater(flat, p)
    requires forall p: nat :: p in rename ==> IsLater(flat, p) && rename[p] == NewLabel(flat, p)
    requires forall j: nat :: j in gotos <==> JumpsToDuplicate(flat, j)
    requires forall j: nat :: j in gotos ==> JumpsToDuplicate(flat, j) && gotos[j] == JumpName(flat, j)
    ensures Renaming(rename, gotos) == Decided(flat)
  {
    hide Positions, NewLabel, JumpName;
    assert rename == Decided(flat).labels && gotos == Decided(flat).gotos;
  }

  lemma DuplicateNames(flat: seq<IrItem>, occ: map<string, seq<nat>>)
    requires forall n :: n in occ <==> Positions(flat, n) != []
    requires forall n :: n in occ ==> occ[n] == Positions(flat, n)
    ensures HasDuplicate(flat) <==> exists n :: n in occ && |occ[n]| > 1
  {
    if HasDuplicate(flat) {
      var p: nat :| IsLater(flat, p);
      PositionsComplete(flat, p);
      assert flat[p].labelName in occ;
    }
    if n :| n in occ && |occ[n]| > 1 {
      PositionsSound(flat, n);
      assert IsLater(flat, occ[n][1]);
    }
  }

  function Disambiguated(items: seq<IrItem>): seq<IrItem> {
    Rebuild(items, 0, Decided(Flatten(items)))
  }

  // ----- What the pass achieves -----

  /** The output is the input except for names; label by label it has the new names, and only jumps to
      duplicated names are redirected. */
  lemma OnlyNamesChange(items: seq<IrItem>)
    ensures var out := Disambiguated(items);
            var flat, flat' := Flatten(items), Flatten(out);
            && SameButNames(items, out) && |flat'| == |flat|
            && (forall p: nat :: p < |flat| ==>
                 (flat[p].Label? <==> flat'[p].Label?) && (flat[p].Goto? <==> flat'[p].Goto?))
            && (forall p: nat :: p < |flat| && flat[p].Label? ==> flat'[p] == Label(NewLabel(flat, p)))
            && (forall i: nat :: i < |flat| && flat[i].Goto? && !JumpsToDuplicate(flat, i) ==> flat'[i] == flat[i])
            && (forall i: nat :: i < |flat| && JumpsToDuplicate(flat, i) ==>
                  flat'[i] == Goto(JumpName(flat, i)))
  {
    hide Flatten, Rebuild, SameButNames, Positions, DupName;
    RebuildRenames(items, 0, Decided(Flatten(items)));
  }

  ghost predicate LabelsDistinct(flat: seq<IrItem>) {
    forall p: nat, q: nat :: p < q < |flat| && flat[p].Label? && flat[q].Label? ==>
      flat[p].labelName != flat[q].labelName
  }

  /** No label of the body already has a name that the pass generates. */
  ghost predicate NoClash(flat: seq<IrItem>) {
    forall p: nat, q: nat :: IsLater(flat, p) && q < |flat| && flat[q].Label? ==> NewLabel(flat, p) != flat[q].labelName
  }

  lemma SameNewName(flat: seq<IrItem>, p: nat, q: nat)
    requires p < |flat| && q < |flat| && flat[p].Label? && flat[q].Label?
    requires NewLabel(flat, p) == NewLabel(flat, q)
    ensures p == q || (Rank(flat, p) == 0) != (Rank(flat, q) == 0)
  {
    hide DupName;
    PositionsComplete(flat, p);
    PositionsComplete(flat, q);
    if Rank(flat, p) > 0 && Rank(flat, q) > 0 {
      DupNameInjective(flat[p].labelName, Rank(flat, p), flat[q].labelName, Rank(flat, q));
    }
  }

  /** All labels of the output are distinct exactly when no original label clashes with a generated name. */
  lemma DistinctExactly(items: seq<IrItem>)
    ensures LabelsDistinct(Flatten(Disambiguated(items))) <==> NoClash(Flatten(items))
  {
    hide Flatten, Disambiguated, Positions, Rank;
    var flat, flat' := Flatten(items), Flatten(Disambiguated(items));
    OnlyNamesChange(items);
    if NoClash(flat) {
      forall p: nat, q: nat | p < q < |flat| && flat[p].Label? && flat[q].Label?
        ensures NewLabel(flat, p) != NewLabel(flat, q)
      {
        if NewLabel(flat, p) == NewLabel(flat, q) {
          SameNewName(flat, p, q);
        }
      }
    }
    if !NoClash(flat) {
      var p: nat, q: nat :| IsLater(flat, p) && q < |flat| && flat[q].Label? && NewLabel(flat, p) == flat[q].labelName;
      var first := FirstOf(flat, q);
      assert flat'[first].labelName == flat'[p].labelName;
    }
  }

  lemma FirstOf(flat: seq<IrItem>, q: nat) returns (first: nat)
    requires q < |flat| && flat[q].Label?
    ensures first < |flat| && flat[first] == flat[q] && Rank(flat, first) == 0
  {
    PositionsComplete(flat, q);
    PositionsSound(flat, flat[q].labelName);
    first := Positions(flat, flat[q].labelName)[0];
  }

  /** A jump to a duplicated name takes the new name of the nearest later occurrence; with none later,
      of the first occurrence, whose name is unchanged. */
  lemma JumpsForward(items: seq<IrItem>, i: nat) returns (t: nat)
    requires JumpsToDuplicate(Flatten(items), i)
    ensures var flat, flat' := Flatten(items), Flatten(Disambiguated(items));
            var n := flat[i].labelName;
            && t < |flat| == |flat'| && flat[t] == Label(n) && flat'[t].Label? && flat'[i] == Goto(flat'[t].labelName)
            && (if t > i then forall q: nat :: i < q < |flat| && flat[q] == Label(n) ==> t <= q
                else (forall q: nat :: q < |flat| && flat[q] == Label(n) ==> t <= q <= i) && flat'[t] == Label(n))
  {
    hide Flatten, Disambiguated, DupName, Positions;
    var flat := Flatten(items);
    var n := flat[i].labelName;
    OnlyNamesChange(items);
    t := TargetOf(flat, i, n);
    PositionsSound(flat, n);
    forall q: nat | q < |flat| && flat[q] == Label(n)
      ensures Rank(flat, q) < |Positions(flat, n)| && Positions(flat, n)[Rank(flat, q)] == q
    {
      PositionsComplete(flat, q);
    }
  }

  /** A clash is possible: with labels a, a, a_dup1 the output has a_dup1 twice. */
  lemma {:induction false} ClashExample()
    ensures !LabelsDistinct(Flatten(Disambiguated([Label("a"), Label("a"), Label("a_dup1")])))
  {
    hide Disambiguated;
    var items := [Label("a"), Label("a"), Label("a_dup1")];
    assert items[1..] == [Label("a"), Label("a_dup1")];
    assert items[1..][1..] == [Label("a_dup1")] && items[1..][1..][1..] == [];
    var flat := Flatten(items);
    assert flat == items;
    assert flat[..1] == [Label("a")] && flat[..1][..0] == [];
    assert Positions(flat[..1], "a") == [0];
    assert NewLabel(flat, 1) == "a_dup1";
    assert IsLater(flat, 1);
    DistinctExactly(items);
  }
}
