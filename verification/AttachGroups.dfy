/** Whole-array ATTACH alias groups: links, their roots, and the groups that share a block. */
module AttachGroups {
  import opened Ir

  // ----- The links of a body -----

  datatype Link = Link(src: string, dst: string, valueType: ValueType)

  /** Names that stay out of the link table, each for its own reason. */
  datatype Barred = Barred(params: set<string>, descriptors: set<string>, descriptorLocals: set<string>,
                           dualUse: set<string>, shared: set<string>)

  predicate Linkable(bar: Barred, n: string) {
    n !in bar.params && n !in bar.descriptors && n !in bar.descriptorLocals && n !in bar.dualUse && n !in bar.shared
  }

  /** A whole-array ATTACH between arrays of one type, neither of them barred. */
  predicate MakesLink(bar: Barred, it: IrItem) {
    && it.Attach? && !it.leftIsRow && !it.rightIsRow && it.leftIndices == [] && it.rightIndices == []
    && it.left.valueType == it.right.valueType && Linkable(bar, it.left.name) && Linkable(bar, it.right.name)
  }

  function Links(bar: Barred, items: seq<IrItem>): seq<Link>
    decreases items
  {
    if items == [] then [] else ItemLinks(bar, items[0]) + Links(bar, items[1..])
  }

  function ItemLinks(bar: Barred, it: IrItem): seq<Link>
    decreases it
  {
    if MakesLink(bar, it) then [Link(it.left.name, it.right.name, it.left.valueType)]
    else if it.If? then Links(bar, it.thenBody) + BranchLinks(bar, it.elseBody)
    else if it.While? || it.DoLoop? || it.For? || it.Compound? then Links(bar, it.body)
    else if it.SelectCase? then CaseLinks(bar, it.cases) + BranchLinks(bar, it.default)
    else []
  }

  function BranchLinks(bar: Barred, b: OptBody): seq<Link>
    decreases b
  {
    if b.NoBody? then [] else Links(bar, b.items)
  }

  function CaseLinks(bar: Barred, cases: seq<IrCaseClause>): seq<Link>
    decreases cases
  {
    if cases == [] then [] else Links(bar, cases[0].body) + CaseLinks(bar, cases[1..])
  }

  method Walk(bar: Barred, items: seq<IrItem>, links: seq<Link>) returns (links': seq<Link>)
    ensures links' == links + Links(bar, items)
    decreases items
  {
    hide MakesLink, ItemLinks;
    links' := links;
    assert items[0..] == items;
    for k := 0 to |items|
      invariant links' + Links(bar, items[k..]) == links + Links(bar, items)
    {
      assert items[k..][0] == items[k] && items[k..][1..] == items[k + 1..];
      links' := WalkItem(bar, items[k], links');
    }
    assert items[|items|..] == [];
  }

  method WalkItem(bar: Barred, it: IrItem, links: seq<Link>) returns (links': seq<Link>)
    ensures links' == links + ItemLinks(bar, it)
    decreases it
  {
    hide MakesLink, Links, CaseLinks;
    links' := links;
    if MakesLink(bar, it) {
      links' := links' + [MadeLink(bar, it)];
    } else if it.If? {
      links' := Walk(bar, it.thenBody, links');
      links' := WalkBranch(bar, it.elseBody, links');
    } else if it.While? || it.DoLoop? || it.For? || it.Compound? {
      links' := Walk(bar, it.body, links');
    } else if it.SelectCase? {
      links' := WalkCases(bar, it.cases, links');
      links' := WalkBranch(bar, it.default, links');
    }
  }

  function MadeLink(bar: Barred, it: IrItem): Link
    requires MakesLink(bar, it)
  {
    Link(it.left.name, it.right.name, it.left.valueType)
  }

  method WalkBranch(bar: Barred, b: OptBody, links: seq<Link>) returns (links': seq<Link>)
    ensures links' == links + BranchLinks(bar, b)
    decreases b
  {
    links' := links;
    if b.Body? {
      links' := Walk(bar, b.items, links');
    }
  }

  method WalkCases(bar: Barred, cases: seq<IrCaseClause>, links: seq<Link>) returns (links': seq<Link>)
    ensures links' == links + CaseLinks(bar, cases)
    decreases cases
  {
    hide Links;
    links' := links;
    assert cases[0..] == cases;
    for k := 0 to |cases|
      invariant links' + CaseLinks(bar, cases[k..]) == links + CaseLinks(bar, cases)
    {
      assert cases[k..][0] == cases[k] && cases[k..][1..] == cases[k + 1..];
      links' := Walk(bar, cases[k].body, links');
    }
    assert cases[|cases|..] == [];
  }

  // ----- The last-wins link table -----

  type Direct = map<string, (string, ValueType)>

  function Table(links: seq<Link>): Direct {
    if links == [] then map[]
    else
      var last := links[|links| - 1];
      Table(links[..|links| - 1])[last.src := (last.dst, last.valueType)]
  }

  /** The last link of a source decides. */
  lemma {:induction false} LastWins(links: seq<Link>, k: nat)
    requires k < |links| && forall j :: k < j < |links| ==> links[j].src != links[k].src
    ensures links[k].src in Table(links) && Table(links)[links[k].src] == (links[k].dst, links[k].valueType)
  {
    if k < |links| - 1 {
      LastWins(links[..|links| - 1], k);
    }
  }

  /** A name without a link is not in the table. */
  lemma {:induction false} NoLink(links: seq<Link>, n: string)
    requires forall k :: 0 <= k < |links| ==> links[k].src != n
    ensures n !in Table(links)
  {
    if links != [] {
      NoLink(links[..|links| - 1], n);
    }
  }

  method Insert(links: seq<Link>) returns (direct: Direct)
    ensures direct == Table(links)
  {
    direct := map[];
    for i := 0 to |links|
      invariant direct == Table(links[..i])
    {
      assert links[..i + 1][..i] == links[..i];
      direct := direct[links[i].src := (links[i].dst, links[i].valueType)];
    }
    assert links[..|links|] == links;
  }

  // ----- Roots -----

  /** A walk along the links. */
  ghost predicate Path(direct: Direct, path: seq<string>) {
    path != [] && forall k :: 0 <= k < |path| - 1 ==> path[k] in direct && path[k + 1] == direct[path[k]].0
  }

  /** The links lead from `n` to `r`, and none leads on. */
  ghost predicate HasRoot(direct: Direct, n: string, r: string) {
    r !in direct && exists path :: Path(direct, path) && path[0] == n && path[|path| - 1] == r
  }

  lemma PathTail(direct: Direct, path: seq<string>)
    requires Path(direct, path) && |path| > 1
    ensures Path(direct, path[1..])
  {
    var rest := path[1..];
    forall k | 0 <= k < |rest| - 1 ensures rest[k] in direct && rest[k + 1] == direct[rest[k]].0 {
      assert path[k + 1] in direct;
    }
  }

  lemma OwnRoot(direct: Direct, n: string)
    requires n !in direct
    ensures HasRoot(direct, n, n)
  {
    assert Path(direct, [n]);
  }

  lemma RootThrough(direct: Direct, n: string, r: string)
    requires n in direct
    ensures HasRoot(direct, n, r) <==> HasRoot(direct, direct[n].0, r)
  {
    if HasRoot(direct, n, r) {
      var path :| Path(direct, path) && path[0] == n && path[|path| - 1] == r;
      PathTail(direct, path);
      assert path[1..][0] == direct[n].0;
    }
    if HasRoot(direct, direct[n].0, r) {
      var path :| Path(direct, path) && path[0] == direct[n].0 && path[|path| - 1] == r;
      assert Path(direct, [n] + path);
    }
  }

  lemma {:induction false} SameEnd(direct: Direct, p: seq<string>, q: seq<string>)
    requires Path(direct, p) && Path(direct, q) && p[0] == q[0]
    requires p[|p| - 1] !in direct && q[|q| - 1] !in direct
    ensures p[|p| - 1] == q[|q| - 1]
    decreases |p|
  {
    if |p| > 1 && |q| > 1 {
      PathTail(direct, p);
      PathTail(direct, q);
      SameEnd(direct, p[1..], q[1..]);
    }
  }

  lemma RootUnique(direct: Direct, n: string, r: string, r': string)
    requires HasRoot(direct, n, r) && HasRoot(direct, n, r')
    ensures r == r'
  {
    var p :| Path(direct, p) && p[0] == n && p[|p| - 1] == r;
    var q :| Path(direct, q) && q[0] == n && q[|q| - 1] == r';
    SameEnd(direct, p, q);
  }

  /** Nothing in a set of linked names that the links do not leave has a root. */
  lemma {:induction false} TrappedPath(direct: Direct, s: set<string>, path: seq<string>)
    requires s <= direct.Keys && (forall x :: x in s ==> direct[x].0 in s)
    requires Path(direct, path) && path[0] in s
    ensures path[|path| - 1] in s
    decreases |path|
  {
    if |path| > 1 {
      PathTail(direct, path);
      TrappedPath(direct, s, path[1..]);
    }
  }

  lemma Trapped(direct: Direct, s: set<string>, n: string, r: string)
    requires s <= direct.Keys && (forall x :: x in s ==> direct[x].0 in s) && n in s
    ensures !HasRoot(direct, n, r)
  {
    forall path | Path(direct, path) && path[0] == n ensures path[|path| - 1] in s {
      TrappedPath(direct, s, path);
    }
  }

  /** The links lead from `n` into a circle. */
  ghost predicate Cyclic(direct: Direct, n: string) {
    exists path :: Path(direct, path) && path[0] == n && path[|path| - 1] in path[..|path| - 1]
  }

  /** Every name has a root or leads into a circle, never both. */
  lemma CyclicNoRoot(direct: Direct, n: string, r: string)
    requires Cyclic(direct, n)
    ensures !HasRoot(direct, n, r)
  {
    var path :| Path(direct, path) && path[0] == n && path[|path| - 1] in path[..|path| - 1];
    var s := set k | 0 <= k < |path| :: path[k];
    assert path[0] in s;
    forall x | x in s ensures x in direct && direct[x].0 in s {
      var k :| 0 <= k < |path| - 1 && path[k] == x;
      assert path[k + 1] in s;
    }
    Trapped(direct, s, n, r);
  }

  /** Follows the links with a guard against cycles. */
  method FindHome(direct: Direct, src: string) returns (home: Option<string>)
    ensures home.Some? ==> HasRoot(direct, src, home.value)
    ensures home.None? <==> Cyclic(direct, src)
    ensures home.None? ==> forall r :: !HasRoot(direct, src, r)
  {
    var cur, seen := src, {src};
    ghost var trail := [src];
    while cur in direct
      invariant Path(direct, trail) && trail[0] == src && trail[|trail| - 1] == cur
      invariant forall x :: x in seen <==> x in trail
      invariant seen - {cur} <= direct.Keys
      decreases direct.Keys - (seen - {cur})
    {
      var dst := direct[cur].0;
      ghost var longer := trail + [dst];
      if dst in seen {
        assert longer[..|trail|] == trail && longer[|longer| - 1] == dst;
        assert Cyclic(direct, src) by {
          assert Path(direct, longer);
        }
        forall r ensures !HasRoot(direct, src, r) {
          CyclicNoRoot(direct, src, r);
        }
        return None;
      }
      ghost var left := seen - {cur};
      assert seen + {dst} - {dst} == seen && seen == left + {cur};
      seen := seen + {dst};
      cur, trail := dst, longer;
    }
    home := Some(cur);
    if Cyclic(direct, src) {
      CyclicNoRoot(direct, src, cur);
    }
  }

  /** Every name with a link and a root, with that root. */
  ghost predicate Homes(direct: Direct, homeOf: map<string, string>, done: set<string>) {
    && (forall n :: n in homeOf ==> n in done && n in direct && HasRoot(direct, n, homeOf[n]))
    && (forall n, r :: n in done && n in direct && HasRoot(direct, n, r) ==> n in homeOf && homeOf[n] == r)
  }

  method FindHomes(direct: Direct) returns (homeOf: map<string, string>)
    ensures Homes(direct, homeOf, direct.Keys)
  {
    hide HasRoot;
    homeOf := map[];
    var todo := direct.Keys;
    while todo != {}
      invariant todo <= direct.Keys && Homes(direct, homeOf, direct.Keys - todo)
      decreases todo
    {
      var n :| n in todo;
      todo := todo - {n};
      var home := FindHome(direct, n);
      if home.Some? {
        forall r | HasRoot(direct, n, r) ensures r == home.value {
          RootUnique(direct, n, r, home.value);
        }
        homeOf := homeOf[n := home.value];
      }
    }
    assert direct.Keys - todo == direct.Keys;
  }

  // ----- Sorted member lists -----

  /** The order of strings by their first difference, a prefix first. */
  predicate Less(a: string, b: string) {
    if a == "" then b != ""
    else if b == "" then false
    else a[0] < b[0] || (a[0] == b[0] && Less(a[1..], b[1..]))
  }

  /** Up to place `k` the strings are the same, and there `a` ends or has the smaller character. */
  predicate SmallerAt(a: string, b: string, k: nat) {
    k <= |a| && k < |b| && a[..k] == b[..k] && (k < |a| ==> a[k] < b[k])
  }

  lemma {:induction false} LessExactly(a: string, b: string)
    ensures Less(a, b) <==> exists k: nat :: SmallerAt(a, b, k)
  {
    if a == "" || b == "" {
      if a == "" && b != "" {
        assert SmallerAt(a, b, 0);
      }
    } else if a[0] != b[0] {
      if a[0] < b[0] {
        assert SmallerAt(a, b, 0);
      }
    } else {
      LessExactly(a[1..], b[1..]);
      if k: nat :| SmallerAt(a[1..], b[1..], k) {
        assert a[..k + 1] == [a[0]] + a[1..][..k] && b[..k + 1] == [b[0]] + b[1..][..k];
        assert SmallerAt(a, b, k + 1);
      }
      if k: nat :| SmallerAt(a, b, k) {
        assert k > 0;
        assert a[1..][..k - 1] == a[..k][1..] && b[1..][..k - 1] == b[..k][1..];
        assert SmallerAt(a[1..], b[1..], k - 1);
      }
    }
  }

  lemma {:induction false} LessTotal(a: string, b: string)
    ensures !Less(a, a) && (a == b || Less(a, b) || Less(b, a)) && !(Less(a, b) && Less(b, a))
  {
    if a != "" && b != "" {
      assert a == [a[0]] + a[1..] && b == [b[0]] + b[1..];
      LessTotal(a[1..], b[1..]);
    } else if a != "" {
      LessTotal(a[1..], "");
    }
  }

  lemma {:induction false} LessTransitive(a: string, b: string, c: string)
    requires Less(a, b) && Less(b, c)
    ensures Less(a, c)
  {
    if a != "" && a[0] == b[0] && b[0] == c[0] {
      LessTransitive(a[1..], b[1..], c[1..]);
    }
  }

  predicate Ascending(ms: seq<string>) {
    forall i, j :: 0 <= i < j < |ms| ==> Less(ms[i], ms[j])
  }

  predicate Distinct(ms: seq<string>) {
    forall i, j :: 0 <= i < j < |ms| ==> ms[i] != ms[j]
  }

  /** Where a name goes in an ascending list that lacks it. */
  method InsertSorted(ms: seq<string>, n: string) returns (out: seq<string>)
    requires Ascending(ms) && n !in ms
    ensures Ascending(out) && |out| == |ms| + 1 && forall x :: x in out <==> x in ms || x == n
  {
    hide Less;
    var k := |ms|;
    while k > 0 && Less(n, ms[k - 1])
      invariant 0 <= k <= |ms| && forall j :: k <= j < |ms| ==> Less(n, ms[j])
    {
      k := k - 1;
    }
    out := ms[..k] + [n] + ms[k..];
    if k > 0 {
      LessTotal(n, ms[k - 1]);
      forall j | 0 <= j < k ensures Less(ms[j], n) {
        if j < k - 1 {
          LessTransitive(ms[j], ms[k - 1], n);
        }
      }
    }
    assert ms == ms[..k] + ms[k..];
  }

  method Sort(ms: seq<string>) returns (out: seq<string>)
    requires Distinct(ms)
    ensures Ascending(out) && |out| == |ms| && forall x :: x in out <==> x in ms
  {
    hide Less;
    out := [];
    for k := 0 to |ms|
      invariant Ascending(out) && |out| == k && forall x :: x in out <==> x in ms[..k]
    {
      assert ms[..k + 1] == ms[..k] + [ms[k]];
      out := InsertSorted(out, ms[k]);
    }
    assert ms[..|ms|] == ms;
  }

  // ----- The groups -----

  predicate Linked(direct: Direct, n: string) {
    n in direct || exists x :: x in direct && direct[x].0 == n
  }

  /** Both names lead to the same root. */
  ghost predicate SameRoot(direct: Direct, n: string, m: string) {
    exists r :: HasRoot(direct, n, r) && HasRoot(direct, m, r)
  }

  /** Home `h`, with the names of `done` that it is the home of. */
  ghost predicate GroupOf(homeOf: map<string, string>, done: set<string>, h: string, ms: seq<string>) {
    Distinct(ms) && |ms| >= 2 && forall m :: m in ms <==> m == h || (m in homeOf && m in done && homeOf[m] == h)
  }

  ghost predicate GroupsOf(homeOf: map<string, string>, done: set<string>, groups: map<string, seq<string>>) {
    && (forall m :: m in homeOf && m in done ==> homeOf[m] in groups)
    && (forall h :: h in groups ==> GroupOf(homeOf, done, h, groups[h]))
  }

  method AddOnce(ms: seq<string>, n: string) returns (out: seq<string>)
    requires Distinct(ms)
    ensures Distinct(out) && (forall x :: x in out <==> x in ms || x == n) && |out| >= |ms|
  {
    out := if n in ms then ms else ms + [n];
  }

  /** From homes to members; a home is a member of its own group. */
  method Invert(homeOf: map<string, string>) returns (groups: map<string, seq<string>>)
    requires forall m :: m in homeOf ==> homeOf[m] !in homeOf
    ensures GroupsOf(homeOf, homeOf.Keys, groups)
  {
    groups := map[];
    var todo := homeOf.Keys;
    while todo != {}
      invariant todo <= homeOf.Keys && GroupsOf(homeOf, homeOf.Keys - todo, groups)
      decreases todo
    {
      var n :| n in todo;
      todo := todo - {n};
      var h := homeOf[n];
      var entry := if h in groups then groups[h] else [];
      entry := AddOnce(entry, n);
      entry := AddOnce(entry, h);
      TwoMembers(entry, n, h);
      groups := groups[h := entry];
    }
    assert homeOf.Keys - todo == homeOf.Keys;
  }

  lemma TwoMembers(ms: seq<string>, n: string, h: string)
    requires n in ms && h in ms && n != h
    ensures |ms| >= 2
  {
  }

  method ListMembers(sorted: seq<string>, out: map<string, seq<string>>) returns (out': map<string, seq<string>>)
    ensures out'.Keys == out.Keys + (set m | m in sorted)
    ensures forall n :: n in out' ==> out'[n] == if n in sorted then sorted else out[n]
  {
    out' := out;
    for k := 0 to |sorted|
      invariant out'.Keys == out.Keys + (set m | m in sorted[..k])
      invariant forall n :: n in out' ==> out'[n] == if n in sorted[..k] then sorted else out[n]
    {
      assert sorted[..k + 1] == sorted[..k] + [sorted[k]];
      out' := out'[sorted[k] := sorted];
    }
    assert sorted[..|sorted|] == sorted;
  }

  ghost predicate Lists(out: map<string, seq<string>>, n: string, ms: seq<string>) {
    n in out && Ascending(out[n]) && |out[n]| == |ms| && forall m :: m in out[n] <==> m in ms
  }

  ghost predicate Published(groups: map<string, seq<string>>, done: set<string>, out: map<string, seq<string>>,
                            home: map<string, string>)
  {
    && (forall n :: n in out ==> n in home && home[n] in groups && home[n] in done && n in groups[home[n]])
    && (forall h, n :: h in groups && h in done && |groups[h]| >= 2 && n in groups[h] ==> Lists(out, n, groups[h]))
  }

  lemma ListedGroup(out: map<string, seq<string>>, n: string, sorted: seq<string>, ms: seq<string>)
    requires n in out && out[n] == sorted && Ascending(sorted) && |sorted| == |ms|
    requires forall x :: x in sorted <==> x in ms
    ensures Lists(out, n, ms)
  {
  }

  lemma ListedBefore(out: map<string, seq<string>>, out': map<string, seq<string>>, n: string, ms: seq<string>)
    requires Lists(out, n, ms) && out.Keys <= out'.Keys && (n in out ==> out'[n] == out[n])
    ensures Lists(out', n, ms)
  {
  }

  lemma PublishStep(groups: map<string, seq<string>>, done: set<string>, h: string, sorted: seq<string>,
                    out: map<string, seq<string>>, home: map<string, string>, out': map<string, seq<string>>)
    requires forall g, g', m :: g in groups && g' in groups && m in groups[g] && m in groups[g'] ==> g == g'
    requires Published(groups, done, out, home) && h in groups && h !in done
    requires Ascending(sorted) && |sorted| == |groups[h]| && forall x :: x in sorted <==> x in groups[h]
    requires out'.Keys == out.Keys + (set m | m in sorted)
    requires forall n :: n in out' ==> out'[n] == if n in sorted then sorted else out[n]
    ensures Published(groups, done + {h}, out', home + (map m | m in sorted :: h))
  {
    hide Ascending, Lists;
    var home' := home + (map m | m in sorted :: h);
    forall n | n in out' ensures n in home' && home'[n] in groups && home'[n] in done + {h} && n in groups[home'[n]] {
      assert n in sorted || n in out;
    }
    forall g, n | g in groups && g in done + {h} && |groups[g]| >= 2 && n in groups[g]
      ensures Lists(out', n, groups[g])
    {
      if g == h {
        ListedGroup(out', n, sorted, groups[h]);
      } else {
        assert Lists(out, n, groups[g]);
        assert n !in sorted;
        ListedBefore(out, out', n, groups[g]);
      }
    }
  }

  /** Each member of a group is listed with the whole group, sorted. */
  method Publish(groups: map<string, seq<string>>)
    returns (out: map<string, seq<string>>, ghost home: map<string, string>)
    requires forall h :: h in groups ==> Distinct(groups[h])
    requires forall h, h', m :: h in groups && h' in groups && m in groups[h] && m in groups[h'] ==> h == h'
    ensures Published(groups, groups.Keys, out, home)
  {
    out, home := map[], map[];
    var todo := groups.Keys;
    assert Published(groups, groups.Keys - todo, out, home);
    hide Distinct, Ascending, Published;
    while todo != {}
      invariant todo <= groups.Keys && Published(groups, groups.Keys - todo, out, home)
      decreases todo
    {
      var h :| h in todo;
      ghost var done := groups.Keys - todo;
      todo := todo - {h};
      assert groups.Keys - todo == done + {h};
      if |groups[h]| >= 2 {
        var sorted := Sort(groups[h]);
        ghost var out0 := out;
        out := ListMembers(sorted, out);
        PublishStep(groups, done, h, sorted, out0, home, out);
        home := home + (map m | m in sorted :: h);
      } else {
        PublishSkip(groups, done, h, out, home);
      }
    }
    assert groups.Keys - todo == groups.Keys;
  }

  lemma PublishSkip(groups: map<string, seq<string>>, done: set<string>, h: string, out: map<string, seq<string>>,
                    home: map<string, string>)
    requires Published(groups, done, out, home) && h in groups && |groups[h]| < 2
    ensures Published(groups, done + {h}, out, home)
  {
    hide Lists;
  }

  /** Element types by name: each comes from a link of the name. */
  method CollectTypes(direct: Direct) returns (types: map<string, ValueType>)
    ensures forall n :: n in types <==> Linked(direct, n)
    ensures forall n :: n in types ==>
              exists x :: x in direct && (x == n || direct[x].0 == n) && direct[x].1 == types[n]
  {
    types := map[];
    var todo := direct.Keys;
    while todo != {}
      invariant todo <= direct.Keys
      invariant forall x :: x in direct && x !in todo ==> x in types && direct[x].0 in types
      invariant forall n :: n in types ==>
              exists x :: x in direct && (x == n || direct[x].0 == n) && direct[x].1 == types[n]
      decreases todo
    {
      var x :| x in todo;
      todo := todo - {x};
      types := types[x := direct[x].1];
      types := types[direct[x].0 := direct[x].1];
    }
  }

  /** The alias groups of a body. A name is in a group exactly when it is linked and the links from it do not
      run in a circle; its group holds, in order, the linked names with the same root. */
  method CollectGroups(bar: Barred, items: seq<IrItem>)
    returns (groups: map<string, seq<string>>, types: map<string, ValueType>)
    ensures var direct := Table(Links(bar, items));
      && (forall n :: n in groups <==> Linked(direct, n) && exists r :: HasRoot(direct, n, r))
      && (forall n :: n in groups ==> Ascending(groups[n]) && |groups[n]| >= 2)
      && (forall n, m :: n in groups ==> (m in groups[n] <==> Linked(direct, m) && SameRoot(direct, n, m)))
      && (forall n :: n in types <==> Linked(direct, n))
  {
    hide Links, HasRoot, Linked, GroupsOf, Homes, Ascending, Distinct, SameRoot, Published;
    var links := Walk(bar, items, []);
    assert [] + Links(bar, items) == Links(bar, items);
    var direct := Insert(links);
    var homeOf := FindHomes(direct);
    HomesHaveNoHome(direct, homeOf);
    var byHome := Invert(homeOf);
    GroupsDisjoint(direct, homeOf, byHome);
    ghost var home;
    groups, home := Publish(byHome);
    types := CollectTypes(direct);
    forall n | n in groups
      ensures Linked(direct, n) && (exists r :: HasRoot(direct, n, r)) && Ascending(groups[n]) && |groups[n]| >= 2
      ensures forall m :: m in groups[n] <==> Linked(direct, m) && SameRoot(direct, n, m)
    {
      var h := PublishedHome(byHome, groups, home, n);
      MemberRoot(direct, homeOf, byHome, h, n);
      forall m ensures m in groups[n] <==> Linked(direct, m) && SameRoot(direct, n, m) {
        GroupMembers(direct, homeOf, byHome, h, n, m);
      }
    }
    forall n, r | Linked(direct, n) && HasRoot(direct, n, r) ensures n in groups {
      RootMember(direct, homeOf, byHome, r, n);
      PublishedMember(byHome, groups, home, r, n);
    }
  }

  lemma PublishedHome(byHome: map<string, seq<string>>, out: map<string, seq<string>>, home: map<string, string>,
                      n: string) returns (h: string)
    requires Published(byHome, byHome.Keys, out, home) && n in out
    requires forall h :: h in byHome ==> |byHome[h]| >= 2
    ensures h in byHome && n in byHome[h] && Ascending(out[n]) && |out[n]| >= 2
    ensures forall m :: m in out[n] <==> m in byHome[h]
  {
    h := home[n];
    assert Lists(out, n, byHome[h]);
  }

  lemma PublishedMember(byHome: map<string, seq<string>>, out: map<string, seq<string>>, home: map<string, string>,
                        h: string, n: string)
    requires Published(byHome, byHome.Keys, out, home) && h in byHome && n in byHome[h] && |byHome[h]| >= 2
    ensures n in out
  {
    assert Lists(out, n, byHome[h]);
  }

  lemma HomesHaveNoHome(direct: Direct, homeOf: map<string, string>)
    requires Homes(direct, homeOf, direct.Keys)
    ensures forall m :: m in homeOf ==> homeOf[m] !in homeOf
  {
  }

  lemma OtherMember(homeOf: map<string, string>, groups: map<string, seq<string>>, h: string) returns (n: string)
    requires GroupsOf(homeOf, homeOf.Keys, groups) && h in groups
    ensures n in homeOf && homeOf[n] == h
  {
    var ms := groups[h];
    assert ms[0] != ms[1] && ms[0] in ms && ms[1] in ms;
    n := if ms[0] == h then ms[1] else ms[0];
  }

  lemma GroupsDisjoint(direct: Direct, homeOf: map<string, string>, groups: map<string, seq<string>>)
    requires Homes(direct, homeOf, direct.Keys) && GroupsOf(homeOf, homeOf.Keys, groups)
    ensures forall h :: h in groups ==> Distinct(groups[h]) && |groups[h]| >= 2
    ensures forall h, h', m :: h in groups && h' in groups && m in groups[h] && m in groups[h'] ==> h == h'
  {
    hide Distinct, HasRoot;
    HomesHaveNoHome(direct, homeOf);
    forall h | h in groups ensures h !in homeOf {
      var n := OtherMember(homeOf, groups, h);
    }
  }

  /** A group of the inverted table holds the linked names with its home as root. */
  lemma GroupMembers(direct: Direct, homeOf: map<string, string>, groups: map<string, seq<string>>, h: string,
                     n: string, m: string)
    requires Homes(direct, homeOf, direct.Keys) && GroupsOf(homeOf, homeOf.Keys, groups)
    requires h in groups && n in groups[h]
    ensures m in groups[h] <==> Linked(direct, m) && SameRoot(direct, n, m)
  {
    hide Homes, GroupsOf, HasRoot, Linked;
    MemberRoot(direct, homeOf, groups, h, n);
    if m in groups[h] {
      MemberRoot(direct, homeOf, groups, h, m);
    }
    if Linked(direct, m) && SameRoot(direct, n, m) {
      var r :| HasRoot(direct, n, r) && HasRoot(direct, m, r);
      RootUnique(direct, n, r, h);
      RootMember(direct, homeOf, groups, h, m);
    }
  }

  lemma MemberRoot(direct: Direct, homeOf: map<string, string>, groups: map<string, seq<string>>, h: string, m: string)
    requires Homes(direct, homeOf, direct.Keys) && GroupsOf(homeOf, homeOf.Keys, groups)
    requires h in groups && m in groups[h]
    ensures Linked(direct, m) && HasRoot(direct, m, h)
  {
    if m == h {
      var n := OtherMember(homeOf, groups, h);
      assert HasRoot(direct, n, h);
      OwnRoot(direct, h);
      RootIsTarget(direct, n, h);
    }
  }

  lemma RootIsTarget(direct: Direct, n: string, r: string)
    requires n in direct && HasRoot(direct, n, r)
    ensures Linked(direct, r)
  {
    var path :| Path(direct, path) && path[0] == n && path[|path| - 1] == r;
    assert path[|path| - 2] in direct;
  }

  lemma RootMember(direct: Direct, homeOf: map<string, string>, groups: map<string, seq<string>>, h: string, m: string)
    requires Homes(direct, homeOf, direct.Keys) && GroupsOf(homeOf, homeOf.Keys, groups)
    requires Linked(direct, m) && HasRoot(direct, m, h)
    ensures h in groups && m in groups[h]
  {
    if m !in direct {
      OwnRoot(direct, m);
      RootUnique(direct, m, m, h);
      var x :| x in direct && direct[x].0 == m;
      RootThrough(direct, x, m);
      assert x in homeOf && homeOf[x] == m;
    }
  }

  /** The groups partition their names: two of them are equal or have nothing in common. */
  lemma EqualOrDisjoint(direct: Direct, n: string, n': string, m: string)
    requires SameRoot(direct, n, m) && SameRoot(direct, n', m)
    ensures forall x :: SameRoot(direct, n, x) <==> SameRoot(direct, n', x)
  {
    hide HasRoot;
    var r :| HasRoot(direct, n, r) && HasRoot(direct, m, r);
    var r' :| HasRoot(direct, n', r') && HasRoot(direct, m, r');
    RootUnique(direct, m, r, r');
    forall x ensures SameRoot(direct, n, x) <==> SameRoot(direct, n', x) {
      if s :| HasRoot(direct, n, s) && HasRoot(direct, x, s) {
        RootUnique(direct, n, s, r);
      }
      if s :| HasRoot(direct, n', s) && HasRoot(direct, x, s) {
        RootUnique(direct, n', s, r);
      }
    }
  }
}
