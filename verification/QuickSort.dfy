/** The indexed sort of the runtime: a stable insertion sort of an index list, then a write-back. */
module QuickSort {
  type Byte = b: nat | b < 256

  /** An array slot: an integer, a double that is not NaN, or a byte string. */
  datatype Slot = Int(n: int) | Dbl(x: real) | Str(s: seq<Byte>)

  datatype Order = Order(decreasing: bool, ignoreCase: bool)

  /** Bit 0 of the mode asks for decreasing order, bit 1 for case folding. */
  function OrderOf(mode: int): Order {
    Order(mode % 2 != 0, mode / 2 % 2 != 0)
  }

  /** The two lowest binary digits of the mode, whatever the others are. */
  lemma ModeBits(high: int, fold: bool, down: bool)
    ensures OrderOf(4 * high + (if fold then 2 else 0) + (if down then 1 else 0)) == Order(down, fold)
  {
    var mode := 4 * high + (if fold then 2 else 0) + (if down then 1 else 0);
    assert mode / 2 == 2 * high + (if fold then 1 else 0);
  }

  predicate SameKind(a: Slot, b: Slot) {
    (a.Int? && b.Int?) || (a.Dbl? && b.Dbl?) || (a.Str? && b.Str?)
  }

  predicate OneKind(a: seq<Slot>) {
    forall i, j :: 0 <= i < |a| && 0 <= j < |a| ==> SameKind(a[i], a[j])
  }

  // ----- The order of slots -----

  function Fold(c: Byte, ignoreCase: bool): Byte {
    if ignoreCase && 65 <= c <= 90 then c + 32 else c
  }

  function Sign(less: bool, greater: bool): int {
    if less then -1 else if greater then 1 else 0
  }

  /** Byte strings by their first difference, case folded or not; a prefix comes first. */
  function CompareStrings(x: seq<Byte>, y: seq<Byte>, ignoreCase: bool): int {
    if x == [] || y == [] then Sign(|x| < |y|, |x| > |y|)
    else
      var cx, cy := Fold(x[0], ignoreCase), Fold(y[0], ignoreCase);
      if cx != cy then Sign(cx < cy, cx > cy) else CompareStrings(x[1..], y[1..], ignoreCase)
  }

  function CompareValues(a: Slot, b: Slot, ignoreCase: bool): int
    requires SameKind(a, b)
  {
    match a
    case Int(n) => Sign(n < b.n, n > b.n)
    case Dbl(x) => Sign(x < b.x, x > b.x)
    case Str(s) => CompareStrings(s, b.s, ignoreCase)
  }

  function Compare(a: Slot, b: Slot, ord: Order): int
    requires SameKind(a, b)
  {
    if ord.decreasing then -CompareValues(a, b, ord.ignoreCase) else CompareValues(a, b, ord.ignoreCase)
  }

  lemma {:induction false} StringsOpposite(x: seq<Byte>, y: seq<Byte>, ci: bool)
    ensures CompareStrings(x, y, ci) == -CompareStrings(y, x, ci)
  {
    if x != [] && y != [] {
      StringsOpposite(x[1..], y[1..], ci);
    }
  }

  lemma {:induction false} StringsTransitive(x: seq<Byte>, y: seq<Byte>, z: seq<Byte>, ci: bool)
    requires CompareStrings(x, y, ci) <= 0 && CompareStrings(y, z, ci) <= 0
    ensures CompareStrings(x, z, ci) <= 0
  {
    if x != [] && y != [] && z != [] {
      var cx, cy, cz := Fold(x[0], ci), Fold(y[0], ci), Fold(z[0], ci);
      if cx == cy && cy == cz {
        StringsTransitive(x[1..], y[1..], z[1..], ci);
      }
    }
  }

  lemma Opposite(a: Slot, b: Slot, ord: Order)
    requires SameKind(a, b)
    ensures Compare(a, b, ord) == -Compare(b, a, ord)
  {
    if a.Str? {
      StringsOpposite(a.s, b.s, ord.ignoreCase);
    }
  }

  lemma Transitive(a: Slot, b: Slot, c: Slot, ord: Order)
    requires SameKind(a, b) && SameKind(b, c)
    requires Compare(a, b, ord) <= 0 && Compare(b, c, ord) <= 0
    ensures Compare(a, c, ord) <= 0
  {
    hide CompareStrings;
    if a.Str? {
      StringsOpposite(a.s, b.s, ord.ignoreCase);
      StringsOpposite(b.s, c.s, ord.ignoreCase);
      StringsOpposite(a.s, c.s, ord.ignoreCase);
      if ord.decreasing {
        StringsTransitive(c.s, b.s, a.s, ord.ignoreCase);
      } else {
        StringsTransitive(a.s, b.s, c.s, ord.ignoreCase);
      }
    }
  }

  /** The byte loop: the first pair of folded bytes that differ, else the lengths. */
  method CompareBytes(x: seq<Byte>, y: seq<Byte>, ignoreCase: bool) returns (c: int)
    ensures c == CompareStrings(x, y, ignoreCase)
  {
    var m := if |x| < |y| then |x| else |y|;
    assert x[0..] == x && y[0..] == y;
    for k := 0 to m
      invariant CompareStrings(x, y, ignoreCase) == CompareStrings(x[k..], y[k..], ignoreCase)
    {
      assert x[k..][0] == x[k] && y[k..][0] == y[k] && x[k..][1..] == x[k + 1..] && y[k..][1..] == y[k + 1..];
      var cx, cy := x[k], y[k];
      if ignoreCase {
        if 65 <= cx <= 90 { cx := cx + 32; }
        if 65 <= cy <= 90 { cy := cy + 32; }
      }
      if cx != cy {
        return if cx < cy then -1 else 1;
      }
    }
    c := Sign(|x| < |y|, |x| > |y|);
  }

  method Greater(a: seq<Slot>, i: nat, j: nat, ord: Order) returns (gt: bool)
    requires i < |a| && j < |a| && SameKind(a[i], a[j])
    ensures gt <==> Compare(a[i], a[j], ord) > 0
  {
    var c;
    match a[i] {
      case Int(n) => c := Sign(n < a[j].n, n > a[j].n);
      case Dbl(x) => c := Sign(x < a[j].x, x > a[j].x);
      case Str(s) => c := CompareBytes(s, a[j].s, ord.ignoreCase);
    }
    if ord.decreasing {
      c := -c;
    }
    gt := c > 0;
  }

  // ----- Sorting the indices -----

  /** Position `i` comes before position `j`: by value, then by position. */
  predicate Before(a: seq<Slot>, ord: Order, i: int, j: int)
    requires OneKind(a) && 0 <= i < |a| && 0 <= j < |a|
  {
    Compare(a[i], a[j], ord) < 0 || (Compare(a[i], a[j], ord) == 0 && i < j)
  }

  lemma BeforeOrder(a: seq<Slot>, ord: Order, i: int, j: int)
    requires OneKind(a) && 0 <= i < |a| && 0 <= j < |a|
    ensures !Before(a, ord, i, i) && !(Before(a, ord, i, j) && Before(a, ord, j, i))
    ensures i == j || Before(a, ord, i, j) || Before(a, ord, j, i)
  {
    Opposite(a[i], a[j], ord);
    Opposite(a[i], a[i], ord);
  }

  predicate InRange(idx: seq<int>, low: nat, high: nat) {
    forall k :: 0 <= k < |idx| ==> low <= idx[k] <= high
  }

  predicate Sorted(a: seq<Slot>, ord: Order, idx: seq<int>, low: nat, high: nat)
    requires OneKind(a) && high < |a|
  {
    InRange(idx, low, high) && forall k, m :: 0 <= k < m < |idx| ==> Before(a, ord, idx[k], idx[m])
  }

  function Range(low: int, high: int): seq<int>
    requires low <= high + 1
  {
    seq(high + 1 - low, k => low + k)
  }

  /** The whole list after an element settles behind the first `p` of a sorted list. */
  lemma Settles(a: seq<Slot>, ord: Order, was: seq<int>, cur: int, p: nat, low: nat, high: nat)
    requires OneKind(a) && low <= cur <= high < |a| && Sorted(a, ord, was, low, high) && p <= |was|
    requires forall k :: 0 <= k < |was| ==> was[k] < cur
    requires p > 0 ==> Compare(a[was[p - 1]], a[cur], ord) <= 0
    requires forall k :: p <= k < |was| ==> Compare(a[was[k]], a[cur], ord) > 0
    ensures Sorted(a, ord, was[..p] + [cur] + was[p..], low, high)
  {
    hide Compare, SameKind;
    var next := was[..p] + [cur] + was[p..];
    forall k | 0 <= k < p ensures Before(a, ord, was[k], cur) {
      if k < p - 1 {
        assert Before(a, ord, was[k], was[p - 1]);
        Transitive(a[was[k]], a[was[p - 1]], a[cur], ord);
      }
    }
    forall k | p <= k < |was| ensures Before(a, ord, cur, was[k]) {
      Opposite(a[was[k]], a[cur], ord);
    }
    forall k, m | 0 <= k < m < |next| ensures Before(a, ord, next[k], next[m]) {
      if k != p && m != p {
        assert Before(a, ord, was[if k < p then k else k - 1], was[if m < p then m else m - 1]);
      }
    }
  }

  /** Shifts the indices of greater slots up by one, from position `k - 1` down, and returns the gap.
      Before it the list is `was`. */
  method ShiftUp(a: seq<Slot>, ord: Order, idx: array<int>, k: nat, cur: int, ghost was: seq<int>) returns (p: nat)
    requires OneKind(a) && 0 < k < idx.Length && 0 <= cur < |a| && idx[..k] == was
    requires forall m :: 0 <= m < k ==> 0 <= was[m] < |a|
    modifies idx
    ensures p <= k && (forall j :: 0 <= j < p ==> idx[j] == was[j]) && (forall j :: p < j <= k ==> idx[j] == was[j - 1])
    ensures forall j :: k < j < idx.Length ==> idx[j] == old(idx[j])
    ensures p > 0 ==> Compare(a[was[p - 1]], a[cur], ord) <= 0
    ensures forall j :: p <= j < k ==> Compare(a[was[j]], a[cur], ord) > 0
  {
    hide Compare, SameKind;
    var m := k - 1;
    while m >= 0
      invariant -1 <= m < k
      invariant forall j :: 0 <= j <= m ==> idx[j] == was[j]
      invariant forall j :: k < j < idx.Length ==> idx[j] == old(idx[j])
      invariant forall j :: m + 1 < j <= k ==> idx[j] == was[j - 1]
      invariant forall j :: m < j < k ==> Compare(a[was[j]], a[cur], ord) > 0
    {
      var gt := Greater(a, idx[m], cur, ord);
      if !gt {
        break;
      }
      idx[m + 1] := idx[m];
      m := m - 1;
    }
    p := m + 1;
  }

  /** One list is a rearrangement of the other. */
  ghost predicate SameItems(p: seq<int>, q: seq<int>) {
    multiset(p) == multiset(q)
  }

  lemma SameItemsStep(r: seq<int>, p: seq<int>, q: seq<int>, x: int)
    requires SameItems(r, p + [x]) && SameItems(p, q)
    ensures SameItems(r, q + [x])
  {
  }

  lemma AllBelow(p: seq<int>, low: int, high: int)
    requires low <= high + 1 && SameItems(p, Range(low, high))
    ensures |p| == high + 1 - low && forall k :: 0 <= k < |p| ==> low <= p[k] <= high
  {
    var q := Range(low, high);
    assert |multiset(p)| == |multiset(q)|;
    forall k | 0 <= k < |p| ensures low <= p[k] <= high {
      assert p[k] in multiset(p);
      assert p[k] in q;
    }
  }

  /** The list after the shift, put together. */
  lemma Shifted(was: seq<int>, cur: int, p: nat, next: seq<int>)
    requires p <= |was| && |next| == |was| + 1 && next[p] == cur
    requires (forall j :: 0 <= j < p ==> next[j] == was[j]) && forall j :: p < j < |next| ==> next[j] == was[j - 1]
    ensures next == was[..p] + [cur] + was[p..] && SameItems(next, was + [cur])
  {
    assert was == was[..p] + was[p..];
    assert next == was[..p] + [cur] + was[p..];
  }

  lemma RangeStep(low: int, high: int)
    requires low <= high + 1
    ensures Range(low, high + 1) == Range(low, high) + [high + 1]
  {
  }

  /** The list of the first `k` positions of the range, sorted. */
  ghost predicate SortedPart(a: seq<Slot>, ord: Order, p: seq<int>, low: nat, high: nat, k: nat)
    requires OneKind(a) && high < |a|
  {
    |p| == k && Sorted(a, ord, p, low, high) && SameItems(p, Range(low, low + k - 1))
  }

  lemma SettledPart(a: seq<Slot>, ord: Order, was: seq<int>, next: seq<int>, p: nat, low: nat, high: nat, k: nat)
    requires OneKind(a) && low <= low + k <= high < |a| && SortedPart(a, ord, was, low, high, k) && p <= k
    requires |next| == k + 1 && |was| == k && next[p] == low + k
    requires (forall j :: 0 <= j < p ==> next[j] == was[j]) && forall j :: p < j < |next| ==> next[j] == was[j - 1]
    requires p > 0 ==> Compare(a[was[p - 1]], a[low + k], ord) <= 0
    requires forall j :: p <= j < k ==> Compare(a[was[j]], a[low + k], ord) > 0
    ensures SortedPart(a, ord, next, low, high, k + 1)
  {
    hide Compare, SameKind, Before, Sorted, OneKind, SameItems, Range;
    var cur := low + k;
    assert next == was[..p] + [cur] + was[p..] && SameItems(next, was + [cur]) by {
      Shifted(was, cur, p, next);
    }
    assert Sorted(a, ord, next, low, high) by {
      AllBelow(was, low, cur - 1);
      Settles(a, ord, was, cur, p, low, high);
    }
    assert SameItems(next, Range(low, cur)) by {
      RangeStep(low, cur - 1);
      SameItemsStep(next, was, Range(low, cur - 1), cur);
    }
  }

  lemma PartBounds(a: seq<Slot>, ord: Order, was: seq<int>, low: nat, high: nat, k: nat)
    requires OneKind(a) && high < |a| && SortedPart(a, ord, was, low, high, k)
    ensures forall m :: 0 <= m < k ==> 0 <= was[m] < |a|
  {
  }

  /** Moves element `k` of the index list down to its place. */
  method SettleIndex(a: seq<Slot>, ord: Order, idx: array<int>, k: nat, low: nat, high: nat)
    requires OneKind(a) && low + k <= high < |a| && 0 < k < idx.Length && idx[k] == low + k
    requires SortedPart(a, ord, idx[..k], low, high, k)
    modifies idx
    ensures SortedPart(a, ord, idx[..k + 1], low, high, k + 1)
    ensures forall j :: k < j < idx.Length ==> idx[j] == old(idx[j])
  {
    hide Compare, SameKind, SortedPart, OneKind;
    ghost var was := idx[..k];
    var cur := idx[k];
    PartBounds(a, ord, was, low, high, k);
    var p := ShiftUp(a, ord, idx, k, cur, was);
    idx[p] := cur;
    ghost var next := idx[..k + 1];
    SettledPart(a, ord, was, next, p, low, high, k);
  }

  /** The index list of a range, sorted by value and, among equals, by position. */
  method SortIndices(a: seq<Slot>, ord: Order, low: nat, high: nat) returns (idx: array<int>)
    requires OneKind(a) && low <= high < |a|
    ensures fresh(idx) && idx.Length == high - low + 1
    ensures SortedPart(a, ord, idx[..], low, high, high - low + 1)
  {
    hide Before, SameKind;
    var rng := high - low + 1;
    idx := new int[rng](k => low + k);
    assert idx[..1] == Range(low, low);
    assert SortedPart(a, ord, idx[..1], low, high, 1);
    hide SortedPart, OneKind;
    for k := 1 to rng
      invariant SortedPart(a, ord, idx[..k], low, high, k)
      invariant forall j :: k <= j < rng ==> idx[j] == low + j
    {
      SettleIndex(a, ord, idx, k, low, high);
    }
    assert idx[..rng] == idx[..];
  }

  // ----- The sort -----

  /** The slots at the listed positions. */
  function Picked(s: seq<Slot>, p: seq<int>): (r: seq<Slot>)
    requires forall k :: 0 <= k < |p| ==> 0 <= p[k] < |s|
    ensures |r| == |p|
  {
    seq(|p|, k requires 0 <= k < |p| => s[p[k]])
  }

  /** The index array of the caller: a block and its upper bound. */
  class IndexArray {
    var items: array<int>
    var ub: int

    constructor (items: array<int>, ub: int)
      ensures this.items == items && this.ub == ub
    {
      this.items, this.ub := items, ub;
    }
  }

  /** Which allocations fail. */
  datatype Failures = Failures(index: bool, temporary: bool, regrow: bool)

  /** What the index array becomes: the permutation within the range and each position itself elsewhere. */
  function FullIndex(p: seq<int>, low: nat, high: nat, len: nat): seq<int>
    requires low <= high < len
  {
    Range(0, low - 1) + p + Range(high + 1, len - 1)
  }

  /** The slots at the listed positions, copied out before any of them is overwritten. */
  method Gather(a: array<Slot>, idx: array<int>) returns (tmp: array<Slot>)
    requires forall k :: 0 <= k < idx.Length ==> 0 <= idx[k] < a.Length
    ensures fresh(tmp) && tmp[..] == Picked(a[..], idx[..])
  {
    tmp := new Slot[idx.Length];
    for k := 0 to idx.Length
      invariant forall j :: 0 <= j < k ==> tmp[j] == a[idx[j]]
    {
      tmp[k] := a[idx[k]];
    }
  }

  lemma Replaced(s: seq<Slot>, low: nat, t: seq<Slot>, r: seq<Slot>)
    requires low + |t| <= |s| && |r| == |s|
    requires forall j :: 0 <= j < |r| ==> r[j] == if low <= j < low + |t| then t[j - low] else s[j]
    ensures r == s[..low] + t + s[low + |t|..]
  {
  }

  method WriteBack(a: array<Slot>, idx: array<int>, low: nat, high: nat)
    requires low <= high < a.Length && idx.Length == high - low + 1
    requires forall k :: 0 <= k < idx.Length ==> 0 <= idx[k] < a.Length
    modifies a
    ensures a[..] == old(a[..])[..low] + Picked(old(a[..]), idx[..]) + old(a[..])[high + 1..]
  {
    hide Picked;
    ghost var s := a[..];
    var tmp := Gather(a, idx);
    ghost var t := tmp[..];
    for k := 0 to idx.Length
      invariant tmp[..] == t
      invariant forall j :: 0 <= j < a.Length ==> a[j] == if low <= j < low + k then t[j - low] else s[j]
    {
      a[low + k] := tmp[k];
    }
    Replaced(s, low, t, a[..]);
  }

  method FillIndex(n: IndexArray, idx: array<int>, low: nat, high: nat, len: nat, regrowFails: bool)
    requires low <= high < len && idx.Length == high - low + 1
    modifies n
    ensures regrowFails ==> n.ub == -1 && n.items == old(n.items)
    ensures !regrowFails ==> n.ub == len - 1 && fresh(n.items) && n.items[..] == FullIndex(idx[..], low, high, len)
  {
    if regrowFails {
      n.ub := -1;
    } else {
      var block := new int[len](k => k);
      for k := 0 to idx.Length
        invariant forall j :: 0 <= j < len ==> block[j] == if low <= j < low + k then idx[j - low] else j
      {
        block[low + k] := idx[k];
      }
      n.items, n.ub := block, len - 1;
      assert block[..] == FullIndex(idx[..], low, high, len);
    }
  }

  /** The sort stays inside the array. The lower bound is not checked: with a negative one, two positions to
      sort are compared, and a single one is copied when there is room for the copy. */
  predicate Inside(low: int, high: int, len: int, fail: Failures) {
    !(low <= high < len) || 0 <= low || fail.index || (low == high && fail.temporary)
  }

  /** Sorts positions `low` to `high`: nothing else moves, and the index array, when there is one with a
      bound, records where every slot came from. When it goes outside the array, nothing is promised. */
  method Sort(a: array<Slot>, n: IndexArray?, low: int, high: int, mode: int, fail: Failures)
    returns (inside: bool, ghost p: seq<int>)
    requires OneKind(a[..])
    modifies a, n
    ensures inside <==> Inside(low, high, a.Length, fail)
    ensures inside && (!(low <= high < a.Length) || fail.index || fail.temporary) ==>
              a[..] == old(a[..]) && (n != null ==> n.ub == old(n.ub) && n.items == old(n.items))
    ensures inside && low <= high < a.Length && !fail.index && !fail.temporary ==>
              && SortedPart(old(a[..]), OrderOf(mode), p, low, high, high - low + 1)
              && a[..] == old(a[..])[..low] + Picked(old(a[..]), p) + old(a[..])[high + 1..]
              && (n != null ==>
                    if old(n.ub) < 0 then n.ub == old(n.ub) && n.items == old(n.items)
                    else if fail.regrow then n.ub == -1 && n.items == old(n.items)
                    else n.ub == a.Length - 1 && n.items[..] == FullIndex(p, low, high, a.Length))
  {
    hide OneKind, FullIndex;
    inside, p := true, [];
    if low <= high < a.Length {
      if fail.index {
        return;
      }
      if low < 0 {
        inside := low == high && fail.temporary;
        return;
      }
      var idx := SortIndices(a[..], OrderOf(mode), low, high);
      if fail.temporary {
        return;
      }
      p := idx[..];
      PartBounds(a[..], OrderOf(mode), p, low, high, high - low + 1);
      hide SortedPart;
      WriteBack(a, idx, low, high);
      if n != null && n.ub >= 0 {
        FillIndex(n, idx, low, high, a.Length, fail.regrow);
      }
    }
  }

  // ----- What the sorted list means -----

  predicate Positions(p: seq<int>, s: seq<Slot>) {
    forall k :: 0 <= k < |p| ==> 0 <= p[k] < |s|
  }

  lemma PickedConcat(s: seq<Slot>, p: seq<int>, q: seq<int>)
    requires Positions(p, s) && Positions(q, s)
    ensures Positions(p + q, s) && Picked(s, p + q) == Picked(s, p) + Picked(s, q)
  {
  }

  /** The list with one item `x` taken out. */
  lemma TakeOut(q: seq<int>, x: int) returns (u: seq<int>, v: seq<int>)
    requires x in multiset(q)
    ensures q == u + [x] + v && multiset(u + v) == multiset(q) - multiset{x}
  {
    assert x in q;
    var k :| 0 <= k < |q| && q[k] == x;
    u, v := q[..k], q[k + 1..];
    assert q == u + [x] + v;
  }

  lemma {:induction false} PickedSame(s: seq<Slot>, p: seq<int>, q: seq<int>)
    requires SameItems(p, q) && Positions(p, s) && Positions(q, s)
    ensures multiset(Picked(s, p)) == multiset(Picked(s, q))
    decreases |p|
  {
    hide Picked;
    if p == [] {
      NoItems(p, q);
    } else {
      var x := p[0];
      var u, v := TakeOut(q, x);
      assert p == [x] + p[1..];
      RestPositions(s, u, x, v);
      PickedSame(s, p[1..], u + v);
      PickedConcat(s, [x], p[1..]);
      PickedMiddle(s, u, x, v);
    }
  }

  lemma RestPositions(s: seq<Slot>, u: seq<int>, x: int, v: seq<int>)
    requires Positions(u + [x] + v, s)
    ensures Positions(u, s) && Positions([x], s) && Positions(v, s) && Positions(u + v, s)
  {
    var q := u + [x] + v;
    assert q[|u|] == x;
    assert forall k :: 0 <= k < |v| ==> v[k] == q[|u| + 1 + k];
    assert forall k :: 0 <= k < |u| ==> u[k] == q[k];
  }

  lemma PickedMiddle(s: seq<Slot>, u: seq<int>, x: int, v: seq<int>)
    requires Positions(u, s) && Positions([x], s) && Positions(v, s)
    ensures Positions(u + [x] + v, s) && Positions(u + v, s)
    ensures multiset(Picked(s, u + [x] + v)) == multiset(Picked(s, [x])) + multiset(Picked(s, u + v))
  {
    hide Picked;
    PickedConcat(s, u, v);
    PickedConcat(s, u, [x]);
    PickedConcat(s, u + [x], v);
  }

  /** The sorted range holds the same slots as before, in order, equal ones in their old order. */
  lemma SortedRange(s: seq<Slot>, ord: Order, p: seq<int>, low: nat, high: nat)
    requires OneKind(s) && low <= high < |s| && SortedPart(s, ord, p, low, high, high - low + 1)
    ensures var r := Picked(s, p);
      && multiset(r) == multiset(s[low..high + 1])
      && forall k, m :: 0 <= k < m < |p| ==>
           Compare(r[k], r[m], ord) <= 0 && (Compare(r[k], r[m], ord) == 0 ==> p[k] < p[m])
  {
    hide SameKind, Compare;
    assert Picked(s, Range(low, high)) == s[low..high + 1];
    PartBounds(s, ord, p, low, high, high - low + 1);
    PickedSame(s, p, Range(low, high));
    forall k, m | 0 <= k < m < |p| ensures Before(s, ord, p[k], p[m]) {
    }
  }

  /** There is only one such list, so every stable sort of the range yields it. */
  lemma {:induction false} OnlyOne(s: seq<Slot>, ord: Order, p: seq<int>, q: seq<int>, low: nat, high: nat)
    requires OneKind(s) && high < |s| && Sorted(s, ord, p, low, high) && Sorted(s, ord, q, low, high) && SameItems(p, q)
    ensures p == q
  {
    hide Before, SameItems;
    if p == [] || q == [] {
      NoItems(p, q);
    } else {
      SameMembers(p, q);
      HeadFirst(s, ord, p, low, high, q[0]);
      HeadFirst(s, ord, q, low, high, p[0]);
      BeforeOrder(s, ord, p[0], q[0]);
      TailItems(p, q);
      OnlyOne(s, ord, p[1..], q[1..], low, high);
      assert p == [p[0]] + p[1..] && q == [q[0]] + q[1..];
    }
  }

  lemma HeadFirst(s: seq<Slot>, ord: Order, p: seq<int>, low: nat, high: nat, x: int)
    requires OneKind(s) && high < |s| && Sorted(s, ord, p, low, high) && x in p
    ensures 0 <= p[0] < |s| && 0 <= x < |s| && (x == p[0] || Before(s, ord, p[0], x))
  {
    hide Before;
    var k :| 0 <= k < |p| && p[k] == x;
  }

  lemma NoItems(p: seq<int>, q: seq<int>)
    requires SameItems(p, q) && (p == [] || q == [])
    ensures p == q
  {
    assert |multiset(p)| == |multiset(q)|;
  }

  lemma SameMembers(p: seq<int>, q: seq<int>)
    requires SameItems(p, q)
    ensures forall x :: x in p <==> x in q
  {
    forall x ensures x in p <==> x in q {
      assert x in multiset(p) <==> x in multiset(q);
    }
  }

  lemma TailItems(p: seq<int>, q: seq<int>)
    requires SameItems(p, q) && p != [] && q != [] && p[0] == q[0]
    ensures SameItems(p[1..], q[1..])
  {
    assert p == [p[0]] + p[1..] && q == [q[0]] + q[1..];
    assert multiset(p[1..]) == multiset(p) - multiset{p[0]} && multiset(q[1..]) == multiset(q) - multiset{p[0]};
  }
}
