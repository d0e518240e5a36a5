/** The order of a sorted range in terms of the values themselves. */
module SortedValues {
  import opened QuickSort

  /** A byte as it counts: a capital letter as the small one when case is folded. */
  function Counts(c: Byte, fold: bool): int {
    if fold && 65 <= c < 91 then 97 + (c - 65) else c
  }

  /** Up to byte `k` the strings are the same, and there `x` ends or has the smaller byte. */
  predicate SmallerAt(x: seq<Byte>, y: seq<Byte>, fold: bool, k: nat) {
    && k <= |x| && k <= |y|
    && (forall j :: 0 <= j < k ==> Counts(x[j], fold) == Counts(y[j], fold))
    && if k == |x| then k < |y| else k < |y| && Counts(x[k], fold) < Counts(y[k], fold)
  }

  ghost predicate Precedes(x: seq<Byte>, y: seq<Byte>, fold: bool) {
    exists k: nat :: SmallerAt(x, y, fold, k)
  }

  /** The comparison puts a string first exactly when it precedes the other one. */
  lemma {:induction false} StringsDecided(x: seq<Byte>, y: seq<Byte>, fold: bool)
    ensures CompareStrings(x, y, fold) < 0 <==> Precedes(x, y, fold)
  {
    if x == [] || y == [] {
      if x == [] && y != [] {
        assert SmallerAt(x, y, fold, 0);
      }
    } else if Counts(x[0], fold) != Counts(y[0], fold) {
      if Counts(x[0], fold) < Counts(y[0], fold) {
        assert SmallerAt(x, y, fold, 0);
      }
    } else {
      StringsDecided(x[1..], y[1..], fold);
      TailPrecedes(x, y, fold);
    }
  }

  lemma TailPrecedes(x: seq<Byte>, y: seq<Byte>, fold: bool)
    requires x != [] && y != [] && Counts(x[0], fold) == Counts(y[0], fold)
    ensures Precedes(x, y, fold) <==> Precedes(x[1..], y[1..], fold)
  {
    if k: nat :| SmallerAt(x, y, fold, k) {
      assert k > 0;
      assert SmallerAt(x[1..], y[1..], fold, k - 1);
    }
    if k: nat :| SmallerAt(x[1..], y[1..], fold, k) {
      assert forall j :: 0 < j < k + 1 ==> x[j] == x[1..][j - 1] && y[j] == y[1..][j - 1];
      assert SmallerAt(x, y, fold, k + 1);
    }
  }

  /** The values may stand in this order: not falling for an even mode, not rising for an odd one. */
  ghost predicate InOrder(a: Slot, b: Slot, mode: int)
    requires SameKind(a, b)
  {
    var fold := mode / 2 % 2 == 1;
    match a
    case Int(n) => if mode % 2 == 0 then n <= b.n else n >= b.n
    case Dbl(x) => if mode % 2 == 0 then x <= b.x else x >= b.x
    case Str(s) => if mode % 2 == 0 then !Precedes(b.s, s, fold) else !Precedes(s, b.s, fold)
  }

  /** One slot is greater than another in the order of a mode exactly when they may not stand so. */
  lemma ComparedValues(a: Slot, b: Slot, mode: int)
    requires SameKind(a, b)
    ensures Compare(a, b, OrderOf(mode)) > 0 <==> !InOrder(a, b, mode)
    ensures Compare(a, b, OrderOf(mode)) == 0 <==> InOrder(a, b, mode) && InOrder(b, a, mode)
  {
    hide CompareStrings, Precedes;
    if a.Str? {
      var fold := mode / 2 % 2 == 1;
      StringsDecided(a.s, b.s, fold);
      StringsDecided(b.s, a.s, fold);
      StringsOpposite(a.s, b.s, fold);
    }
  }

  /** The sorted range holds the slots it held before; any two of them stand in the order of the mode, and those
      that could stand either way in the order in which they came. */
  lemma RangeInOrder(s: seq<Slot>, mode: int, p: seq<int>, low: nat, high: nat)
    requires OneKind(s) && low <= high < |s| && SortedPart(s, OrderOf(mode), p, low, high, high - low + 1)
    ensures Positions(p, s) && multiset(Picked(s, p)) == multiset(s[low..high + 1])
    ensures forall k, m :: 0 <= k < m < |p| ==>
      var a, b := s[p[k]], s[p[m]];
      InOrder(a, b, mode) && (InOrder(b, a, mode) ==> p[k] < p[m])
  {
    hide Compare, InOrder, SameKind;
    SortedRange(s, OrderOf(mode), p, low, high);
    PartBounds(s, OrderOf(mode), p, low, high, high - low + 1);
    forall k, m | 0 <= k < m < |p|
      ensures InOrder(s[p[k]], s[p[m]], mode) && (InOrder(s[p[m]], s[p[k]], mode) ==> p[k] < p[m])
    {
      var r := Picked(s, p);
      assert Compare(r[k], r[m], OrderOf(mode)) <= 0;
      ComparedValues(r[k], r[m], mode);
    }
  }

  /** The index array lists the permutation inside the range, and every other position as itself. */
  lemma IndexAt(p: seq<int>, low: nat, high: nat, len: nat, k: nat)
    requires low <= high < len && |p| == high - low + 1 && k < len
    ensures |FullIndex(p, low, high, len)| == len
    ensures FullIndex(p, low, high, len)[k] == if low <= k <= high then p[k - low] else k
  {
  }
}
