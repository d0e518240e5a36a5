/**
 The storage behind dynamic arrays in the generated C: every array (and every row of a row table) is a
 cell of a pointer and an upper bound over a heap of blocks. Blocks are handed out at any free address,
 a reallocation may move its block, and new memory is undefined until the generated code fills it.
 */
module ArrayStore {
  import opened Ir

  /** A slot: uninitialised memory, a number or null pointer, or a pointer to a string. */
  datatype Elem = Undef | Word(n: int) | Str(s: string)

  function Default(t: ValueType): Elem {
    if t == String then Str("") else Word(0)
  }

  datatype Place = Whole(name: string) | Row(name: string, row: nat)

  datatype Cell = Cell(ptr: nat, ub: int)

  const EMPTY := Cell(0, -1)

  type Values = map<Place, seq<Elem>>

  // ----- The meaning of the statements on plain values -----

  function Repeat(e: Elem, n: nat): (r: seq<Elem>)
    ensures |r| == n && forall i :: 0 <= i < n ==> r[i] == e
  {
    seq(n, _ => e)
  }

  /** REDIM: the common prefix stays and the grown tail takes `fill`. */
  function Resized(v: seq<Elem>, n: nat, fill: Elem): (r: seq<Elem>)
    ensures |r| == n
    ensures forall i :: 0 <= i < n ==> r[i] == if i < |v| then v[i] else fill
  {
    if n <= |v| then v[..n] else v + Repeat(fill, n - |v|)
  }

  /** A write past the end first grows the array up to the index. */
  function Stored(v: seq<Elem>, i: nat, e: Elem, fill: Elem): (r: seq<Elem>)
    ensures |r| == (if i < |v| then |v| else i + 1) && r[i] == e
    ensures forall k :: 0 <= k < |r| && k != i ==> r[k] == if k < |v| then v[k] else fill
  {
    if i < |v| then v[i := e] else Resized(v, i + 1, fill)[i := e]
  }

  /** What expressions can see of the arrays at one moment: the elements behind each pointer, and each bound. In
      the middle of a statement the two need not fit together. */
  datatype View = View(blocks: Values, bounds: map<Place, int>)

  function Shown(m: Values): View {
    View(m, map p | p in m :: |m[p]| - 1)
  }

  /** Expressions of the program, as functions of what can be seen when they are evaluated. */
  type IntExpr = View -> int
  type ElemExpr = View -> Elem

  /** What `a[index] = value` promises: both are evaluated once; a negative index has no meaning. */
  function Promised(m: Values, p: Place, index: IntExpr, value: ElemExpr, fill: Elem): Option<Values>
    requires p in m
  {
    var i := index(Shown(m));
    if i < 0 then None else Some(m[p := Stored(m[p], i, value(Shown(m)), fill)])
  }

  /** The state after the guard of an assignment, which lets the array grow to the index. */
  function Grown(m: Values, p: Place, i: int, fill: Elem): Values
    requires p in m
  {
    if i < |m[p]| then m else m[p := Resized(m[p], i + 1, fill)]
  }

  /** What the generated code does: it evaluates the index again after the array has grown, and the value
      only then. No result is a store outside the block. */
  function Written(m: Values, p: Place, index: IntExpr, value: ElemExpr, fill: Elem): Option<Values>
    requires p in m
  {
    var w := Grown(m, p, index(Shown(m)), fill);
    var j := index(Shown(w));
    if 0 <= j < |w[p]| then Some(w[p := w[p][j := value(Shown(w))]]) else None
  }

  /** The array does not grow, or index and value are the same before and after; failing that, the value is
      the default and the slot written instead holds what is written. */
  predicate SurvivesGrowth(m: Values, p: Place, index: IntExpr, value: ElemExpr, fill: Elem)
    requires p in m
  {
    var i, w := index(Shown(m)), Grown(m, p, index(Shown(m)), fill);
    var j := index(Shown(w));
    || i < |m[p]|
    || (j == i && value(Shown(w)) == value(Shown(m)))
    || (0 <= j < |w[p]| && value(Shown(m)) == fill && value(Shown(w)) == w[p][j])
  }

  /** The code keeps the promise of an assignment exactly under this condition. */
  lemma WrittenExactly(m: Values, p: Place, index: IntExpr, value: ElemExpr, fill: Elem)
    requires p in m
    ensures Written(m, p, index, value, fill) == Promised(m, p, index, value, fill)
       <==> SurvivesGrowth(m, p, index, value, fill)
  {
    var i, w := index(Shown(m)), Grown(m, p, index(Shown(m)), fill);
    var j, was, now := index(Shown(w)), value(Shown(m)), value(Shown(w));
    if i >= |m[p]| && 0 <= j < |w[p]| {
      var done, due := w[p][j := now], Stored(m[p], i, was, fill);
      assert due == w[p][i := was] && w[p][i] == fill;
      assert w[p := done] == m[p := done];
      assert m[p := done][p] == done && m[p := due][p] == due;
      if j != i && was == fill && now == w[p][j] {
        assert done == w[p] && due == w[p];
      }
      if done == due {
        assert done[j] == due[j] && done[i] == due[i];
      }
    }
  }

  function Moved(m: Values, src: Place, dst: Place): Values
    requires src in m
  {
    m[dst := m[src]][src := []]
  }

  // ----- ATTACH of a row, whose number the code evaluates again at every step -----

  function RowAt(places: set<Place>, table: string, row: IntExpr, v: View): (r: Option<Place>)
    ensures r.Some? ==> r.value in places && r.value.Row?
  {
    var i := row(v);
    if i >= 0 && Row(table, i) in places then Some(Row(table, i)) else None
  }

  /** What the row number says when it is evaluated once; a negative one is row 0. */
  function RowDue(m: Values, table: string, row: IntExpr): Option<Place> {
    var i := row(Shown(m));
    var k := if i < 0 then 0 else i;
    if Row(table, k) in m then Some(Row(table, k)) else None
  }

  /** `ATTACH t[row,] TO a[]` names its row four times: for the pointer and the bound that are read, then for
      the pointer and the bound that are cleared. Each time it sees what the steps before it have changed. */
  function RowsTaken(m: Values, table: string, row: IntExpr, a: Place): (r: Option<(Place, Place, Place, Place)>)
    ensures r.Some? ==> r.value.0 in m && r.value.1 in m && r.value.2 in m && r.value.3 in m
    ensures r.Some? ==> r.value.0.Row? && r.value.1.Row? && r.value.2.Row? && r.value.3.Row?
  {
    var v0 := Shown(m);
    var r0 := RowAt(m.Keys, table, row, v0);
    if r0.None? then None
    else
      var v1 := View(m[a := m[r0.value]], v0.bounds);
      var r1 := RowAt(m.Keys, table, row, v1);
      if r1.None? then None
      else
        var v2 := View(v1.blocks, v0.bounds[a := |m[r1.value]| - 1]);
        var r2 := RowAt(m.Keys, table, row, v2);
        if r2.None? then None
        else
          var v3 := View(v1.blocks[r2.value := []], v2.bounds);
          var r3 := RowAt(m.Keys, table, row, v3);
          if r3.None? then None else Some((r0.value, r1.value, r2.value, r3.value))
  }

  /** `ATTACH a[] TO t[row,]` names its row twice: for the pointer and for the bound. */
  function RowsPut(m: Values, a: Place, table: string, row: IntExpr): (r: Option<(Place, Place)>)
    requires a in m
    ensures r.Some? ==> r.value.0 in m && r.value.1 in m && r.value.0.Row? && r.value.1.Row?
  {
    var v0 := Shown(m);
    var r0 := RowAt(m.Keys, table, row, v0);
    if r0.None? then None
    else
      var r1 := RowAt(m.Keys, table, row, View(m[r0.value := m[a]], v0.bounds));
      if r1.None? then None else Some((r0.value, r1.value))
  }

  /** The row that is cleared is the one that was read, and the bound fits its length. */
  predicate TakesRow(m: Values, r: (Place, Place, Place, Place))
    requires r.0 in m && r.1 in m && r.3 in m
  {
    && |m[r.1]| == |m[r.0]| && r.2 == r.0
    && (r.3 == r.0 || (|m[r.0]| == 0 && |m[r.3]| == 0))
  }

  predicate PutsRow(m: Values, a: Place, r: (Place, Place))
    requires a in m && r.0 in m && r.1 in m
  {
    r.1 == r.0 || |m[r.0]| == |m[a]| == |m[r.1]|
  }

  /** What the code makes of the two statements; no result is a row out of range, or cells that need not own
      their blocks any more. */
  function RowTaken(m: Values, table: string, row: IntExpr, a: Place): Option<Values> {
    var r := RowsTaken(m, table, row, a);
    if r.Some? && TakesRow(m, r.value) then Some(Moved(m, r.value.0, a)) else None
  }

  function RowPut(m: Values, a: Place, table: string, row: IntExpr): Option<Values>
    requires a in m
  {
    var r := RowsPut(m, a, table, row);
    if r.Some? && PutsRow(m, a, r.value) then Some(Moved(m, a, r.value.0)) else None
  }

  /** What ATTACH promises: the contents move to a destination that is empty; another one is an error. */
  function Attached(m: Values, src: Place, dst: Place): Option<Values>
    requires src in m && dst in m
  {
    if |m[dst]| == 0 then Some(Moved(m, src, dst)) else None
  }

  function Swapped(m: Values, l: Place, r: Place): Values
    requires l in m && r in m
  {
    m[l := m[r]][r := m[l]]
  }

  predicate IsRowOf(p: Place, name: string) {
    p.Row? && p.name == name
  }

  /** The array's rows, all of them new: `rows` zeroed rows of `cols` elements each. */
  function WithRows(m: Values, name: string, rows: nat, cols: nat): (r: Values)
    ensures forall p :: p in r <==> (if IsRowOf(p, name) then p.row < rows else p in m)
    ensures forall p :: p in r ==> r[p] == if IsRowOf(p, name) then Repeat(Word(0), cols) else m[p]
  {
    (map p | p in m && !IsRowOf(p, name) :: m[p]) + (map i: nat | i < rows :: Row(name, i) := Repeat(Word(0), cols))
  }

  /** Resizing that overwrites every slot from `first` on. */
  function Refilled(v: seq<Elem>, n: nat, first: nat, e: Elem): (r: seq<Elem>)
    ensures |r| == n
    ensures forall i :: 0 <= i < n ==> r[i] == if first <= i then e else if i < |v| then v[i] else Undef
  {
    seq(n, i => if first <= i then e else if 0 <= i < |v| then v[i] else Undef)
  }

  lemma RefilledTail(v: seq<Elem>, n: nat, e: Elem)
    ensures Refilled(v, n, |v|, e) == Resized(v, n, e)
  {
  }

  lemma RefilledWhole(v: seq<Elem>, n: nat, e: Elem)
    ensures Refilled(v, n, 0, e) == Repeat(e, n)
  {
  }

  /** How a statement ends: completed, aborted for want of memory, with a store outside its block, or with cells
      that no longer own a block each. */
  datatype Outcome = Done | NoMemory | Outside | Torn

  // ----- Heaps and cells -----

  type Heap = map<nat, seq<Elem>>
  type Cells = map<Place, Cell>

  /** An empty cell, or the address of a live block of exactly `ub + 1` elements. */
  predicate CellOk(h: Heap, c: Cell) {
    if c.ptr == 0 then c.ub == -1 else c.ptr in h && |h[c.ptr]| == c.ub + 1
  }

  predicate CellsOk(h: Heap, cs: Cells) {
    0 !in h && forall p :: p in cs ==> CellOk(h, cs[p])
  }

  /** No two places own the same block. */
  ghost predicate Distinct(cs: Cells) {
    forall p, q :: p in cs && q in cs && p != q && cs[p].ptr == cs[q].ptr ==> cs[p].ptr == 0
  }

  function BlockOf(h: Heap, c: Cell): (v: seq<Elem>)
    requires CellOk(h, c)
    ensures |v| == c.ub + 1
  {
    if c.ptr == 0 then [] else h[c.ptr]
  }

  function ContentsOf(h: Heap, cs: Cells): (m: Values)
    requires CellsOk(h, cs)
    ensures m.Keys == cs.Keys && forall p :: p in cs ==> m[p] == BlockOf(h, cs[p])
  {
    map p | p in cs :: BlockOf(h, cs[p])
  }

  /** What expressions see of a heap and its cells, at any moment. */
  function Seen(h: Heap, cs: Cells): View {
    View(map p | p in cs :: if cs[p].ptr in h then h[cs[p].ptr] else [], map p | p in cs :: cs[p].ub)
  }

  lemma SeenPlaces(h: Heap, cs: Cells)
    ensures Seen(h, cs).blocks.Keys == cs.Keys && Seen(h, cs).bounds.Keys == cs.Keys
    ensures forall p :: p in cs ==> Seen(h, cs).blocks[p] == if cs[p].ptr in h then h[cs[p].ptr] else []
    ensures forall p :: p in cs ==> Seen(h, cs).bounds[p] == cs[p].ub
  {
  }

  lemma SeenShown(h: Heap, cs: Cells)
    requires CellsOk(h, cs)
    ensures Seen(h, cs) == Shown(ContentsOf(h, cs))
  {
    assert Seen(h, cs).blocks == ContentsOf(h, cs);
    assert Seen(h, cs).bounds == Shown(ContentsOf(h, cs)).bounds;
  }

  /** What is behind a sound cell. */
  lemma BlockSeen(h: Heap, cs: Cells, p: Place)
    requires CellsOk(h, cs) && p in cs
    ensures ContentsOf(h, cs)[p] == if cs[p].ptr in h then h[cs[p].ptr] else []
    ensures cs[p].ub == |ContentsOf(h, cs)[p]| - 1 && 0 !in h
  {
  }

  lemma SeenPointer(h: Heap, cs: Cells, p: Place, q: nat)
    requires p in cs
    ensures Seen(h, cs[p := cs[p].(ptr := q)]) ==
              View(Seen(h, cs).blocks[p := if q in h then h[q] else []], Seen(h, cs).bounds)
  {
    hide Seen;
    SeenPlaces(h, cs);
    var cs' := cs[p := cs[p].(ptr := q)];
    SeenPlaces(h, cs');
    assert Seen(h, cs').blocks == Seen(h, cs).blocks[p := if q in h then h[q] else []];
    assert Seen(h, cs').bounds == Seen(h, cs).bounds;
  }

  lemma SeenBound(h: Heap, cs: Cells, p: Place, u: int)
    requires p in cs
    ensures Seen(h, cs[p := cs[p].(ub := u)]) == View(Seen(h, cs).blocks, Seen(h, cs).bounds[p := u])
  {
    hide Seen;
    SeenPlaces(h, cs);
    var cs' := cs[p := cs[p].(ub := u)];
    SeenPlaces(h, cs');
    assert Seen(h, cs').blocks == Seen(h, cs).blocks;
    assert Seen(h, cs').bounds == Seen(h, cs).bounds[p := u];
  }

  /** The heap and the cells are sound and hold these values. */
  ghost predicate Holds(h: Heap, cs: Cells, m: Values) {
    CellsOk(h, cs) && Distinct(cs) && ContentsOf(h, cs) == m
  }

  /** The four assignments of `ATTACH t[row,] TO a[]`. */
  function TakenCells(cs: Cells, a: Place, r: (Place, Place, Place, Place)): Cells
    requires a in cs && r.0 in cs && r.1 in cs && r.2 in cs && r.3 in cs
  {
    var c1 := cs[a := cs[a].(ptr := cs[r.0].ptr)];
    var c2 := c1[a := c1[a].(ub := c1[r.1].ub)];
    var c3 := c2[r.2 := c2[r.2].(ptr := 0)];
    c3[r.3 := c3[r.3].(ub := -1)]
  }

  /** The four assignments of `ATTACH a[] TO t[row,]`. */
  function PutCells(cs: Cells, a: Place, r: (Place, Place)): Cells
    requires a in cs && r.0 in cs && r.1 in cs
  {
    var c1 := cs[r.0 := cs[r.0].(ptr := cs[a].ptr)];
    var c2 := c1[r.1 := c1[r.1].(ub := c1[a].ub)];
    var c3 := c2[a := c2[a].(ptr := 0)];
    c3[a := c3[a].(ub := -1)]
  }

  /** One place gives up its block and takes a new one at a free address; leaked blocks do no harm. */
  lemma Reseated(h: Heap, cs: Cells, h': Heap, p: Place, q: nat, block: seq<Elem>)
    requires CellsOk(h, cs) && Distinct(cs) && p in cs
    requires q != 0 && (q !in h || q == cs[p].ptr) && q in h' && h'[q] == block && 0 !in h'
    requires forall a :: a in h && a != cs[p].ptr ==> a in h' && h'[a] == h[a]
    ensures var cs' := cs[p := Cell(q, |block| - 1)];
            CellsOk(h', cs') && Distinct(cs') && ContentsOf(h', cs') == ContentsOf(h, cs)[p := block]
  {
  }

  lemma CellsMoved(h: Heap, cs: Cells, src: Place, dst: Place)
    requires CellsOk(h, cs) && Distinct(cs) && src in cs && dst in cs
    ensures var cs' := cs[dst := cs[src]][src := EMPTY];
            CellsOk(h, cs') && Distinct(cs') && ContentsOf(h, cs') == Moved(ContentsOf(h, cs), src, dst)
  {
    hide Distinct;
    StillDistinct(cs, src, dst);
    var cs' := cs[dst := cs[src]][src := EMPTY];
    var m, m' := Moved(ContentsOf(h, cs), src, dst), ContentsOf(h, cs');
    assert forall p :: p in cs' ==> m[p] == m'[p];
  }

  /** The four assignments move the row, on every heap that holds the values, exactly under this condition. */
  lemma TakenExactly(m: Values, a: Place, r: (Place, Place, Place, Place))
    requires a in m && r.0 in m && r.1 in m && r.2 in m && r.3 in m
    requires a != r.0 && a != r.1 && a != r.2 && a != r.3
    ensures TakesRow(m, r) <==>
              forall h, cs :: Holds(h, cs, m) ==>
                cs.Keys == m.Keys && Holds(h, TakenCells(cs, a, r), Moved(m, r.0, a))
  {
    hide Holds, TakesRow, TakenCells;
    if TakesRow(m, r) {
      forall h, cs | Holds(h, cs, m)
        ensures cs.Keys == m.Keys && Holds(h, TakenCells(cs, a, r), Moved(m, r.0, a))
      {
        TakenHolds(h, cs, m, a, r);
      }
    } else {
      var h, cs := HeapFor(m);
      TakenOnly(h, cs, m, a, r);
    }
  }

  lemma HoldsPlaces(h: Heap, cs: Cells, m: Values)
    requires Holds(h, cs, m)
    ensures cs.Keys == m.Keys && forall p :: p in m ==> CellOk(h, cs[p]) && |m[p]| == cs[p].ub + 1
  {
  }

  lemma HoldsHere(h: Heap, cs: Cells)
    requires CellsOk(h, cs) && Distinct(cs)
    ensures Holds(h, cs, ContentsOf(h, cs)) && ContentsOf(h, cs).Keys == cs.Keys
  {
  }

  lemma TakenAt(cs: Cells, a: Place, r: (Place, Place, Place, Place))
    requires a in cs && r.0 in cs && r.1 in cs && r.2 in cs && r.3 in cs
    requires a != r.0 && a != r.1 && a != r.2 && a != r.3
    ensures var cs' := TakenCells(cs, a, r);
      && cs'.Keys == cs.Keys && cs'[a] == Cell(cs[r.0].ptr, cs[r.1].ub)
      && forall p :: p in cs && p != a ==>
           cs'[p] == Cell(if p == r.2 then 0 else cs[p].ptr, if p == r.3 then -1 else cs[p].ub)
  {
  }

  lemma TakenHolds(h: Heap, cs: Cells, m: Values, a: Place, r: (Place, Place, Place, Place))
    requires a in m && r.0 in m && r.1 in m && r.2 in m && r.3 in m
    requires a != r.0 && a != r.1 && a != r.2 && a != r.3
    requires Holds(h, cs, m) && TakesRow(m, r)
    ensures cs.Keys == m.Keys && Holds(h, TakenCells(cs, a, r), Moved(m, r.0, a))
  {
    hide TakenCells, CellsOk, Distinct, ContentsOf;
    HoldsPlaces(h, cs, m);
    TakenAt(cs, a, r);
    assert TakenCells(cs, a, r) == cs[a := cs[r.0]][r.0 := EMPTY];
    MovedHolds(h, cs, m, r.0, a);
  }

  /** On a heap without null pointers the condition is needed. */
  lemma TakenOnly(h: Heap, cs: Cells, m: Values, a: Place, r: (Place, Place, Place, Place))
    requires a in m && r.0 in m && r.1 in m && r.2 in m && r.3 in m
    requires a != r.0 && a != r.1 && a != r.2 && a != r.3
    requires Holds(h, cs, m) && (forall p :: p in cs ==> cs[p].ptr != 0)
    ensures cs.Keys == m.Keys && (Holds(h, TakenCells(cs, a, r), Moved(m, r.0, a)) ==> TakesRow(m, r))
  {
    hide TakenCells, CellsOk, ContentsOf, Holds;
    HoldsPlaces(h, cs, m);
    TakenAt(cs, a, r);
    var cs' := TakenCells(cs, a, r);
    if Holds(h, cs', Moved(m, r.0, a)) {
      HoldsPlaces(h, cs', Moved(m, r.0, a));
      HoldsDistinct(h, cs', Moved(m, r.0, a));
      assert cs'[a].ptr == cs[r.0].ptr != 0;
      assert r.2 == r.0;
      assert CellOk(h, cs'[a]) && CellOk(h, cs'[r.0]) && CellOk(h, cs'[r.3]);
    }
  }

  lemma HoldsDistinct(h: Heap, cs: Cells, m: Values)
    requires Holds(h, cs, m)
    ensures Distinct(cs)
  {
  }

  /** All values are held by some heap, each place with a block, be it of no elements. */
  lemma {:induction false} HeapFor(m: Values) returns (h: Heap, cs: Cells)
    ensures Holds(h, cs, m) && forall p :: p in cs ==> cs[p].ptr != 0
    decreases |m.Keys|
  {
    if m == map[] {
      h, cs := map[], map[];
    } else {
      var p :| p in m;
      var h0, cs0 := HeapFor(m - {p});
      var top := UpperBound(h0.Keys);
      h, cs := h0[top + 1 := m[p]], cs0[p := Cell(top + 1, |m[p]| - 1)];
      OneMoreBlock(h0, cs0, m, p, top + 1);
    }
  }

  lemma OneMoreBlock(h: Heap, cs: Cells, m: Values, p: Place, q: nat)
    requires p in m && Holds(h, cs, m - {p}) && q !in h && q != 0
    ensures Holds(h[q := m[p]], cs[p := Cell(q, |m[p]| - 1)], m)
  {
    hide CellsOk, Distinct, ContentsOf;
    HoldsHere(h, cs);
    CellAdded(h, cs, p);
    Reseated(h, cs[p := EMPTY], h[q := m[p]], p, q, m[p]);
    assert cs[p := Cell(q, |m[p]| - 1)] == cs[p := EMPTY][p := Cell(q, |m[p]| - 1)];
    assert m == (m - {p})[p := []][p := m[p]];
  }

  lemma PutAt(cs: Cells, a: Place, r: (Place, Place))
    requires a in cs && r.0 in cs && r.1 in cs && a != r.0 && a != r.1
    ensures var cs' := PutCells(cs, a, r);
      && cs'.Keys == cs.Keys && cs'[a] == EMPTY
      && forall p :: p in cs && p != a ==>
           cs'[p] == Cell(if p == r.0 then cs[a].ptr else cs[p].ptr, if p == r.1 then cs[a].ub else cs[p].ub)
  {
  }

  /** The other way the condition is exact on each heap. */
  lemma PutExactly(h: Heap, cs: Cells, m: Values, a: Place, r: (Place, Place))
    requires a in m && r.0 in m && r.1 in m && a != r.0 && a != r.1
    requires Holds(h, cs, m)
    ensures cs.Keys == m.Keys && (Holds(h, PutCells(cs, a, r), Moved(m, a, r.0)) <==> PutsRow(m, a, r))
  {
    hide PutCells, CellsOk, Distinct, ContentsOf, Holds;
    HoldsPlaces(h, cs, m);
    PutAt(cs, a, r);
    var cs' := PutCells(cs, a, r);
    if PutsRow(m, a, r) {
      assert cs' == cs[r.0 := cs[a]][a := EMPTY];
      MovedHolds(h, cs, m, a, r.0);
    }
    if Holds(h, cs', Moved(m, a, r.0)) {
      HoldsPlaces(h, cs', Moved(m, a, r.0));
      assert CellOk(h, cs'[r.0]) && CellOk(h, cs'[r.1]);
    }
  }

  lemma MovedHolds(h: Heap, cs: Cells, m: Values, src: Place, dst: Place)
    requires Holds(h, cs, m) && src in cs && dst in cs
    ensures src in m && Holds(h, cs[dst := cs[src]][src := EMPTY], Moved(m, src, dst))
  {
    hide CellsOk, Distinct, ContentsOf;
    CellsMoved(h, cs, src, dst);
    HoldsPlaces(h, cs, m);
  }

  lemma StillDistinct(cs: Cells, src: Place, dst: Place)
    requires Distinct(cs) && src in cs && dst in cs
    ensures Distinct(cs[dst := cs[src]][src := EMPTY])
  {
  }

  lemma CellsSwapped(h: Heap, cs: Cells, l: Place, r: Place)
    requires CellsOk(h, cs) && Distinct(cs) && l in cs && r in cs
    ensures var cs' := cs[l := cs[r]][r := cs[l]];
            CellsOk(h, cs') && Distinct(cs') && ContentsOf(h, cs') == Swapped(ContentsOf(h, cs), l, r)
  {
    hide Distinct;
    SwapDistinct(cs, l, r);
    var cs' := cs[l := cs[r]][r := cs[l]];
    var m, m' := Swapped(ContentsOf(h, cs), l, r), ContentsOf(h, cs');
    assert forall p :: p in cs' ==> m[p] == m'[p];
  }

  lemma SwapDistinct(cs: Cells, l: Place, r: Place)
    requires Distinct(cs) && l in cs && r in cs
    ensures Distinct(cs[l := cs[r]][r := cs[l]])
  {
  }

  lemma CellEmptied(h: Heap, cs: Cells, p: Place)
    requires CellsOk(h, cs) && Distinct(cs) && p in cs
    ensures var cs' := cs[p := EMPTY];
            CellsOk(h, cs') && Distinct(cs') && ContentsOf(h, cs') == ContentsOf(h, cs)[p := []]
  {
  }

  /** Two places hold the same live block. */
  predicate Share(cs: Cells, p: Place, q: Place)
    requires p in cs && q in cs
  {
    p == q || (cs[p].ptr == cs[q].ptr && cs[p].ptr != 0)
  }

  ghost predicate SharedThroughHome(cs: Cells, p: Place, group: seq<Place>, home: Place)
    requires p in cs && home in cs
  {
    forall q :: q in cs && q != p && Share(cs, p, q) ==> (q in group || q == home) && Share(cs, p, home)
  }

  /** Resizing one place resizes all that share its block. */
  ghost function ResizedTogether(cs: Cells, m: Values, p: Place, n: nat, fill: Elem): Values
    requires m.Keys == cs.Keys && p in cs
  {
    map q | q in m :: if Share(cs, p, q) then Resized(m[q], n, fill) else m[q]
  }

  /** Every place sharing `p`'s block now holds the new block. */
  ghost predicate Repointed(cs: Cells, cs': Cells, p: Place, c: Cell)
    requires p in cs
  {
    cs'.Keys == cs.Keys && forall x :: x in cs ==> cs'[x] == if Share(cs, p, x) then c else cs[x]
  }

  lemma Together(h: Heap, cs: Cells, h': Heap, cs': Cells, p: Place, q: nat, block: seq<Elem>)
    requires CellsOk(h, cs) && p in cs
    requires q != 0 && (q !in h || q == cs[p].ptr) && 0 !in h' && q in h' && h'[q] == block
    requires forall a :: a in h && a != cs[p].ptr ==> a in h' && h'[a] == h[a]
    requires Repointed(cs, cs', p, Cell(q, |block| - 1))
    ensures CellsOk(h', cs')
    ensures forall x :: x in cs ==> ContentsOf(h', cs')[x] == if Share(cs, p, x) then block else ContentsOf(h, cs)[x]
  {
  }

  lemma SharedBlocks(h: Heap, cs: Cells, p: Place, n: nat, fill: Elem)
    requires CellsOk(h, cs) && p in cs
    ensures var m := ResizedTogether(cs, ContentsOf(h, cs), p, n, fill);
            m.Keys == cs.Keys
            && forall x :: x in cs ==>
              m[x] == if Share(cs, p, x) then Resized(BlockOf(h, cs[p]), n, fill) else ContentsOf(h, cs)[x]
  {
  }

  lemma AloneDistinct(h: Heap, cs: Cells, cs': Cells, p: Place, q: nat, size: int)
    requires CellsOk(h, cs) && Distinct(cs) && p in cs && q != 0
    requires (q !in h || q == cs[p].ptr) && Repointed(cs, cs', p, Cell(q, size))
    ensures Distinct(cs')
  {
    assert cs' == cs[p := Cell(q, size)];
    forall x | x in cs && x != p ensures cs[x].ptr != q {
      assert CellOk(h, cs[x]);
    }
  }

  lemma AloneContents(h: Heap, cs: Cells, p: Place, n: nat, fill: Elem)
    requires CellsOk(h, cs) && Distinct(cs) && p in cs
    ensures ResizedTogether(cs, ContentsOf(h, cs), p, n, fill) ==
              ContentsOf(h, cs)[p := Resized(ContentsOf(h, cs)[p], n, fill)]
  {
    hide Resized, CellsOk, ContentsOf;
    assert forall x :: x in cs && x != p ==> !Share(cs, p, x);
  }

  lemma RowsDropped(h: Heap, cs: Cells, name: string, cols: nat)
    requires CellsOk(h, cs) && Distinct(cs)
    ensures var cs' := map p | p in cs && !IsRowOf(p, name) :: cs[p];
            CellsOk(h, cs') && Distinct(cs') && ContentsOf(h, cs') == WithRows(ContentsOf(h, cs), name, 0, cols)
  {
  }

  lemma NextRow(m: Values, name: string, r: nat, cols: nat)
    ensures WithRows(m, name, r + 1, cols) == WithRows(m, name, r, cols)[Row(name, r) := Repeat(Word(0), cols)]
  {
  }

  lemma CellAdded(h: Heap, cs: Cells, p: Place)
    requires CellsOk(h, cs) && Distinct(cs) && p !in cs
    ensures var cs' := cs[p := EMPTY];
            CellsOk(h, cs') && Distinct(cs') && ContentsOf(h, cs') == ContentsOf(h, cs)[p := []]
  {
  }

  /** The block of `p` was reallocated to `q`, and every place sharing it was repointed. */
  ghost predicate BlockResized(h: Heap, cs: Cells, h': Heap, cs': Cells, p: Place, q: nat, size: int, fill: Elem)
    requires CellsOk(h, cs) && p in cs
  {
    && size + 1 >= 0 && q != 0 && (q !in h || q == cs[p].ptr) && 0 !in h' && q in h'
    && h'[q] == Resized(BlockOf(h, cs[p]), size + 1, fill)
    && (forall a :: a in h && a != cs[p].ptr ==> a in h' && h'[a] == h[a])
    && Repointed(cs, cs', p, Cell(q, size))
  }

  lemma GroupContents(h: Heap, cs: Cells, h': Heap, cs': Cells, p: Place, q: nat, size: int, fill: Elem)
    requires CellsOk(h, cs) && p in cs && BlockResized(h, cs, h', cs', p, q, size, fill)
    ensures CellsOk(h', cs') && ContentsOf(h', cs') == ResizedTogether(cs, ContentsOf(h, cs), p, size + 1, fill)
  {
    hide CellsOk, ContentsOf, ResizedTogether, Resized, Share;
    SharedBlocks(h, cs, p, size + 1, fill);
    Together(h, cs, h', cs', p, q, h'[q]);
  }

  lemma {:induction false} GroupResult(h: Heap, cs: Cells, h': Heap, cs': Cells, p: Place, q: nat, size: int,
                                       fill: Elem)
    requires CellsOk(h, cs) && p in cs && BlockResized(h, cs, h', cs', p, q, size, fill)
    ensures CellsOk(h', cs') && ContentsOf(h', cs') == ResizedTogether(cs, ContentsOf(h, cs), p, size + 1, fill)
    ensures Distinct(cs) ==> Distinct(cs')
    ensures Distinct(cs) ==>
              ContentsOf(h', cs') == ContentsOf(h, cs)[p := Resized(ContentsOf(h, cs)[p], size + 1, fill)]
  {
    hide Distinct, CellsOk, ContentsOf, ResizedTogether, Resized, Repointed;
    GroupContents(h, cs, h', cs', p, q, size, fill);
    if Distinct(cs) {
      AloneDistinct(h, cs, cs', p, q, size);
      AloneContents(h, cs, p, size + 1, fill);
    }
  }

  predicate Repoints(x: Place, p: Place, group: seq<Place>, home: Place, cs: Cells, attHome: nat)
    requires x in cs
  {
    x != home && x != p && x in group && cs[x].ptr == attHome
  }

  lemma SharersFollow(cs: Cells, mid: Cells, cs': Cells, p: Place, group: seq<Place>, home: Place, c: Cell)
    requires p in cs && home in cs && cs[home].ptr == cs[p].ptr != 0
    requires SharedThroughHome(cs, p, group, home)
    requires mid == cs[home := c][p := c] && cs'.Keys == mid.Keys
    requires forall x :: x in mid ==>
               cs'[x] == (if Repoints(x, p, group, home, mid, cs[home].ptr) then mid[home] else mid[x])
    ensures Repointed(cs, cs', p, c)
  {
  }

  // ----- The machine -----

  class Store {
    var heap: Heap
    var cells: Cells
    /** The largest element count the allocator grants, and whether it grants a count of zero. */
    const limit: nat
    const zeroGranted: bool

    constructor (places: set<Place>, limit: nat, zeroGranted: bool)
      ensures Valid() && cells.Keys == places
      ensures Contents() == map p | p in places :: []
    {
      heap := map[];
      cells := map p | p in places :: EMPTY;
      this.limit := limit;
      this.zeroGranted := zeroGranted;
    }

    ghost predicate Valid()
      reads this
    {
      CellsOk(heap, cells) && Distinct(cells)
    }

    function Contents(): Values
      requires CellsOk(heap, cells)
      reads this
    {
      ContentsOf(heap, cells)
    }

    /** A count the allocator can serve; a negative one is a huge unsigned size. */
    predicate Grants(count: int) {
      (count == 0 && zeroGranted) || 0 < count <= limit
    }

    // ----- The C allocator -----

    method FreshAddress() returns (p: nat)
      ensures p != 0 && p !in heap
    {
      ghost var top := UpperBound(heap.Keys);
      assert top + 1 !in heap;
      p :| p != 0 && p !in heap;
    }

    method Calloc(count: int) returns (p: nat)
      modifies this`heap
      ensures p == 0 <==> !Grants(count)
      ensures p == 0 ==> heap == old(heap)
      ensures p != 0 ==> count >= 0 && p !in old(heap) && heap == old(heap)[p := Repeat(Word(0), count)]
    {
      if !Grants(count) {
        return 0;
      }
      p := FreshAddress();
      heap := heap[p := Repeat(Word(0), count)];
    }

    /** Frees the old block and hands out a block at any free address, the old one included. */
    method Realloc(block: nat, count: int) returns (p: nat)
      requires block == 0 || block in heap
      modifies this`heap
      ensures p == 0 <==> !Grants(count)
      ensures p == 0 ==> heap == old(heap)
      ensures p != 0 ==>
        && count >= 0 && (p !in old(heap) || p == block)
        && heap == (old(heap) - {block})[p := Resized(if block == 0 then [] else old(heap)[block], count, Undef)]
    {
      if !Grants(count) {
        return 0;
      }
      var kept := if block == 0 then [] else heap[block];
      heap := heap - {block};
      p := FreshAddress();
      heap := heap[p := Resized(kept, count, Undef)];
    }

    /** The default-filling loop over the slots `from .. last`. */
    method Fill(p: nat, from: int, last: int, e: Elem)
      requires p in heap && 0 <= from && last < |heap[p]|
      modifies this`heap
      ensures p in heap && |heap[p]| == |old(heap)[p]| && heap == old(heap)[p := heap[p]]
      ensures forall i :: 0 <= i < |heap[p]| ==> heap[p][i] == (if from <= i <= last then e else old(heap)[p][i])
    {
      var i := from;
      while i <= last
        invariant from <= i
        invariant p in heap && |heap[p]| == |old(heap)[p]| && heap == old(heap)[p := heap[p]]
        invariant forall k :: 0 <= k < |heap[p]| ==>
          heap[p][k] == (if from <= k < i && k <= last then e else old(heap)[p][k])
      {
        heap := heap[p := heap[p][i := e]];
        i := i + 1;
      }
    }

    /** The reallocation shared by the resizing statements, with the fill loop that starts at slot `first`. */
    method ReallocFill(block: nat, first: int, size: int, e: Elem) returns (p: nat)
      requires block == 0 || block in heap
      requires Grants(size + 1) ==> first >= 0
      modifies this`heap
      ensures p == 0 <==> !Grants(size + 1)
      ensures p != 0 ==>
        && size + 1 >= 0 && (p !in old(heap) || p == block) && (0 !in old(heap) ==> 0 !in heap)
        && p in heap && heap[p] == Refilled(if block == 0 then [] else old(heap)[block], size + 1, first, e)
        && forall a :: a in old(heap) && a != block ==> a in heap && heap[a] == old(heap)[a]
    {
      p := Realloc(block, size + 1);
      if p != 0 {
        Fill(p, first, size, e);
        assert heap[p] == Refilled(if block == 0 then [] else old(heap)[block], size + 1, first, e);
      }
    }

    /** The sequence all resizing statements emit: set the bound, reallocate, abort on a null pointer, and
        fill from slot `first` on. `ok` is false when the program aborts for want of memory. */
    method Resize(p: Place, first: int, size: int, e: Elem) returns (ok: bool)
      requires Valid() && p in cells
      requires Grants(size + 1) ==> first >= 0
      modifies this
      ensures ok <==> Grants(size + 1)
      ensures ok ==> Valid()
      ensures ok ==> Contents() == old(Contents())[p := Refilled(old(Contents())[p], size + 1, first, e)]
    {
      hide Distinct, ContentsOf;
      cells := cells[p := cells[p].(ub := size)];
      var q := ReallocFill(cells[p].ptr, first, size, e);
      cells := cells[p := cells[p].(ptr := q)];
      if q == 0 {
        return false;
      }
      Reseated(old(heap), old(cells), heap, p, q, heap[q]);
      assert cells == old(cells)[p := Cell(q, size)];
      ok := true;
    }

    // ----- Statements -----

    /** `REDIM a[size]` of a dynamic array outside any alias group. */
    method Redim(p: Place, t: ValueType, size: int) returns (ok: bool)
      requires Valid() && p in cells
      modifies this
      ensures ok <==> Grants(size + 1)
      ensures ok ==> Valid()
      ensures ok ==> Contents() == old(Contents())[p := Resized(old(Contents())[p], size + 1, Default(t))]
    {
      hide Distinct;
      ghost var v := Contents()[p];
      var oldUb := cells[p].ub;
      ok := Resize(p, oldUb + 1, size, Default(t));
      if ok {
        RefilledTail(v, size + 1, Default(t));
      }
    }

    /** `DIM a[size]` of a dynamic array: a zeroed block, and for strings a loop storing "". The old
        block is not freed. */
    method Dim(p: Place, t: ValueType, size: int) returns (ok: bool)
      requires Valid() && p in cells
      modifies this
      ensures ok <==> Grants(size + 1)
      ensures ok ==> Valid()
      ensures ok ==> Contents() == old(Contents())[p := Repeat(Default(t), size + 1)]
    {
      hide Distinct, ContentsOf;
      cells := cells[p := cells[p].(ub := size)];
      var q := Calloc(size + 1);
      cells := cells[p := cells[p].(ptr := q)];
      if q == 0 {
        return false;
      }
      if t == String {
        Fill(q, 0, size, Default(t));
      }
      assert heap[q] == Repeat(Default(t), size + 1);
      Reseated(old(heap), old(cells), heap, p, q, heap[q]);
      assert cells == old(cells)[p := Cell(q, size)];
      ok := true;
    }

    /** `DIM a[]`: back to the empty state. */
    method DimEmpty(p: Place)
      requires Valid() && p in cells
      modifies this
      ensures Valid() && Contents() == old(Contents())[p := []]
    {
      hide CellsOk, Distinct, ContentsOf;
      CellEmptied(heap, cells, p);
      cells := cells[p := cells[p].(ub := -1)];
      cells := cells[p := cells[p].(ptr := 0)];
      assert heap == old(heap) && cells == old(cells)[p := EMPTY];
    }

    /** `DIM` or `REDIM` through a descriptor parameter: the caller's cell is resized in place. */
    method DescriptorDim(p: Place, t: ValueType, size: int, redim: bool) returns (ok: bool)
      requires Valid() && p in cells
      modifies this
      ensures ok <==> Grants(size + 1)
      ensures ok ==> Valid()
      ensures ok ==> Contents() == old(Contents())[p :=
        if redim then Resized(old(Contents())[p], size + 1, Default(t)) else Repeat(Default(t), size + 1)]
    {
      hide Distinct;
      ghost var v := Contents()[p];
      var oldUb := cells[p].ub;
      ok := Resize(p, if redim then oldUb + 1 else 0, size, Default(t));
      if ok {
        RefilledTail(v, size + 1, Default(t));
        RefilledWhole(v, size + 1, Default(t));
      }
    }

    /** `REDIM a[d0, d1, ..]` of a dynamic array, as generated: the bound is overwritten before it is
        saved, so the fill loop starts past the end and the grown tail stays undefined. */
    method RedimFlat(p: Place, t: ValueType, flatSize: int) returns (ok: bool)
      requires Valid() && p in cells
      modifies this
      ensures ok <==> Grants(flatSize)
      ensures ok ==> Valid()
      ensures ok ==> Contents() == old(Contents())[p := Resized(old(Contents())[p], flatSize, Undef)]
    {
      hide Distinct;
      ghost var v := Contents()[p];
      var ub := flatSize - 1;
      var oldUb := ub;
      ok := Resize(p, oldUb + 1, ub, Default(t));
      if ok {
        assert Refilled(v, flatSize, flatSize, Default(t)) == Resized(v, flatSize, Undef);
      }
    }

    /** `a[index] = value`: the guard evaluates the index against the old bound, and a greater one grows the
        array; then the subscript and the value are evaluated against the new bound. */
    method Assign(p: Place, t: ValueType, index: IntExpr, value: ElemExpr) returns (o: Outcome)
      requires Valid() && p in cells
      modifies this
      ensures var i := index(Shown(old(Contents())));
        o.NoMemory? <==> i >= |old(Contents())[p]| && !Grants(i + 1)
      ensures o.Done? ==> Valid() && Written(old(Contents()), p, index, value, Default(t)) == Some(Contents())
      ensures o.Outside? ==> Written(old(Contents()), p, index, value, Default(t)) == None
      ensures !o.Torn?
    {
      hide CellsOk, Distinct, ContentsOf, Seen, Shown;
      SeenShown(heap, cells);
      var i := index(Seen(heap, cells));
      if i > cells[p].ub {
        var ok := Redim(p, t, i);
        if !ok {
          return NoMemory;
        }
        SeenShown(heap, cells);
      }
      var j, e := index(Seen(heap, cells)), value(Seen(heap, cells));
      if !(0 <= j <= cells[p].ub) {
        return Outside;
      }
      AssignSlot(p, j, e);
      o := Done;
    }

    /** `a[i] = e` where the subscript is emitted bare: no growth, so the index must be in range. */
    method AssignSlot(p: Place, i: nat, e: Elem)
      requires Valid() && p in cells && i < |Contents()[p]|
      modifies this`heap
      ensures Valid() && Contents() == old(Contents())[p := old(Contents())[p][i := e]]
    {
      hide Distinct, ContentsOf;
      var q := cells[p].ptr;
      heap := heap[q := heap[q][i := e]];
      Reseated(old(heap), cells, heap, p, q, heap[q]);
      assert cells == cells[p := Cell(q, cells[p].ub)];
    }

    /** `ATTACH src[] TO dst[]` for whole arrays: pointer and bound move, and the source is left empty. */
    method Attach(src: Place, dst: Place)
      requires Valid() && src in cells && dst in cells
      modifies this`cells
      ensures Valid() && Contents() == Moved(old(Contents()), src, dst)
    {
      hide CellsOk, Distinct, ContentsOf;
      CellsMoved(heap, cells, src, dst);
      cells := cells[dst := cells[dst].(ptr := cells[src].ptr)];
      cells := cells[dst := cells[dst].(ub := cells[src].ub)];
      assert cells == old(cells)[dst := old(cells)[src]];
      cells := cells[src := cells[src].(ptr := 0)];
      cells := cells[src := cells[src].(ub := -1)];
      assert cells == old(cells)[dst := old(cells)[src]][src := EMPTY];
    }

    /** `ATTACH table[row,] TO a[]`. */
    method TakeRow(table: string, row: IntExpr, a: Place) returns (o: Outcome)
      requires Valid() && a in cells && a.Whole?
      modifies this`cells
      ensures var r := RowsTaken(old(Contents()), table, row, a);
        && o == (if r.None? then Outside else if TakesRow(old(Contents()), r.value) then Done else Torn)
        && (r.Some? ==> cells == TakenCells(old(cells), a, r.value))
      ensures if o.Done? then Valid() && RowTaken(old(Contents()), table, row, a) == Some(Contents())
              else RowTaken(old(Contents()), table, row, a) == None
    {
      hide ContentsOf, RowsTaken, TakenCells, TakesRow;
      var m := Contents();
      HoldsHere(heap, cells);
      var r := TakeSteps(table, row, a);
      o := if r.None? then Outside else if TakesRow(m, r.value) then Done else Torn;
      if o.Done? {
        TakenHolds(heap, old(cells), m, a, r.value);
      }
    }

    /** The row number is evaluated anew for each of the four assignments. */
    method TakeSteps(table: string, row: IntExpr, a: Place) returns (r: Option<(Place, Place, Place, Place)>)
      requires Valid() && a in cells && a.Whole?
      modifies this`cells
      ensures r == RowsTaken(old(Contents()), table, row, a)
      ensures r.Some? ==> cells == TakenCells(old(cells), a, r.value)
    {
      hide CellsOk, Distinct, ContentsOf, Seen;
      ghost var was := cells;
      var places := cells.Keys;
      SeenShown(heap, cells);
      var r0 := RowAt(places, table, row, Seen(heap, cells));
      if r0.None? {
        return None;
      }
      SeenPointer(heap, cells, a, cells[r0.value].ptr);
      BlockSeen(heap, cells, r0.value);
      cells := cells[a := cells[a].(ptr := cells[r0.value].ptr)];
      var r1 := RowAt(places, table, row, Seen(heap, cells));
      if r1.None? {
        return None;
      }
      SeenBound(heap, cells, a, cells[r1.value].ub);
      BlockSeen(heap, was, r1.value);
      cells := cells[a := cells[a].(ub := cells[r1.value].ub)];
      var r2 := RowAt(places, table, row, Seen(heap, cells));
      if r2.None? {
        return None;
      }
      SeenPointer(heap, cells, r2.value, 0);
      cells := cells[r2.value := cells[r2.value].(ptr := 0)];
      var r3 := RowAt(places, table, row, Seen(heap, cells));
      if r3.None? {
        return None;
      }
      cells := cells[r3.value := cells[r3.value].(ub := -1)];
      r := Some((r0.value, r1.value, r2.value, r3.value));
    }

    /** `ATTACH a[] TO table[row,]`. */
    method PutRow(a: Place, table: string, row: IntExpr) returns (o: Outcome)
      requires Valid() && a in cells && a.Whole?
      modifies this`cells
      ensures var r := RowsPut(old(Contents()), a, table, row);
        && o == (if r.None? then Outside else if PutsRow(old(Contents()), a, r.value) then Done else Torn)
        && (r.Some? ==> cells == PutCells(old(cells), a, r.value))
      ensures if o.Done? then Valid() && RowPut(old(Contents()), a, table, row) == Some(Contents())
              else RowPut(old(Contents()), a, table, row) == None
    {
      hide ContentsOf, RowsPut, PutCells, PutsRow;
      var m := Contents();
      HoldsHere(heap, cells);
      var r := PutSteps(a, table, row);
      o := if r.None? then Outside else if PutsRow(m, a, r.value) then Done else Torn;
      if o.Done? {
        PutExactly(heap, old(cells), m, a, r.value);
      }
    }

    /** The row number is evaluated for the pointer and again for the bound. */
    method PutSteps(a: Place, table: string, row: IntExpr) returns (r: Option<(Place, Place)>)
      requires Valid() && a in cells && a.Whole?
      modifies this`cells
      ensures r == RowsPut(old(Contents()), a, table, row)
      ensures r.Some? ==> cells == PutCells(old(cells), a, r.value)
    {
      hide CellsOk, Distinct, ContentsOf, Seen;
      var places := cells.Keys;
      SeenShown(heap, cells);
      var r0 := RowAt(places, table, row, Seen(heap, cells));
      if r0.None? {
        return None;
      }
      SeenPointer(heap, cells, r0.value, cells[a].ptr);
      BlockSeen(heap, cells, a);
      cells := cells[r0.value := cells[r0.value].(ptr := cells[a].ptr)];
      var r1 := RowAt(places, table, row, Seen(heap, cells));
      if r1.None? {
        return None;
      }
      cells := cells[r1.value := cells[r1.value].(ub := cells[a].ub)];
      cells := cells[a := cells[a].(ptr := 0)];
      cells := cells[a := cells[a].(ub := -1)];
      r := Some((r0.value, r1.value));
    }

    /** `SWAP a[], b[]`: pointers, then bounds, are exchanged through temporaries. */
    method Swap(l: Place, r: Place)
      requires Valid() && l in cells && r in cells
      modifies this`cells
      ensures Valid() && Contents() == Swapped(old(Contents()), l, r)
    {
      hide CellsOk, Distinct, ContentsOf;
      CellsSwapped(heap, cells, l, r);
      if l == r {
        return;
      }
      var ptr := cells[l].ptr;
      cells := cells[l := cells[l].(ptr := cells[r].ptr)];
      cells := cells[r := cells[r].(ptr := ptr)];
      var ub := cells[l].ub;
      cells := cells[l := cells[l].(ub := cells[r].ub)];
      cells := cells[r := cells[r].(ub := ub)];
      assert cells == old(cells)[l := old(cells)[r]][r := old(cells)[l]];
    }

    /** `DIM a[rows, cols]` of a row table: each row gets its own zeroed block. The generated code does not
        check these allocations, so without memory (`ok` false) what follows is undefined. */
    method DimRows(name: string, rows: nat, cols: int) returns (ok: bool)
      requires Valid()
      modifies this
      ensures ok <==> Grants(cols + 1)
      ensures ok ==> Valid() && Contents() == WithRows(old(Contents()), name, rows + 1, cols + 1)
    {
      ok := Grants(cols + 1);
      if ok {
        ghost var m := Contents();
        DropRows(name, cols + 1);
        AddRows(name, rows + 1, cols, m);
      }
    }

    method DropRows(name: string, ghost count: nat)
      requires Valid()
      modifies this`cells
      ensures Valid() && Contents() == WithRows(old(Contents()), name, 0, count)
    {
      hide Distinct, ContentsOf, WithRows, CellsOk;
      RowsDropped(heap, cells, name, count);
      cells := map p | p in cells && !IsRowOf(p, name) :: cells[p];
    }

    /** The row loop of the declaration. */
    method AddRows(name: string, rows: nat, cols: int, ghost m: Values)
      requires Valid() && Grants(cols + 1) && Contents() == WithRows(m, name, 0, cols + 1)
      modifies this
      ensures Valid() && Contents() == WithRows(m, name, rows, cols + 1)
    {
      hide Distinct, ContentsOf, WithRows, CellsOk, Repeat;
      for r := 0 to rows
        invariant Valid() && Contents() == WithRows(m, name, r, cols + 1)
      {
        assert Row(name, r) !in cells;
        AddRow(Row(name, r), cols);
        NextRow(m, name, r, cols + 1);
      }
    }

    method AddRow(p: Place, cols: int)
      requires Valid() && p !in cells && Grants(cols + 1)
      modifies this
      ensures Valid() && cols + 1 >= 0 && Contents() == old(Contents())[p := Repeat(Word(0), cols + 1)]
    {
      hide Distinct, ContentsOf, CellsOk, Repeat;
      CellAdded(heap, cells, p);
      cells := cells[p := EMPTY];
      var ok := Dim(p, Integer, cols);
    }

    /** The loop over the group: members still holding the old block take over the home's cell. */
    method RepointGroup(p: Place, group: seq<Place>, home: Place, attHome: nat)
      requires home in cells && forall m :: m in group ==> m in cells
      modifies this`cells
      ensures cells.Keys == old(cells).Keys
      ensures forall x :: x in cells ==>
                cells[x] == if Repoints(x, p, group, home, old(cells), attHome) then old(cells)[home] else old(cells)[x]
    {
      for k := 0 to |group|
        invariant cells.Keys == old(cells).Keys
        invariant forall x :: x in cells ==>
                  cells[x] ==
                  if Repoints(x, p, group[..k], home, old(cells), attHome) then old(cells)[home] else old(cells)[x]
      {
        var m := group[k];
        assert group[..k + 1] == group[..k] + [m];
        if m != home && m != p && cells[m].ptr == attHome {
          cells := cells[m := cells[m].(ptr := cells[home].ptr)];
          cells := cells[m := cells[m].(ub := cells[home].ub)];
        }
      }
      assert group[..|group|] == group;
    }

    /** `REDIM a[size]` of a member of an ATTACH alias group. Sharing is allowed here, as long as whoever
        shares the member's block belongs to the group and the group's home shares it too. */
    method GroupRedim(p: Place, t: ValueType, size: int, group: seq<Place>, home: Place) returns (ok: bool)
      requires CellsOk(heap, cells) && p in cells && home in cells && forall m :: m in group ==> m in cells
      requires SharedThroughHome(cells, p, group, home)
      modifies this
      ensures ok <==> Grants(size + 1)
      ensures ok ==> CellsOk(heap, cells)
      ensures ok ==> Contents() == ResizedTogether(old(cells), old(Contents()), p, size + 1, Default(t))
      ensures ok && old(Distinct(cells)) ==> Distinct(cells)
      ensures ok && old(Distinct(cells)) ==>
        Contents() == old(Contents())[p := Resized(old(Contents())[p], size + 1, Default(t))]
    {
      hide Distinct, ContentsOf, ResizedTogether, CellsOk, BlockResized;
      var attHome := cells[home].ptr;
      var q: nat;
      if cells[p].ptr == attHome && cells[p].ptr != 0 {
        q := SharedPath(p, t, size, group, home, attHome);
      } else {
        q := SinglePath(p, t, size, home);
      }
      if q == 0 {
        return false;
      }
      GroupResult(old(heap), old(cells), heap, cells, p, q, size, Default(t));
      ok := true;
    }

    /** The member takes over address and bound of the home. */
    method FollowHome(p: Place, home: Place)
      requires p in cells && home in cells
      modifies this`cells
      ensures cells == old(cells)[p := old(cells)[home]]
    {
      if p != home {
        cells := cells[p := cells[p].(ptr := cells[home].ptr)];
        cells := cells[p := cells[p].(ub := cells[home].ub)];
      }
    }

    /** The branch taken when the member holds the home's block: the home is resized and the sharers follow. */
    method SharedPath(p: Place, t: ValueType, size: int, group: seq<Place>, home: Place, attHome: nat) returns (q: nat)
      requires CellsOk(heap, cells) && p in cells && home in cells && forall m :: m in group ==> m in cells
      requires SharedThroughHome(cells, p, group, home)
      requires attHome == cells[home].ptr == cells[p].ptr && attHome != 0
      modifies this
      ensures q == 0 <==> !Grants(size + 1)
      ensures q != 0 ==> BlockResized(old(heap), old(cells), heap, cells, p, q, size, Default(t))
    {
      hide Repointed, SharedThroughHome, Repoints;
      ghost var v := BlockOf(heap, cells[p]);
      var oldUb := cells[home].ub;
      cells := cells[home := cells[home].(ub := size)];
      q := ReallocFill(attHome, oldUb + 1, size, Default(t));
      cells := cells[home := cells[home].(ptr := q)];
      if q == 0 {
        return;
      }
      FollowHome(p, home);
      ghost var mid := cells;
      assert mid == old(cells)[home := Cell(q, size)][p := Cell(q, size)];
      RepointGroup(p, group, home, attHome);
      SharersFollow(old(cells), mid, cells, p, group, home, Cell(q, size));
      RefilledTail(v, size + 1, Default(t));
    }

    /** The other branch: the member is resized on its own. */
    method SinglePath(p: Place, t: ValueType, size: int, home: Place) returns (q: nat)
      requires CellsOk(heap, cells) && p in cells && home in cells
      requires forall x :: x in cells && x != p ==> !Share(cells, p, x)
      modifies this
      ensures q == 0 <==> !Grants(size + 1)
      ensures q != 0 ==> BlockResized(old(heap), old(cells), heap, cells, p, q, size, Default(t))
    {
      ghost var v := BlockOf(heap, cells[p]);
      var oldUb := cells[p].ub;
      cells := cells[p := cells[p].(ub := size)];
      q := ReallocFill(cells[p].ptr, oldUb + 1, size, Default(t));
      cells := cells[p := cells[p].(ptr := q)];
      if q != 0 {
        RefilledTail(v, size + 1, Default(t));
      }
    }

    // ----- Runs -----

    predicate Served(request: Option<int>) {
      request.None? || Grants(request.value)
    }

    method Execute(op: Op) returns (o: Outcome)
      requires Valid() && Legal(Contents(), op)
      modifies this
      ensures o.NoMemory? <==> !Served(Request(old(Contents()), op))
      ensures !o.NoMemory? ==> Sized(old(Contents()), op)
      ensures o.Done? ==> Valid() && Effect(old(Contents()), op) == Some(Contents())
      ensures o.Outside? || o.Torn? ==> Effect(old(Contents()), op) == None
    {
      hide CellsOk, Distinct, ContentsOf, Resized, Repeat, Stored, WithRows, Written, Shown, RowsTaken, RowsPut;
      hide TakesRow, PutsRow, TakenCells, PutCells, RowTaken, RowPut, Attached;
      var ok := true;
      match op {
        case ODim(p, t, size) => ok := Dim(p, t, size);
        case ODimEmpty(p) => DimEmpty(p);
        case ORedim(p, t, size) => ok := Redim(p, t, size);
        case OGroupRedim(p, t, size, group, home) =>
          NothingShared(heap, cells, p, group, home);
          ok := GroupRedim(p, t, size, group, home);
        case ODescriptorDim(p, t, size, redim) => ok := DescriptorDim(p, t, size, redim);
        case ORedimFlat(p, t, flatSize) => ok := RedimFlat(p, t, flatSize);
        case OAssign(p, t, index, value) =>
          o := Assign(p, t, index, value);
          return;
        case OAssignSlot(p, i, e) => AssignSlot(p, i, e);
        case OAttach(src, dst) => Attach(src, dst);
        case OTakeRow(table, row, a) =>
          o := TakeRow(table, row, a);
          return;
        case OPutRow(a, table, row) =>
          o := PutRow(a, table, row);
          return;
        case OSwap(l, r) => Swap(l, r);
        case ODimRows(name, rows, cols) => ok := DimRows(name, rows, cols);
      }
      o := if ok then Done else NoMemory;
    }

    /** Runs statements in order. The machine stops early only at a statement whose request the allocator
        cannot serve, that stores outside its block, or that tears cells apart. */
    method Run(ops: seq<Op>) returns (done: nat)
      requires Valid() && LegalRun(Contents(), ops)
      modifies this
      ensures done <= |ops| && EffectRun(old(Contents()), ops[..done]).Some?
      ensures done == |ops| ==> Valid() && EffectRun(old(Contents()), ops) == Some(Contents())
      ensures done < |ops| ==>
        var m := EffectRun(old(Contents()), ops[..done]).value;
        Legal(m, ops[done])
        && (Served(Request(m, ops[done])) ==> Sized(m, ops[done]) && Effect(m, ops[done]) == None)
    {
      hide CellsOk, Distinct, ContentsOf, Effect, Legal, Sized;
      done := 0;
      ghost var m := Contents();
      assert ops[..0] == [] && ops[0..] == ops;
      while done < |ops|
        invariant done <= |ops| && Valid()
        invariant EffectRun(m, ops[..done]) == Some(Contents()) && LegalRun(Contents(), ops[done..])
      {
        var op := ops[done];
        assert ops[done..][0] == op && ops[done..][1..] == ops[done + 1..];
        var o := Execute(op);
        if !o.Done? {
          return;
        }
        assert ops[..done + 1] == ops[..done] + [op];
        EffectLast(m, ops[..done], op);
        done := done + 1;
      }
      assert ops[..done] == ops;
    }
  }

  // ----- Statements as data: what they promise and what they do -----

  /** Sizes are numbers here; index and value of an assignment and the row numbers of ATTACH are evaluated at
      several points, and are functions of what can be seen there. */
  datatype Op =
    | ODim(p: Place, t: ValueType, size: int)
    | ODimEmpty(p: Place)
    | ORedim(p: Place, t: ValueType, size: int)
    | OGroupRedim(p: Place, t: ValueType, size: int, group: seq<Place>, home: Place)
    | ODescriptorDim(p: Place, t: ValueType, size: int, redim: bool)
    | ORedimFlat(p: Place, t: ValueType, flatSize: int)
    | OAssign(p: Place, t: ValueType, index: IntExpr, value: ElemExpr)
    | OAssignSlot(p: Place, i: nat, e: Elem)
    | OAttach(src: Place, dst: Place)
    | OTakeRow(table: string, row: IntExpr, a: Place)
    | OPutRow(a: Place, table: string, row: IntExpr)
    | OSwap(l: Place, r: Place)
    | ODimRows(name: string, rows: nat, cols: int)

  /** The places are declared and bare subscripts are in range. */
  predicate Legal(m: Values, op: Op) {
    match op
    case OAssignSlot(p, i, _) => p in m && i < |m[p]|
    case OAttach(src, dst) => src in m && dst in m && src.Whole? && dst.Whole?
    case OTakeRow(_, _, a) => a in m && a.Whole?
    case OPutRow(a, _, _) => a in m && a.Whole?
    case OSwap(l, r) => l in m && r in m
    case ODimRows(_, _, _) => true
    case OGroupRedim(p, _, _, group, home) => p in m && home in m && forall q :: q in group ==> q in m
    case _ => op.p in m
  }

  /** The element count a statement asks the allocator for. */
  function Request(m: Values, op: Op): Option<int>
    requires Legal(m, op)
  {
    match op
    case ORedimFlat(_, _, flatSize) => Some(flatSize)
    case OAssign(p, _, index, _) => if index(Shown(m)) < |m[p]| then None else Some(index(Shown(m)) + 1)
    case ODimRows(_, _, cols) => Some(cols + 1)
    case ODimEmpty(_) => None
    case OAssignSlot(_, _, _) => None
    case OAttach(_, _) => None
    case OTakeRow(_, _, _) => None
    case OPutRow(_, _, _) => None
    case OSwap(_, _) => None
    case _ => Some(op.size + 1)
  }

  predicate Sized(m: Values, op: Op)
    requires Legal(m, op)
  {
    Request(m, op).Some? ==> Request(m, op).value >= 0
  }

  /** What a statement promises on plain values. */
  function Meaning(m: Values, op: Op): Option<Values>
    requires Legal(m, op) && Sized(m, op)
  {
    match op
    case ODim(p, t, size) => Some(m[p := Repeat(Default(t), size + 1)])
    case ODimEmpty(p) => Some(m[p := []])
    case ORedim(p, t, size) => Some(m[p := Resized(m[p], size + 1, Default(t))])
    case OGroupRedim(p, t, size, _, _) => Some(m[p := Resized(m[p], size + 1, Default(t))])
    case ODescriptorDim(p, t, size, redim) =>
      Some(m[p := if redim then Resized(m[p], size + 1, Default(t)) else Repeat(Default(t), size + 1)])
    case ORedimFlat(p, t, flatSize) => Some(m[p := Resized(m[p], flatSize, Default(t))])
    case OAssign(p, t, index, value) => Promised(m, p, index, value, Default(t))
    case OAssignSlot(p, i, e) => Some(m[p := m[p][i := e]])
    case OAttach(src, dst) => Attached(m, src, dst)
    case OTakeRow(table, row, a) =>
      var due := RowDue(m, table, row);
      if due.None? then None else Attached(m, due.value, a)
    case OPutRow(a, table, row) =>
      var due := RowDue(m, table, row);
      if due.None? then None else Attached(m, a, due.value)
    case OSwap(l, r) => Some(Swapped(m, l, r))
    case ODimRows(name, rows, cols) => Some(WithRows(m, name, rows + 1, cols + 1))
  }

  /** What the generated code does to them; no result is a store outside the block or cells torn apart. */
  function Effect(m: Values, op: Op): Option<Values>
    requires Legal(m, op) && Sized(m, op)
  {
    match op
    case ORedimFlat(p, t, flatSize) => Some(m[p := Resized(m[p], flatSize, Undef)])
    case OAssign(p, t, index, value) => Written(m, p, index, value, Default(t))
    case OAttach(src, dst) => Some(Moved(m, src, dst))
    case OTakeRow(table, row, a) => RowTaken(m, table, row, a)
    case OPutRow(a, table, row) => RowPut(m, a, table, row)
    case _ => Meaning(m, op)
  }

  /** The row is there and not named by a negative number, and the destination is empty, exactly when the row
      number keeps its row until the end. */
  predicate TakeKept(m: Values, table: string, row: IntExpr, a: Place)
    requires a in m
  {
    RowDue(m, table, row).Some? && |m[a]| == 0 <==> RowTaken(m, table, row, a).Some?
  }

  predicate PutKept(m: Values, a: Place, table: string, row: IntExpr)
    requires a in m
  {
    var due := RowDue(m, table, row);
    due.Some? && |m[due.value]| == 0 <==> RowPut(m, a, table, row).Some?
  }

  /** Exactly these statements do what they promise. */
  predicate Kept(m: Values, op: Op)
    requires Legal(m, op)
  {
    match op
    case ORedimFlat(p, _, flatSize) => flatSize <= |m[p]|
    case OAssign(p, t, index, value) => SurvivesGrowth(m, p, index, value, Default(t))
    case OAttach(_, dst) => |m[dst]| == 0
    case OTakeRow(table, row, a) => TakeKept(m, table, row, a)
    case OPutRow(a, table, row) => PutKept(m, a, table, row)
    case _ => true
  }

  lemma KeptExactly(m: Values, op: Op)
    requires Legal(m, op) && Sized(m, op)
    ensures Effect(m, op) == Meaning(m, op) <==> Kept(m, op)
  {
    if op.ORedimFlat? {
      RedimFlatPromise(m[op.p], op.flatSize, op.t);
      var done, due := Resized(m[op.p], op.flatSize, Undef), Resized(m[op.p], op.flatSize, Default(op.t));
      assert m[op.p := done][op.p] == done && m[op.p := due][op.p] == due;
    } else if op.OAssign? {
      WrittenExactly(m, op.p, op.index, op.value, Default(op.t));
    }
  }

  /** Every statement up to the first that cannot complete is legal where it is reached. */
  predicate LegalRun(m: Values, ops: seq<Op>)
    decreases |ops|
  {
    |ops| > 0 ==> (
      && Legal(m, ops[0])
      && (Sized(m, ops[0]) && Effect(m, ops[0]).Some? ==> LegalRun(Effect(m, ops[0]).value, ops[1..])))
  }

  function EffectRun(m: Values, ops: seq<Op>): Option<Values>
    decreases |ops|
  {
    if |ops| == 0 then Some(m)
    else if !Legal(m, ops[0]) || !Sized(m, ops[0]) || Effect(m, ops[0]).None? then None
    else EffectRun(Effect(m, ops[0]).value, ops[1..])
  }

  function MeaningRun(m: Values, ops: seq<Op>): Option<Values>
    decreases |ops|
  {
    if |ops| == 0 then Some(m)
    else if !Legal(m, ops[0]) || !Sized(m, ops[0]) || Meaning(m, ops[0]).None? then None
    else MeaningRun(Meaning(m, ops[0]).value, ops[1..])
  }

  lemma {:induction false} EffectLast(m: Values, ops: seq<Op>, op: Op)
    requires EffectRun(m, ops).Some? && Legal(EffectRun(m, ops).value, op) && Sized(EffectRun(m, ops).value, op)
    ensures EffectRun(m, ops + [op]) == Effect(EffectRun(m, ops).value, op)
    decreases |ops|
  {
    hide Effect, Legal, Sized;
    if |ops| == 0 {
      assert ops + [op] == [op] && [op][1..] == [];
    } else {
      assert (ops + [op])[1..] == ops[1..] + [op];
      EffectLast(Effect(m, ops[0]).value, ops[1..], op);
    }
  }

  /** Every statement that is reached keeps its promise. */
  predicate KeptRun(m: Values, ops: seq<Op>)
    decreases |ops|
  {
    |ops| > 0 && Legal(m, ops[0]) && Sized(m, ops[0]) ==>
      Kept(m, ops[0]) && (Effect(m, ops[0]).Some? ==> KeptRun(Effect(m, ops[0]).value, ops[1..]))
  }

  ghost predicate Refines(m: Values, ops: seq<Op>) {
    forall k :: 0 <= k <= |ops| ==> EffectRun(m, ops[..k]) == MeaningRun(m, ops[..k])
  }

  /** A run on the heap refines the run on plain values, statement by statement, exactly when every statement
      that is reached keeps its promise. */
  lemma {:induction false} RunExactly(m: Values, ops: seq<Op>)
    ensures Refines(m, ops) <==> KeptRun(m, ops)
    decreases |ops|
  {
    hide Effect, Meaning, Legal, Sized, Kept;
    if |ops| > 0 && Legal(m, ops[0]) && Sized(m, ops[0]) {
      KeptExactly(m, ops[0]);
      FirstStep(m, ops);
      if Effect(m, ops[0]).Some? {
        RunExactly(Effect(m, ops[0]).value, ops[1..]);
      }
    } else {
      forall k | 0 <= k <= |ops| ensures EffectRun(m, ops[..k]) == MeaningRun(m, ops[..k]) {
        assert k > 0 ==> ops[..k][0] == ops[0];
      }
    }
  }

  lemma FirstStep(m: Values, ops: seq<Op>)
    requires |ops| > 0 && Legal(m, ops[0]) && Sized(m, ops[0])
    ensures Refines(m, ops) <==> (
      && Effect(m, ops[0]) == Meaning(m, ops[0])
      && (Effect(m, ops[0]).Some? ==> Refines(Effect(m, ops[0]).value, ops[1..])))
  {
    hide Effect, Meaning, Legal, Sized;
    var e, n := Effect(m, ops[0]), Meaning(m, ops[0]);
    forall k | 0 < k <= |ops|
      ensures EffectRun(m, ops[..k]) == if e.None? then None else EffectRun(e.value, ops[1..][..k - 1])
      ensures MeaningRun(m, ops[..k]) == if n.None? then None else MeaningRun(n.value, ops[1..][..k - 1])
    {
      assert ops[..k][0] == ops[0] && ops[..k][1..] == ops[1..][..k - 1];
    }
    assert ops[..0] == [] && ops[1..][..0] == [];
    if Refines(m, ops) {
      assert EffectRun(m, ops[..1]) == MeaningRun(m, ops[..1]);
      forall k | 0 <= k <= |ops[1..]| && e.Some?
        ensures EffectRun(e.value, ops[1..][..k]) == MeaningRun(e.value, ops[1..][..k])
      {
        assert EffectRun(m, ops[..k + 1]) == MeaningRun(m, ops[..k + 1]);
      }
    }
  }

  /** Without shared blocks the sharing condition of the group statement holds for any group and home. */
  lemma NothingShared(h: Heap, cs: Cells, p: Place, group: seq<Place>, home: Place)
    requires Distinct(cs) && p in cs && home in cs
    ensures SharedThroughHome(cs, p, group, home)
  {
  }

  // ----- What runs keep -----

  /** No uninitialised slot anywhere. */
  ghost predicate Defined(m: Values) {
    forall p, i :: p in m && 0 <= i < |m[p]| ==> m[p][i] != Undef
  }

  /** The one statement that can leave memory uninitialised: a multi-dimensional REDIM that grows. */
  predicate GrowsUnfilled(m: Values, op: Op)
    requires Legal(m, op)
  {
    op.ORedimFlat? && op.flatSize > |m[op.p]|
  }

  predicate StoresDefined(m: Values, op: Op)
    requires Legal(m, op)
  {
    && (op.OAssign? ==> op.value(Shown(Grown(m, op.p, op.index(Shown(m)), Default(op.t)))) != Undef)
    && (op.OAssignSlot? ==> op.e != Undef)
  }

  lemma DefinedStep(m: Values, op: Op)
    requires Defined(m) && Legal(m, op) && Sized(m, op) && StoresDefined(m, op) && Effect(m, op).Some?
    ensures Defined(Effect(m, op).value) <==> !GrowsUnfilled(m, op)
  {
    if GrowsUnfilled(m, op) {
      var v := Effect(m, op).value[op.p];
      assert v[|m[op.p]|] == Undef;
    }
  }

  predicate NeverGrowsUnfilled(m: Values, ops: seq<Op>)
    decreases |ops|
  {
    |ops| > 0 && Legal(m, ops[0]) && Sized(m, ops[0]) && Effect(m, ops[0]).Some? ==>
      !GrowsUnfilled(m, ops[0]) && StoresDefined(m, ops[0]) && NeverGrowsUnfilled(Effect(m, ops[0]).value, ops[1..])
  }

  /** Runs without such a REDIM never show uninitialised memory. */
  lemma {:induction false} DefinedRun(m: Values, ops: seq<Op>)
    requires Defined(m) && NeverGrowsUnfilled(m, ops) && EffectRun(m, ops).Some?
    ensures Defined(EffectRun(m, ops).value)
    decreases |ops|
  {
    hide Effect, Legal, Sized, GrowsUnfilled;
    if |ops| > 0 {
      DefinedStep(m, ops[0]);
      DefinedRun(Effect(m, ops[0]).value, ops[1..]);
    }
  }

  /** The promise for multi-dimensional REDIM - keep the prefix, default-fill the tail - holds exactly when
      the array does not grow. */
  lemma RedimFlatPromise(v: seq<Elem>, flatSize: nat, t: ValueType)
    ensures Resized(v, flatSize, Undef) == Resized(v, flatSize, Default(t)) <==> flatSize <= |v|
  {
    if flatSize > |v| {
      assert Resized(v, flatSize, Undef)[|v|] == Undef;
      assert Resized(v, flatSize, Default(t))[|v|] == Default(t);
    }
  }

  lemma {:induction false} UpperBound(used: set<nat>) returns (top: nat)
    ensures forall p :: p in used ==> p <= top
  {
    if used == {} {
      top := 0;
    } else {
      var x :| x in used;
      var rest := UpperBound(used - {x});
      top := if x > rest then x else rest;
      assert forall p :: p in used ==> p == x || p in used - {x};
    }
  }
}
