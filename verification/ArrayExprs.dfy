/** Expressions that look at arrays, and when they keep their value while a statement changes what they look at. */
module ArrayExprs {
  import opened Ir
  import opened ArrayStore

  // ----- Evaluation -----

  /** The value of an expression: a number or text, and for the name of an array what there is of the array. */
  datatype Val = Val(elem: Elem, array: View)

  const NO_ARRAY := View(map[], map[])

  /** What the evaluation takes from outside the arrays: leaves, operators and calls, the flattened offset of a
      multi-dimensional access, and reads outside a block. */
  datatype World = World(leaf: IrExpr -> Elem, node: (IrExpr, seq<Val>) -> Elem, offset: (IrExpr, seq<Val>) -> int,
                         beyond: (IrExpr, seq<Val>) -> Elem)

  /** The part of the view that belongs to a name: the array or the rows of the table. */
  function Part(v: View, n: string): View {
    View(map p | p in v.blocks && p.name == n :: v.blocks[p], map p | p in v.bounds && p.name == n :: v.bounds[p])
  }

  function Number(x: Elem): int {
    if x.Word? then x.n else 0
  }

  /** The place and the slot that a subscript means: a row and a column of a row table, or an offset. */
  function Slot(w: World, places: set<Place>, e: IrExpr, subs: seq<Val>): (Place, int)
    requires e.kind.ArrayAccess? && |subs| > 0
  {
    var n, i := e.kind.symbol.name, Number(subs[0].elem);
    if |subs| == 1 then (Whole(n), i)
    else if |subs| == 2 && i >= 0 && Row(n, i) in places then (Row(n, i), Number(subs[1].elem))
    else (Whole(n), w.offset(e, subs))
  }

  function Element(w: World, v: View, e: IrExpr, subs: seq<Val>): Elem
    requires e.kind.ArrayAccess? && |subs| > 0
  {
    var (p, i) := Slot(w, v.blocks.Keys, e, subs);
    if p in v.blocks && 0 <= i < |v.blocks[p]| then v.blocks[p][i] else w.beyond(e, subs)
  }

  function Eval(w: World, v: View, e: IrExpr): Val
    decreases e
  {
    var k := e.kind;
    if k.Symbol? || k.SharedVariable? then Val(w.leaf(e), Part(v, k.symbol.name))
    else if k.ArrayUBound? then
      var p := Whole(k.symbol.name);
      Val(if p in v.bounds then Word(v.bounds[p]) else w.leaf(e), NO_ARRAY)
    else if HasOperand(k) then Val(w.node(e, [Eval(w, v, k.operand)]), NO_ARRAY)
    else if HasPair(k) then Val(w.node(e, [Eval(w, v, k.left), Eval(w, v, k.right)]), NO_ARRAY)
    else if k.FunctionCall? then Val(w.node(e, EvalAll(w, v, k.args)), NO_ARRAY)
    else if k.ArrayAccess? then Val(Element(w, v, e, [Eval(w, v, k.index)] + EvalAll(w, v, k.extra)), NO_ARRAY)
    else Val(w.leaf(e), NO_ARRAY)
  }

  function EvalAll(w: World, v: View, es: seq<IrExpr>): seq<Val>
    decreases es
  {
    if es == [] then [] else [Eval(w, v, es[0])] + EvalAll(w, v, es[1..])
  }

  /** The index and the value of a statement, as functions of what can be seen. */
  function Index(w: World, e: IrExpr): IntExpr {
    v => Number(Eval(w, v, e).elem)
  }

  function Value(w: World, e: IrExpr): ElemExpr {
    v => Eval(w, v, e).elem
  }

  // ----- What an expression looks at -----

  /** The array `a` is looked at as a whole: UBOUND, or its name passed to a function. */
  predicate ShowsBound(a: string, e: IrExpr)
    decreases e
  {
    var k := e.kind;
    if k.Symbol? || k.SharedVariable? || k.ArrayUBound? then k.symbol.name == a
    else if HasPair(k) then ShowsBound(a, k.left) || ShowsBound(a, k.right)
    else if HasOperand(k) then ShowsBound(a, k.operand)
    else if k.FunctionCall? then SomeShowsBound(a, k.args)
    else if k.ArrayAccess? then ShowsBound(a, k.index) || SomeShowsBound(a, k.extra)
    else false
  }

  predicate SomeShowsBound(a: string, es: seq<IrExpr>)
    decreases es
  {
    es != [] && (ShowsBound(a, es[0]) || SomeShowsBound(a, es[1..]))
  }

  /** The slots of the name that the expression reads. */
  function Reads(w: World, v: View, n: string, e: IrExpr): set<(Place, int)>
    decreases e
  {
    var k := e.kind;
    if HasPair(k) then Reads(w, v, n, k.left) + Reads(w, v, n, k.right)
    else if HasOperand(k) then Reads(w, v, n, k.operand)
    else if k.FunctionCall? then ReadsAll(w, v, n, k.args)
    else if k.ArrayAccess? then
      var inner := Reads(w, v, n, k.index) + ReadsAll(w, v, n, k.extra);
      if k.symbol.name == n then
        inner + {Slot(w, v.blocks.Keys, e, [Eval(w, v, k.index)] + EvalAll(w, v, k.extra))}
      else inner
    else {}
  }

  function ReadsAll(w: World, v: View, n: string, es: seq<IrExpr>): set<(Place, int)>
    decreases es
  {
    if es == [] then {} else Reads(w, v, n, es[0]) + ReadsAll(w, v, n, es[1..])
  }

  function Look(v: View, slot: (Place, int)): Option<Elem> {
    var (p, i) := slot;
    if p in v.blocks && 0 <= i < |v.blocks[p]| then Some(v.blocks[p][i]) else None
  }

  /** The views differ at most in what belongs to the name. */
  predicate SameElsewhere(v: View, v': View, n: string) {
    && v'.blocks.Keys == v.blocks.Keys && v'.bounds.Keys == v.bounds.Keys
    && (forall p :: p in v.blocks && p.name != n ==> v'.blocks[p] == v.blocks[p])
    && (forall p :: p in v.bounds && p.name != n ==> v'.bounds[p] == v.bounds[p])
  }

  predicate SameSlots(v: View, v': View, slots: set<(Place, int)>) {
    forall s :: s in slots ==> Look(v', s) == Look(v, s)
  }

  lemma SamePart(v: View, v': View, n: string, o: string)
    requires SameElsewhere(v, v', n) && o != n
    ensures Part(v', o) == Part(v, o)
  {
    assert Part(v', o).blocks == Part(v, o).blocks;
    assert Part(v', o).bounds == Part(v, o).bounds;
  }

  lemma SlotName(w: World, places: set<Place>, e: IrExpr, subs: seq<Val>)
    requires e.kind.ArrayAccess? && |subs| > 0
    ensures Slot(w, places, e, subs).0.name == e.kind.symbol.name
  {
  }

  /** When only what belongs to `n` changes, an expression that does not look at `n` as a whole keeps its value
      if the slots of `n` that it reads keep theirs; and it still reads the same slots, of any name `o`. */
  lemma {:induction false} SameValue(w: World, v: View, v': View, n: string, o: string, e: IrExpr)
    requires SameElsewhere(v, v', n) && !ShowsBound(n, e) && SameSlots(v, v', Reads(w, v, n, e))
    ensures Eval(w, v', e) == Eval(w, v, e) && Reads(w, v', o, e) == Reads(w, v, o, e)
    decreases e
  {
    hide SameElsewhere, Slot, Part, Look;
    var k := e.kind;
    if k.Symbol? || k.SharedVariable? {
      SamePart(v, v', n, k.symbol.name);
    } else if k.ArrayUBound? {
      SameBound(v, v', n, k.symbol.name);
    } else if HasOperand(k) {
      SameValue(w, v, v', n, o, k.operand);
    } else if HasPair(k) {
      SameValue(w, v, v', n, o, k.left);
      SameValue(w, v, v', n, o, k.right);
    } else if k.FunctionCall? {
      SameValues(w, v, v', n, o, k.args);
    } else if k.ArrayAccess? {
      SameValue(w, v, v', n, o, k.index);
      SameValues(w, v, v', n, o, k.extra);
      SameElement(w, v, v', n, e, [Eval(w, v, k.index)] + EvalAll(w, v, k.extra));
    }
  }

  lemma {:induction false} SameValues(w: World, v: View, v': View, n: string, o: string, es: seq<IrExpr>)
    requires SameElsewhere(v, v', n) && !SomeShowsBound(n, es) && SameSlots(v, v', ReadsAll(w, v, n, es))
    ensures EvalAll(w, v', es) == EvalAll(w, v, es) && ReadsAll(w, v', o, es) == ReadsAll(w, v, o, es)
    decreases es
  {
    hide SameElsewhere, Look, Eval, Reads;
    if es != [] {
      SameValue(w, v, v', n, o, es[0]);
      SameValues(w, v, v', n, o, es[1..]);
    }
  }

  lemma SameBound(v: View, v': View, n: string, o: string)
    requires SameElsewhere(v, v', n) && o != n
    ensures Whole(o) in v.bounds <==> Whole(o) in v'.bounds
    ensures Whole(o) in v.bounds ==> v'.bounds[Whole(o)] == v.bounds[Whole(o)]
  {
  }

  lemma SameElement(w: World, v: View, v': View, n: string, e: IrExpr, subs: seq<Val>)
    requires SameElsewhere(v, v', n) && e.kind.ArrayAccess? && |subs| > 0
    requires e.kind.symbol.name == n ==> SameSlots(v, v', {Slot(w, v.blocks.Keys, e, subs)})
    ensures v'.blocks.Keys == v.blocks.Keys && Element(w, v', e, subs) == Element(w, v, e, subs)
  {
    SlotName(w, v.blocks.Keys, e, subs);
    assert Look(v', Slot(w, v.blocks.Keys, e, subs)) == Look(v, Slot(w, v.blocks.Keys, e, subs));
  }

  // ----- Growing writes -----

  /** Every read of the array's own elements is inside its bound. */
  predicate Inside(m: Values, p: Place, slots: set<(Place, int)>)
    requires p in m
  {
    forall s :: s in slots && s.0 == p ==> 0 <= s.1 < |m[p]|
  }

  lemma GrownSame(m: Values, a: string, i: int, fill: Elem, slots: set<(Place, int)>)
    requires Whole(a) in m && Inside(m, Whole(a), slots)
    ensures var v, v' := Shown(m), Shown(Grown(m, Whole(a), i, fill));
      SameElsewhere(v, v', a) && SameSlots(v, v', slots)
  {
  }

  /** An expression that does not look at the array as a whole, and reads its elements only inside the bound,
      has the same value after the array has grown. */
  lemma GrownValue(w: World, m: Values, a: string, i: int, fill: Elem, e: IrExpr)
    requires Whole(a) in m && !ShowsBound(a, e) && Inside(m, Whole(a), Reads(w, Shown(m), a, e))
    ensures Eval(w, Shown(Grown(m, Whole(a), i, fill)), e) == Eval(w, Shown(m), e)
  {
    hide Inside, SameElsewhere, SameSlots, ShowsBound, Reads, Eval;
    GrownSame(m, a, i, fill, Reads(w, Shown(m), a, e));
    SameValue(w, Shown(m), Shown(Grown(m, Whole(a), i, fill)), a, a, e);
  }

  /** An assignment does what it promises. */
  predicate Keeps(m: Values, p: Place, index: IntExpr, value: ElemExpr, fill: Elem)
    requires p in m
  {
    Written(m, p, index, value, fill) == Promised(m, p, index, value, fill)
  }

  /** A growing write does what it promises when index and value do not look at their own array as a whole and
      read its elements only inside the bound, as in `a[i] = a[i - 1] + 1`. */
  lemma UnshownKept(w: World, m: Values, a: string, fill: Elem, index: IrExpr, value: IrExpr)
    requires Whole(a) in m && !ShowsBound(a, index) && !ShowsBound(a, value)
    requires Inside(m, Whole(a), Reads(w, Shown(m), a, index) + Reads(w, Shown(m), a, value))
    ensures Keeps(m, Whole(a), Index(w, index), Value(w, value), fill)
  {
    hide *;
    var ix, val := Index(w, index), Value(w, value);
    InsideParts(m, Whole(a), Reads(w, Shown(m), a, index), Reads(w, Shown(m), a, value));
    var i := ix(Shown(m));
    GrownValue(w, m, a, i, fill, index);
    GrownValue(w, m, a, i, fill, value);
    IndexIs(w, index, Shown(m), Shown(Grown(m, Whole(a), i, fill)));
    IndexIs(w, value, Shown(m), Shown(Grown(m, Whole(a), i, fill)));
    SteadyWrite(m, Whole(a), ix, val, fill);
  }

  lemma InsideParts(m: Values, p: Place, a: set<(Place, int)>, b: set<(Place, int)>)
    requires p in m && Inside(m, p, a + b)
    ensures Inside(m, p, a) && Inside(m, p, b)
  {
  }

  lemma IndexIs(w: World, e: IrExpr, v: View, v': View)
    requires Eval(w, v', e) == Eval(w, v, e)
    ensures Index(w, e)(v') == Index(w, e)(v) && Value(w, e)(v') == Value(w, e)(v)
  {
  }

  lemma SteadyWrite(m: Values, p: Place, index: IntExpr, value: ElemExpr, fill: Elem)
    requires p in m
    requires var v, v' := Shown(m), Shown(Grown(m, p, index(Shown(m)), fill));
      index(v') == index(v) && value(v') == value(v)
    ensures Keeps(m, p, index, value, fill)
  {
    hide Written, Promised;
    WrittenExactly(m, p, index, value, fill);
  }

  const ONE: IrExpr := IrExpr(IntegerLiteral("1"), Integer)

  /** `a[before] + 1` */
  function OneMore(a: IrSymbol, before: IrExpr): IrExpr {
    IrExpr(Arithmetic(Add, IrExpr(ArrayAccess(a, before, []), Integer), ONE), Integer)
  }

  /** An expression without any look at the array. */
  predicate Apart(w: World, v: View, a: string, e: IrExpr) {
    !ShowsBound(a, e) && Reads(w, v, a, e) == {}
  }

  /** `a[at] = a[before] + 1`, as `a[i] = a[i - 1] + 1`, does what it promises when the element read is there. */
  lemma StepUpKept(w: World, m: Values, a: IrSymbol, at: IrExpr, before: IrExpr, fill: Elem)
    requires Whole(a.name) in m && Apart(w, Shown(m), a.name, at) && Apart(w, Shown(m), a.name, before)
    requires 0 <= Index(w, before)(Shown(m)) < |m[Whole(a.name)]|
    ensures Keeps(m, Whole(a.name), Index(w, at), Value(w, OneMore(a, before)), fill)
  {
    hide Keeps, Shown, Eval, OneMore;
    OneMoreReads(w, Shown(m), a, before);
    UnshownKept(w, m, a.name, fill, at, OneMore(a, before));
  }

  lemma OneMoreReads(w: World, v: View, a: IrSymbol, before: IrExpr)
    requires Apart(w, v, a.name, before)
    ensures var value := OneMore(a, before);
      !ShowsBound(a.name, value) && Reads(w, v, a.name, value) == {(Whole(a.name), Index(w, before)(v))}
  {
    var access := IrExpr(ArrayAccess(a, before, []), Integer);
    assert EvalAll(w, v, []) == [] && ReadsAll(w, v, a.name, []) == {} && !SomeShowsBound(a.name, []);
    assert !ShowsBound(a.name, ONE) && Reads(w, v, a.name, ONE) == {};
    assert !ShowsBound(a.name, access);
    assert Reads(w, v, a.name, access) == {(Whole(a.name), Index(w, before)(v))};
  }

  /** `a[UBOUND(a[]) + 1]` */
  function NextBound(p: Place): IntExpr {
    (v: View) => if p in v.bounds then v.bounds[p] + 1 else 0
  }

  /** Whatever its value, `a[UBOUND(a[]) + 1] = value` stores outside the block: the subscript is evaluated
      against the bound it has just moved. */
  lemma NextSlotOverruns(m: Values, p: Place, value: ElemExpr, fill: Elem)
    requires p in m
    ensures Written(m, p, NextBound(p), value, fill) == None
  {
  }

  /** `a[i] = UBOUND(a[])` past the end stores the new bound, not the old one. */
  lemma GrownBoundStored(m: Values, p: Place, i: nat)
    requires p in m && i >= |m[p]|
    ensures var bound: ElemExpr := (v: View) => if p in v.bounds then Word(v.bounds[p]) else Word(-1);
            var at: IntExpr := (v: View) => i;
      && Written(m, p, at, bound, Word(0)).Some? && Written(m, p, at, bound, Word(0)).value[p][i] == Word(i)
      && Promised(m, p, at, bound, Word(0)).Some?
      && Promised(m, p, at, bound, Word(0)).value[p][i] == Word(|m[p]| - 1)
  {
  }

  // ----- ATTACH of a row -----

  /** The row number looks neither at `a` nor, as a whole, at the table, and reads no element of this row. */
  predicate Steady(w: World, m: Values, table: string, a: string, row: IrExpr, r: Place) {
    && !ShowsBound(a, row) && !ShowsBound(table, row) && Reads(w, Shown(m), a, row) == {}
    && forall s :: s in Reads(w, Shown(m), table, row) ==> s.0 != r
  }

  lemma RowChanged(w: World, v: View, table: string, row: IrExpr, r: Place, block: seq<Elem>, o: string)
    requires r in v.blocks && r.name == table && !ShowsBound(table, row)
    requires forall s :: s in Reads(w, v, table, row) ==> s.0 != r
    ensures var v' := View(v.blocks[r := block], v.bounds);
      Eval(w, v', row) == Eval(w, v, row) && Reads(w, v', o, row) == Reads(w, v, o, row)
  {
    SameValue(w, v, View(v.blocks[r := block], v.bounds), table, o, row);
  }

  lemma ArrayChanged(w: World, v: View, v': View, a: string, row: IrExpr)
    requires SameElsewhere(v, v', a) && !ShowsBound(a, row) && Reads(w, v, a, row) == {}
    ensures Eval(w, v', row) == Eval(w, v, row)
  {
    SameValue(w, v, v', a, a, row);
  }

  /** A steady row number keeps its row through all four assignments of `ATTACH table[row,] TO a[]`. */
  lemma SteadyTaken(w: World, m: Values, table: string, row: IrExpr, a: string, r: Place)
    requires Whole(a) in m && a != table && RowAt(m.Keys, table, Index(w, row), Shown(m)) == Some(r)
    requires Steady(w, m, table, a, row, r)
    ensures RowTaken(m, table, Index(w, row), Whole(a)) == Some(Moved(m, r, Whole(a)))
  {
    hide ShowsBound, Reads, Eval;
    var p, v0 := Whole(a), Shown(m);
    var v1 := View(m[p := m[r]], v0.bounds);
    var v2 := View(v1.blocks, v0.bounds[p := |m[r]| - 1]);
    var v3 := View(v1.blocks[r := []], v2.bounds);
    ArrayChanged(w, v0, v1, a, row);
    ArrayChanged(w, v0, v2, a, row);
    RowChanged(w, v0, table, row, r, [], a);
    ArrayChanged(w, View(m[r := []], v0.bounds), v3, a, row);
  }

  /** The same for the two assignments of `ATTACH a[] TO table[row,]`. */
  lemma SteadyPut(w: World, m: Values, a: string, table: string, row: IrExpr, r: Place)
    requires Whole(a) in m && a != table && RowAt(m.Keys, table, Index(w, row), Shown(m)) == Some(r)
    requires Steady(w, m, table, a, row, r)
    ensures RowPut(m, Whole(a), table, Index(w, row)) == Some(Moved(m, Whole(a), r))
  {
    hide ShowsBound, Reads, Eval;
    RowChanged(w, Shown(m), table, row, r, m[Whole(a)], a);
  }

  /** With `a` empty, `ATTACH t[UBOUND(a[]) + 1,] TO a[]` takes row 0 and clears another one: on every heap the
      array and row 0 then own the same block, and the other row's block is lost. */
  lemma NextRowTorn(m: Values, t: string, a: string, h: Heap, cs: Cells)
    requires Whole(a) in m && |m[Whole(a)]| == 0 && Row(t, 0) in m && |m[Row(t, 0)]| > 0
    requires Row(t, |m[Row(t, 0)]|) in m && Holds(h, cs, m)
    ensures var p, first, last := Whole(a), Row(t, 0), Row(t, |m[Row(t, 0)]|);
            var r := RowsTaken(m, t, NextBound(p), p);
      && r == Some((first, first, last, last))
      && Meaning(m, OTakeRow(t, NextBound(p), p)) == Some(Moved(m, first, p))
      && Effect(m, OTakeRow(t, NextBound(p), p)) == None
      && cs.Keys == m.Keys && var cs' := TakenCells(cs, p, r.value);
         cs'[p].ptr == cs'[first].ptr != 0 && !Distinct(cs') && cs'[last] == EMPTY
  {
    HoldsPlaces(h, cs, m);
  }

  /** `t[0, 0]` */
  function FirstOfTable(t: IrSymbol, zero: IrExpr): IrExpr {
    IrExpr(ArrayAccess(t, zero, [zero]), Integer)
  }

  /** `ATTACH t[t[0,0],] TO a[]` with a zero there reads its last row number through the pointer it has just
      cleared: it ends well exactly when that read gives zero again. */
  lemma ClearedRowRead(w: World, m: Values, t: IrSymbol, zero: IrExpr, a: string)
    requires Whole(a) in m && a != t.name && Row(t.name, 0) in m && |m[Row(t.name, 0)]| > 0
    requires zero.kind.IntegerLiteral? && w.leaf(zero) == Word(0) && m[Row(t.name, 0)][0] == Word(0)
    ensures var e, at := FirstOfTable(t, zero), Val(Word(0), NO_ARRAY);
      RowTaken(m, t.name, Index(w, e), Whole(a)).Some? <==> Number(w.beyond(e, [at, at])) == 0
  {
    hide Eval, FirstOfTable, Shown, Moved;
    var e := FirstOfTable(t, zero);
    var p, r, v0 := Whole(a), Row(t.name, 0), Shown(m);
    var v1 := View(m[p := m[r]], v0.bounds);
    var v2 := View(v1.blocks, v0.bounds[p := |m[r]| - 1]);
    var v3 := View(v1.blocks[r := []], v2.bounds);
    ShownBlocks(m);
    FirstRead(w, v0, t, zero);
    FirstRead(w, v1, t, zero);
    FirstRead(w, v2, t, zero);
    FirstRead(w, v3, t, zero);
    assert RowsTaken(m, t.name, Index(w, e), p) ==
      if RowAt(m.Keys, t.name, Index(w, e), v3).None? then None
      else Some((r, r, r, RowAt(m.Keys, t.name, Index(w, e), v3).value));
  }

  lemma ShownBlocks(m: Values)
    ensures Shown(m).blocks == m
  {
  }

  lemma FirstRead(w: World, v: View, t: IrSymbol, zero: IrExpr)
    requires Row(t.name, 0) in v.blocks && zero.kind.IntegerLiteral? && w.leaf(zero) == Word(0)
    ensures var e, at, block := FirstOfTable(t, zero), Val(Word(0), NO_ARRAY), v.blocks[Row(t.name, 0)];
      Eval(w, v, e).elem == if |block| > 0 then block[0] else w.beyond(e, [at, at])
  {
    hide Reads;
    var e, at := FirstOfTable(t, zero), Val(Word(0), NO_ARRAY);
    assert [zero][1..] == [] && EvalAll(w, v, []) == [];
    assert Eval(w, v, zero) == at;
    assert EvalAll(w, v, [zero]) == [at] + [] == [at];
    assert [at] + [at] == [at, at];
    assert Eval(w, v, e).elem == Element(w, v, e, [at] + EvalAll(w, v, [zero]));
    assert Slot(w, v.blocks.Keys, e, [at, at]) == (Row(t.name, 0), 0);
  }

  // ----- New elements -----

  /** Fresh elements are empty strings in an array of strings, and zeros in any other; kept ones stay. */
  lemma FreshElements(v: seq<Elem>, n: nat, t: ValueType, i: nat)
    requires i < n
    ensures Resized(v, n, Default(t))[i] ==
              if i < |v| then v[i] else (match t case String => Str([]) case Integer => Word(0) case Giant => Word(0)
                                         case Float => Word(0))
    ensures Repeat(Default(t), n) == Resized([], n, Default(t))
  {
  }
}
