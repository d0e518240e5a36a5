/** What the descriptor analysis reads off a function body: by-reference call edges and resized names. */
module CallEdges {
  import opened Ir

  /** The array `sym` is passed by reference as argument number `pos` of `callee`. */
  datatype Edge = Edge(callee: string, pos: nat, sym: string, valueType: ValueType)

  /** The name passed by a whole-array argument, with or without the by-reference mark. */
  function ByRefArray(e: IrExpr): Option<IrSymbol> {
    var k := if e.kind.ByRef? then e.kind.operand.kind else e.kind;
    if k.Symbol? || k.SharedVariable? then Some(k.symbol) else None
  }

  /** Edges of the arguments themselves, counting positions from `pos`. */
  function ArgEdges(callee: string, args: seq<IrExpr>, pos: nat): seq<Edge> {
    if args == [] then []
    else
      var tail := ArgEdges(callee, args[1..], pos + 1);
      match ByRefArray(args[0])
      case Some(s) => [Edge(callee, pos, s.name, s.valueType)] + tail
      case None => tail
  }

  function ExprEdges(e: IrExpr): seq<Edge>
    decreases e
  {
    var k := e.kind;
    if k.FunctionCall? then ArgEdges(k.name, k.args, 0) + ExprsEdges(k.args)
    else if HasOperand(k) then ExprEdges(k.operand)
    else if HasPair(k) then ExprEdges(k.left) + ExprEdges(k.right)
    else if k.ArrayAccess? then ExprEdges(k.index) + ExprsEdges(k.extra)
    else []
  }

  function ExprsEdges(es: seq<IrExpr>): seq<Edge>
    decreases es
  {
    if es == [] then [] else ExprEdges(es[0]) + ExprsEdges(es[1..])
  }

  function OptEdges(e: Option<IrExpr>): seq<Edge> {
    if e.None? then [] else ExprEdges(e.value)
  }

  function ConditionEdges(c: Option<(IrExpr, bool)>): seq<Edge> {
    if c.None? then [] else ExprEdges(c.value.0)
  }

  /** Expressions of an item that the collector does not look at: sizes of further dimensions, subscripts of
      ATTACH, and computed addresses. */
  function Unlooked(it: IrItem): seq<IrExpr> {
    if it.Dim? then it.extraDims
    else if it.Attach? then it.leftIndices + it.rightIndices
    else if it.GosubExpr? || it.GotoExpr? then [it.address]
    else []
  }

  /** The edges of a body in collection order: the collected ones, which leave out Compounds and the unlooked
      expressions, or with `deep` all of them. */
  function BodyEdges(items: seq<IrItem>, deep: bool): seq<Edge>
    decreases items
  {
    if items == [] then [] else ItemEdges(items[0], deep) + BodyEdges(items[1..], deep)
  }

  function ItemEdges(it: IrItem, deep: bool): seq<Edge>
    decreases it, 1
  {
    OwnEdges(it, deep) + InnerEdges(it, deep)
  }

  /** The edges of the bodies of an item. */
  function InnerEdges(it: IrItem, deep: bool): seq<Edge>
    decreases it, 0
  {
    if it.If? then BodyEdges(it.thenBody, deep) + BranchEdges(it.elseBody, deep)
    else if it.While? || it.DoLoop? || it.For? then BodyEdges(it.body, deep)
    else if it.SelectCase? then CaseEdges(it.cases, deep) + BranchEdges(it.default, deep)
    else if it.Compound? && deep then BodyEdges(it.body, deep)
    else []
  }

  /** Edges of the expressions of the item itself; those of case conditions count with their case. */
  function OwnEdges(it: IrItem, deep: bool): seq<Edge> {
    LookedEdges(it) + (if deep then ExprsEdges(Unlooked(it)) else [])
  }

  function LookedEdges(it: IrItem): seq<Edge> {
    if it.Call? then ArgEdges(it.name, it.args, 0) + ExprsEdges(it.args)
    else if it.Assignment? || it.SharedAssignment? then ExprEdges(it.value)
    else if it.ArrayAssignment? then ExprEdges(it.index) + ExprsEdges(it.extraIndices) + ExprEdges(it.value)
    else if it.MidAssign? then ExprEdges(it.place) + ExprEdges(it.start) + OptEdges(it.length) + ExprEdges(it.value)
    else if it.BuiltinAssign? then ExprsEdges(it.args) + ExprEdges(it.value)
    else if it.Print? then ExprsEdges(it.exprs)
    else if it.If? || it.While? then ExprEdges(it.condition)
    else if it.DoLoop? then ConditionEdges(it.preCondition) + ConditionEdges(it.postCondition)
    else if it.For? then ExprEdges(it.start) + ExprEdges(it.end) + OptEdges(it.step)
    else if it.Return? then OptEdges(it.result)
    else if it.SelectCase? then ExprEdges(it.selector)
    else if it.Dim? then OptEdges(it.size)
    else []
  }

  function BranchEdges(b: OptBody, deep: bool): seq<Edge>
    decreases b
  {
    if b.NoBody? then [] else BodyEdges(b.items, deep)
  }

  function CaseEdges(cases: seq<IrCaseClause>, deep: bool): seq<Edge>
    decreases cases
  {
    if cases == [] then []
    else ExprsEdges(cases[0].conditions) + BodyEdges(cases[0].body, deep) + CaseEdges(cases[1..], deep)
  }

  /** Names that a DIM with a size, or a REDIM, resizes somewhere in the body. */
  function ResizedNames(items: seq<IrItem>): set<string>
    decreases items
  {
    if items == [] then {} else ResizedIn(items[0]) + ResizedNames(items[1..])
  }

  function ResizedIn(it: IrItem): set<string>
    decreases it
  {
    if it.Dim? && (it.redim || it.size.Some?) then {it.symbol.name}
    else if it.If? then ResizedNames(it.thenBody) + ResizedBranch(it.elseBody)
    else if it.While? || it.For? || it.DoLoop? || it.Compound? then ResizedNames(it.body)
    else if it.SelectCase? then ResizedCases(it.cases) + ResizedBranch(it.default)
    else {}
  }

  function ResizedBranch(b: OptBody): set<string>
    decreases b
  {
    if b.NoBody? then {} else ResizedNames(b.items)
  }

  function ResizedCases(cases: seq<IrCaseClause>): set<string>
    decreases cases
  {
    if cases == [] then {} else ResizedNames(cases[0].body) + ResizedCases(cases[1..])
  }
}
