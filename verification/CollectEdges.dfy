/** The recursive collectors that fill one vector of call edges and one set of resized names. */
module CollectEdges {
  import opened Ir
  import opened CallEdges

  method CollectArgs(callee: string, args: seq<IrExpr>, edges: seq<Edge>) returns (edges': seq<Edge>)
    ensures edges' == edges + ArgEdges(callee, args, 0)
  {
    edges' := edges;
    assert args[0..] == args;
    for i := 0 to |args|
      invariant edges' + ArgEdges(callee, args[i..], i) == edges + ArgEdges(callee, args, 0)
    {
      assert args[i..][0] == args[i] && args[i..][1..] == args[i + 1..];
      var s := ByRefArray(args[i]);
      if s.Some? {
        edges' := edges' + [Edge(callee, i, s.value.name, s.value.valueType)];
      }
    }
    assert args[|args|..] == [];
  }

  method CollectExpr(e: IrExpr, edges: seq<Edge>) returns (edges': seq<Edge>)
    ensures edges' == edges + ExprEdges(e)
    decreases e
  {
    hide ArgEdges, ExprsEdges;
    var k := e.kind;
    edges' := edges;
    if k.FunctionCall? {
      edges' := CollectArgs(k.name, k.args, edges');
      edges' := CollectExprs(k.args, edges');
    } else if HasOperand(k) {
      edges' := CollectExpr(k.operand, edges');
    } else if HasPair(k) {
      edges' := CollectExpr(k.left, edges');
      edges' := CollectExpr(k.right, edges');
    } else if k.ArrayAccess? {
      edges' := CollectExpr(k.index, edges');
      edges' := CollectExprs(k.extra, edges');
    }
  }

  method CollectExprs(es: seq<IrExpr>, edges: seq<Edge>) returns (edges': seq<Edge>)
    ensures edges' == edges + ExprsEdges(es)
    decreases es
  {
    hide ExprEdges;
    edges' := edges;
    assert es[0..] == es;
    for i := 0 to |es|
      invariant edges' + ExprsEdges(es[i..]) == edges + ExprsEdges(es)
    {
      assert es[i..][0] == es[i] && es[i..][1..] == es[i + 1..];
      edges' := CollectExpr(es[i], edges');
    }
    assert es[|es|..] == [];
  }

  method CollectOpt(e: Option<IrExpr>, edges: seq<Edge>) returns (edges': seq<Edge>)
    ensures edges' == edges + OptEdges(e)
  {
    hide ExprEdges;
    edges' := edges;
    if e.Some? {
      edges' := CollectExpr(e.value, edges');
    }
  }

  method CollectCondition(c: Option<(IrExpr, bool)>, edges: seq<Edge>) returns (edges': seq<Edge>)
    ensures edges' == edges + ConditionEdges(c)
  {
    hide ExprEdges;
    edges' := edges;
    if c.Some? {
      edges' := CollectExpr(c.value.0, edges');
    }
  }

  method CollectBody(items: seq<IrItem>, edges: seq<Edge>) returns (edges': seq<Edge>)
    ensures edges' == edges + BodyEdges(items, false)
    decreases items
  {
    hide ItemEdges;
    edges' := edges;
    assert items[0..] == items;
    for i := 0 to |items|
      invariant edges' + BodyEdges(items[i..], false) == edges + BodyEdges(items, false)
    {
      assert items[i..][0] == items[i] && items[i..][1..] == items[i + 1..];
      edges' := CollectItem(items[i], edges');
    }
    assert items[|items|..] == [];
  }

  method CollectItem(it: IrItem, edges: seq<Edge>) returns (edges': seq<Edge>)
    ensures edges' == edges + ItemEdges(it, false)
    decreases it
  {
    hide LookedEdges, BodyEdges, BranchEdges, CaseEdges;
    edges' := CollectLooked(it, edges);
    if it.If? {
      edges' := CollectBody(it.thenBody, edges');
      edges' := CollectBranch(it.elseBody, edges');
    } else if it.While? || it.DoLoop? || it.For? {
      edges' := CollectBody(it.body, edges');
    } else if it.SelectCase? {
      edges' := CollectClauses(it.cases, edges');
      edges' := CollectBranch(it.default, edges');
    }
  }

  method CollectLooked(it: IrItem, edges: seq<Edge>) returns (edges': seq<Edge>)
    ensures edges' == edges + LookedEdges(it)
  {
    hide ArgEdges, ExprEdges, ExprsEdges, OptEdges, ConditionEdges;
    edges' := edges;
    if it.Call? {
      edges' := CollectArgs(it.name, it.args, edges');
      edges' := CollectExprs(it.args, edges');
    } else if it.Assignment? || it.SharedAssignment? {
      edges' := CollectExpr(it.value, edges');
    } else if it.ArrayAssignment? {
      edges' := CollectExpr(it.index, edges');
      edges' := CollectExprs(it.extraIndices, edges');
      edges' := CollectExpr(it.value, edges');
    } else if it.MidAssign? {
      edges' := CollectExpr(it.place, edges');
      edges' := CollectExpr(it.start, edges');
      edges' := CollectOpt(it.length, edges');
      edges' := CollectExpr(it.value, edges');
    } else if it.BuiltinAssign? {
      edges' := CollectExprs(it.args, edges');
      edges' := CollectExpr(it.value, edges');
    } else if it.Print? {
      edges' := CollectExprs(it.exprs, edges');
    } else if it.If? || it.While? {
      edges' := CollectExpr(it.condition, edges');
    } else if it.DoLoop? {
      edges' := CollectCondition(it.preCondition, edges');
      edges' := CollectCondition(it.postCondition, edges');
    } else if it.For? {
      edges' := CollectExpr(it.start, edges');
      edges' := CollectExpr(it.end, edges');
      edges' := CollectOpt(it.step, edges');
    } else if it.Return? {
      edges' := CollectOpt(it.result, edges');
    } else if it.SelectCase? {
      edges' := CollectExpr(it.selector, edges');
    } else if it.Dim? {
      edges' := CollectOpt(it.size, edges');
    }
  }

  method CollectBranch(b: OptBody, edges: seq<Edge>) returns (edges': seq<Edge>)
    ensures edges' == edges + BranchEdges(b, false)
    decreases b
  {
    hide BodyEdges;
    edges' := edges;
    if b.Body? {
      edges' := CollectBody(b.items, edges');
    }
  }

  method CollectClauses(cases: seq<IrCaseClause>, edges: seq<Edge>) returns (edges': seq<Edge>)
    ensures edges' == edges + CaseEdges(cases, false)
    decreases cases
  {
    hide BodyEdges, ExprsEdges;
    edges' := edges;
    assert cases[0..] == cases;
    for i := 0 to |cases|
      invariant edges' + CaseEdges(cases[i..], false) == edges + CaseEdges(cases, false)
    {
      assert cases[i..][0] == cases[i] && cases[i..][1..] == cases[i + 1..];
      edges' := CollectExprs(cases[i].conditions, edges');
      edges' := CollectBody(cases[i].body, edges');
    }
    assert cases[|cases|..] == [];
  }

  // ----- Names that are resized -----

  method CollectResized(items: seq<IrItem>, names: set<string>) returns (names': set<string>)
    ensures names' == names + ResizedNames(items)
    decreases items
  {
    hide ResizedIn;
    names' := names;
    assert items[0..] == items;
    for i := 0 to |items|
      invariant names' + ResizedNames(items[i..]) == names + ResizedNames(items)
    {
      assert items[i..][0] == items[i] && items[i..][1..] == items[i + 1..];
      names' := CollectResizedIn(items[i], names');
    }
    assert items[|items|..] == [];
  }

  method CollectResizedIn(it: IrItem, names: set<string>) returns (names': set<string>)
    ensures names' == names + ResizedIn(it)
    decreases it
  {
    hide ResizedNames, ResizedBranch, ResizedCases;
    names' := names;
    if it.Dim? && (it.redim || it.size.Some?) {
      names' := names' + {it.symbol.name};
    } else if it.If? {
      names' := CollectResized(it.thenBody, names');
      names' := CollectResizedBranch(it.elseBody, names');
    } else if it.While? || it.For? || it.DoLoop? || it.Compound? {
      names' := CollectResized(it.body, names');
    } else if it.SelectCase? {
      names' := CollectResizedClauses(it.cases, names');
      names' := CollectResizedBranch(it.default, names');
    }
  }

  method CollectResizedBranch(b: OptBody, names: set<string>) returns (names': set<string>)
    ensures names' == names + ResizedBranch(b)
    decreases b
  {
    hide ResizedNames;
    names' := names;
    if b.Body? {
      names' := CollectResized(b.items, names');
    }
  }

  method CollectResizedClauses(cases: seq<IrCaseClause>, names: set<string>) returns (names': set<string>)
    ensures names' == names + ResizedCases(cases)
    decreases cases
  {
    hide ResizedNames;
    names' := names;
    assert cases[0..] == cases;
    for i := 0 to |cases|
      invariant names' + ResizedCases(cases[i..]) == names + ResizedCases(cases)
    {
      assert cases[i..][0] == cases[i] && cases[i..][1..] == cases[i + 1..];
      names' := CollectResized(cases[i].body, names');
    }
    assert cases[|cases|..] == [];
  }
}
