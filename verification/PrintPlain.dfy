/** PRINT lists without parentheses in their strings: the splitter recovers them. */
module PrintPlain {
  import opened Ir
  import opened Results
  import opened TextScan
  import opened TextIr
  import opened TextRoundTrip
  import opened PrintList

  // ----- Texts that leave the raw depth as it is -----

  /** Inside some parentheses, the splitter passes over the text and ends at the depth it started at. */
  ghost predicate Level(w: string) {
    forall d: int :: d >= 1 ==> FirstSplit(w, d) == None && RawDepth(w, d) == d
  }

  predicate NoParens(w: string) {
    '(' !in w && ')' !in w
  }

  lemma {:induction false} Onward(a: string, b: string, d: int)
    requires FirstSplit(a, d) == None
    ensures RawDepth(a + b, d) == RawDepth(b, RawDepth(a, d))
    ensures FirstSplit(a + b, d) == Shift(|a|, FirstSplit(b, RawDepth(a, d)))
  {
    if a == [] {
      assert a + b == b;
    } else {
      assert (a + b)[1..] == a[1..] + b;
      Onward(a[1..], b, NextDepth(a[0], d));
    }
  }

  lemma LevelConcat(a: string, b: string)
    requires Level(a) && Level(b)
    ensures Level(a + b)
  {
    forall d: int | d >= 1 ensures FirstSplit(a + b, d) == None && RawDepth(a + b, d) == d {
      Onward(a, b, d);
    }
  }

  lemma {:induction false} NoParensAt(w: string, d: int)
    requires NoParens(w) && (d != 0 || (';' !in w && ',' !in w))
    ensures FirstSplit(w, d) == None && RawDepth(w, d) == d
  {
    if w != [] {
      NoParensAt(w[1..], d);
    }
  }

  lemma NoParensLevel(w: string)
    requires NoParens(w)
    ensures Level(w)
  {
    forall d: int | d >= 1 ensures FirstSplit(w, d) == None && RawDepth(w, d) == d {
      NoParensAt(w, d);
    }
  }

  /** A level text in parentheses behind a head is passed over at any depth, zero too if the head holds no
      separator. */
  lemma GroupAt(head: string, body: string, d: int)
    requires NoParens(head) && Level(body) && d >= 0 && (d != 0 || (';' !in head && ',' !in head))
    ensures FirstSplit(head + "(" + body + ")", d) == None && RawDepth(head + "(" + body + ")", d) == d
  {
    NoParensAt(head, d);
    Onward(head, "(" + body + ")", d);
    assert head + "(" + body + ")" == head + ("(" + body + ")");
    assert ("(" + body + ")")[1..] == body + ")";
    Onward(body, ")", d + 1);
    assert FirstSplit(")", d + 1) == None && RawDepth(")", d + 1) == d by {
      assert ")"[1..] == [];
    }
  }

  lemma GroupLevel(head: string, body: string)
    requires NoParens(head) && Level(body)
    ensures Level(head + "(" + body + ")")
  {
    forall d: int | d >= 1
      ensures FirstSplit(head + "(" + body + ")", d) == None && RawDepth(head + "(" + body + ")", d) == d
    {
      GroupAt(head, body, d);
    }
  }

  // ----- Printed expressions -----

  /** No string literal or string constant of the tree holds a parenthesis. */
  predicate ParenFree(e: IrExpr)
    decreases e
  {
    var k := e.kind;
    && (k.StringLiteral? || (k.Constant? && e.valueType == String) ==> NoParens(k.value))
    && (HasOperand(k) ==> ParenFree(k.operand))
    && (HasPair(k) ==> ParenFree(k.left) && ParenFree(k.right))
    && (k.FunctionCall? ==> AllParenFree(k.args))
    && (k.ArrayAccess? ==> ParenFree(k.index) && AllParenFree(k.extra))
  }

  predicate AllParenFree(es: seq<IrExpr>)
    decreases es
  {
    es != [] ==> ParenFree(es[0]) && AllParenFree(es[1..])
  }

  lemma {:induction false} DebugNoParens(printable: set<char>, s: string)
    requires NoParens(s)
    ensures NoParens(DebugChars(printable, s))
  {
    if s != [] {
      DebugNoParens(printable, s[1..]);
    }
  }

  lemma HeadNoParens(e: IrExpr)
    requires LexOk(e)
    ensures NoParens(Head(e.kind))
    ensures !e.kind.FunctionCall? || ';' !in e.kind.name ==> ';' !in Head(e.kind) && ',' !in Head(e.kind)
  {
    if e.kind.FunctionCall? {
      assert NoParens(CALL);
    } else {
      TagWord(TagOf(e.kind));
    }
  }

  lemma {:induction false} EmitLevel(p: TextIrEmitter, e: IrExpr)
    requires LexOk(e) && ParenFree(e)
    ensures Level(p.Body(e)) && Level(p.EmitExpr(e))
    decreases e, 1
  {
    hide Level, Head;
    BodyLevel(p, e);
    HeadNoParens(e);
    GroupLevel(Head(e.kind), p.Body(e));
  }

  lemma {:induction false} MoreLevel(p: TextIrEmitter, es: seq<IrExpr>, sep: string)
    requires LexOkAll(es) && AllParenFree(es) && NoParens(sep)
    ensures Level(p.EmitMore(es, sep))
    decreases es, 0
  {
    hide Level, TextIrEmitter.EmitExpr;
    if es == [] {
      NoParensLevel([]);
    } else {
      EmitLevel(p, es[0]);
      MoreLevel(p, es[1..], sep);
      NoParensLevel(sep);
      LevelConcat(sep, p.EmitExpr(es[0]));
      LevelConcat(sep + p.EmitExpr(es[0]), p.EmitMore(es[1..], sep));
    }
  }

  lemma InfixLevel(a: string, middle: string, b: string)
    requires Level(a) && Level(b) && NoParens(middle)
    ensures Level(a + " " + middle + " " + b) && Level(a + " " + b)
  {
    hide Level;
    NoParensLevel(" " + middle + " ");
    LevelConcat(a, " " + middle + " ");
    LevelConcat(a + (" " + middle + " "), b);
    assert a + " " + middle + " " + b == a + (" " + middle + " ") + b;
    NoParensLevel(" ");
    LevelConcat(a, " ");
    LevelConcat(a + " ", b);
  }

  lemma AccessLevel(s: IrSymbol, indices: string)
    requires IsLexeme(s.name) && Level(indices)
    ensures Level(SymbolText(s) + "[" + indices + "]")
  {
    hide Level;
    SymbolNeutral(s);
    NoParensLevel(SymbolText(s) + "[");
    NoParensLevel("]");
    LevelConcat(SymbolText(s) + "[", indices);
    LevelConcat(SymbolText(s) + "[" + indices, "]");
  }

  lemma StringLevel(printable: set<char>, v: string)
    requires NoParens(v)
    ensures Level(DebugString(printable, v))
  {
    DebugNoParens(printable, v);
    NoParensLevel(DebugString(printable, v));
  }

  lemma ConstantLevel(p: TextIrEmitter, e: IrExpr)
    requires e.kind.Constant? && LexOk(e) && ParenFree(e)
    ensures Level(p.Body(e))
  {
    hide Level, SymbolText, DebugString;
    var symbol := IrSymbol(e.kind.name, e.valueType);
    SymbolNeutral(symbol);
    NoParensLevel("$$" + SymbolText(symbol) + " = ");
    TagWord(TString);
    TagWord(TInteger);
    if e.valueType == String {
      StringLevel(p.printable, e.kind.value);
      GroupLevel(TagName(TString), DebugString(p.printable, e.kind.value));
    } else {
      NoParensLevel(e.kind.value);
      GroupLevel(TagName(TInteger), e.kind.value);
    }
    LevelConcat("$$" + SymbolText(symbol) + " = ", p.ConstantText(e.valueType, e.kind.value));
  }

  lemma LeafLevel(p: TextIrEmitter, e: IrExpr)
    requires LexOk(e) && ParenFree(e) && (e.kind.SharedVariable? || IsLeaf(e.kind)) && !e.kind.Constant?
    ensures Level(p.Body(e))
  {
    hide Level;
    if e.kind.StringLiteral? {
      StringLevel(p.printable, e.kind.value);
    } else {
      if e.kind.SharedVariable? || e.kind.Symbol? || e.kind.ArrayUBound? || e.kind.SizeOf? {
        SymbolNeutral(e.kind.symbol);
      }
      NoParensLevel(p.Body(e));
    }
  }

  lemma {:induction false} BodyLevel(p: TextIrEmitter, e: IrExpr)
    requires LexOk(e) && ParenFree(e)
    ensures Level(p.Body(e))
    decreases e, 0
  {
    hide Level, NoParens, SymbolText, DebugString, TextIrEmitter.EmitExpr, TextIrEmitter.ConstantText;
    var k := e.kind;
    if HasOperand(k) {
      EmitLevel(p, k.operand);
    } else if HasPair(k) {
      EmitLevel(p, k.left);
      EmitLevel(p, k.right);
      var op := if k.Comparison? then CmpName(k.cmpOp) else if k.Arithmetic? then ArithName(k.arithOp) else "";
      assert NoParens(op) by {
        OperatorNoParens(k, op);
      }
      InfixLevel(p.EmitExpr(k.left), op, p.EmitExpr(k.right));
    } else if k.FunctionCall? {
      NoParensNone();
      if k.args != [] {
        EmitLevel(p, k.args[0]);
        MoreLevel(p, k.args[1..], ", ");
        LevelConcat(p.EmitExpr(k.args[0]), p.EmitMore(k.args[1..], ", "));
      }
    } else if k.ArrayAccess? {
      NoParensNone();
      EmitLevel(p, k.index);
      MoreLevel(p, k.extra, ",");
      LevelConcat(p.EmitExpr(k.index), p.EmitMore(k.extra, ","));
      AccessLevel(k.symbol, p.EmitExpr(k.index) + p.EmitMore(k.extra, ","));
    } else if k.Constant? {
      ConstantLevel(p, e);
    } else {
      LeafLevel(p, e);
    }
  }

  lemma OperatorNoParens(k: IrExprKind, op: string)
    requires op == if k.Comparison? then CmpName(k.cmpOp) else if k.Arithmetic? then ArithName(k.arithOp) else ""
    ensures NoParens(op)
  {
  }

  lemma NoParensNone()
    ensures NoParens(", ") && NoParens(",") && Level([])
  {
    NoParensLevel([]);
  }

  // ----- The round trip -----

  /** No strings with parentheses; a called function's name holds no semicolon. */
  predicate Plain(items: seq<IrExpr>) {
    forall i :: 0 <= i < |items| ==> ParenFree(items[i]) && (items[i].kind.FunctionCall? ==> ';' !in items[i].kind.name)
  }

  lemma {:induction false} PlainSplittable(p: TextIrEmitter, items: seq<IrExpr>)
    requires LexOkAll(items) && Plain(items)
    ensures Splittable(p, items)
  {
    if items != [] {
      var e := items[0];
      EmitLevel(p, e);
      HeadNoParens(e);
      GroupAt(Head(e.kind), p.Body(e), 0);
      PlainSplittable(p, items[1..]);
    }
  }

  /** Printed lists whose strings hold no parentheses read back as the same items, types inferred afresh,
      with the same separators. */
  lemma PlainRoundTrip(p: TextIrEmitter, rd: TextIrReader, items: seq<IrExpr>, seps: seq<PrintSep>)
    requires items != [] && LexOkAll(items) && |seps| == |items| - 1 && Plain(items)
    requires AllPlainStrings(p.printable, items) && !SomeGiantSize(items)
    ensures ParsePrintItems(rd, EmitList(p, items, seps)) == Ok((CanonAll(rd, items), seps))
  {
    PlainSplittable(p, items);
    PrintRoundTrip(p, rd, items, seps);
    ReadBackPlain(p, rd, items);
  }

  lemma {:induction false} ReadBackPlain(p: TextIrEmitter, rd: TextIrReader, items: seq<IrExpr>)
    requires AllPlainStrings(p.printable, items) && !SomeGiantSize(items)
    ensures ReadBackAll(p, rd, items) == Ok(CanonAll(rd, items))
  {
    RereadCanonAll(p, rd, items);
  }
}
