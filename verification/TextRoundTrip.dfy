/** Reading back printed expressions: what comes back, for every tree whose names are lexemes. */
module TextRoundTrip {
  import opened Ir
  import opened Results
  import opened Text
  import opened TextScan
  import opened TextIr

  // ----- Which trees are lexically well-formed -----

  predicate IsLexeme(w: string) {
    forall i :: 0 <= i < |w| ==> !IsWhite(w[i]) && w[i] !in {'(', ')', '"', ':', '[', ']', ','}
  }

  /** Every name and every number is a lexeme; string literals may hold anything. */
  predicate LexOk(e: IrExpr)
    decreases e, 1
  {
    match e.kind
    case StringLiteral(_) => true
    case IntegerLiteral(d) => IsLexeme(d)
    case FloatLiteral(d) => IsLexeme(d)
    case Constant(name, value) => IsLexeme(name) && (e.valueType == String || IsLexeme(value))
    case SharedVariable(s) => IsLexeme(s.name)
    case Symbol(s) => IsLexeme(s.name)
    case ByRef(x) => LexOk(x)
    case Comparison(_, l, r) => LexOk(l) && LexOk(r)
    case Arithmetic(_, l, r) => LexOk(l) && LexOk(r)
    case Unary(_, x) => LexOk(x)
    case Not(x) => LexOk(x)
    case Boolean(_, l, r) => LexOk(l) && LexOk(r)
    case Logical(_, l, r) => LexOk(l) && LexOk(r)
    case FunctionCall(name, args) => name != [] && IsLexeme(name) && LexOkAll(args)
    case ArrayAccess(s, i, extra) => IsLexeme(s.name) && LexOk(i) && LexOkAll(extra)
    case ArrayUBound(s) => IsLexeme(s.name)
    case SizeOf(s) => IsLexeme(s.name)
    case SizeOfType(_) => true
    case LabelAddress(name) => IsLexeme(name)
    case FuncAddr(name) => IsLexeme(name)
  }

  predicate LexOkAll(es: seq<IrExpr>)
    decreases es, 0
  {
    es != [] ==> LexOk(es[0]) && LexOkAll(es[1..])
  }

  // ----- The two families the reader does not give back -----

  /** The tree holds the size of the 64-bit type, which is printed but not read. */
  predicate HasGiantSize(e: IrExpr)
    decreases e, 1
  {
    var k := e.kind;
    || (k.SizeOfType? && k.ofType == Giant)
    || (HasOperand(k) && HasGiantSize(k.operand))
    || (HasPair(k) && (HasGiantSize(k.left) || HasGiantSize(k.right)))
    || (k.FunctionCall? && SomeGiantSize(k.args))
    || (k.ArrayAccess? && (HasGiantSize(k.index) || SomeGiantSize(k.extra)))
  }

  predicate SomeGiantSize(es: seq<IrExpr>)
    decreases es, 0
  {
    es != [] && (HasGiantSize(es[0]) || SomeGiantSize(es[1..]))
  }

  /** Every character of every string is one whose printed form the reader understands. */
  predicate PlainStrings(printable: set<char>, e: IrExpr)
    decreases e, 1
  {
    var k := e.kind;
    && (k.StringLiteral? || (k.Constant? && e.valueType == String) ==> AllReadable(printable, k.value))
    && (HasOperand(k) ==> PlainStrings(printable, k.operand))
    && (HasPair(k) ==> PlainStrings(printable, k.left) && PlainStrings(printable, k.right))
    && (k.FunctionCall? ==> AllPlainStrings(printable, k.args))
    && (k.ArrayAccess? ==> PlainStrings(printable, k.index) && AllPlainStrings(printable, k.extra))
  }

  predicate AllPlainStrings(printable: set<char>, es: seq<IrExpr>)
    decreases es, 0
  {
    es != [] ==> PlainStrings(printable, es[0]) && AllPlainStrings(printable, es[1..])
  }

  /** The tree with each string as it comes back from its printed form. */
  function Reread(printable: set<char>, e: IrExpr): IrExpr
    decreases e, 1
  {
    var k := match e.kind
      case StringLiteral(v) => StringLiteral(RereadString(printable, v))
      case Constant(name, v) => Constant(name, if e.valueType == String then RereadString(printable, v) else v)
      case ByRef(x) => ByRef(Reread(printable, x))
      case Comparison(op, l, r) => Comparison(op, Reread(printable, l), Reread(printable, r))
      case Arithmetic(op, l, r) => Arithmetic(op, Reread(printable, l), Reread(printable, r))
      case Unary(op, x) => Unary(op, Reread(printable, x))
      case Not(x) => Not(Reread(printable, x))
      case Boolean(op, l, r) => Boolean(op, Reread(printable, l), Reread(printable, r))
      case Logical(op, l, r) => Logical(op, Reread(printable, l), Reread(printable, r))
      case FunctionCall(name, args) => FunctionCall(name, RereadAll(printable, args))
      case ArrayAccess(s, i, extra) => ArrayAccess(s, Reread(printable, i), RereadAll(printable, extra))
      case _ => e.kind;
    IrExpr(k, e.valueType)
  }

  function RereadAll(printable: set<char>, es: seq<IrExpr>): (r: seq<IrExpr>)
    decreases es, 0
  {
    if es == [] then [] else [Reread(printable, es[0])] + RereadAll(printable, es[1..])
  }

  // ----- Canonical typing -----

  /** The type the reader infers for a node from its parts; a constant keeps its printed type. */
  function InferredType(rd: TextIrReader, k: IrExprKind, declared: ValueType): ValueType {
    match k
    case StringLiteral(_) => String
    case FloatLiteral(_) => Float
    case Constant(_, _) => declared
    case SharedVariable(s) => s.valueType
    case Symbol(s) => s.valueType
    case ByRef(x) => x.valueType
    case Arithmetic(op, l, r) => InferArithType(op, l, r)
    case Unary(_, x) => x.valueType
    case FunctionCall(name, args) => rd.CallType(name, args)
    case ArrayAccess(s, _, _) => s.valueType
    case _ => Integer
  }

  /** The same tree with every node's type inferred afresh, bottom up. */
  function Canon(rd: TextIrReader, e: IrExpr): IrExpr
    decreases e, 1
  {
    var k := match e.kind
      case ByRef(x) => ByRef(Canon(rd, x))
      case Comparison(op, l, r) => Comparison(op, Canon(rd, l), Canon(rd, r))
      case Arithmetic(op, l, r) => Arithmetic(op, Canon(rd, l), Canon(rd, r))
      case Unary(op, x) => Unary(op, Canon(rd, x))
      case Not(x) => Not(Canon(rd, x))
      case Boolean(op, l, r) => Boolean(op, Canon(rd, l), Canon(rd, r))
      case Logical(op, l, r) => Logical(op, Canon(rd, l), Canon(rd, r))
      case FunctionCall(name, args) => FunctionCall(name, CanonAll(rd, args))
      case ArrayAccess(s, i, extra) => ArrayAccess(s, Canon(rd, i), CanonAll(rd, extra))
      case _ => e.kind;
    IrExpr(k, InferredType(rd, k, e.valueType))
  }

  function CanonAll(rd: TextIrReader, es: seq<IrExpr>): seq<IrExpr>
    decreases es, 0
  {
    if es == [] then [] else [Canon(rd, es[0])] + CanonAll(rd, es[1..])
  }

  // ----- Printed text is neutral to the scanner -----

  lemma LexemeInert(w: string)
    requires IsLexeme(w)
    ensures Inert(w) && Neutral(w) && Trimmed(w)
    ensures ':' !in w && '(' !in w && '[' !in w
  {
    InertNeutral(w);
  }

  lemma SymbolNeutral(s: IrSymbol)
    requires IsLexeme(s.name)
    ensures Inert(SymbolText(s)) && Neutral(SymbolText(s))
    ensures Trimmed(SymbolText(s)) && '[' !in SymbolText(s)
  {
    assert Inert(":" + TypeName(s.valueType));
    InertNeutral(SymbolText(s));
  }

  lemma ConcatNeutral3(a: string, b: string, c: string)
    requires Neutral(a) && Neutral(b) && Neutral(c)
    ensures Neutral(a + b + c)
  {
    NeutralConcat(a, b);
    NeutralConcat(a + b, c);
  }

  lemma TagWord(t: Tag)
    ensures IsWord(TagName(t))
  {
  }

  lemma WordFacts(w: string)
    requires IsWord(w)
    ensures w != [] && Trimmed(w) && Inert(w) && !(CALL <= w)
  {
    assert CALL[4] == ' ';
  }

  lemma HeadFacts(e: IrExpr)
    requires LexOk(e)
    ensures Head(e.kind) != [] && Trimmed(Head(e.kind)) && Inert(Head(e.kind))
  {
    if e.kind.FunctionCall? {
      LexemeInert(e.kind.name);
    } else {
      TagWord(TagOf(e.kind));
      WordFacts(TagName(TagOf(e.kind)));
    }
  }

  lemma WrapNeutral(head: string, body: string)
    requires Inert(head) && Neutral(body)
    ensures Neutral(head + "(" + body + ")")
  {
    InertNeutral(head);
    NeutralGroup(body);
    NeutralConcat(head, "(" + body + ")");
    assert head + "(" + body + ")" == head + ("(" + body + ")");
  }

  lemma ConstantTextNeutral(p: TextIrEmitter, t: ValueType, value: string)
    requires t == String || IsLexeme(value)
    ensures Neutral(p.ConstantText(t, value))
  {
    if t == String {
      DebugNeutral(p.printable, value);
      TagWord(TString);
      WrapNeutral(TagName(TString), DebugString(p.printable, value));
    } else {
      LexemeInert(value);
      TagWord(TInteger);
      WrapNeutral(TagName(TInteger), value);
    }
  }

  lemma ConstantNeutral(p: TextIrEmitter, e: IrExpr)
    requires e.kind.Constant? && LexOk(e)
    ensures Neutral(p.Body(e))
  {
    var symbol := IrSymbol(e.kind.name, e.valueType);
    SymbolNeutral(symbol);
    InertNeutral("$$");
    InertNeutral(" = ");
    ConcatNeutral3("$$", SymbolText(symbol), " = ");
    ConstantTextNeutral(p, e.valueType, e.kind.value);
    NeutralConcat("$$" + SymbolText(symbol) + " = ", p.ConstantText(e.valueType, e.kind.value));
  }

  lemma {:induction false} EmitNeutral(p: TextIrEmitter, e: IrExpr)
    requires LexOk(e)
    ensures Neutral(p.EmitExpr(e))
    decreases e, 1
  {
    BodyNeutral(p, e);
    HeadFacts(e);
    WrapNeutral(Head(e.kind), p.Body(e));
  }

  lemma {:induction false} MoreNeutral(p: TextIrEmitter, es: seq<IrExpr>, sep: string)
    requires LexOkAll(es) && Inert(sep)
    ensures Neutral(p.EmitMore(es, sep))
    decreases es, 0
  {
    if es == [] {
      InertNeutral([]);
    } else {
      EmitNeutral(p, es[0]);
      MoreNeutral(p, es[1..], sep);
      InertNeutral(sep);
      ConcatNeutral3(sep, p.EmitExpr(es[0]), p.EmitMore(es[1..], sep));
    }
  }

  lemma InfixNeutral(a: string, middle: string, b: string)
    requires Neutral(a) && Neutral(b) && Inert(middle)
    ensures Neutral(a + " " + middle + " " + b)
    ensures Neutral(a + " " + b)
  {
    InertNeutral(" " + middle + " ");
    ConcatNeutral3(a, " " + middle + " ", b);
    assert a + " " + middle + " " + b == a + (" " + middle + " ") + b;
    InertNeutral(" ");
    ConcatNeutral3(a, " ", b);
  }

  lemma AccessNeutral(s: IrSymbol, indices: string)
    requires IsLexeme(s.name) && Neutral(indices)
    ensures Neutral(SymbolText(s) + "[" + indices + "]")
  {
    SymbolNeutral(s);
    InertNeutral("[");
    InertNeutral("]");
    ConcatNeutral3(SymbolText(s), "[", indices);
    NeutralConcat(SymbolText(s) + "[" + indices, "]");
  }

  lemma {:induction false} BodyNeutral(p: TextIrEmitter, e: IrExpr)
    requires LexOk(e)
    ensures Neutral(p.Body(e))
    decreases e, 0
  {
    hide Neutral, SymbolText, DebugString, TextIrEmitter.EmitExpr, TextIrEmitter.ConstantText;
    var k := e.kind;
    if HasOperand(k) {
      EmitNeutral(p, k.operand);
    } else if HasPair(k) {
      EmitNeutral(p, k.left);
      EmitNeutral(p, k.right);
      var op := if k.Comparison? then CmpName(k.cmpOp) else if k.Arithmetic? then ArithName(k.arithOp) else "";
      InfixNeutral(p.EmitExpr(k.left), op, p.EmitExpr(k.right));
    } else if k.FunctionCall? {
      InertNeutral([]);
      if k.args != [] {
        EmitNeutral(p, k.args[0]);
        MoreNeutral(p, k.args[1..], ", ");
        NeutralConcat(p.EmitExpr(k.args[0]), p.EmitMore(k.args[1..], ", "));
      }
    } else if k.ArrayAccess? {
      EmitNeutral(p, k.index);
      MoreNeutral(p, k.extra, ",");
      NeutralConcat(p.EmitExpr(k.index), p.EmitMore(k.extra, ","));
      AccessNeutral(k.symbol, p.EmitExpr(k.index) + p.EmitMore(k.extra, ","));
    } else if k.Constant? {
      ConstantNeutral(p, e);
    } else {
      LeafNeutral(p, e);
    }
  }

  lemma LeafNeutral(p: TextIrEmitter, e: IrExpr)
    requires LexOk(e) && (e.kind.SharedVariable? || IsLeaf(e.kind)) && !e.kind.Constant?
    ensures Neutral(p.Body(e))
  {
    hide Neutral;
    match e.kind
    case StringLiteral(v) => DebugNeutral(p.printable, v);
    case SharedVariable(s) =>
      SymbolNeutral(s);
      InertNeutral("##");
      NeutralConcat("##", SymbolText(s));
    case Symbol(s) => SymbolNeutral(s);
    case ArrayUBound(s) => SymbolNeutral(s);
    case SizeOf(s) => SymbolNeutral(s);
    case _ => InertNeutral(p.Body(e));
  }

  predicate IsLeaf(k: IrExprKind) {
    || k.StringLiteral? || k.IntegerLiteral? || k.FloatLiteral? || k.Constant? || k.Symbol? || k.ArrayUBound?
    || k.SizeOf? || k.SizeOfType? || k.LabelAddress? || k.FuncAddr?
  }

  // ----- Reading one printed form -----

  lemma ReadTagName(t: Tag)
    ensures ReadTag(TagName(t)) == Some(t)
  {
  }

  function WithRest(r: Result<IrExpr>, rest: string): Result<(IrExpr, string)> {
    if r.Err? then Err else Ok((r.value, rest))
  }

  /** A head, a neutral body in parentheses and any rest: the reader finds exactly these parts. */
  lemma SplitHead(head: string, body: string, rest: string)
    requires head != [] && Trimmed(head) && Inert(head) && Neutral(body)
    ensures var s := head + "(" + body + ")" + rest;
            && TrimStart(s) == s && Find(s, '(') == Some(|head|) && s[..|head|] == head
            && ExtractParens(s[|head| + 1..]) == Ok((body, rest))
  {
    var s := head + "(" + body + ")" + rest;
    assert s == head + ['('] + (body + ")" + rest);
    FindAfter(head, '(', body + ")" + rest);
    assert s[|head| + 1..] == body + ")" + rest;
    ExtractNeutral(body, rest);
  }

  function ReadParts(rd: TextIrReader, head: string, body: string): Result<IrExpr> {
    if CALL <= head then
      var name := Trim(head[|CALL|..]);
      var args :- rd.ParseArgs(body);
      Ok(IrExpr(FunctionCall(name, args), rd.CallType(name, args)))
    else
      match ReadTag(head)
      case None => Err
      case Some(tag) => rd.ParseContent(tag, body)
  }

  lemma ReadWhole(rd: TextIrReader, head: string, body: string, rest: string)
    requires head != [] && Trimmed(head) && Inert(head) && Neutral(body)
    ensures rd.ParseSubExpr(head + "(" + body + ")" + rest) == WithRest(ReadParts(rd, head, body), rest)
  {
    hide TextIrReader.ParseContent, TextIrReader.ParseArgs, ReadTag, Find, ExtractParens;
    hide TrimStart, Trim, Inert, Neutral;
    TrimTrimmed(head);
    SplitHead(head, body, rest);
  }

  /** What the reader makes of a word between parentheses. */
  lemma WordContent(rd: TextIrReader, content: string)
    ensures rd.ParseContent(TInteger, content) == Ok(IrExpr(IntegerLiteral(Trim(content)), Integer))
    ensures rd.ParseContent(TFloat, content) == Ok(IrExpr(FloatLiteral(Trim(content)), Float))
    ensures rd.ParseContent(TLabelAddr, content) == Ok(IrExpr(LabelAddress(Trim(content)), Integer))
    ensures rd.ParseContent(TFuncAddr, content) == Ok(IrExpr(FuncAddr(Trim(content)), Integer))
  {
    hide Trim;
  }

  lemma StringContent(rd: TextIrReader, content: string, v: string)
    requires ParseRustString(Trim(content)) == Ok(v)
    ensures rd.ParseContent(TString, content) == Ok(IrExpr(StringLiteral(v), String))
  {
    hide Trim, ParseRustString;
  }

  lemma CallParts(rd: TextIrReader, name: string, body: string)
    requires name != [] && IsLexeme(name)
    ensures ReadParts(rd, CALL + name, body)
         == match rd.ParseArgs(body)
            case Err => Err
            case Ok(args) => Ok(IrExpr(FunctionCall(name, args), rd.CallType(name, args)))
  {
    assert (CALL + name)[|CALL|..] == name;
    LexemeInert(name);
  }

  // ----- Reading bodies -----

  /** What the reader makes of a printed tree. */
  function ReadBack(p: TextIrEmitter, rd: TextIrReader, e: IrExpr): Result<IrExpr> {
    if HasGiantSize(e) then Err else Ok(Canon(rd, Reread(p.printable, e)))
  }

  function ReadBackAll(p: TextIrEmitter, rd: TextIrReader, es: seq<IrExpr>): Result<seq<IrExpr>> {
    if SomeGiantSize(es) then Err else Ok(CanonAll(rd, RereadAll(p.printable, es)))
  }

  lemma EmitEnds(p: TextIrEmitter, e: IrExpr)
    requires LexOk(e)
    ensures var s := p.EmitExpr(e); s != [] && !IsWhite(s[0]) && s[|s| - 1] == ')'
  {
    HeadFacts(e);
    assert p.EmitExpr(e)[0] == Head(e.kind)[0];
  }

  lemma {:induction false} ListEnds(p: TextIrEmitter, first: IrExpr, more: seq<IrExpr>, sep: string)
    requires LexOk(first) && LexOkAll(more)
    ensures var s := p.EmitExpr(first) + p.EmitMore(more, sep); s != [] && !IsWhite(s[0]) && s[|s| - 1] == ')'
    decreases more
  {
    hide TextIrEmitter.EmitExpr, LexOk;
    EmitEnds(p, first);
    if more != [] {
      ListEnds(p, more[0], more[1..], sep);
      var tail := p.EmitExpr(more[0]) + p.EmitMore(more[1..], sep);
      assert p.EmitMore(more, sep) == sep + tail;
    }
  }

  lemma ReadType(t: ValueType)
    ensures ParseType(TypeName(t)) == Ok(t) && Trimmed(TypeName(t)) && TypeName(t) != []
    ensures ':' !in TypeName(t) && '=' !in TypeName(t)
  {
  }

  lemma ReadSymbol(s: IrSymbol)
    requires IsLexeme(s.name)
    ensures ParseSymbol(SymbolText(s)) == Ok(s) && Trim(SymbolText(s)) == SymbolText(s)
  {
    var t := TypeName(s.valueType);
    var w := SymbolText(s);
    LexemeInert(s.name);
    SymbolNeutral(s);
    TrimTrimmed(w);
    ReadType(s.valueType);
    TrimTrimmed(t);
    assert w == s.name + [':'] + t;
    FindAfter(s.name, ':', t);
    assert w[|s.name| + 1..] == t && w[..|s.name|] == s.name;
  }

  lemma CmpPrefix(op: ComparisonOp, t: string)
    requires t != "" && t[0] == ' '
    ensures ParseCmpOp(CmpName(op) + t) == Ok((op, t))
  {
    var name := CmpName(op);
    var s := name + t;
    assert s[|name|..] == t && s[|name|] == ' ' && s[0] == name[0];
    assert |name| == 2 ==> s[1] == name[1];
  }

  lemma ReadCmp(op: ComparisonOp, b: string)
    requires b != [] && !IsWhite(b[0])
    ensures var r := ParseCmpOp(TrimStart(" " + CmpName(op) + " " + b));
            r.Ok? && r.value.0 == op && TrimStart(r.value.1) == b
  {
    hide TrimStart, ParseCmpOp;
    var name, t := CmpName(op), " " + b;
    assert " " + name + " " + b == " " + (name + t);
    assert (name + t)[0] == name[0];
    TrimLeadingSpace(name + t);
    TrimLeadingSpace(b);
    CmpPrefix(op, t);
  }

  lemma ReadArith(op: ArithmeticOp, b: string)
    requires b != [] && !IsWhite(b[0])
    ensures var r := ParseArithOp(TrimStart(" " + ArithName(op) + " " + b));
            r.Ok? && r.value.0 == op && TrimStart(r.value.1) == b
  {
    var name := ArithName(op);
    var t := name + " " + b;
    assert " " + name + " " + b == " " + t;
    TrimLeadingSpace(t);
    TrimLeadingSpace(b);
    assert t[|name|..] == " " + b && t[|name| + 1..] == b;
    if op in {Add, Sub, Mul, Div, Pow} {
      ReadArithSign(op, b);
    } else {
      ReadArithWord(op, b);
    }
  }

  lemma ReadArithSign(op: ArithmeticOp, b: string)
    requires op in {Add, Sub, Mul, Div, Pow} && b != []
    ensures var t := ArithName(op) + " " + b;
            ParseArithOp(t) == Ok((op, if op == Pow then t[3..] else t[1..]))
  {
    var t := ArithName(op) + " " + b;
    assert t[0] == ArithName(op)[0] && t[|ArithName(op)|] == ' ';
  }

  lemma ReadArithWord(op: ArithmeticOp, b: string)
    requires op in {IntegerDiv, Mod, Shl, Shr} && b != []
    ensures var t := ArithName(op) + " " + b;
            ParseArithOp(t) == Ok((op, t[|ArithName(op)| + 1..]))
  {
    var name := ArithName(op);
    var t := name + " " + b;
    assert t[0] == name[0] && t[|name|] == ' ';
    assert op != IntegerDiv ==> t[1] == name[1] && t[2] == name[2];
  }

  lemma ReadConstant(p: TextIrEmitter, rd: TextIrReader, name: string, value: string, vt: ValueType)
    requires IsLexeme(name) && (vt == String || IsLexeme(value))
    ensures rd.ParseConstant(Trim("$$" + SymbolText(IrSymbol(name, vt)) + " = " + p.ConstantText(vt, value)))
         == Ok(IrExpr(Constant(name, if vt == String then RereadString(p.printable, value) else value), vt))
  {
    var text := p.ConstantText(vt, value);
    var c := "$$" + SymbolText(IrSymbol(name, vt)) + " = " + text;
    ReadConstantText(p, rd, vt, value);
    assert c[0] == '$' && c[|c| - 1] == text[|text| - 1];
    TrimTrimmed(c);
    SplitConstant(name, vt, text);
    SplitConstantValue(vt, text);
    FinishConstant(rd, c, name, vt, text);
  }

  lemma FinishConstant(rd: TextIrReader, c: string, name: string, vt: ValueType, text: string)
    requires "$$" <= c && Find(c[2..], ':') == Some(|name|) && c[2..][..|name|] == name
    requires var after := c[2..][|name| + 1..];
            && Find(after, '=') == Some(|TypeName(vt)| + 1)
            && ParseType(Trim(after[..|TypeName(vt)| + 1])) == Ok(vt)
            && Trim(after[|TypeName(vt)| + 2..]) == text
    ensures rd.ParseConstant(c)
         == match rd.ParseSubExpr(text)
            case Err => Err
            case Ok((value, _)) =>
              match value.kind
              case IntegerLiteral(v) => Ok(IrExpr(Constant(name, v), vt))
              case StringLiteral(v) => Ok(IrExpr(Constant(name, v), vt))
              case _ => Err
  {
    hide TextIrReader.ParseSubExpr, Trim, Find, ParseType;
  }

  lemma SplitConstant(name: string, vt: ValueType, text: string)
    requires IsLexeme(name) && text != [] && Trimmed(text)
    ensures var c := "$$" + SymbolText(IrSymbol(name, vt)) + " = " + text;
            var after := c[2..][|name| + 1..];
            && "$$" <= c && Find(c[2..], ':') == Some(|name|) && c[2..][..|name|] == name
            && after == TypeName(vt) + " = " + text
  {
    var c := "$$" + SymbolText(IrSymbol(name, vt)) + " = " + text;
    var tail := TypeName(vt) + " = " + text;
    assert c[2..] == name + [':'] + tail;
    LexemeInert(name);
    FindAfter(name, ':', tail);
  }

  lemma SplitConstantValue(vt: ValueType, text: string)
    requires text != [] && Trimmed(text)
    ensures var after := TypeName(vt) + " = " + text;
            && Find(after, '=') == Some(|TypeName(vt)| + 1)
            && ParseType(Trim(after[..|TypeName(vt)| + 1])) == Ok(vt)
            && Trim(after[|TypeName(vt)| + 2..]) == text
  {
    var t := TypeName(vt);
    var after := t + " = " + text;
    ReadType(vt);
    assert after == (t + " ") + ['='] + (" " + text);
    FindAfter(t + " ", '=', " " + text);
    assert after[..|t| + 1] == t + " ";
    TrimTrailingSpace(t);
    assert after[|t| + 2..] == " " + text;
    TrimLeadingSpace(text);
    TrimTrimmed(text);
  }

  lemma ReadConstantText(p: TextIrEmitter, rd: TextIrReader, t: ValueType, value: string)
    requires t == String || IsLexeme(value)
    ensures var text := p.ConstantText(t, value);
            && text != [] && Trimmed(text)
            && rd.ParseSubExpr(text)
            == Ok((if t == String then IrExpr(StringLiteral(RereadString(p.printable, value)), String)
                   else IrExpr(IntegerLiteral(value), Integer), ""))
  {
    hide TextIrReader.ParseContent, TextIrReader.ParseSubExpr, Trim, ReadTag, DebugString, ParseRustString, Neutral;
    var text := p.ConstantText(t, value);
    assert text + "" == text;
    var head := TagName(if t == String then TString else TInteger);
    TagWord(if t == String then TString else TInteger);
    WordFacts(head);
    ReadTagName(if t == String then TString else TInteger);
    if t == String {
      var body := DebugString(p.printable, value);
      DebugNeutral(p.printable, value);
      StringRoundTrip(p.printable, value);
      QuotedTrimmed(p.printable, value);
      StringContent(rd, body, RereadString(p.printable, value));
      ReadWhole(rd, head, body, "");
    } else {
      LexemeInert(value);
      WordContent(rd, value);
      TrimTrimmed(value);
      ReadWhole(rd, head, value, "");
    }
  }

  lemma SeparatorSkipped(sep: string, tail: string)
    requires sep == "," || sep == ", "
    requires tail != [] && !IsWhite(tail[0])
    ensures TrimStart(sep + tail) == sep + tail && "," <= sep + tail && TrimStart((sep + tail)[1..]) == tail
  {
    var rest := sep + tail;
    assert rest[0] == ',';
    if sep == "," {
      assert rest[1..] == tail;
    } else {
      assert rest[1..] == " " + tail;
    }
    TrimLeadingSpace(tail);
  }

  /** What follows an argument: nothing, or a separator that is skipped and the next argument. */
  lemma MoreFacts(p: TextIrEmitter, more: seq<IrExpr>, sep: string)
    requires sep == "," || sep == ", "
    requires LexOkAll(more)
    ensures more == [] ==> TrimStart(p.EmitMore(more, sep)) == []
    ensures more != [] ==>
      var rest := TrimStart(p.EmitMore(more, sep));
      "," <= rest && TrimStart(rest[1..]) == p.EmitExpr(more[0]) + p.EmitMore(more[1..], sep)
  {
    hide TextIrEmitter.EmitExpr, TrimStart;
    TrimTrimmed([]);
    if more != [] {
      var tail := p.EmitExpr(more[0]) + p.EmitMore(more[1..], sep);
      ListEnds(p, more[0], more[1..], sep);
      assert p.EmitMore(more, sep) == sep + tail;
      SeparatorSkipped(sep, tail);
    }
  }

  /** One round of the comma loop. */
  lemma ListStep(rd: TextIrReader, text: string, rest: string, arg: Result<IrExpr>)
    requires rd.ParseSubExpr(text) == WithRest(arg, rest)
    ensures rd.ParseArgList(text)
         == if arg.Err? then Err
            else if "," <= TrimStart(rest) then Prepend([arg.value], rd.ParseArgList(TrimStart(TrimStart(rest)[1..])))
            else Ok([arg.value])
  {
  }

  // ----- One step of the reader for each shape of body, from the results on its parts -----

  lemma CompareStep(rd: TextIrReader, a: string, op: ComparisonOp, b: string, x: Result<IrExpr>, y: Result<IrExpr>)
    requires b != [] && !IsWhite(b[0])
    requires rd.ParseSubExpr(a + (" " + CmpName(op) + " " + b)) == WithRest(x, " " + CmpName(op) + " " + b)
    requires rd.ParseSubExpr(b) == WithRest(y, "")
    ensures rd.ParseContent(TCompare, a + " " + CmpName(op) + " " + b)
         == if x.Err? || y.Err? then Err else Ok(IrExpr(Comparison(op, x.value, y.value), Integer))
  {
    hide TextIrReader.ParseSubExpr, ParseCmpOp, TrimStart;
    assert a + " " + CmpName(op) + " " + b == a + (" " + CmpName(op) + " " + b);
    ReadCmp(op, b);
  }

  lemma ArithStep(rd: TextIrReader, a: string, op: ArithmeticOp, b: string, x: Result<IrExpr>, y: Result<IrExpr>)
    requires b != [] && !IsWhite(b[0])
    requires rd.ParseSubExpr(a + (" " + ArithName(op) + " " + b)) == WithRest(x, " " + ArithName(op) + " " + b)
    requires rd.ParseSubExpr(b) == WithRest(y, "")
    ensures rd.ParseContent(TArith, a + " " + ArithName(op) + " " + b)
         == if x.Err? || y.Err? then Err
            else Ok(IrExpr(Arithmetic(op, x.value, y.value), InferArithType(op, x.value, y.value)))
  {
    hide TextIrReader.ParseSubExpr, ParseArithOp, TrimStart;
    assert a + " " + ArithName(op) + " " + b == a + (" " + ArithName(op) + " " + b);
    ReadArith(op, b);
  }

  lemma PairStep(rd: TextIrReader, a: string, b: string, x: Result<IrExpr>, y: Result<IrExpr>)
    requires b != [] && !IsWhite(b[0])
    requires rd.ParseSubExpr(a + (" " + b)) == WithRest(x, " " + b)
    requires rd.ParseSubExpr(b) == WithRest(y, "")
    ensures rd.ParsePair(a + " " + b) == if x.Err? || y.Err? then Err else Ok((x.value, y.value))
  {
    hide TextIrReader.ParseSubExpr, TrimStart;
    assert a + " " + b == a + (" " + b);
    TrimLeadingSpace(b);
  }

  lemma ByRefStep(rd: TextIrReader, a: string, x: Result<IrExpr>)
    requires Trimmed(a) && rd.ParseSubExpr(a) == WithRest(x, "")
    ensures rd.ParseContent(TByRef, a) == if x.Err? then Err else Ok(IrExpr(ByRef(x.value), x.value.valueType))
  {
    TrimTrimmed(a);
    assert rd.ParseExpr(a) == x;
  }

  lemma SplitAccess(w: string, indices: string)
    requires '[' !in w
    ensures var content := w + "[" + indices + "]";
            && content[..|w|] == w && content[|w| + 1..] == indices + "]"
            && Find(content, '[') == Some(|w|)
  {
    hide Find;
    var content := w + "[" + indices + "]";
    assert content[|w| + 1..] == indices + "]";
    FindAfter(w, '[', indices + "]");
    assert w + ['['] + (indices + "]") == content;
  }

  lemma ArrayStep(rd: TextIrReader, s: IrSymbol, indices: string)
    requires IsLexeme(s.name)
    ensures rd.ParseArrayAccess(SymbolText(s) + "[" + indices + "]")
         == match rd.ParseArgs(indices)
            case Err => Err
            case Ok(all) => if all == [] then Err else Ok(IrExpr(ArrayAccess(s, all[0], all[1..]), s.valueType))
  {
    hide TextIrReader.ParseArgs, ParseSymbol, Find, RFind, Trim, SymbolText;
    SymbolNeutral(s);
    ReadSymbol(s);
    SplitAccess(SymbolText(s), indices);
    RFindLast(indices, ']');
    assert (indices + "]")[..|indices|] == indices;
  }

  // ----- The round trip -----

  lemma {:induction false} ReadExpr(p: TextIrEmitter, rd: TextIrReader, e: IrExpr, rest: string)
    requires LexOk(e)
    ensures rd.ParseSubExpr(p.EmitExpr(e) + rest) == WithRest(ReadBack(p, rd, e), rest)
    decreases e, 1
  {
    HeadFacts(e);
    BodyNeutral(p, e);
    ReadWhole(rd, Head(e.kind), p.Body(e), rest);
    if e.kind.FunctionCall? {
      ReadCallBody(p, rd, e);
    } else {
      TagWord(TagOf(e.kind));
      WordFacts(TagName(TagOf(e.kind)));
      ReadTagName(TagOf(e.kind));
      ReadBody(p, rd, e);
    }
  }

  lemma ReadAlone(p: TextIrEmitter, rd: TextIrReader, e: IrExpr)
    requires LexOk(e)
    ensures rd.ParseSubExpr(p.EmitExpr(e)) == WithRest(ReadBack(p, rd, e), "")
    ensures var s := p.EmitExpr(e); s != [] && !IsWhite(s[0]) && Trimmed(s)
    decreases e, 2
  {
    ReadExpr(p, rd, e, "");
    assert p.EmitExpr(e) + "" == p.EmitExpr(e);
    EmitEnds(p, e);
  }

  lemma ReadBackCons(p: TextIrEmitter, rd: TextIrReader, first: IrExpr, more: seq<IrExpr>)
    ensures ReadBackAll(p, rd, [first] + more)
         == if HasGiantSize(first) then Err
            else Prepend([Canon(rd, Reread(p.printable, first))], ReadBackAll(p, rd, more))
  {
    var tail := RereadAll(p.printable, more);
    assert ([first] + more)[1..] == more;
    assert ([Reread(p.printable, first)] + tail)[1..] == tail;
  }

  lemma {:induction false} ReadList(p: TextIrEmitter, rd: TextIrReader, es: seq<IrExpr>, sep: string)
    requires sep == "," || sep == ", "
    requires es != [] && LexOkAll(es)
    ensures rd.ParseArgList(p.EmitExpr(es[0]) + p.EmitMore(es[1..], sep)) == ReadBackAll(p, rd, es)
    decreases es, 0
  {
    hide TextIrReader.ParseSubExpr, TextIrReader.ParseArgList, TextIrEmitter.EmitMore, TextIrEmitter.EmitExpr;
    ReadExpr(p, rd, es[0], p.EmitMore(es[1..], sep));
    MoreFacts(p, es[1..], sep);
    ListStep(rd, p.EmitExpr(es[0]) + p.EmitMore(es[1..], sep), p.EmitMore(es[1..], sep), ReadBack(p, rd, es[0]));
    if es[1..] != [] {
      ReadList(p, rd, es[1..], sep);
    }
    assert es == [es[0]] + es[1..];
    ReadBackCons(p, rd, es[0], es[1..]);
    PrependEmpty(Canon(rd, Reread(p.printable, es[0])));
  }

  lemma PrependEmpty(c: IrExpr)
    ensures Prepend([c], Ok([])) == Ok([c])
  {
    assert [c] + [] == [c];
  }

  lemma ReadBackCall(p: TextIrEmitter, rd: TextIrReader, e: IrExpr)
    requires e.kind.FunctionCall?
    ensures ReadBack(p, rd, e)
         == match ReadBackAll(p, rd, e.kind.args)
            case Err => Err
            case Ok(args) => Ok(IrExpr(FunctionCall(e.kind.name, args), rd.CallType(e.kind.name, args)))
  {
  }

  lemma ReadBackAccess(p: TextIrEmitter, rd: TextIrReader, e: IrExpr)
    requires e.kind.ArrayAccess?
    ensures ReadBackAll(p, rd, []) == Ok([])
    ensures ReadBack(p, rd, e.kind.index)
         == if HasGiantSize(e.kind.index) then Err else Ok(Canon(rd, Reread(p.printable, e.kind.index)))
    ensures ReadBack(p, rd, e)
         == match Prepend([Canon(rd, Reread(p.printable, e.kind.index))], ReadBackAll(p, rd, e.kind.extra))
            case Err => Err
            case Ok(all) =>
              if HasGiantSize(e.kind.index) then Err
              else Ok(IrExpr(ArrayAccess(e.kind.symbol, all[0], all[1..]), e.kind.symbol.valueType))
  {
    var first := Canon(rd, Reread(p.printable, e.kind.index));
    var tail := CanonAll(rd, RereadAll(p.printable, e.kind.extra));
    assert ([first] + tail)[1..] == tail;
  }

  /** The same operation on other operands. */
  function WithPair(k: IrExprKind, l: IrExpr, r: IrExpr): IrExprKind
    requires HasPair(k)
  {
    match k
    case Comparison(op, _, _) => Comparison(op, l, r)
    case Arithmetic(op, _, _) => Arithmetic(op, l, r)
    case Boolean(op, _, _) => Boolean(op, l, r)
    case Logical(op, _, _) => Logical(op, l, r)
  }

  function PairResult(rd: TextIrReader, e: IrExpr, l: Result<IrExpr>, r: Result<IrExpr>): Result<IrExpr>
    requires HasPair(e.kind)
  {
    if l.Err? || r.Err? then Err else
    var k := WithPair(e.kind, l.value, r.value);
    Ok(IrExpr(k, InferredType(rd, k, e.valueType)))
  }

  lemma ReadBackPair(p: TextIrEmitter, rd: TextIrReader, e: IrExpr)
    requires HasPair(e.kind)
    ensures ReadBack(p, rd, e)
         == PairResult(rd, e, ReadBack(p, rd, e.kind.left), ReadBack(p, rd, e.kind.right))
  {
  }

  lemma {:induction false} ReadCallBody(p: TextIrEmitter, rd: TextIrReader, e: IrExpr)
    requires LexOk(e) && e.kind.FunctionCall?
    ensures ReadParts(rd, Head(e.kind), p.Body(e)) == ReadBack(p, rd, e)
    decreases e, 0
  {
    hide TextIrReader.ParseArgList, TextIrEmitter.EmitMore, TextIrEmitter.EmitExpr, ReadBack, ReadParts, Trim;
    ReadBackCall(p, rd, e);
    var args := e.kind.args;
    CallParts(rd, e.kind.name, p.Body(e));
    if args != [] {
      ReadList(p, rd, args, ", ");
      ListEnds(p, args[0], args[1..], ", ");
      TrimTrimmed(p.Body(e));
    }
  }

  lemma {:induction false} ReadBody(p: TextIrEmitter, rd: TextIrReader, e: IrExpr)
    requires LexOk(e) && !e.kind.FunctionCall?
    ensures rd.ParseContent(TagOf(e.kind), p.Body(e)) == ReadBack(p, rd, e)
    decreases e, 0, 1
  {
    hide TextIrReader.ParseContent, TextIrEmitter.Body, ReadBack;
    match e.kind
    case ByRef(x) => ReadUnary(p, rd, e);
    case Unary(_, x) => ReadUnary(p, rd, e);
    case Not(x) => ReadUnary(p, rd, e);
    case Comparison(op, l, r) => ReadComparison(p, rd, e);
    case Arithmetic(op, l, r) => ReadArithmetic(p, rd, e);
    case Boolean(_, l, r) => ReadJunction(p, rd, e);
    case Logical(_, l, r) => ReadJunction(p, rd, e);
    case ArrayAccess(s, i, extra) => ReadAccess(p, rd, e);
    case SharedVariable(s) => ReadShared(p, rd, e);
    case _ => ReadLeaf(p, rd, e);
  }

  lemma {:induction false} ReadUnary(p: TextIrEmitter, rd: TextIrReader, e: IrExpr)
    requires LexOk(e) && (e.kind.ByRef? || e.kind.Unary? || e.kind.Not?)
    ensures rd.ParseContent(TagOf(e.kind), p.Body(e)) == ReadBack(p, rd, e)
    decreases e, 0, 0
  {
    hide TextIrReader.ParseSubExpr, TextIrReader.ParseExpr, TextIrEmitter.EmitExpr;
    ReadAlone(p, rd, e.kind.operand);
    if e.kind.ByRef? {
      ByRefStep(rd, p.EmitExpr(e.kind.operand), ReadBack(p, rd, e.kind.operand));
    }
  }

  lemma {:induction false} ReadComparison(p: TextIrEmitter, rd: TextIrReader, e: IrExpr)
    requires LexOk(e) && e.kind.Comparison?
    ensures rd.ParseContent(TCompare, p.Body(e)) == ReadBack(p, rd, e)
    decreases e, 0, 0
  {
    hide TextIrReader.ParseSubExpr, TextIrReader.ParseContent, TextIrEmitter.EmitExpr, ReadBack;
    ReadBackPair(p, rd, e);
    var l, op, r := e.kind.left, e.kind.cmpOp, e.kind.right;
    ReadExpr(p, rd, l, " " + CmpName(op) + " " + p.EmitExpr(r));
    ReadAlone(p, rd, r);
    CompareStep(rd, p.EmitExpr(l), op, p.EmitExpr(r), ReadBack(p, rd, l), ReadBack(p, rd, r));
  }

  lemma {:induction false} ReadArithmetic(p: TextIrEmitter, rd: TextIrReader, e: IrExpr)
    requires LexOk(e) && e.kind.Arithmetic?
    ensures rd.ParseContent(TArith, p.Body(e)) == ReadBack(p, rd, e)
    decreases e, 0, 0
  {
    hide TextIrReader.ParseSubExpr, TextIrReader.ParseContent, TextIrEmitter.EmitExpr, ReadBack;
    ReadBackPair(p, rd, e);
    var l, op, r := e.kind.left, e.kind.arithOp, e.kind.right;
    ReadExpr(p, rd, l, " " + ArithName(op) + " " + p.EmitExpr(r));
    ReadAlone(p, rd, r);
    ArithStep(rd, p.EmitExpr(l), op, p.EmitExpr(r), ReadBack(p, rd, l), ReadBack(p, rd, r));
  }

  lemma {:induction false} ReadJunction(p: TextIrEmitter, rd: TextIrReader, e: IrExpr)
    requires LexOk(e) && (e.kind.Boolean? || e.kind.Logical?)
    ensures rd.ParseContent(TagOf(e.kind), p.Body(e)) == ReadBack(p, rd, e)
    decreases e, 0, 0
  {
    hide TextIrReader.ParseSubExpr, TextIrReader.ParsePair, TextIrEmitter.EmitExpr, ReadBack;
    ReadBackPair(p, rd, e);
    var l, r := e.kind.left, e.kind.right;
    ReadExpr(p, rd, l, " " + p.EmitExpr(r));
    ReadAlone(p, rd, r);
    PairStep(rd, p.EmitExpr(l), p.EmitExpr(r), ReadBack(p, rd, l), ReadBack(p, rd, r));
  }

  lemma ReadLeaf(p: TextIrEmitter, rd: TextIrReader, e: IrExpr)
    requires LexOk(e) && IsLeaf(e.kind)
    ensures rd.ParseContent(TagOf(e.kind), p.Body(e)) == ReadBack(p, rd, e)
  {
    hide TextIrReader.ParseConstant, ParseRustString, Trim, DebugString;
    match e.kind
    case StringLiteral(v) =>
      StringRoundTrip(p.printable, v);
      QuotedTrimmed(p.printable, v);
    case Constant(name, value) => ReadConstant(p, rd, name, value, e.valueType);
    case SizeOfType(t) => ReadSizeOfType(rd, t);
    case _ =>
      if e.kind.Symbol? || e.kind.ArrayUBound? || e.kind.SizeOf? {
        ReadSymbolLeaf(p, rd, e);
      } else {
        ReadWordLeaf(p, rd, e);
      }
  }

  lemma ReadSymbolLeaf(p: TextIrEmitter, rd: TextIrReader, e: IrExpr)
    requires LexOk(e) && (e.kind.Symbol? || e.kind.ArrayUBound? || e.kind.SizeOf?)
    ensures rd.ParseContent(TagOf(e.kind), p.Body(e)) == ReadBack(p, rd, e)
  {
    hide ParseSymbol, Trim, SymbolText;
    ReadSymbol(e.kind.symbol);
  }

  lemma ReadWordLeaf(p: TextIrEmitter, rd: TextIrReader, e: IrExpr)
    requires LexOk(e)
    requires e.kind.IntegerLiteral? || e.kind.FloatLiteral? || e.kind.LabelAddress? || e.kind.FuncAddr?
    ensures rd.ParseContent(TagOf(e.kind), p.Body(e)) == ReadBack(p, rd, e)
  {
    hide Trim, TextIrReader.ParseContent;
    WordContent(rd, p.Body(e));
    TrimTrimmed(p.Body(e));
  }

  lemma QuotedTrimmed(printable: set<char>, v: string)
    ensures Trim(DebugString(printable, v)) == DebugString(printable, v)
  {
    TrimTrimmed(DebugString(printable, v));
  }

  lemma ReadSizeOfType(rd: TextIrReader, t: ValueType)
    ensures rd.ParseContent(TSizeOfType, TypeName(t)) == if t == Giant then Err else Ok(IrExpr(SizeOfType(t), Integer))
  {
    hide Trim;
    ReadType(t);
    TrimTrimmed(TypeName(t));
  }

  lemma ReadShared(p: TextIrEmitter, rd: TextIrReader, e: IrExpr)
    requires LexOk(e) && e.kind.SharedVariable?
    ensures rd.ParseContent(TShared, p.Body(e)) == ReadBack(p, rd, e)
  {
    hide ParseSymbol, Trim;
    var c := "##" + SymbolText(e.kind.symbol);
    ReadSymbol(e.kind.symbol);
    SymbolNeutral(e.kind.symbol);
    TrimTrimmed(c);
    assert c[2..] == SymbolText(e.kind.symbol);
  }

  lemma {:induction false} ReadAccess(p: TextIrEmitter, rd: TextIrReader, e: IrExpr)
    requires LexOk(e) && e.kind.ArrayAccess?
    ensures rd.ParseContent(TArrayAccess, p.Body(e)) == ReadBack(p, rd, e)
    decreases e, 0, 0
  {
    hide TextIrReader.ParseSubExpr, TextIrReader.ParseArgList, TextIrReader.ParseArrayAccess, TextIrEmitter.EmitExpr,
      TextIrEmitter.EmitMore, TrimStart, Trim, SymbolText, ReadBack, Canon, Reread;
    ReadBackAccess(p, rd, e);
    PrependEmpty(Canon(rd, Reread(p.printable, e.kind.index)));
    var i, extra := e.kind.index, e.kind.extra;
    var text := p.EmitExpr(i) + p.EmitMore(extra, ",");
    ReadExpr(p, rd, i, p.EmitMore(extra, ","));
    MoreFacts(p, extra, ",");
    if extra != [] {
      ReadList(p, rd, extra, ",");
    }
    ListStep(rd, text, p.EmitMore(extra, ","), ReadBack(p, rd, i));
    ListEnds(p, i, extra, ",");
    TrimTrimmed(text);
    ArrayStep(rd, e.kind.symbol, text);
  }

  // ----- Main results -----

  /** For every tree whose names are lexemes, this is exactly what reading its printed text gives. */
  lemma {:induction false} ParseEmitted(p: TextIrEmitter, rd: TextIrReader, e: IrExpr)
    requires LexOk(e)
    ensures rd.ParseExpr(p.EmitExpr(e)) == ReadBack(p, rd, e)
  {
    hide TextIrReader.ParseSubExpr, TextIrEmitter.EmitExpr, ReadBack;
    ReadAlone(p, rd, e);
  }

  lemma {:induction false} RereadCanon(p: TextIrEmitter, rd: TextIrReader, e: IrExpr)
    ensures Canon(rd, Reread(p.printable, e)) == Canon(rd, e) <==> PlainStrings(p.printable, e)
    decreases e, 1
  {
    hide RereadString, AllReadable, TextIrReader.CallType, InferArithType;
    if HasOperand(e.kind) {
      RereadCanon(p, rd, e.kind.operand);
    } else if HasPair(e.kind) {
      RereadCanon(p, rd, e.kind.left);
      RereadCanon(p, rd, e.kind.right);
    } else if e.kind.FunctionCall? {
      RereadCanonAll(p, rd, e.kind.args);
    } else if e.kind.ArrayAccess? {
      RereadCanon(p, rd, e.kind.index);
      RereadCanonAll(p, rd, e.kind.extra);
    } else if e.kind.StringLiteral? || e.kind.Constant? {
      RereadLength(p.printable, e.kind.value);
    }
  }

  lemma {:induction false} RereadCanonAll(p: TextIrEmitter, rd: TextIrReader, es: seq<IrExpr>)
    ensures CanonAll(rd, RereadAll(p.printable, es)) == CanonAll(rd, es) <==> AllPlainStrings(p.printable, es)
    decreases es, 0
  {
    if es != [] {
      RereadCanon(p, rd, es[0]);
      RereadCanonAll(p, rd, es[1..]);
      var tail := RereadAll(p.printable, es[1..]);
      assert ([Reread(p.printable, es[0])] + tail)[1..] == tail;
      var a, b := CanonAll(rd, tail), CanonAll(rd, es[1..]);
      assert ([Canon(rd, Reread(p.printable, es[0]))] + a)[1..] == a;
      assert ([Canon(rd, es[0])] + b)[1..] == b;
    }
  }

  /** The printed text reads back as the tree with types inferred afresh, exactly when no string
      character needs a \u escape and the size of the 64-bit type is not asked for. */
  lemma {:induction false} RoundTripExactly(p: TextIrEmitter, rd: TextIrReader, e: IrExpr)
    requires LexOk(e)
    ensures rd.ParseExpr(p.EmitExpr(e)) == Ok(Canon(rd, e)) <==> !HasGiantSize(e) && PlainStrings(p.printable, e)
  {
    hide TextIrReader.ParseExpr, TextIrEmitter.EmitExpr, Canon, Reread, HasGiantSize, PlainStrings;
    ParseEmitted(p, rd, e);
    RereadCanon(p, rd, e);
  }

  /** Every node carries the type the reader would infer for it. */
  predicate CanonicallyTyped(rd: TextIrReader, e: IrExpr)
    decreases e, 1
  {
    var k := e.kind;
    && e.valueType == InferredType(rd, k, e.valueType)
    && (HasOperand(k) ==> CanonicallyTyped(rd, k.operand))
    && (HasPair(k) ==> CanonicallyTyped(rd, k.left) && CanonicallyTyped(rd, k.right))
    && (k.FunctionCall? ==> AllCanonicallyTyped(rd, k.args))
    && (k.ArrayAccess? ==> CanonicallyTyped(rd, k.index) && AllCanonicallyTyped(rd, k.extra))
  }

  predicate AllCanonicallyTyped(rd: TextIrReader, es: seq<IrExpr>)
    decreases es, 0
  {
    es != [] ==> CanonicallyTyped(rd, es[0]) && AllCanonicallyTyped(rd, es[1..])
  }

  lemma {:induction false} CanonFixed(rd: TextIrReader, e: IrExpr)
    ensures Canon(rd, e) == e <==> CanonicallyTyped(rd, e)
    ensures CanonicallyTyped(rd, Canon(rd, e))
    decreases e, 1
  {
    if HasOperand(e.kind) {
      CanonFixed(rd, e.kind.operand);
    } else if HasPair(e.kind) {
      CanonFixed(rd, e.kind.left);
      CanonFixed(rd, e.kind.right);
    } else if e.kind.FunctionCall? {
      CanonFixedAll(rd, e.kind.args);
    } else if e.kind.ArrayAccess? {
      CanonFixed(rd, e.kind.index);
      CanonFixedAll(rd, e.kind.extra);
    }
  }

  lemma {:induction false} CanonFixedAll(rd: TextIrReader, es: seq<IrExpr>)
    ensures CanonAll(rd, es) == es <==> AllCanonicallyTyped(rd, es)
    ensures AllCanonicallyTyped(rd, CanonAll(rd, es))
    decreases es, 0
  {
    if es != [] {
      CanonFixed(rd, es[0]);
      CanonFixedAll(rd, es[1..]);
      var tail := CanonAll(rd, es[1..]);
      assert ([Canon(rd, es[0])] + tail)[1..] == tail;
      assert es == [es[0]] + es[1..];
    }
  }

  /** Printing does not see the inferred types, so the canonical tree prints the same text. */
  lemma {:induction false} PrintCanon(p: TextIrEmitter, rd: TextIrReader, e: IrExpr)
    ensures p.EmitExpr(Canon(rd, e)) == p.EmitExpr(e)
    decreases e, 1
  {
    hide TagName, SymbolText, DebugString;
    if HasOperand(e.kind) {
      PrintCanon(p, rd, e.kind.operand);
    } else if HasPair(e.kind) {
      PrintCanon(p, rd, e.kind.left);
      PrintCanon(p, rd, e.kind.right);
    } else if e.kind.FunctionCall? {
      var args := e.kind.args;
      if args != [] {
        PrintCanon(p, rd, args[0]);
        PrintCanonMore(p, rd, args[1..], ", ");
        var tail := CanonAll(rd, args[1..]);
        assert ([Canon(rd, args[0])] + tail)[1..] == tail;
      }
    } else if e.kind.ArrayAccess? {
      PrintCanon(p, rd, e.kind.index);
      PrintCanonMore(p, rd, e.kind.extra, ",");
    }
  }

  lemma {:induction false} PrintCanonMore(p: TextIrEmitter, rd: TextIrReader, es: seq<IrExpr>, sep: string)
    ensures p.EmitMore(CanonAll(rd, es), sep) == p.EmitMore(es, sep)
    decreases es, 0
  {
    if es != [] {
      PrintCanon(p, rd, es[0]);
      PrintCanonMore(p, rd, es[1..], sep);
      var tail := CanonAll(rd, es[1..]);
      assert ([Canon(rd, es[0])] + tail)[1..] == tail;
    }
  }

  /** Reading back is the identity on canonically typed trees, and printing what was read gives the same text. */
  lemma {:induction false} RoundTripIdentity(p: TextIrEmitter, rd: TextIrReader, e: IrExpr)
    requires LexOk(e) && !HasGiantSize(e) && PlainStrings(p.printable, e)
    ensures rd.ParseExpr(p.EmitExpr(e)).Ok? && p.EmitExpr(rd.ParseExpr(p.EmitExpr(e)).value) == p.EmitExpr(e)
    ensures CanonicallyTyped(rd, e) <==> rd.ParseExpr(p.EmitExpr(e)) == Ok(e)
  {
    hide TextIrReader.ParseExpr, TextIrEmitter.EmitExpr, Canon, CanonicallyTyped, HasGiantSize, PlainStrings;
    RoundTripExactly(p, rd, e);
    PrintCanon(p, rd, e);
    CanonFixed(rd, e);
  }
}
