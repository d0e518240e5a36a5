/** The text form of expressions: the printer and the reader. */
module TextIr {
  import opened Ir
  import opened Results
  import opened Text
  import opened TextScan

  // ----- Tags: the word before the opening parenthesis -----

  datatype Tag =
    | TString | TInteger | TFloat | TConstant | TShared | TSymbol | TByRef | TCompare | TArith | TNot
    | TNeg | TPos | TAnd | TOr | TXor | TLand | TLor | TLxor | TArrayAccess | TArrayUBound
    | TFuncAddr | TSizeOf | TSizeOfType | TLabelAddr

  /** A nonempty word of lower-case letters and underscores. */
  predicate IsWord(w: string) {
    w != [] && forall i :: 0 <= i < |w| ==> 'a' <= w[i] <= 'z' || w[i] == '_'
  }

  function TagName(t: Tag): string {
    match t
    case TString => "string"
    case TInteger => "integer"
    case TFloat => "float"
    case TConstant => "constant"
    case TShared => "shared"
    case TSymbol => "symbol"
    case TByRef => "byref"
    case TCompare => "compare"
    case TArith => "arith"
    case TNot => "not"
    case TNeg => "neg"
    case TPos => "pos"
    case TAnd => "and"
    case TOr => "or"
    case TXor => "xor"
    case TLand => "land"
    case TLor => "lor"
    case TLxor => "lxor"
    case TArrayAccess => "array_access"
    case TArrayUBound => "array_ubound"
    case TFuncAddr => "funcaddr"
    case TSizeOf => "size_of"
    case TSizeOfType => "size_of_type"
    case TLabelAddr => "label_addr"
  }

  function ReadTag(s: string): Option<Tag> {
    if s == "string" then Some(TString)
    else if s == "integer" then Some(TInteger)
    else if s == "float" then Some(TFloat)
    else if s == "symbol" then Some(TSymbol)
    else if s == "byref" then Some(TByRef)
    else if s == "shared" then Some(TShared)
    else if s == "constant" then Some(TConstant)
    else if s == "compare" then Some(TCompare)
    else if s == "arith" then Some(TArith)
    else if s == "not" then Some(TNot)
    else if s == "neg" then Some(TNeg)
    else if s == "pos" then Some(TPos)
    else if s == "and" then Some(TAnd)
    else if s == "or" then Some(TOr)
    else if s == "xor" then Some(TXor)
    else if s == "land" then Some(TLand)
    else if s == "lor" then Some(TLor)
    else if s == "lxor" then Some(TLxor)
    else if s == "array_access" then Some(TArrayAccess)
    else if s == "array_ubound" then Some(TArrayUBound)
    else if s == "funcaddr" then Some(TFuncAddr)
    else if s == "size_of" then Some(TSizeOf)
    else if s == "size_of_type" then Some(TSizeOfType)
    else if s == "label_addr" then Some(TLabelAddr)
    else None
  }

  const CALL := "call "

  // ----- Printer -----

  function TypeName(t: ValueType): string {
    match t
    case Integer => "integer"
    case Giant => "giant"
    case Float => "float"
    case String => "string"
  }

  function CmpName(op: ComparisonOp): string {
    match op
    case Equal => "="
    case NotEqual => "<>"
    case Less => "<"
    case Greater => ">"
    case LessEqual => "<="
    case GreaterEqual => ">="
  }

  function ArithName(op: ArithmeticOp): string {
    match op
    case Add => "+"
    case Sub => "-"
    case Mul => "*"
    case Div => "/"
    case IntegerDiv => "\\"
    case Mod => "mod"
    case Shl => "shl"
    case Shr => "shr"
    case Pow => "**"
  }

  function SymbolText(symbol: IrSymbol): string {
    symbol.name + ":" + TypeName(symbol.valueType)
  }

  function TagOf(k: IrExprKind): Tag
    requires !k.FunctionCall?
  {
    match k
    case StringLiteral(_) => TString
    case IntegerLiteral(_) => TInteger
    case FloatLiteral(_) => TFloat
    case Constant(_, _) => TConstant
    case SharedVariable(_) => TShared
    case Symbol(_) => TSymbol
    case ByRef(_) => TByRef
    case Comparison(_, _, _) => TCompare
    case Arithmetic(_, _, _) => TArith
    case Unary(op, _) => if op == Neg then TNeg else TPos
    case Not(_) => TNot
    case Boolean(op, _, _) => (match op case BitAnd => TAnd case BitOr => TOr case BitXor => TXor)
    case Logical(op, _, _) => (match op case LogAnd => TLand case LogOr => TLor case LogXor => TLxor)
    case ArrayAccess(_, _, _) => TArrayAccess
    case ArrayUBound(_) => TArrayUBound
    case SizeOf(_) => TSizeOf
    case SizeOfType(_) => TSizeOfType
    case LabelAddress(_) => TLabelAddr
    case FuncAddr(_) => TFuncAddr
  }

  /** The text before the opening parenthesis. */
  function Head(k: IrExprKind): string {
    if k.FunctionCall? then CALL + k.name else TagName(TagOf(k))
  }

  /** The printer. `printable` is the library's table of characters that quoting leaves alone. */
  datatype TextIrEmitter = TextIrEmitter(printable: set<char>) {
    function EmitExpr(e: IrExpr): string
      decreases e, 2
    {
      Head(e.kind) + "(" + Body(e) + ")"
    }

    /** The text between the parentheses. */
    function Body(e: IrExpr): string
      decreases e, 1
    {
      match e.kind
      case StringLiteral(v) => DebugString(printable, v)
      case IntegerLiteral(d) => d
      case FloatLiteral(d) => d
      case Constant(name, value) =>
        "$$" + SymbolText(IrSymbol(name, e.valueType)) + " = " + ConstantText(e.valueType, value)
      case SharedVariable(s) => "##" + SymbolText(s)
      case Symbol(s) => SymbolText(s)
      case ByRef(x) => EmitExpr(x)
      case Comparison(op, l, r) => EmitExpr(l) + " " + CmpName(op) + " " + EmitExpr(r)
      case Arithmetic(op, l, r) => EmitExpr(l) + " " + ArithName(op) + " " + EmitExpr(r)
      case Unary(_, x) => EmitExpr(x)
      case Not(x) => EmitExpr(x)
      case Boolean(_, l, r) => EmitExpr(l) + " " + EmitExpr(r)
      case Logical(_, l, r) => EmitExpr(l) + " " + EmitExpr(r)
      case FunctionCall(_, args) => if args == [] then [] else EmitExpr(args[0]) + EmitMore(args[1..], ", ")
      case ArrayAccess(s, i, extra) => SymbolText(s) + "[" + (EmitExpr(i) + EmitMore(extra, ",")) + "]"
      case ArrayUBound(s) => SymbolText(s)
      case SizeOf(s) => SymbolText(s)
      case SizeOfType(t) => TypeName(t)
      case LabelAddress(name) => name
      case FuncAddr(name) => name
    }

    function ConstantText(t: ValueType, value: string): string {
      if t == String then TagName(TString) + "(" + DebugString(printable, value) + ")"
      else TagName(TInteger) + "(" + value + ")"
    }

    /** Further arguments, each after its separator. */
    function EmitMore(es: seq<IrExpr>, sep: string): string
      decreases es, 0
    {
      if es == [] then [] else sep + EmitExpr(es[0]) + EmitMore(es[1..], sep)
    }
  }

  // ----- Reader -----

  function ParseType(s: string): Result<ValueType> {
    if s == "integer" then Ok(Integer)
    else if s == "giant" then Ok(Giant)
    else if s == "float" then Ok(Float)
    else if s == "string" then Ok(String)
    else Err
  }

  function ParseSymbol(s: string): Result<IrSymbol> {
    match Find(s, ':')
    case None => Err
    case Some(colon) =>
      var t :- ParseType(Trim(s[colon + 1..]));
      Ok(IrSymbol(s[..colon], t))
  }

  function ParseCmpOp(s: string): (r: Result<(ComparisonOp, string)>)
    ensures r.Ok? ==> |r.value.1| < |s|
  {
    if "<>" <= s then Ok((NotEqual, s[2..]))
    else if "<=" <= s then Ok((LessEqual, s[2..]))
    else if ">=" <= s then Ok((GreaterEqual, s[2..]))
    else if "=" <= s then Ok((Equal, s[1..]))
    else if "<" <= s then Ok((Less, s[1..]))
    else if ">" <= s then Ok((Greater, s[1..]))
    else Err
  }

  function ParseArithOp(s: string): (r: Result<(ArithmeticOp, string)>)
    ensures r.Ok? ==> |r.value.1| < |s|
  {
    if "** " <= s then Ok((Pow, s[3..]))
    else if "+" <= s then Ok((Add, s[1..]))
    else if "-" <= s then Ok((Sub, s[1..]))
    else if "*" <= s then Ok((Mul, s[1..]))
    else if "/" <= s then Ok((Div, s[1..]))
    else if "\\ " <= s then Ok((IntegerDiv, s[2..]))
    else if "mod " <= s then Ok((Mod, s[4..]))
    else if "shl " <= s then Ok((Shl, s[4..]))
    else if "shr " <= s then Ok((Shr, s[4..]))
    else Err
  }

  function InferArithType(op: ArithmeticOp, left: IrExpr, right: IrExpr): ValueType {
    if op == Add && (left.valueType == String || right.valueType == String) then String
    else if op == IntegerDiv || op == Mod then Integer
    else if left.valueType == Float || right.valueType == Float then Float
    else Integer
  }

  /** The reader. `returnType` is the compiler's table of builtin result types. */
  datatype TextIrReader = TextIrReader(returnType: map<string, ValueType>) {
    function CallType(name: string, args: seq<IrExpr>): ValueType {
      if name != [] && name[|name| - 1] == '$' then String
      else if name == "ABS" && args != [] then args[0].valueType
      else if name == "GIANT" || name == "GMAKE" || name == "GIANTAT" then Giant
      else if name in returnType then returnType[name]
      else Integer
    }

    function ParseExpr(s: string): Result<IrExpr>
      decreases |s|, 1
    {
      var (e, rest) :- ParseSubExpr(s);
      if Trim(rest) != [] then Err else Ok(e)
    }

    /** One expression at the front of `text`, and what follows it. */
    function ParseSubExpr(text: string): (r: Result<(IrExpr, string)>)
      ensures r.Ok? ==> |r.value.1| < |text|
      decreases |text|, 0
    {
      var s := TrimStart(text);
      match Find(s, '(')
      case None => Err
      case Some(paren) =>
        var prefix := Trim(s[..paren]);
        var (content, rest) :- ExtractParens(s[paren + 1..]);
        if CALL <= prefix then
          var name := Trim(prefix[|CALL|..]);
          var args :- ParseArgs(content);
          Ok((IrExpr(FunctionCall(name, args), CallType(name, args)), rest))
        else
          match ReadTag(prefix)
          case None => Err
          case Some(tag) =>
            var e :- ParseContent(tag, content);
            Ok((e, rest))
    }

    function ParseArgs(text: string): Result<seq<IrExpr>>
      decreases |text|, 2
    {
      var s := Trim(text);
      if s == [] then Ok([]) else ParseArgList(s)
    }

    /** The comma loop of `parse_args`; text after the last argument is ignored. */
    function ParseArgList(remaining: string): Result<seq<IrExpr>>
      decreases |remaining|, 1
    {
      var (arg, rest) :- ParseSubExpr(remaining);
      var more := TrimStart(rest);
      if "," <= more then
        Prepend([arg], ParseArgList(TrimStart(more[1..])))
      else Ok([arg])
    }

    function ParsePair(content: string): (r: Result<(IrExpr, IrExpr)>)
      decreases |content|, 1
    {
      var (left, rest) :- ParseSubExpr(content);
      var (right, _) :- ParseSubExpr(TrimStart(rest));
      Ok((left, right))
    }

    function ParseConstant(content: string): Result<IrExpr>
      decreases |content|, 2
    {
      if !("$$" <= content) then Err else
      match Find(content[2..], ':')
      case None => Err
      case Some(colon) =>
        var name, after := content[2..][..colon], content[2..][colon + 1..];
        match Find(after, '=')
        case None => Err
        case Some(eq) =>
          var vt :- ParseType(Trim(after[..eq]));
          var (value, _) :- ParseSubExpr(Trim(after[eq + 1..]));
          match value.kind
          case IntegerLiteral(v) => Ok(IrExpr(Constant(name, v), vt))
          case StringLiteral(v) => Ok(IrExpr(Constant(name, v), vt))
          case _ => Err
    }

    function ParseArrayAccess(content: string): Result<IrExpr>
      decreases |content|, 2
    {
      match Find(content, '[')
      case None => Err
      case Some(bracket) =>
        var symbol :- ParseSymbol(Trim(content[..bracket]));
        var part := content[bracket + 1..];
        match RFind(part, ']')
        case None => Err
        case Some(close) =>
          var indices :- ParseArgs(part[..close]);
          if indices == [] then Err
          else Ok(IrExpr(ArrayAccess(symbol, indices[0], indices[1..]), symbol.valueType))
    }

    function ParseContent(tag: Tag, content: string): Result<IrExpr>
      decreases |content|, 3
    {
      match tag
      case TString =>
        var v :- ParseRustString(Trim(content));
        Ok(IrExpr(StringLiteral(v), String))
      case TInteger => Ok(IrExpr(IntegerLiteral(Trim(content)), Integer))
      case TFloat => Ok(IrExpr(FloatLiteral(Trim(content)), Float))
      case TSymbol =>
        var s :- ParseSymbol(Trim(content));
        Ok(IrExpr(Symbol(s), s.valueType))
      case TByRef =>
        var x :- ParseExpr(Trim(content));
        Ok(IrExpr(ByRef(x), x.valueType))
      case TShared =>
        var c := Trim(content);
        if !("##" <= c) then Err else
        var s :- ParseSymbol(c[2..]);
        Ok(IrExpr(SharedVariable(s), s.valueType))
      case TConstant => ParseConstant(Trim(content))
      case TCompare =>
        var (left, al) :- ParseSubExpr(content);
        var (op, ao) :- ParseCmpOp(TrimStart(al));
        var (right, _) :- ParseSubExpr(TrimStart(ao));
        Ok(IrExpr(Comparison(op, left, right), Integer))
      case TArith =>
        var (left, al) :- ParseSubExpr(content);
        var (op, ao) :- ParseArithOp(TrimStart(al));
        var (right, _) :- ParseSubExpr(TrimStart(ao));
        Ok(IrExpr(Arithmetic(op, left, right), InferArithType(op, left, right)))
      case TNot =>
        var (x, _) :- ParseSubExpr(content);
        Ok(IrExpr(Not(x), Integer))
      case TNeg =>
        var (x, _) :- ParseSubExpr(content);
        Ok(IrExpr(Unary(Neg, x), x.valueType))
      case TPos =>
        var (x, _) :- ParseSubExpr(content);
        Ok(IrExpr(Unary(Pos, x), x.valueType))
      case TAnd =>
        var (left, right) :- ParsePair(content);
        Ok(IrExpr(Boolean(BitAnd, left, right), Integer))
      case TOr =>
        var (left, right) :- ParsePair(content);
        Ok(IrExpr(Boolean(BitOr, left, right), Integer))
      case TXor =>
        var (left, right) :- ParsePair(content);
        Ok(IrExpr(Boolean(BitXor, left, right), Integer))
      case TLand =>
        var (left, right) :- ParsePair(content);
        Ok(IrExpr(Logical(LogAnd, left, right), Integer))
      case TLor =>
        var (left, right) :- ParsePair(content);
        Ok(IrExpr(Logical(LogOr, left, right), Integer))
      case TLxor =>
        var (left, right) :- ParsePair(content);
        Ok(IrExpr(Logical(LogXor, left, right), Integer))
      case TArrayAccess => ParseArrayAccess(content)
      case TArrayUBound =>
        var s :- ParseSymbol(Trim(content));
        Ok(IrExpr(ArrayUBound(s), Integer))
      case TFuncAddr => Ok(IrExpr(FuncAddr(Trim(content)), Integer))
      case TSizeOf =>
        var s :- ParseSymbol(Trim(content));
        Ok(IrExpr(SizeOf(s), Integer))
      case TSizeOfType =>
        var t := Trim(content);
        if t == "integer" then Ok(IrExpr(SizeOfType(Integer), Integer))
        else if t == "float" then Ok(IrExpr(SizeOfType(Float), Integer))
        else if t == "string" then Ok(IrExpr(SizeOfType(String), Integer))
        else Err
      case TLabelAddr => Ok(IrExpr(LabelAddress(Trim(content)), Integer))
    }

    /** The loop of `parse_args`. */
    method ParseArgsLoop(text: string) returns (r: Result<seq<IrExpr>>)
      ensures r == ParseArgs(text)
    {
      var remaining := Trim(text);
      if remaining == [] {
        return Ok([]);
      }
      var args := [];
      PrependNothing(ParseArgList(remaining));
      while true
        invariant ParseArgs(text) == Prepend(args, ParseArgList(remaining))
        decreases |remaining|
      {
        var sub := ParseSubExpr(remaining);
        if sub.Err? {
          return Err;
        }
        var (arg, rest) := sub.value;
        var more := TrimStart(rest);
        if "," <= more {
          PrependTwice(args, [arg], ParseArgList(TrimStart(more[1..])));
          remaining := TrimStart(more[1..]);
          args := args + [arg];
        } else {
          return Ok(args + [arg]);
        }
      }
    }
  }
}
