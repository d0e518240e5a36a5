/** Which types survive printing and reading: the compiler's typing of expressions against the reader's. */
module TextTypes {
  import opened Ir
  import opened Results
  import opened TextIr
  import opened TextRoundTrip

  // ----- Arithmetic -----

  /** The compiler's type of an operation; no type is a rejected operation. A permissive compilation takes a
      string for a number. */
  function CompiledArith(permissive: bool, op: ArithmeticOp, l: ValueType, r: ValueType): Option<ValueType> {
    if l == String && r == String && op == Add then Some(String)
    else if l == String || r == String then (if permissive then Some(Integer) else None)
    else
      var giant, float := l == Giant || r == Giant, l == Float || r == Float;
      if giant && !float then Some(Giant)
      else if op.IntegerDiv? || op.Mod? || op.Shl? || op.Shr? || !float then Some(Integer)
      else Some(Float)
  }

  /** Two strings that are joined; or no strings, no 64-bit operand without a float beside it, and no float that
      is shifted; or a string taken for a number that is not added, and no float that is not divided away. */
  predicate ArithKept(op: ArithmeticOp, l: ValueType, r: ValueType) {
    if l == String && r == String && op == Add then true
    else if l == String || r == String then
      op != Add && (op == IntegerDiv || op == Mod || (l != Float && r != Float))
    else
      && !((l == Giant || r == Giant) && l != Float && r != Float)
      && !((op == Shl || op == Shr) && (l == Float || r == Float))
  }

  /** The reader infers the compiler's type exactly under this condition. */
  lemma ArithAgreesExactly(permissive: bool, op: ArithmeticOp, left: IrExpr, right: IrExpr)
    requires CompiledArith(permissive, op, left.valueType, right.valueType).Some?
    ensures CompiledArith(permissive, op, left.valueType, right.valueType) == Some(InferArithType(op, left, right))
       <==> ArithKept(op, left.valueType, right.valueType)
  {
  }

  /** `big + 1` with a 64-bit `big` reads back as a 32-bit number. */
  lemma GiantLost(big: IrExpr, small: IrExpr)
    requires big.valueType == Giant && small.valueType == Integer
    ensures CompiledArith(false, Add, Giant, Integer) == Some(Giant) && InferArithType(Add, big, small) == Integer
  {
  }

  /** `x SHL 1` with a floating `x` is an integer, and reads back as a float. */
  lemma ShiftReadsFloat(x: IrExpr, count: IrExpr)
    requires x.valueType == Float && count.valueType == Integer
    ensures CompiledArith(false, Shl, Float, Integer) == Some(Integer) && InferArithType(Shl, x, count) == Float
  {
  }

  /** `1.5 + 2` is a float on both sides. */
  lemma MixedSum(l: IrExpr, r: IrExpr)
    requires l.valueType == Float && r.valueType == Integer
    ensures CompiledArith(false, Add, Float, Integer) == Some(Float) && InferArithType(Add, l, r) == Float
  {
  }

  // ----- Whole trees -----

  /** NEG of a string is an error at run time, and a number to the compiler. */
  function CompiledUnary(op: UnaryOp, t: ValueType): ValueType {
    if op.Neg? && t == String then Integer else t
  }

  /** A tree of literals, names, array elements and operators, typed as the compiler types it. A decimal literal
      is a 64-bit number or not. */
  predicate Compiled(permissive: bool, e: IrExpr)
    decreases e
  {
    match e.kind
    case StringLiteral(_) => e.valueType == String
    case IntegerLiteral(_) => e.valueType == Integer || e.valueType == Giant
    case FloatLiteral(_) => e.valueType == Float
    case Constant(_, _) => true
    case SharedVariable(s) => e.valueType == s.valueType
    case Symbol(s) => e.valueType == s.valueType
    case ByRef(x) => Compiled(permissive, x) && e.valueType == x.valueType
    case Comparison(_, l, r) => Compiled(permissive, l) && Compiled(permissive, r) && e.valueType == Integer
    case Arithmetic(op, l, r) =>
      && Compiled(permissive, l) && Compiled(permissive, r)
      && CompiledArith(permissive, op, l.valueType, r.valueType) == Some(e.valueType)
    case Unary(op, x) => Compiled(permissive, x) && e.valueType == CompiledUnary(op, x.valueType)
    case Not(x) => Compiled(permissive, x) && e.valueType == Integer
    case Boolean(_, l, r) => Compiled(permissive, l) && Compiled(permissive, r) && e.valueType == Integer
    case Logical(_, l, r) => Compiled(permissive, l) && Compiled(permissive, r) && e.valueType == Integer
    case FunctionCall(_, _) => false
    case ArrayAccess(s, index, extra) =>
      Compiled(permissive, index) && AllCompiled(permissive, extra) && e.valueType == s.valueType
    case ArrayUBound(_) => e.valueType == Integer
    case SizeOf(_) => e.valueType == Integer
    case SizeOfType(_) => e.valueType == Integer
    case LabelAddress(_) => e.valueType == Integer
    case FuncAddr(_) => e.valueType == Integer
  }

  predicate AllCompiled(permissive: bool, es: seq<IrExpr>)
    decreases es
  {
    es == [] || (Compiled(permissive, es[0]) && AllCompiled(permissive, es[1..]))
  }

  /** No part is a 64-bit literal, an operation whose type changes, or NEG of a string. */
  predicate TypesKept(e: IrExpr)
    decreases e
  {
    match e.kind
    case IntegerLiteral(_) => e.valueType != Giant
    case ByRef(x) => TypesKept(x)
    case Comparison(_, l, r) => TypesKept(l) && TypesKept(r)
    case Arithmetic(op, l, r) => TypesKept(l) && TypesKept(r) && ArithKept(op, l.valueType, r.valueType)
    case Unary(op, x) => TypesKept(x) && !(op.Neg? && x.valueType == String)
    case Not(x) => TypesKept(x)
    case Boolean(_, l, r) => TypesKept(l) && TypesKept(r)
    case Logical(_, l, r) => TypesKept(l) && TypesKept(r)
    case ArrayAccess(_, index, extra) => TypesKept(index) && AllTypesKept(extra)
    case _ => true
  }

  predicate AllTypesKept(es: seq<IrExpr>)
    decreases es
  {
    es == [] || (TypesKept(es[0]) && AllTypesKept(es[1..]))
  }

  lemma {:induction false} CanonicalExactly(rd: TextIrReader, permissive: bool, e: IrExpr)
    requires Compiled(permissive, e)
    ensures CanonicallyTyped(rd, e) <==> TypesKept(e)
    decreases e
  {
    hide CompiledArith, ArithKept, InferArithType;
    var k := e.kind;
    if HasOperand(k) {
      CanonicalExactly(rd, permissive, k.operand);
    } else if HasPair(k) {
      CanonicalExactly(rd, permissive, k.left);
      CanonicalExactly(rd, permissive, k.right);
      if k.Arithmetic? {
        ArithAgreesExactly(permissive, k.arithOp, k.left, k.right);
      }
    } else if k.ArrayAccess? {
      CanonicalExactly(rd, permissive, k.index);
      AllCanonicalExactly(rd, permissive, k.extra);
    }
  }

  lemma {:induction false} AllCanonicalExactly(rd: TextIrReader, permissive: bool, es: seq<IrExpr>)
    requires AllCompiled(permissive, es)
    ensures AllCanonicallyTyped(rd, es) <==> AllTypesKept(es)
    decreases es
  {
    if es != [] {
      CanonicalExactly(rd, permissive, es[0]);
      AllCanonicalExactly(rd, permissive, es[1..]);
    }
  }

  /** A tree that the compiler has typed reads back as itself exactly when no part loses its type. */
  lemma ReadsBackTyped(p: TextIrEmitter, rd: TextIrReader, permissive: bool, e: IrExpr)
    requires LexOk(e) && !HasGiantSize(e) && PlainStrings(p.printable, e) && Compiled(permissive, e)
    ensures rd.ParseExpr(p.EmitExpr(e)) == Ok(e) <==> TypesKept(e)
  {
    hide TextIrReader.ParseExpr, TextIrEmitter.EmitExpr, CanonicallyTyped, TypesKept, Compiled;
    RoundTripIdentity(p, rd, e);
    CanonicalExactly(rd, permissive, e);
  }

  // ----- Calls -----

  /** What the compiler takes a called name for: a conversion, a routine of the library table, a function of the
      program with its result type, whose name has lost its `$`, or a name it does not know. */
  datatype Origin = Conversion | Library | Own(result: ValueType) | Unknown

  const WHOLE: set<string> :=
    {"XLONG", "SBYTE", "UBYTE", "SSHORT", "USHORT", "SLONG", "ULONG", "GOADDR", "SUBADDR"}

  predicate EndsInDollar(name: string) {
    name != [] && name[|name| - 1] == '$'
  }

  predicate ConvertsType(name: string, args: seq<IrExpr>) {
    args != [] && (name in WHOLE || name in {"ABS", "STR$", "GIANT", "DOUBLE", "SINGLE"})
  }

  /** How the compiler meets the name. */
  predicate Originates(table: map<string, ValueType>, from: Origin, name: string, args: seq<IrExpr>) {
    match from
    case Conversion => ConvertsType(name, args)
    case Library => !ConvertsType(name, args) && name in table
    case Own(_) => !EndsInDollar(name)
    case Unknown => !ConvertsType(name, args) && name !in table
  }

  function CompiledCall(table: map<string, ValueType>, from: Origin, name: string, args: seq<IrExpr>): ValueType
    requires Originates(table, from, name, args)
  {
    match from
    case Conversion =>
      if name == "ABS" then args[0].valueType
      else if name == "STR$" then String
      else if name == "GIANT" then Giant
      else if name in WHOLE then Integer
      else Float
    case Library => table[name]
    case Own(t) => t
    case Unknown => if EndsInDollar(name) then String else Integer
  }

  /** What is written in the reader's table, or a plain integer. */
  function Listed(table: map<string, ValueType>, name: string): ValueType {
    if name in table then table[name] else Integer
  }

  /** Conversions to a float need an entry in the library table, which the repository's table does not have.
      For the rest, the names that mean a 64-bit result or the type of the argument must be what they mean. */
  predicate CallKept(table: map<string, ValueType>, from: Origin, name: string, args: seq<IrExpr>)
    requires Originates(table, from, name, args)
  {
    var wide, like := name in {"GIANT", "GMAKE", "GIANTAT"}, name == "ABS" && args != [];
    match from
    case Conversion =>
      if name in {"DOUBLE", "SINGLE"} then Listed(table, name) == Float
      else name in WHOLE ==> Listed(table, name) == Integer
    case Library => if EndsInDollar(name) then table[name] == String else wide ==> table[name] == Giant
    case Own(t) => t == (if like then args[0].valueType else if wide then Giant else Listed(table, name))
    case Unknown => !wide
  }

  /** The reader gives a call the compiler's type exactly under this condition. */
  lemma CallAgreesExactly(rd: TextIrReader, from: Origin, name: string, args: seq<IrExpr>)
    requires Originates(rd.returnType, from, name, args)
    ensures rd.CallType(name, args) == CompiledCall(rd.returnType, from, name, args)
       <==> CallKept(rd.returnType, from, name, args)
  {
    if name in WHOLE || name in {"GIANT", "GMAKE", "GIANTAT", "ABS", "DOUBLE", "SINGLE"} {
      NoDollar(name);
    }
  }

  lemma NoDollar(name: string)
    requires name in WHOLE || name in {"GIANT", "GMAKE", "GIANTAT", "ABS", "DOUBLE", "SINGLE"}
    ensures !EndsInDollar(name)
  {
    assert "GIANT"[4] == 'T' && "GMAKE"[4] == 'E' && "GIANTAT"[6] == 'T' && "ABS"[2] == 'S';
    assert "DOUBLE"[5] == 'E' && "SINGLE"[5] == 'E' && "XLONG"[4] == 'G' && "SLONG"[4] == 'G' && "ULONG"[4] == 'G';
    assert "SBYTE"[4] == 'E' && "UBYTE"[4] == 'E' && "SSHORT"[5] == 'T' && "USHORT"[5] == 'T';
    assert "GOADDR"[5] == 'R' && "SUBADDR"[6] == 'R';
  }

  /** `DOUBLE(n)` is a float, and reads back as an integer when the library table does not list it. */
  lemma DoubleLost(rd: TextIrReader, n: IrExpr)
    requires "DOUBLE" !in rd.returnType
    ensures CompiledCall(rd.returnType, Conversion, "DOUBLE", [n]) == Float && rd.CallType("DOUBLE", [n]) == Integer
  {
    CallAgreesExactly(rd, Conversion, "DOUBLE", [n]);
    NoDollar("DOUBLE");
  }

  /** A function of the program with a string result has lost its `$`, and reads back as an integer. */
  lemma StringFunctionLost(rd: TextIrReader, name: string, args: seq<IrExpr>)
    requires !EndsInDollar(name) && name !in rd.returnType && name !in {"ABS", "GIANT", "GMAKE", "GIANTAT"}
    ensures CompiledCall(rd.returnType, Own(String), name, args) == String && rd.CallType(name, args) == Integer
  {
  }
}
