/** The typed intermediate representation of the compiler: expressions and statements. */
module Ir {
  datatype ValueType = Integer | Giant | Float | String

  datatype ComparisonOp = Equal | NotEqual | Less | Greater | LessEqual | GreaterEqual
  datatype ArithmeticOp = Add | Sub | Mul | Div | IntegerDiv | Mod | Shl | Shr | Pow
  datatype BooleanOp = BitAnd | BitOr | BitXor
  datatype LogicalOp = LogAnd | LogOr | LogXor
  datatype UnaryOp = Neg | Pos

  datatype IrSymbol = IrSymbol(name: string, valueType: ValueType)

  datatype IrExpr = IrExpr(kind: IrExprKind, valueType: ValueType)

  datatype IrExprKind =
    | StringLiteral(value: string)
    | IntegerLiteral(digits: string)
    | FloatLiteral(digits: string)
    | Constant(name: string, value: string)
    | SharedVariable(symbol: IrSymbol)
    | Symbol(symbol: IrSymbol)
    | ByRef(operand: IrExpr)
    | Comparison(cmpOp: ComparisonOp, left: IrExpr, right: IrExpr)
    | Arithmetic(arithOp: ArithmeticOp, left: IrExpr, right: IrExpr)
    | Unary(unaryOp: UnaryOp, operand: IrExpr)
    | Not(operand: IrExpr)
    | Boolean(bitOp: BooleanOp, left: IrExpr, right: IrExpr)
    | Logical(logOp: LogicalOp, left: IrExpr, right: IrExpr)
    | FunctionCall(name: string, args: seq<IrExpr>)
    | ArrayAccess(symbol: IrSymbol, index: IrExpr, extra: seq<IrExpr>)
    | ArrayUBound(symbol: IrSymbol)
    | SizeOf(symbol: IrSymbol)
    | SizeOfType(ofType: ValueType)
    | LabelAddress(name: string)
    | FuncAddr(name: string)

  datatype Option<+T> = None | Some(value: T)

  datatype PrintSep = Semicolon | Comma

  /** An ELSE or CASE ELSE branch, which may be absent. */
  datatype OptBody = NoBody | Body(items: seq<IrItem>)

  datatype IrCaseClause = IrCaseClause(conditions: seq<IrExpr>, body: seq<IrItem>)

  datatype IrParam = IrParam(name: string, valueType: ValueType, isArray: bool)

  /** Statements. A loop condition's flag says WHILE (true) or UNTIL (false). */
  datatype IrItem =
    | Version(text: string)
    | ProgramName(text: string)
    | Print(exprs: seq<IrExpr>, separators: seq<PrintSep>)
    | Dim(symbol: IrSymbol, size: Option<IrExpr>, extraDims: seq<IrExpr>, isArray: bool, redim: bool, shared: bool)
    | Assignment(target: IrSymbol, value: IrExpr)
    | ArrayAssignment(target: IrSymbol, index: IrExpr, extraIndices: seq<IrExpr>, value: IrExpr)
    | MidAssign(place: IrExpr, start: IrExpr, length: Option<IrExpr>, value: IrExpr)
    | BuiltinAssign(name: string, args: seq<IrExpr>, value: IrExpr)
    | ConstantDefinition(name: string, text: string, valueType: ValueType)
    | SharedAssignment(target: IrSymbol, value: IrExpr)
    | If(condition: IrExpr, thenBody: seq<IrItem>, elseBody: OptBody)
    | While(condition: IrExpr, body: seq<IrItem>)
    | DoLoop(preCondition: Option<(IrExpr, bool)>, postCondition: Option<(IrExpr, bool)>, body: seq<IrItem>)
    | For(loopVar: IrSymbol, start: IrExpr, end: IrExpr, step: Option<IrExpr>, body: seq<IrItem>)
    | Function(name: string, params: seq<IrParam>, returnType: ValueType, returnTypeName: Option<string>,
               body: seq<IrItem>)
    | Return(result: Option<IrExpr>)
    | Call(name: string, args: seq<IrExpr>)
    | ExitLoop
    | ExitSelect
    | Swap(left: IrSymbol, right: IrSymbol)
    | Nop
    | SelectCase(selector: IrExpr, cases: seq<IrCaseClause>, default: OptBody)
    | Compound(body: seq<IrItem>)
    | Read(symbols: seq<IrSymbol>)
    | Stop
    | Restore(dataLabel: Option<string>)
    | Gosub(labelName: string)
    | Label(labelName: string)
    | Goto(labelName: string)
    | GosubReturn
    | GosubExpr(address: IrExpr)
    | GotoExpr(address: IrExpr)
    | Attach(left: IrSymbol, leftIndices: seq<IrExpr>, leftIsRow: bool,
             right: IrSymbol, rightIndices: seq<IrExpr>, rightIsRow: bool)

  /** Expressions with one operand. */
  predicate HasOperand(k: IrExprKind) {
    k.ByRef? || k.Unary? || k.Not?
  }

  /** Expressions with a left and a right operand. */
  predicate HasPair(k: IrExprKind) {
    k.Comparison? || k.Arithmetic? || k.Boolean? || k.Logical?
  }
}
