/** Integer expressions in the emitted C: 64-bit storage, results cast to 32 bits, C's own operand widths. */
module IntEmit {
  import opened Ir

  const WORD: nat := 32
  const MIN32: int := -0x8000_0000

  function Pow2(k: nat): (p: nat)
    ensures p > 0
  {
    if k == 0 then 1 else 2 * Pow2(k - 1)
  }

  /** The values of a signed type of `w` bits. */
  predicate Fits(x: int, w: nat)
    requires w == 32 || w == 64
  {
    if w == 32 then MIN32 <= x <= 0x7FFF_FFFF else -0x8000_0000_0000_0000 <= x <= 0x7FFF_FFFF_FFFF_FFFF
  }

  /** Two's complement narrowing. */
  function Wrap(x: int, w: nat): (r: int)
    requires w == 32 || w == 64
    ensures Fits(r, w) && (Fits(x, w) ==> r == x)
  {
    if w == 32 then (x + 0x8000_0000) % 0x1_0000_0000 - 0x8000_0000
    else (x + 0x8000_0000_0000_0000) % 0x1_0000_0000_0000_0000 - 0x8000_0000_0000_0000
  }

  function Abs(a: int): nat {
    if a < 0 then -a else a
  }

  /** Division and remainder that truncate toward zero. */
  function Quot(a: int, b: int): int
    requires b != 0
  {
    var q := Abs(a) / Abs(b);
    if (a < 0) == (b < 0) then q else -q
  }

  function Rem(a: int, b: int): int
    requires b != 0
  {
    var r := Abs(a) % Abs(b);
    if a < 0 then -r else r
  }

  predicate Bit(op: BooleanOp, x: bool, y: bool) {
    match op
    case BitAnd => x && y
    case BitOr => x || y
    case BitXor => x != y
  }

  /** A bitwise operation on the two's complement digits, the last one being the sign. */
  function Bitwise(op: BooleanOp, a: int, b: int, w: nat): int
    requires w > 0
    decreases w
  {
    if w == 1 then (if Bit(op, a < 0, b < 0) then -1 else 0)
    else 2 * Bitwise(op, a / 2, b / 2, w - 1) + (if Bit(op, a % 2 == 1, b % 2 == 1) then 1 else 0)
  }

  predicate Holds(op: ComparisonOp, a: int, b: int) {
    match op
    case Equal => a == b
    case NotEqual => a != b
    case Less => a < b
    case Greater => a > b
    case LessEqual => a <= b
    case GreaterEqual => a >= b
  }

  // ----- The source meaning: 32-bit wrapping arithmetic -----

  /** Values of the variables and of the literals. */
  datatype Env = Env(load: IrSymbol -> int, literal: string -> int)

  ghost predicate InRange(env: Env) {
    (forall s :: Fits(env.load(s), 32)) && (forall d :: Fits(env.literal(d), 32))
  }

  /** Integer trees: variables, decimal, hexadecimal and binary literals, and all operators but the power. */
  predicate IntTree(e: IrExpr)
    decreases e
  {
    var k := e.kind;
    && e.valueType == Integer
    && if k.Symbol? || k.SharedVariable? then true
       else if k.IntegerLiteral? then !("0o" <= k.digits || "0O" <= k.digits)
       else if k.Arithmetic? then k.arithOp != Pow && IntTree(k.left) && IntTree(k.right)
       else if k.Comparison? || k.Boolean? then IntTree(k.left) && IntTree(k.right)
       else (k.Not? || k.Unary?) && IntTree(k.operand)
  }

  /** The interpreter's operation on two integers; no value is a division by zero. */
  function Operate(op: ArithmeticOp, a: int, b: int): Option<int>
    requires op != Pow
  {
    match op
    case Add => Some(Wrap(a + b, 32))
    case Sub => Some(Wrap(a - b, 32))
    case Mul => Some(Wrap(a * b, 32))
    case Div => if b == 0 then None else Some(Wrap(Quot(a, b), 32))
    case IntegerDiv => if b == 0 then None else Some(Wrap(Quot(a, b), 32))
    case Mod => if b == 0 then None else Some(Rem(a, b))
    case Shl => Some(Wrap(a * Pow2(b % 32), 32))
    case Shr => Some(a / Pow2(b % 32))
  }

  function Interpret(e: IrExpr, env: Env): Option<int>
    requires IntTree(e)
    decreases e
  {
    var k := e.kind;
    if k.Symbol? || k.SharedVariable? then Some(env.load(k.symbol))
    else if k.IntegerLiteral? then Some(env.literal(k.digits))
    else if k.Not? || k.Unary? then
      var v := Interpret(k.operand, env);
      if v.None? then None
      else if k.Not? then Some(-v.value - 1)
      else if k.unaryOp == Neg then Some(Wrap(-v.value, 32)) else v
    else
      var l, r := Interpret(k.left, env), Interpret(k.right, env);
      if l.None? || r.None? then None
      else if k.Arithmetic? then Operate(k.arithOp, l.value, r.value)
      else if k.Boolean? then Some(Bitwise(k.bitOp, l.value, r.value, WORD))
      else Some(if Holds(k.cmpOp, l.value, r.value) then -1 else 0)
  }

  // ----- The emitted C -----

  datatype C =
    | Load(symbol: IrSymbol)
    | Literal(digits: string)
    | Cast32(operand: C)
    | Arith(arithOp: ArithmeticOp, left: C, right: C)
    | Bits(bitOp: BooleanOp, left: C, right: C)
    | Test(cmpOp: ComparisonOp, left: C, right: C)
    | Flip(operand: C)
    | Minus(operand: C)
    | Plus(operand: C)

  function Emit(e: IrExpr): C
    requires IntTree(e)
    decreases e
  {
    var k := e.kind;
    if k.Symbol? || k.SharedVariable? then Load(k.symbol)
    else if k.IntegerLiteral? then Literal(k.digits)
    else if k.Arithmetic? then Cast32(Arith(k.arithOp, Emit(k.left), Emit(k.right)))
    else if k.Boolean? then Cast32(Bits(k.bitOp, Emit(k.left), Emit(k.right)))
    else if k.Comparison? then Minus(Test(k.cmpOp, Emit(k.left), Emit(k.right)))
    else if k.Not? then Cast32(Flip(Emit(k.operand)))
    else Cast32(if k.unaryOp == Neg then Minus(Emit(k.operand)) else Plus(Emit(k.operand)))
  }

  /** The width C gives an expression: variables are 64 bits wide, casts and tests 32, and an operation is as
      wide as its wider operand, a shift as wide as its left one. With `wide`, as the emitter's comment has
      it, everything is 64 bits wide. */
  function Width(c: C, env: Env, wide: bool): (w: nat)
    ensures w == 32 || w == 64
  {
    if wide then 64
    else match c
      case Load(_) => 64
      case Literal(d) => if "-" <= d && env.literal(d) == MIN32 then 64 else 32
      case Cast32(_) => 32
      case Test(_, _, _) => 32
      case Arith(op, l, r) =>
        if op.Shl? || op.Shr? then Width(l, env, wide) else Wider(Width(l, env, wide), Width(r, env, wide))
      case Bits(_, l, r) => Wider(Width(l, env, wide), Width(r, env, wide))
      case Flip(x) => Width(x, env, wide)
      case Minus(x) => Width(x, env, wide)
      case Plus(x) => Width(x, env, wide)
  }

  function Wider(v: nat, w: nat): nat {
    if v > w then v else w
  }

  function InWidth(x: int, w: nat): Option<int>
    requires w == 32 || w == 64
  {
    if Fits(x, w) then Some(x) else None
  }

  /** One C operation at a width; no value is undefined behaviour. Shifts keep the bits that fit, as the GNU
      dialect has it. */
  function Apply(op: ArithmeticOp, a: int, b: int, w: nat): Option<int>
    requires op != Pow && (w == 32 || w == 64)
  {
    match op
    case Add => InWidth(a + b, w)
    case Sub => InWidth(a - b, w)
    case Mul => InWidth(a * b, w)
    case Div => if b == 0 then None else InWidth(Quot(a, b), w)
    case IntegerDiv => if b == 0 then None else InWidth(Quot(a, b), w)
    case Mod => if b == 0 || !Fits(Quot(a, b), w) then None else Some(Rem(a, b))
    case Shl => if 0 <= b < w then Some(Wrap(a * Pow2(b), w)) else None
    case Shr => if 0 <= b < w then Some(a / Pow2(b)) else None
  }

  predicate PowerFree(c: C) {
    match c
    case Load(_) => true
    case Literal(_) => true
    case Cast32(x) => PowerFree(x)
    case Arith(op, l, r) => op != Pow && PowerFree(l) && PowerFree(r)
    case Bits(_, l, r) => PowerFree(l) && PowerFree(r)
    case Test(_, l, r) => PowerFree(l) && PowerFree(r)
    case Flip(x) => PowerFree(x)
    case Minus(x) => PowerFree(x)
    case Plus(x) => PowerFree(x)
  }

  function Run(c: C, env: Env, wide: bool): Option<int>
    requires PowerFree(c)
  {
    if c.Load? then Some(env.load(c.symbol))
    else if c.Literal? then Some(env.literal(c.digits))
    else if c.Arith? || c.Bits? || c.Test? then
      var l, r := Run(c.left, env, wide), Run(c.right, env, wide);
      if l.None? || r.None? then None
      else if c.Arith? then Apply(c.arithOp, l.value, r.value, Width(c, env, wide))
      else if c.Bits? then Some(Bitwise(c.bitOp, l.value, r.value, Width(c, env, wide)))
      else Some(if Holds(c.cmpOp, l.value, r.value) then 1 else 0)
    else
      var v := Run(c.operand, env, wide);
      if v.None? then None
      else if c.Cast32? then Some(Wrap(v.value, 32))
      else if c.Flip? then Some(-v.value - 1)
      else if c.Minus? then InWidth(-v.value, Width(c, env, wide))
      else v
  }

  // ----- One operation -----

  /** Shift counts from 0 to 31, where both sides agree on the count. */
  predicate CountsFit(e: IrExpr, env: Env)
    requires IntTree(e)
    decreases e
  {
    var k := e.kind;
    if k.Not? || k.Unary? then CountsFit(k.operand, env)
    else if k.Arithmetic? || k.Boolean? || k.Comparison? then
      && CountsFit(k.left, env) && CountsFit(k.right, env)
      && (k.Arithmetic? && (k.arithOp.Shl? || k.arithOp.Shr?) ==>
            Interpret(k.right, env).Some? && 0 <= Interpret(k.right, env).value < 32)
    else true
  }

  /** The exact result is a 32-bit number, or shifts never overflow. */
  predicate NoOverflow(op: ArithmeticOp, a: int, b: int)
    requires op != Pow
  {
    match op
    case Add => Fits(a + b, 32)
    case Sub => Fits(a - b, 32)
    case Mul => Fits(a * b, 32)
    case Shl => true
    case Shr => true
    case Div => b != 0 ==> Fits(Quot(a, b), 32)
    case IntegerDiv => b != 0 ==> Fits(Quot(a, b), 32)
    case Mod => b != 0 ==> Fits(Quot(a, b), 32)
  }

  lemma {:induction false} MulBound(a: int, n: nat, m: nat)
    requires Abs(a) <= m
    ensures Abs(a * n) <= m * n
  {
    if n > 0 {
      MulBound(a, n - 1, m);
      assert a * n == a * (n - 1) + a && m * n == m * (n - 1) + m;
    }
  }

  lemma MulFits(a: int, b: int)
    requires Fits(a, 32) && Fits(b, 32)
    ensures Fits(a * b, 64)
  {
    MulBound(a, Abs(b), 0x8000_0000);
    assert b < 0 ==> a * b == -(a * Abs(b));
  }

  lemma DivBound(n: nat, m: nat)
    requires m > 0
    ensures 0 <= n / m <= n && 0 <= n % m <= n
  {
    var q := n / m;
    assert n == q * m + n % m;
    if q >= 0 {
      MulBound(1, q, m);
      assert q * m >= q by {
        Times(q, m);
      }
    }
  }

  lemma {:induction false} Times(q: nat, m: nat)
    requires m > 0
    ensures q * m >= q
  {
    if q > 0 {
      Times(q - 1, m);
      assert q * m == (q - 1) * m + m;
    }
  }

  /** Truncating division: quotient times divisor plus remainder, neither larger than the dividend. */
  lemma {:induction false} QuotRem(a: int, b: int)
    requires b != 0
    ensures a == Quot(a, b) * b + Rem(a, b) && Abs(Quot(a, b)) <= Abs(a) && Abs(Rem(a, b)) <= Abs(a)
  {
    var n, m := Abs(a), Abs(b);
    DivBound(n, m);
    var q := n / m;
    assert n == q * m + n % m;
    MulSigns(q, m);
  }

  lemma MulSigns(q: int, m: int)
    ensures -q * m == -(q * m) && q * -m == -(q * m) && -q * -m == q * m
  {
  }

  /** A signed number of `w` bits. */
  predicate InBits(x: int, w: nat)
    requires w > 0
  {
    0 - Pow2(w - 1) <= x < Pow2(w - 1)
  }

  lemma {:induction false} HalfFits(x: int, w: nat)
    requires 1 < w && InBits(x, w)
    ensures InBits(x / 2, w - 1)
  {
    assert Pow2(w - 1) == 2 * Pow2(w - 2);
  }

  /** More digits than the operands need do not change a bitwise operation, and its result needs no more. */
  lemma {:induction false} BitwiseWider(op: BooleanOp, a: int, b: int, w: nat, k: nat)
    requires w > 0 && InBits(a, w) && InBits(b, w)
    ensures Bitwise(op, a, b, w + k) == Bitwise(op, a, b, w)
    ensures InBits(Bitwise(op, a, b, w), w)
    decreases w + k
  {
    if w > 1 {
      HalfFits(a, w);
      HalfFits(b, w);
      BitwiseWider(op, a / 2, b / 2, w - 1, k);
    } else if k > 0 {
      BitwiseWider(op, a / 2, b / 2, 1, k - 1);
    }
  }

  lemma FourMore(k: nat)
    ensures Pow2(k + 4) == 16 * Pow2(k)
  {
    assert Pow2(k + 2) == 4 * Pow2(k);
  }

  lemma SixteenMore(k: nat)
    ensures Pow2(k + 16) == 0x1_0000 * Pow2(k)
  {
    hide Pow2;
    FourMore(k);
    FourMore(k + 4);
    FourMore(k + 8);
    FourMore(k + 12);
  }

  lemma TwoTo31(k: nat)
    requires k == 31
    ensures Pow2(k) == 0x8000_0000
  {
    hide Pow2;
    SixteenMore(k - 16);
    FourMore(k - 20);
    FourMore(k - 24);
    FourMore(k - 28);
    TwoTo3(k - 28);
  }

  lemma TwoTo3(k: nat)
    requires k == 3
    ensures Pow2(k) == 8
  {
    assert Pow2(k - 1) == 2 * Pow2(k - 2);
  }

  lemma BitwiseFits(op: BooleanOp, a: int, b: int, v: nat, w: nat)
    requires Fits(a, 32) && Fits(b, 32) && v == 32 && (w == 32 || w == 64)
    ensures Bitwise(op, a, b, w) == Bitwise(op, a, b, v) && Fits(Bitwise(op, a, b, v), 32)
  {
    TwoTo31(v - 1);
    BitwiseWider(op, a, b, v, w - v);
  }

  lemma ModShift(y: int, m: int, d: nat)
    requires d > 0
    ensures (y + m * d) % d == y % d
    decreases Abs(m)
  {
    if m > 0 {
      ModShift(y + d, m - 1, d);
      assert y + m * d == (y + d) + (m - 1) * d;
      ModOne(y, d);
    } else if m < 0 {
      ModShift(y - d, m + 1, d);
      assert y + m * d == (y - d) + (m + 1) * d;
      ModOne(y - d, d);
    }
  }

  lemma ModOne(y: int, d: nat)
    requires d > 0
    ensures (y + d) % d == y % d
  {
    var q, r := y / d, y % d;
    assert y + d == (q + 1) * d + r;
    var q', r' := (y + d) / d, (y + d) % d;
    assert y + d == q' * d + r';
    assert (q' - (q + 1)) * d == r - r';
    if q' > q + 1 {
      OneMore(q' - (q + 1), d);
    } else if q' < q + 1 {
      OneMore(q + 1 - q', d);
    }
  }

  lemma {:induction false} OneMore(k: nat, d: nat)
    requires k > 0
    ensures k * d >= d
  {
    if k > 1 {
      OneMore(k - 1, d);
      assert k * d == (k - 1) * d + d;
    }
  }

  /** Narrowing in two steps is narrowing at once. */
  lemma WrapTwice(x: int)
    ensures Wrap(Wrap(x, 64), 32) == Wrap(x, 32)
  {
    var y := x + 0x8000_0000_0000_0000;
    var q := y / 0x1_0000_0000_0000_0000;
    assert Wrap(x, 64) == x - q * 0x1_0000_0000_0000_0000;
    ModShift(x + 0x8000_0000, -q * 0x1_0000_0000, 0x1_0000_0000);
  }

  lemma ShrFits(a: int, p: nat)
    requires p > 0
    ensures Abs(a / p) <= Abs(a)
  {
    var q := a / p;
    assert a == q * p + a % p;
    if a >= 0 {
      DivBound(a, p);
    } else {
      Times(-a, p);
      Times(Abs(q), p);
      assert -a * p == -(a * p) && (q + 1) * p == q * p + p;
      if q < a {
        NotAbove(q + 1, a, p);
      }
    }
  }

  lemma {:induction false} NotAbove(q: int, a: int, p: nat)
    requires q <= a
    ensures q * p <= a * p
    decreases a - q
  {
    if q < a {
      NotAbove(q, a - 1, p);
      assert a * p == (a - 1) * p + p;
    }
  }

  predicate CountFits(op: ArithmeticOp, b: int) {
    op.Shl? || op.Shr? ==> 0 <= b < 32
  }

  lemma QuotFits(a: int, b: int)
    requires b != 0 && Fits(a, 32)
    ensures Fits(Quot(a, b), 64) && Fits(Rem(a, b), 32)
  {
    QuotRem(a, b);
  }

  /** In 64 bits an operation on 32-bit numbers cannot overflow, and its narrowed result is the wrapped one. */
  lemma OperateWide(op: ArithmeticOp, a: int, b: int)
    requires op != Pow && Fits(a, 32) && Fits(b, 32) && CountFits(op, b)
    ensures var i, c := Operate(op, a, b), Apply(op, a, b, 64);
      && (i.None? <==> c.None?)
      && (i.Some? ==> Wrap(c.value, 32) == i.value && Fits(i.value, 32))
  {
    hide Pow2, Quot, Rem, Wrap;
    if op.Mul? {
      MulFits(a, b);
    } else if op.Shl? {
      WrapTwice(a * Pow2(b));
    } else if op.Shr? {
      ShrFits(a, Pow2(b));
    } else if b != 0 && !op.Add? && !op.Sub? {
      QuotFits(a, b);
    }
  }

  /** In 32 bits it is undefined exactly when the exact result does not fit, and right otherwise. */
  lemma OperateNarrow(op: ArithmeticOp, a: int, b: int)
    requires op != Pow && Fits(a, 32) && Fits(b, 32) && CountFits(op, b)
    ensures var i, c := Operate(op, a, b), Apply(op, a, b, 32);
      && (c.Some? <==> i.Some? && NoOverflow(op, a, b))
      && (c.Some? ==> Wrap(c.value, 32) == i.value)
  {
    hide Pow2, Quot, Rem, Wrap;
    if op.Shr? {
      ShrFits(a, Pow2(b));
    } else if op.Mod? && b != 0 {
      QuotFits(a, b);
    }
  }

  // ----- Whole trees -----

  lemma {:induction false} EmitPowerFree(e: IrExpr)
    requires IntTree(e)
    ensures PowerFree(Emit(e))
    decreases e
  {
    var k := e.kind;
    if k.Arithmetic? || k.Boolean? || k.Comparison? {
      EmitPowerFree(k.left);
      EmitPowerFree(k.right);
    } else if k.Not? || k.Unary? {
      EmitPowerFree(k.operand);
    }
  }

  /** Every operation that C performs in 32 bits has a result that fits. */
  predicate Safe(e: IrExpr, env: Env)
    requires IntTree(e) && Interpret(e, env).Some?
    decreases e
  {
    var k := e.kind;
    if k.Not? || k.Unary? then
      Safe(k.operand, env)
      && (k.Unary? && k.unaryOp == Neg && Width(Emit(k.operand), env, false) == 32 ==>
          Interpret(k.operand, env) != Some(MIN32))
    else if k.Arithmetic? then
      Safe(k.left, env) && Safe(k.right, env)
      && (Width(Emit(e).operand, env, false) == 32 ==>
            NoOverflow(k.arithOp, Interpret(k.left, env).value, Interpret(k.right, env).value))
    else if k.Boolean? || k.Comparison? then Safe(k.left, env) && Safe(k.right, env)
    else true
  }

  /** The emitted expression, evaluated in 64 bits throughout, is the interpreter's 32-bit wrapping value,
      with the same division errors; every value is a 32-bit number. */
  lemma {:induction false} WideIsWrapping(e: IrExpr, env: Env)
    requires IntTree(e) && InRange(env) && CountsFit(e, env)
    ensures PowerFree(Emit(e)) && Run(Emit(e), env, true) == Interpret(e, env)
    ensures Interpret(e, env).Some? ==> Fits(Interpret(e, env).value, 32)
    decreases e
  {
    hide Operate, Apply, Bitwise, Wrap, InRange;
    EmitPowerFree(e);
    var k := e.kind;
    if k.Arithmetic? || k.Boolean? || k.Comparison? {
      WideIsWrapping(k.left, env);
      WideIsWrapping(k.right, env);
      var l, r := Interpret(k.left, env), Interpret(k.right, env);
      if l.Some? && r.Some? {
        if k.Arithmetic? {
          OperateWide(k.arithOp, l.value, r.value);
        } else if k.Boolean? {
          BitwiseFits(k.bitOp, l.value, r.value, WORD, 64);
        }
      }
    } else if k.Not? || k.Unary? {
      WideIsWrapping(k.operand, env);
    } else {
      LeafFits(e, env);
    }
  }

  lemma LeafFits(e: IrExpr, env: Env)
    requires InRange(env)
    ensures (e.kind.Symbol? || e.kind.SharedVariable?) ==> Fits(env.load(e.kind.symbol), 32)
    ensures e.kind.IntegerLiteral? ==> Fits(env.literal(e.kind.digits), 32)
  {
  }

  /** With C's own widths the emitted expression has the interpreter's value exactly when no operation that
      C performs in 32 bits overflows; otherwise its behaviour is undefined. */
  lemma {:induction false} NarrowExactly(e: IrExpr, env: Env)
    requires IntTree(e) && InRange(env) && CountsFit(e, env)
    ensures PowerFree(Emit(e))
    ensures Interpret(e, env).Some? && Safe(e, env) ==> Run(Emit(e), env, false) == Interpret(e, env)
    ensures Interpret(e, env).None? || !Safe(e, env) ==> Run(Emit(e), env, false).None?
    decreases e
  {
    hide Operate, Apply, Bitwise, Wrap, InRange, NoOverflow;
    EmitPowerFree(e);
    WideIsWrapping(e, env);
    var k := e.kind;
    if k.Arithmetic? || k.Boolean? || k.Comparison? {
      NarrowExactly(k.left, env);
      NarrowExactly(k.right, env);
      WideIsWrapping(k.left, env);
      WideIsWrapping(k.right, env);
      var l, r := Interpret(k.left, env), Interpret(k.right, env);
      if l.Some? && r.Some? {
        if k.Arithmetic? {
          OperateNarrow(k.arithOp, l.value, r.value);
          OperateWide(k.arithOp, l.value, r.value);
        } else if k.Boolean? {
          BitwiseFits(k.bitOp, l.value, r.value, WORD, Width(Emit(e).operand, env, false));
        }
      }
    } else if k.Not? || k.Unary? {
      NarrowExactly(k.operand, env);
      WideIsWrapping(k.operand, env);
    }
  }

  /** One operand of every sum, difference, product, quotient and remainder is a variable, and so is the
      operand of every minus sign. */
  predicate Anchored(e: IrExpr)
    requires IntTree(e)
    decreases e
  {
    var k := e.kind;
    if k.Not? then Anchored(k.operand)
    else if k.Unary? then Anchored(k.operand) && (k.unaryOp == Neg ==> IsVariable(k.operand))
    else if k.Arithmetic? then
      Anchored(k.left) && Anchored(k.right)
      && (k.arithOp.Shl? || k.arithOp.Shr? || IsVariable(k.left) || IsVariable(k.right))
    else if k.Boolean? || k.Comparison? then Anchored(k.left) && Anchored(k.right)
    else true
  }

  predicate IsVariable(e: IrExpr) {
    e.kind.Symbol? || e.kind.SharedVariable?
  }

  lemma VariableIsWide(e: IrExpr, env: Env)
    requires IntTree(e) && IsVariable(e)
    ensures Width(Emit(e), env, false) == 64
  {
  }

  /** Such trees are safe whatever the values. */
  lemma {:induction false} AnchoredIsSafe(e: IrExpr, env: Env)
    requires IntTree(e) && Anchored(e) && Interpret(e, env).Some?
    ensures Safe(e, env)
    decreases e
  {
    hide Operate, Bitwise;
    var k := e.kind;
    if k.Arithmetic? || k.Boolean? || k.Comparison? {
      AnchoredIsSafe(k.left, env);
      AnchoredIsSafe(k.right, env);
      if k.Arithmetic? && IsVariable(k.left) {
        VariableIsWide(k.left, env);
      } else if k.Arithmetic? && IsVariable(k.right) {
        VariableIsWide(k.right, env);
      }
    } else if k.Not? || k.Unary? {
      AnchoredIsSafe(k.operand, env);
      if k.Unary? && k.unaryOp == Neg {
        VariableIsWide(k.operand, env);
      }
    }
  }

  function PlusOne(e: IrExpr): IrExpr {
    IrExpr(Arithmetic(Add, e, IrExpr(IntegerLiteral("1"), Integer)), Integer)
  }

  lemma PlusOneTree(e: IrExpr, env: Env)
    requires IntTree(e) && Interpret(e, env).Some? && env.literal("1") == 1
    ensures IntTree(PlusOne(e)) && Interpret(PlusOne(e), env) == Some(Wrap(Interpret(e, env).value + 1, 32))
    ensures CountsFit(e, env) ==> CountsFit(PlusOne(e), env)
    ensures Width(Emit(PlusOne(e)), env, false) == 32
    ensures Width(Emit(e), env, false) == 32 && Interpret(e, env).value == 0x7FFF_FFFF ==> !Safe(PlusOne(e), env)
  {
    assert |"1"| == 1 && "1"[0] == '1';
    var one := IrExpr(IntegerLiteral("1"), Integer);
    assert IntTree(one) && Interpret(one, env) == Some(1) && CountsFit(one, env);
    assert Width(Literal("1"), env, false) == 32;
    assert Emit(PlusOne(e)) == Cast32(Arith(Add, Emit(e), Literal("1")));
  }

  /** Adding one twice to a variable is not safe at the largest number: the second sum has only narrow
      operands. */
  lemma PlusOnePlusOne(x: IrSymbol, env: Env)
    requires InRange(env) && env.load(x) == 0x7FFF_FFFE && env.literal("1") == 1
    ensures var e := PlusOne(PlusOne(IrExpr(Symbol(x), Integer)));
      && IntTree(e) && PowerFree(Emit(e))
      && Interpret(e, env) == Some(MIN32) && Run(Emit(e), env, true) == Some(MIN32) && Run(Emit(e), env, false) == None
  {
    hide Run, Emit, Wrap, Safe, CountsFit, PlusOne;
    var v := IrExpr(Symbol(x), Integer);
    VariableFits(v, env);
    PlusOneTree(v, env);
    PlusOneTree(PlusOne(v), env);
    var e := PlusOne(PlusOne(v));
    EmitPowerFree(e);
    WideIsWrapping(e, env);
    NarrowExactly(e, env);
    WrapTop();
  }

  lemma VariableFits(e: IrExpr, env: Env)
    requires IntTree(e) && IsVariable(e)
    ensures CountsFit(e, env)
  {
  }

  lemma WrapTop()
    ensures Wrap(0x8000_0000, 32) == MIN32
  {
  }
}
