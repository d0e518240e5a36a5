/** What the operators on integers compute, in terms of digits, signs and plain arithmetic, and how wide. */
module BitLaws {
  import opened Ir
  import opened IntEmit

  // ----- Digits and signs -----

  lemma {:induction false} HalfThenShift(x: int, p: nat)
    requires p > 0
    ensures x / 2 / p == x / (2 * p)
  {
    var h := x / 2;
    var q, r := h / p, h % p;
    assert h == q * p + r && x == 2 * h + x % 2;
    assert 2 * (q * p) == q * (2 * p);
    Quotient(x, 2 * p, q, 2 * r + x % 2);
  }

  lemma Quotient(x: int, d: nat, q: int, r: int)
    requires x == q * d + r && 0 <= r < d
    ensures x / d == q
  {
    var q', r' := x / d, x % d;
    assert x == q' * d + r';
    assert (q' - q) * d == r - r';
    if q' > q {
      OneMore(q' - q, d);
    } else if q' < q {
      OneMore(q - q', d);
    }
  }

  lemma BitwiseHalf(op: BooleanOp, a: int, b: int, w: nat)
    requires w > 1
    ensures Bitwise(op, a, b, w) / 2 == Bitwise(op, a / 2, b / 2, w - 1)
  {
  }

  /** Binary digit number `k`. */
  function Digit(x: int, k: nat): int {
    x / Pow2(k) % 2
  }

  lemma DigitHalf(x: int, k: nat)
    requires k > 0
    ensures Digit(x, k) == Digit(x / 2, k - 1)
  {
    HalfThenShift(x, Pow2(k - 1));
  }

  lemma LastDigit(op: BooleanOp, a: int, b: int, w: nat)
    requires w > 1
    ensures match op
      case BitAnd => Digit(Bitwise(op, a, b, w), 0) == 1 <==> Digit(a, 0) == 1 && Digit(b, 0) == 1
      case BitOr => Digit(Bitwise(op, a, b, w), 0) == 1 <==> Digit(a, 0) == 1 || Digit(b, 0) == 1
      case BitXor => Digit(Bitwise(op, a, b, w), 0) == 1 <==> Digit(a, 0) + Digit(b, 0) == 1
  {
    assert Pow2(0) == 1;
  }

  /** A digit of the result, the sign aside: both digits, at least one, or exactly one. */
  lemma {:induction false} DigitOf(op: BooleanOp, a: int, b: int, w: nat, k: nat)
    requires k + 1 < w
    ensures match op
      case BitAnd => Digit(Bitwise(op, a, b, w), k) == 1 <==> Digit(a, k) == 1 && Digit(b, k) == 1
      case BitOr => Digit(Bitwise(op, a, b, w), k) == 1 <==> Digit(a, k) == 1 || Digit(b, k) == 1
      case BitXor => Digit(Bitwise(op, a, b, w), k) == 1 <==> Digit(a, k) + Digit(b, k) == 1
    decreases k
  {
    hide Digit, Bitwise;
    if k == 0 {
      LastDigit(op, a, b, w);
    } else {
      DigitOf(op, a / 2, b / 2, w - 1, k - 1);
      BitwiseHalf(op, a, b, w);
      DigitHalf(a, k);
      DigitHalf(b, k);
      DigitHalf(Bitwise(op, a, b, w), k);
    }
  }

  /** The sign of the result by the same rule: both negative, at least one, or exactly one. */
  lemma {:induction false} SignOf(op: BooleanOp, a: int, b: int, w: nat)
    requires w > 0
    ensures match op
      case BitAnd => Bitwise(op, a, b, w) < 0 <==> a < 0 && b < 0
      case BitOr => Bitwise(op, a, b, w) < 0 <==> a < 0 || b < 0
      case BitXor => Bitwise(op, a, b, w) < 0 <==> !(a < 0 && b < 0) && !(a >= 0 && b >= 0)
    decreases w
  {
    if w > 1 {
      SignOf(op, a / 2, b / 2, w - 1);
    }
  }

  // ----- The operators as numbers -----

  /** AND and OR together are the sum, and XOR is what OR has more than AND. */
  lemma {:induction false} AndOrXor(a: int, b: int, w: nat)
    requires w > 0 && InBits(a, w) && InBits(b, w)
    ensures Bitwise(BitAnd, a, b, w) + Bitwise(BitOr, a, b, w) == a + b
    ensures Bitwise(BitXor, a, b, w) == Bitwise(BitOr, a, b, w) - Bitwise(BitAnd, a, b, w)
    decreases w
  {
    if w > 1 {
      HalfFits(a, w);
      HalfFits(b, w);
      AndOrXor(a / 2, b / 2, w - 1);
    }
  }

  /** All ones leave a number as it is under AND, zero does under OR, XOR with itself is zero, and XOR with all
      ones is what NOT computes. */
  lemma {:induction false} Neutral(a: int, w: nat)
    requires w > 0 && InBits(a, w)
    ensures Bitwise(BitAnd, a, -1, w) == a && Bitwise(BitOr, a, 0, w) == a && Bitwise(BitXor, a, a, w) == 0
    ensures Bitwise(BitXor, a, -1, w) == -a - 1
    decreases w
  {
    if w > 1 {
      HalfFits(a, w);
      Neutral(a / 2, w - 1);
    }
  }

  /** `5 OR 1` is 5, at any width that holds it. */
  lemma FiveOrOne(w: nat)
    requires w > 3
    ensures Bitwise(BitOr, 5, 1, w) == 5
  {
    assert Bitwise(BitOr, 2, 0, w - 1) == 2 * Bitwise(BitOr, 1, 0, w - 2);
    ZeroOrZero(w - 3);
  }

  lemma {:induction false} ZeroOrZero(w: nat)
    requires w > 0
    ensures Bitwise(BitOr, 0, 0, w) == 0
  {
    if w > 1 {
      ZeroOrZero(w - 1);
    }
  }

  // ----- Narrowing, division, comparison -----

  /** Narrowing to 32 bits takes the one 32-bit number that differs by a multiple of 2^32. */
  lemma WrapIsCongruent(x: int, r: int)
    ensures r == Wrap(x, 32) <==> -0x8000_0000 <= r < 0x8000_0000 && (x - r) % 0x1_0000_0000 == 0
  {
  }

  /** The remainder of a truncating division has the sign of the dividend and is smaller than the divisor. */
  lemma RemainderSmall(a: int, b: int)
    requires b != 0
    ensures 0 - Abs(b) < Rem(a, b) < Abs(b)
    ensures (a >= 0 ==> Rem(a, b) >= 0) && (a <= 0 ==> Rem(a, b) <= 0)
  {
  }

  /** The six comparisons of a number with itself and with larger and smaller ones. */
  lemma Comparisons(a: int, more: nat)
    requires more > 0
    ensures Holds(Equal, a, a) && Holds(LessEqual, a, a) && Holds(GreaterEqual, a, a)
    ensures !Holds(NotEqual, a, a) && !Holds(Less, a, a) && !Holds(Greater, a, a)
    ensures Holds(Less, a, a + more) && Holds(LessEqual, a, a + more) && Holds(NotEqual, a, a + more)
    ensures !Holds(Equal, a, a + more) && !Holds(Greater, a, a + more) && !Holds(GreaterEqual, a, a + more)
    ensures Holds(Greater, a + more, a) && Holds(GreaterEqual, a + more, a) && Holds(NotEqual, a + more, a)
    ensures !Holds(Equal, a + more, a) && !Holds(Less, a + more, a) && !Holds(LessEqual, a + more, a)
  {
  }

  // ----- Widths -----

  /** An operand that C takes as 64 bits wide: a variable, or the literal of the smallest number, which C can only
      write as an expression of the wider type. */
  predicate TakenWide(e: IrExpr, env: Env) {
    match e.kind
    case Symbol(_) => true
    case SharedVariable(_) => true
    case IntegerLiteral(d) => "-" <= d && env.literal(d) == -0x8000_0000
    case _ => false
  }

  /** An emitted operation is computed in 32 bits exactly when neither operand is such a one; for a shift the left
      operand decides alone. */
  lemma ComputedNarrow(e: IrExpr, env: Env)
    requires IntTree(e) && e.kind.Arithmetic?
    ensures var k := e.kind;
      Width(Emit(e).operand, env, false) == 32 <==>
        !TakenWide(k.left, env) && (k.arithOp.Shl? || k.arithOp.Shr? || !TakenWide(k.right, env))
  {
    OperandWidth(e.kind.left, env);
    OperandWidth(e.kind.right, env);
    hide TakenWide;
  }

  lemma OperandWidth(e: IrExpr, env: Env)
    requires IntTree(e)
    ensures Width(Emit(e), env, false) == if TakenWide(e, env) then 64 else 32
  {
    if e.kind.Comparison? {
      assert Emit(e).Minus? && Emit(e).operand.Test?;
    }
  }
}
