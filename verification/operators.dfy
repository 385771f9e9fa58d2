/**
  The operation catalogue: one binary element function per operator, each
  with four `apply` overloads chosen by the value category of the two
  arguments, a const lvalue (`T const&`) or a temporary (`T&&`).

  `Builtin` is the meaning of the C++ operator on `intmax_t`; `Apply` is what
  each overload of the catalogue actually computes. They agree everywhere
  except in two places the catalogue deviates: only the
  (const lvalue, const lvalue) overload of `Mod_Op` guards against a zero
  divisor, and the (const lvalue, temporary) overload of `LeftShift_Op`
  shifts right.
 */
module Operators {
  import opened Int64

  datatype OpKind = Add | Sub | Mul | Div | Mod | And | Or | Xor | ShiftLeft | ShiftRight

  /** Value category of an argument handed to `apply`. */
  datatype Category = ConstLvalue | Temporary

  /** The C++ operator `a op b` on `intmax_t` has a defined result: no signed
      overflow, no zero divisor, no `MIN / -1`, and a shift count in [0, 64). */
  predicate Representable(op: OpKind, a: i64, b: i64) {
    match op
    case Add => InRange(a + b)
    case Sub => InRange(a - b)
    case Mul => InRange(a * b)
    case Div => b != 0 && InRange(Quot(a, b))
    case Mod => b != 0 && InRange(Quot(a, b))
    case And => true
    case Or => true
    case Xor => true
    case ShiftLeft => 0 <= b < 64
    case ShiftRight => 0 <= b < 64
  }

  /** The value of the C++ operator `a op b` on `intmax_t`. */
  function Builtin(op: OpKind, a: i64, b: i64): i64
    requires Representable(op, a, b)
  {
    match op
    case Add => a + b
    case Sub => a - b
    case Mul => a * b
    case Div => Quot(a, b)
    case Mod => RemInRange(a, b); Rem(a, b)
    case And => BitAnd(a, b)
    case Or => BitOr(a, b)
    case Xor => BitXor(a, b)
    case ShiftLeft => Shl(a, b)
    case ShiftRight => Shr(a, b)
  }

  lemma BitAndCommutes(a: i64, b: i64)
    ensures BitAnd(a, b) == BitAnd(b, a)
  {
    BitwiseCommutes(AndBits, Unsigned(a), Unsigned(b), 64);
  }

  lemma BitOrCommutes(a: i64, b: i64)
    ensures BitOr(a, b) == BitOr(b, a)
  {
    BitwiseCommutes(OrBits, Unsigned(a), Unsigned(b), 64);
  }

  lemma BitXorCommutes(a: i64, b: i64)
    ensures BitXor(a, b) == BitXor(b, a)
  {
    BitwiseCommutes(XorBits, Unsigned(a), Unsigned(b), 64);
  }

  /** The selected overload has defined behaviour on these arguments. */
  predicate ApplyDefined(op: OpKind, lc: Category, rc: Category, a: i64, b: i64) {
    match op
    case Mod =>
      if lc == ConstLvalue && rc == ConstLvalue && b == 0 then true
      else Representable(Mod, a, b)
    case ShiftLeft =>
      if lc == ConstLvalue && rc == Temporary then Representable(ShiftRight, a, b)
      else Representable(ShiftLeft, a, b)
    case _ => Representable(op, a, b)
  }

  // One function per operation struct; the four arms of each match are the
  // four `apply` overloads, indexed by the categories of (a, b).

  /** `Add_Op::apply`: every overload yields `a + b`. */
  function AddApply(lc: Category, rc: Category, a: i64, b: i64): (r: i64)
    requires InRange(a + b)
    ensures r == a + b
  {
    match (lc, rc)
    case (ConstLvalue, ConstLvalue) => a + b
    case (Temporary, ConstLvalue) => a + b
    case (ConstLvalue, Temporary) => b + a
    case (Temporary, Temporary) => a + b
  }

  /** `Sub_Op::apply`: every overload yields the difference, the value that
      added back to `b` gives `a`. */
  function SubApply(lc: Category, rc: Category, a: i64, b: i64): (r: i64)
    requires InRange(a - b)
    ensures r + b == a
  {
    match (lc, rc)
    case (ConstLvalue, ConstLvalue) => a - b
    case (Temporary, ConstLvalue) => a - b
    case (ConstLvalue, Temporary) => a - b
    case (Temporary, Temporary) => a - b
  }

  /** `Mul_Op::apply`: every overload yields `a * b`. */
  function MulApply(lc: Category, rc: Category, a: i64, b: i64): (r: i64)
    requires InRange(a * b)
    ensures r == a * b
  {
    match (lc, rc)
    case (ConstLvalue, ConstLvalue) => a * b
    case (Temporary, ConstLvalue) => a * b
    case (ConstLvalue, Temporary) => b * a
    case (Temporary, Temporary) => a * b
  }

  /** `Div_Op::apply`: every overload yields the quotient truncated toward
      zero; none guards against a zero divisor. */
  function DivApply(lc: Category, rc: Category, a: i64, b: i64): (r: i64)
    requires b != 0 && InRange(Quot(a, b))
    ensures r == Quot(a, b)
    ensures Abs(r) * Abs(b) <= Abs(a) < (Abs(r) + 1) * Abs(b)
    ensures r == 0 || (r < 0 <==> (a < 0) != (b < 0))
  {
    QuotBracket(a, b);
    match (lc, rc)
    case (ConstLvalue, ConstLvalue) => Quot(a, b)
    case (Temporary, ConstLvalue) => Quot(a, b)
    case (ConstLvalue, Temporary) => Quot(a, b)
    case (Temporary, Temporary) => Quot(a, b)
  }

  /** `Mod_Op::apply`: only the (const lvalue, const lvalue) overload tests
      the divisor, yielding 0 for a zero divisor; the other three need a
      non-zero divisor. */
  function ModApply(lc: Category, rc: Category, a: i64, b: i64): (r: i64)
    requires (lc == ConstLvalue && rc == ConstLvalue) || b != 0
    requires b == 0 || InRange(Quot(a, b))
    ensures b == 0 ==> r == 0
    ensures b != 0 ==> r == Rem(a, b)
    ensures b != 0 ==> Quot(a, b) * b + r == a && Abs(r) < Abs(b)
    ensures b != 0 ==> r == 0 || (r < 0 <==> a < 0)
  {
    if b == 0 then 0
    else
      RemInRange(a, b);
      QuotRemIdentity(a, b);
      match (lc, rc)
      case (ConstLvalue, ConstLvalue) => Rem(a, b)
      case (Temporary, ConstLvalue) => Rem(a, b)
      case (ConstLvalue, Temporary) => Rem(a, b)
      case (Temporary, Temporary) => Rem(a, b)
  }

  /** `And_Op::apply`: every overload yields `a & b`; the (const lvalue,
      temporary) one computes `b & a`, equal by commutativity. */
  function AndApply(lc: Category, rc: Category, a: i64, b: i64): (r: i64)
    ensures r == BitAnd(a, b)
  {
    BitAndCommutes(a, b);
    match (lc, rc)
    case (ConstLvalue, ConstLvalue) => BitAnd(a, b)
    case (Temporary, ConstLvalue) => BitAnd(a, b)
    case (ConstLvalue, Temporary) => BitAnd(b, a)
    case (Temporary, Temporary) => BitAnd(a, b)
  }

  /** `Or_Op::apply`: every overload yields `a | b`. */
  function OrApply(lc: Category, rc: Category, a: i64, b: i64): (r: i64)
    ensures r == BitOr(a, b)
  {
    BitOrCommutes(a, b);
    match (lc, rc)
    case (ConstLvalue, ConstLvalue) => BitOr(a, b)
    case (Temporary, ConstLvalue) => BitOr(a, b)
    case (ConstLvalue, Temporary) => BitOr(b, a)
    case (Temporary, Temporary) => BitOr(a, b)
  }

  /** `Xor_Op::apply`: every overload yields `a ^ b`. */
  function XorApply(lc: Category, rc: Category, a: i64, b: i64): (r: i64)
    ensures r == BitXor(a, b)
  {
    BitXorCommutes(a, b);
    match (lc, rc)
    case (ConstLvalue, ConstLvalue) => BitXor(a, b)
    case (Temporary, ConstLvalue) => BitXor(a, b)
    case (ConstLvalue, Temporary) => BitXor(b, a)
    case (Temporary, Temporary) => BitXor(a, b)
  }

  /** `LeftShift_Op::apply`: three overloads yield `a << b`, the value
      congruent to `a * 2^b` modulo 2^64, but the (const lvalue, temporary)
      one yields `a >> b`, the floor of `a / 2^b`. */
  function ShiftLeftApply(lc: Category, rc: Category, a: i64, b: i64): (r: i64)
    requires 0 <= b < 64
    ensures lc == ConstLvalue && rc == Temporary ==> r == Shr(a, b)
    ensures lc == ConstLvalue && rc == Temporary ==> r * Pow2(b) <= a < (r + 1) * Pow2(b)
    ensures !(lc == ConstLvalue && rc == Temporary) ==> r == Shl(a, b)
    ensures !(lc == ConstLvalue && rc == Temporary) ==> (r - a * Pow2(b)) % MODULUS == 0
    ensures !(lc == ConstLvalue && rc == Temporary) && InRange(a * Pow2(b)) ==> r == a * Pow2(b)
  {
    match (lc, rc)
    case (ConstLvalue, ConstLvalue) => Shl(a, b)
    case (Temporary, ConstLvalue) => Shl(a, b)
    case (ConstLvalue, Temporary) => Shr(a, b)
    case (Temporary, Temporary) => Shl(a, b)
  }

  /** `RightShift_Op::apply`: every overload yields `a >> b`, the largest
      value whose product with 2^b does not exceed `a`. */
  function ShiftRightApply(lc: Category, rc: Category, a: i64, b: i64): (r: i64)
    requires 0 <= b < 64
    ensures r == Shr(a, b)
    ensures r * Pow2(b) <= a < (r + 1) * Pow2(b)
  {
    match (lc, rc)
    case (ConstLvalue, ConstLvalue) => Shr(a, b)
    case (Temporary, ConstLvalue) => Shr(a, b)
    case (ConstLvalue, Temporary) => Shr(a, b)
    case (Temporary, Temporary) => Shr(a, b)
  }

  /** What an overload is meant to compute: the built-in operator, except
      for the two deviations of the catalogue (guarded modulo by zero, and
      the left shift that shifts right). */
  function Expected(op: OpKind, lc: Category, rc: Category, a: i64, b: i64): i64
    requires ApplyDefined(op, lc, rc, a, b)
  {
    if op == Mod && b == 0 then 0
    else if op == ShiftLeft && lc == ConstLvalue && rc == Temporary then Builtin(ShiftRight, a, b)
    else Builtin(op, a, b)
  }

  /** Away from the two deviations, the intended value is the built-in
      operator. */
  lemma ExpectedIsBuiltin(op: OpKind, lc: Category, rc: Category, a: i64, b: i64)
    requires ApplyDefined(op, lc, rc, a, b)
    ensures op != Mod && op != ShiftLeft ==> Representable(op, a, b)
    ensures op != Mod && op != ShiftLeft ==> Expected(op, lc, rc, a, b) == Builtin(op, a, b)
  {
  }

  /** `BinaryOp::apply(a, b)` for the overload picked by the categories of
      `a` and `b`. */
  function Apply(op: OpKind, lc: Category, rc: Category, a: i64, b: i64): (r: i64)
    requires ApplyDefined(op, lc, rc, a, b)
    ensures r == Expected(op, lc, rc, a, b)
  {
    ExpectedIsBuiltin(op, lc, rc, a, b);
    match op
    case Add => AddApply(lc, rc, a, b)
    case Sub => SubApply(lc, rc, a, b)
    case Mul => MulApply(lc, rc, a, b)
    case Div => DivApply(lc, rc, a, b)
    case Mod => ModApply(lc, rc, a, b)
    case And => AndApply(lc, rc, a, b)
    case Or => OrApply(lc, rc, a, b)
    case Xor => XorApply(lc, rc, a, b)
    case ShiftLeft => ShiftLeftApply(lc, rc, a, b)
    case ShiftRight => ShiftRightApply(lc, rc, a, b)
  }

  /** Referential transparency: apart from the left-shift overload that
      shifts right, the four overloads of an operator compute the same value
      wherever the built-in operator is defined. */
  lemma OverloadsAgree(op: OpKind, lc: Category, rc: Category, a: i64, b: i64)
    requires !(op == ShiftLeft && lc == ConstLvalue && rc == Temporary)
    requires Representable(op, a, b)
    ensures ApplyDefined(op, lc, rc, a, b) && ApplyDefined(op, ConstLvalue, ConstLvalue, a, b)
    ensures Apply(op, lc, rc, a, b) == Apply(op, ConstLvalue, ConstLvalue, a, b) == Builtin(op, a, b)
  {
  }

  /** Only the (const lvalue, const lvalue) modulo tolerates a zero divisor;
      no division overload does. */
  lemma ZeroDivisorGuard(lc: Category, rc: Category, a: i64)
    ensures ApplyDefined(Mod, lc, rc, a, 0) <==> lc == ConstLvalue && rc == ConstLvalue
    ensures ApplyDefined(Mod, ConstLvalue, ConstLvalue, a, 0) && Apply(Mod, ConstLvalue, ConstLvalue, a, 0) == 0
    ensures !ApplyDefined(Div, lc, rc, a, 0)
  {
  }

  /** The (const lvalue, temporary) left shift disagrees with the other three:
      `1 << 1` gives 0 there and 2 elsewhere. */
  lemma ShiftLeftOverloadDiverges()
    ensures Apply(ShiftLeft, ConstLvalue, Temporary, 1, 1) == 0
    ensures Apply(ShiftLeft, ConstLvalue, ConstLvalue, 1, 1) == 2
    ensures Apply(ShiftLeft, Temporary, ConstLvalue, 1, 1) == 2
    ensures Apply(ShiftLeft, Temporary, Temporary, 1, 1) == 2
  {
    assert Pow2(1) == 2;
  }
}
