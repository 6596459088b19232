/** The source language of the bytecode compiler: the trees its parser builds and the
    32-bit integer arithmetic both the language and the virtual machine use. */
module Syntax {

  datatype BinOp = Add | Sub | Mul | Div | Gt | Lt | EqEq

  datatype Expr =
    | Num(value: int)
    | Ident(name: string)
    | Bin(op: BinOp, left: Expr, right: Expr)

  datatype Stmt =
    | Assign(target: string, rhs: Expr)
    | Print(arg: Expr)
    | If(cond: Expr, body: seq<Stmt>)
    | While(cond: Expr, body: seq<Stmt>)

  const INT_MIN := -0x8000_0000
  const INT_MAX := 0x7fff_ffff

  /** Why a computation stops early.  C leaves signed overflow undefined; it is kept apart
      here as its own outcome rather than ruled out. */
  datatype Trap = DivByZero | IntOverflow

  datatype Value = Ok(v: int) | Fault(trap: Trap)

  function Checked(x: int): Value {
    if INT_MIN <= x <= INT_MAX then Ok(x) else Fault(IntOverflow)
  }

  /** C division: the quotient is truncated toward zero. */
  function TruncDiv(a: int, b: int): (q: int)
    requires b != 0
  {
    if a >= 0 then
      if b > 0 then a / b else -(a / -b)
    else
      if b > 0 then -(-a / b) else -a / -b
  }

  lemma EuclidUnique(a: int, b: int, q: int)
    requires a >= 0 && b > 0
    ensures q == a / b <==> 0 <= a - q * b < b
  {
    var k := a / b;
    assert a == k * b + a % b;
    assert a - q * b == (k - q) * b + a % b;
    if k - q >= 1 {
      assert (k - q) * b >= b;
    } else if k - q <= -1 {
      assert (k - q) * b <= -b;
    }
  }

  /** Truncated division is pinned down by its remainder: smaller than the divisor, and never
      of the opposite sign to the dividend. */
  lemma TruncDivCharacterised(a: int, b: int, q: int)
    requires b != 0
    ensures q == TruncDiv(a, b) <==>
            var r := a - q * b;
            (if b > 0 then -b < r < b else b < r < -b) && (a >= 0 ==> r >= 0) && (a <= 0 ==> r <= 0)
  {
    var absA, absB := if a >= 0 then a else -a, if b > 0 then b else -b;
    var absQ := if (a >= 0) == (b > 0) then q else -q;
    assert q * b == if a >= 0 then absQ * absB else -(absQ * absB);
    EuclidUnique(absA, absB, absQ);
  }
}
