/** What the operators compute, in plain integers: for the source language and, instruction by
    instruction, for the machine, by the byte values its header gives the instructions. */
module Arithmetic {
  import opened Wrappers
  import opened Syntax
  import opened Semantics
  import opened Machine

  /** The range of a 32-bit int. */
  predicate Fits(x: int) { -0x8000_0000 <= x <= 0x7fff_ffff }

  // ----- the source language -----

  /** A sum, a difference or a product is the integer one where that fits, and overflows otherwise. */
  lemma SumsExact(l: int, r: int, v: int)
    ensures Apply(Add, l, r) == Ok(v) <==> v == l + r && Fits(l + r)
    ensures Apply(Add, l, r) == Fault(IntOverflow) <==> !Fits(l + r)
    ensures Apply(Sub, l, r) == Ok(v) <==> v == l - r && Fits(l - r)
    ensures Apply(Sub, l, r) == Fault(IntOverflow) <==> !Fits(l - r)
    ensures Apply(Mul, l, r) == Ok(v) <==> v == l * r && Fits(l * r)
    ensures Apply(Mul, l, r) == Fault(IntOverflow) <==> !Fits(l * r)
  {
  }

  /** The C quotient: the remainder is smaller than the divisor and has the sign of the dividend. */
  predicate Quotient(l: int, r: int, q: int) {
    && r != 0
    && (if r > 0 then -r < l - q * r < r else r < l - q * r < -r)
    && (l >= 0 ==> l - q * r >= 0) && (l <= 0 ==> l - q * r <= 0)
  }

  /** A division by zero traps; any other yields the quotient where that fits. */
  lemma DivExact(l: int, r: int, v: int)
    ensures Apply(Div, l, r) == Fault(DivByZero) <==> r == 0
    ensures Apply(Div, l, r) == Ok(v) <==> Quotient(l, r, v) && Fits(v)
    ensures Apply(Div, l, r) == Fault(IntOverflow) <==> exists q :: Quotient(l, r, q) && !Fits(q)
  {
    if r != 0 {
      var t := TruncDiv(l, r);
      TruncDivCharacterised(l, r, v);
      TruncDivCharacterised(l, r, t);
      hide TruncDiv;
      assert Quotient(l, r, t);
      if q :| Quotient(l, r, q) && !Fits(q) { TruncDivCharacterised(l, r, q); }
    }
  }

  lemma NonNegative(a: int, b: int)
    requires a >= 0 && b >= 0
    ensures a * b >= 0
  {
  }

  lemma MulGrows(q: int, r: int)
    requires q >= 1 && r != 0
    ensures r > 0 ==> q * r >= q && q * r >= r
    ensures r < 0 ==> q * r <= -q && q * r <= r
    ensures r <= -2 ==> q * r <= -2 * q
  {
    var p := if r > 0 then r else -r;
    NonNegative(q - 1, p - 1);
    assert (q - 1) * (p - 1) == q * p - q - p + 1;
    if p >= 2 {
      NonNegative(q, p - 2);
      assert q * (p - 2) == q * p - 2 * q;
    }
    assert r < 0 ==> q * r == -(q * p);
  }

  lemma QuotientSize(l: int, r: int, q: int)
    requires Quotient(l, r, q)
    ensures l >= 0 ==> -l <= q <= l
    ensures l <= 0 ==> l <= q <= -l
    ensures l < 0 && q == -l ==> r == -1
  {
    if q >= 1 {
      MulGrows(q, r);
    } else if q <= -1 {
      MulGrows(-q, r);
      assert q * r == -(-q * r);
    }
  }

  /** Of two ints only the most negative one divided by -1 overflows. */
  lemma DivOverflows(l: int, r: int)
    requires Fits(l) && Fits(r)
    ensures Apply(Div, l, r) == Fault(IntOverflow) <==> l == -0x8000_0000 && r == -1
  {
    if r != 0 {
      var q := TruncDiv(l, r);
      TruncDivCharacterised(l, r, q);
      hide TruncDiv;
      QuotientSize(l, r, q);
      if l == -0x8000_0000 && r == -1 { assert q == 0x8000_0000; }
    }
  }

  /** A comparison yields 1 where it holds and 0 where it does not. */
  lemma ComparisonsExact(l: int, r: int)
    ensures Apply(Gt, l, r) == Ok(if l > r then 1 else 0)
    ensures Apply(Lt, l, r) == Ok(if l < r then 1 else 0)
    ensures Apply(EqEq, l, r) == Ok(if l == r then 1 else 0)
  {
  }

  /** A name nothing was assigned to reads as 0; an assigned one as what was assigned last. */
  lemma NamesExact(env: Env, x: string, y: string, v: int)
    ensures Eval(Ident(x), map[]) == Ok(0)
    ensures Eval(Ident(x), env[y := v]) == if x == y then Ok(v) else Eval(Ident(x), env)
  {
  }

  // ----- the machine -----

  /** vm_init: at the first byte, with empty stacks and 256 zeroes. */
  lemma BootExact(code: seq<byte>)
    ensures var m := Boot(code);
            && m.code == code && m.ip == 0 && m.stack == [] && m.calls == [] && m.out == [] && m.status == Running
            && |m.globals| == 256 && forall i :: 0 <= i < 256 ==> m.globals[i] == 0
  {
  }

  /** About to fetch the instruction numbered `op`. */
  ghost predicate Fetches(m: State, op: nat) {
    Shape(m) && m.status.Running? && m.ip < |m.code| && m.code[m.ip] == op
  }

  lemma SameTop(rest: seq<int>, v: int)
    ensures forall x :: rest + [x] == rest + [v] ==> x == v
  {
    forall x | rest + [x] == rest + [v] ensures x == v { assert (rest + [x])[|rest|] == (rest + [v])[|rest|]; }
  }

  /** One pass over an arithmetic instruction with `a` below `b` on top of the stack. */
  lemma ArithmeticPass(m: State, rest: seq<int>, a: int, b: int, v: int)
    requires m.stack == rest + [a, b] && |rest| < 256
    ensures var r := m.(ip := m.ip + 1, stack := rest + [v]);
            && (Fetches(m, 0x03) ==> (Step(m) == r <==> v == a + b && Fits(a + b)))
            && (Fetches(m, 0x04) ==> (Step(m) == r <==> v == a - b && Fits(a - b)))
            && (Fetches(m, 0x05) ==> (Step(m) == r <==> v == a * b && Fits(a * b)))
            && (Fetches(m, 0x06) ==> (Step(m) == r <==> Quotient(a, b, v) && Fits(v)))
  {
    assert m.stack[..|m.stack| - 2] == rest && Top(m, 0) == b && Top(m, 1) == a;
    SumsExact(a, b, v);
    DivExact(a, b, v);
    SameTop(rest, v);
    hide TruncDiv, Quotient, Fits;
  }

  /** And where the result does not fit, or is a quotient by zero, the pass stops the machine. */
  lemma ArithmeticStops(m: State, rest: seq<int>, a: int, b: int)
    requires m.stack == rest + [a, b] && |rest| < 256
    ensures Fetches(m, 0x03) ==> (Step(m).status == Trapped(IntOverflow) <==> !Fits(a + b))
    ensures Fetches(m, 0x04) ==> (Step(m).status == Trapped(IntOverflow) <==> !Fits(a - b))
    ensures Fetches(m, 0x05) ==> (Step(m).status == Trapped(IntOverflow) <==> !Fits(a * b))
    ensures Fetches(m, 0x06) ==> (Step(m).status == Trapped(DivByZero) <==> b == 0)
  {
    assert Top(m, 0) == b && Top(m, 1) == a;
    hide TruncDiv;
  }

  /** One pass over a comparison. */
  lemma ComparisonPass(m: State, rest: seq<int>, a: int, b: int)
    requires m.stack == rest + [a, b] && |rest| < 256
    ensures Fetches(m, 0x08) ==> Step(m) == m.(ip := m.ip + 1, stack := rest + [if a == b then 1 else 0])
    ensures Fetches(m, 0x09) ==> Step(m) == m.(ip := m.ip + 1, stack := rest + [if a < b then 1 else 0])
    ensures Fetches(m, 0x0A) ==> Step(m) == m.(ip := m.ip + 1, stack := rest + [if a > b then 1 else 0])
  {
    assert m.stack[..|m.stack| - 2] == rest && Top(m, 0) == b && Top(m, 1) == a;
  }

  /** One pass over an instruction that takes the topmost value. */
  lemma TakingPass(m: State, rest: seq<int>, v: int)
    requires m.stack == rest + [v]
    ensures Fetches(m, 0x02) ==> Step(m) == m.(ip := m.ip + 1, stack := rest)
    ensures Fetches(m, 0x07) ==> Step(m) == m.(ip := m.ip + 1, stack := rest, out := m.out + [v])
    ensures Fetches(m, 0x0C) && m.ip + 1 < |m.code| ==>
              Step(m) == m.(ip := if v == 0 then m.code[m.ip + 1] else m.ip + 2, stack := rest)
    ensures Fetches(m, 0x0E) && m.ip + 1 < |m.code| ==>
              Step(m) == m.(ip := m.ip + 2, stack := rest, globals := m.globals[m.code[m.ip + 1] := v])
  {
    assert m.stack[..|m.stack| - 1] == rest && Top(m, 0) == v;
  }

  /** One pass over any other instruction. */
  lemma OtherPass(m: State)
    requires m.ip + 1 < |m.code| && |m.stack| < 256 && |m.calls| < 256
    ensures Fetches(m, 0x01) ==> Step(m) == m.(ip := m.ip + 2, stack := m.stack + [m.code[m.ip + 1]])
    ensures Fetches(m, 0x0B) ==> Step(m) == m.(ip := m.code[m.ip + 1])
    ensures Fetches(m, 0x0D) ==> Step(m) == m.(ip := m.ip + 2, stack := m.stack + [m.globals[m.code[m.ip + 1]]])
    ensures Fetches(m, 0x0F) ==> Step(m) == m.(ip := m.code[m.ip + 1], calls := m.calls + [m.ip + 2])
    ensures Fetches(m, 0x1F) && m.calls != [] ==>
              Step(m) == m.(ip := m.calls[|m.calls| - 1], calls := m.calls[..|m.calls| - 1])
    ensures Fetches(m, 0xFF) ==> Step(m) == m.(ip := m.ip + 1, status := Halted)
  {
  }

  /** The exits of the loop: too little or too much on a stack, and what is no instruction. */
  lemma ExitPass(m: State)
    requires m.ip + 1 < |m.code| && Fetches(m, m.code[m.ip]) && |m.stack| <= 256 && |m.calls| <= 256
    ensures var op := m.code[m.ip];
            && (Step(m).status.UnknownOpcode? <==> op == 0 || (0x0F < op < 0xFF && op != 0x1F))
            && (Step(m).status.StackOverflow? <==> |m.stack| == 256 && op in {0x01, 0x0D})
            && (Step(m).status.StackUnderflow? <==>
                  (|m.stack| < 1 && op in {0x02, 0x07, 0x0C, 0x0E}) ||
                  (|m.stack| < 2 && (0x03 <= op <= 0x06 || 0x08 <= op <= 0x0A)))
            && (Step(m).status.CallOverflow? <==> |m.calls| == 256 && op == 0x0F)
            && (Step(m).status.CallUnderflow? <==> m.calls == [] && op == 0x1F)
  {
  }
}
