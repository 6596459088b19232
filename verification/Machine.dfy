/** The stack machine of bytecode-vm/vm.c: a value-level step function, and the `Vm` class whose
    fetch loop updates the registers in place and is proved to take exactly those steps. */
module Machine {
  import opened Wrappers
  import opened Syntax

  const OP_PUSH: byte := 0x01
  const OP_POP: byte := 0x02
  const OP_ADD: byte := 0x03
  const OP_SUB: byte := 0x04
  const OP_MUL: byte := 0x05
  const OP_DIV: byte := 0x06
  const OP_PRINT: byte := 0x07
  const OP_EQ: byte := 0x08
  const OP_LT: byte := 0x09
  const OP_GT: byte := 0x0A
  const OP_JMP: byte := 0x0B
  const OP_JMP_IF_FALSE: byte := 0x0C
  const OP_LOAD: byte := 0x0D
  const OP_STORE: byte := 0x0E
  const OP_CALL: byte := 0x0F
  const OP_RET: byte := 0x1F
  const OP_HALT: byte := 0xFF

  const STACK_SIZE: nat := 256
  const GLOBALS: nat := 256

  /** `Halted` is the loop leaving through OP_HALT, `Trapped(DivByZero)` and the next five are
      the exit(1) calls; `Trapped(IntOverflow)` and `OffCode` are what C leaves undefined. */
  datatype Status =
    | Running
    | Halted
    | Trapped(trap: Trap)
    | StackOverflow
    | StackUnderflow
    | CallOverflow
    | CallUnderflow
    | UnknownOpcode
    | OffCode

  datatype State = State(
    code: seq<byte>, ip: nat, stack: seq<int>, globals: seq<int>, calls: seq<nat>,
    out: seq<int>, status: Status)

  ghost predicate Shape(m: State) {
    |m.globals| == GLOBALS
  }

  function Push(m: State, v: int): State {
    if |m.stack| >= STACK_SIZE then m.(status := StackOverflow) else m.(stack := m.stack + [v])
  }

  function PushChecked(m: State, v: Value): State {
    match v
    case Ok(x) => Push(m, x)
    case Fault(t) => m.(status := Trapped(t))
  }

  /** The value popped first, and the machine without the topmost `n` values. */
  function Top(m: State, k: nat): int requires k < |m.stack| { m.stack[|m.stack| - 1 - k] }
  function Drop(m: State, n: nat): State requires n <= |m.stack| { m.(stack := m.stack[..|m.stack| - n]) }

  function Flag(b: bool): int { if b then 1 else 0 }

  function Execute(op: byte, m: State): (r: State)
    requires Shape(m)
    ensures Shape(r) && r.code == m.code && m.out <= r.out
  {
    if op == OP_PUSH then
      if m.ip >= |m.code| then m.(status := OffCode)
      else Push(m.(ip := m.ip + 1), m.code[m.ip])
    else if op == OP_POP then
      if |m.stack| < 1 then m.(status := StackUnderflow) else Drop(m, 1)
    else if op in {OP_ADD, OP_SUB, OP_MUL, OP_DIV} then
      if |m.stack| < 2 then m.(stack := [], status := StackUnderflow)
      else
        var b, a, rest := Top(m, 0), Top(m, 1), Drop(m, 2);
        if op == OP_ADD then PushChecked(rest, Checked(a + b))
        else if op == OP_SUB then PushChecked(rest, Checked(a - b))
        else if op == OP_MUL then PushChecked(rest, Checked(a * b))
        else if b == 0 then rest.(status := Trapped(DivByZero))
        else PushChecked(rest, Checked(TruncDiv(a, b)))
    else if op in {OP_EQ, OP_GT, OP_LT} then
      if |m.stack| < 2 then m.(stack := [], status := StackUnderflow)
      else
        var a, b, rest := Top(m, 0), Top(m, 1), Drop(m, 2);
        Push(rest, Flag(if op == OP_EQ then a == b else if op == OP_GT then a < b else a > b))
    else if op == OP_JMP then
      if m.ip >= |m.code| then m.(status := OffCode) else m.(ip := m.code[m.ip])
    else if op == OP_JMP_IF_FALSE then
      if |m.stack| < 1 then m.(status := StackUnderflow)
      else if Top(m, 0) != 0 then Drop(m, 1).(ip := m.ip + 1)
      else if m.ip >= |m.code| then Drop(m, 1).(status := OffCode)
      else Drop(m, 1).(ip := m.code[m.ip])
    else if op == OP_STORE then
      if |m.stack| < 1 then m.(status := StackUnderflow)
      else if m.ip >= |m.code| then Drop(m, 1).(status := OffCode)
      else Drop(m, 1).(globals := m.globals[m.code[m.ip] := Top(m, 0)], ip := m.ip + 1)
    else if op == OP_LOAD then
      if m.ip >= |m.code| then m.(status := OffCode)
      else Push(m.(ip := m.ip + 1), m.globals[m.code[m.ip]])
    else if op == OP_CALL then
      if m.ip >= |m.code| then m.(status := OffCode)
      else if |m.calls| >= STACK_SIZE then m.(ip := m.ip + 1, status := CallOverflow)
      else m.(calls := m.calls + [m.ip + 1], ip := m.code[m.ip])
    else if op == OP_RET then
      if |m.calls| < 1 then m.(status := CallUnderflow)
      else m.(ip := m.calls[|m.calls| - 1], calls := m.calls[..|m.calls| - 1])
    else if op == OP_PRINT then
      if |m.stack| < 1 then m.(status := StackUnderflow)
      else Drop(m, 1).(out := m.out + [Top(m, 0)])
    else if op == OP_HALT then m.(status := Halted)
    else m.(status := UnknownOpcode)
  }

  /** One pass of the fetch loop.  `a` is popped first and `b` second in the comparisons,
      the other way round in the arithmetic, as in the source. */
  function Step(m: State): (r: State)
    requires Shape(m)
    ensures Shape(r) && r.code == m.code && m.out <= r.out
  {
    if !m.status.Running? then m
    else if m.ip >= |m.code| then m.(status := OffCode)
    else Execute(m.code[m.ip], m.(ip := m.ip + 1))
  }

  /** `n` passes of the loop. */
  function Run(m: State, n: nat): (r: State)
    requires Shape(m)
    ensures Shape(r) && r.code == m.code
    decreases n
  {
    if n == 0 then m else Run(Step(m), n - 1)
  }

  /** The machine as vm_init leaves it. */
  function Boot(code: seq<byte>): (m: State)
    ensures Shape(m)
  {
    State(code, 0, [], seq(GLOBALS, _ => 0), [], [], Running)
  }

  lemma {:induction false} RunAdd(m: State, a: nat, b: nat)
    requires Shape(m)
    ensures Run(m, a + b) == Run(Run(m, a), b)
    decreases a
  {
    if a > 0 {
      RunAdd(Step(m), a - 1, b);
    }
  }

  lemma RunUnfold(m: State, next: State, n: nat)
    requires Shape(m) && n > 0 && next == Step(m)
    ensures Run(m, n) == Run(next, n - 1)
  {
  }

  lemma {:induction false} RunStopped(m: State, n: nat)
    requires Shape(m) && !m.status.Running?
    ensures Run(m, n) == m
  {
    if n > 0 {
      RunStopped(m, n - 1);
    }
  }

  /** Nothing printed is ever unprinted. */
  lemma {:induction false} OutputGrows(m: State, n: nat)
    requires Shape(m)
    ensures m.out <= Run(m, n).out
    decreases n
  {
    if n > 0 {
      OutputGrows(Step(m), n - 1);
    }
  }

  // ----- the machine as the source runs it -----

  class Vm {
    var code: array<byte>
    var codeLen: nat          // bytes of `code` that were written; beyond them C reads garbage
    var ip: nat
    var stack: array<int>
    var sp: nat
    var globals: array<int>
    var cstack: array<nat>
    var csp: nat
    var running: bool
    var printed: seq<int>
    var exit: Status          // Running until the loop ends or exit(1) is called

    ghost predicate Valid()
      reads this, code, stack, globals, cstack
    {
      && codeLen <= code.Length
      && stack.Length == STACK_SIZE && sp <= STACK_SIZE
      && globals.Length == GLOBALS
      && cstack.Length == STACK_SIZE && csp <= STACK_SIZE
      && stack != globals
      && running == exit.Running?
    }

    ghost function Abs(): (m: State)
      requires Valid()
      reads this, code, stack, globals, cstack
      ensures Shape(m)
    {
      State(code[..codeLen], ip, stack[..sp], globals[..], cstack[..csp], printed, exit)
    }

    /** vm_init */
    constructor (bytes: array<byte>, len: nat)
      requires len <= bytes.Length
      ensures Valid() && Abs() == Boot(bytes[..len])
      ensures fresh(stack) && fresh(globals) && fresh(cstack) && code == bytes
    {
      code, codeLen, ip, sp, csp := bytes, len, 0, 0, 0;
      stack := new int[STACK_SIZE](_ => 0);
      globals := new int[GLOBALS](_ => 0);
      cstack := new nat[STACK_SIZE](_ => 0);
      running, printed, exit := true, [], Running;
    }

    method Stop(s: Status)
      requires Valid() && !s.Running?
      modifies this`exit, this`running
      ensures Valid() && Abs() == old(Abs()).(status := s)
    {
      exit, running := s, false;
    }

    /** vm_push */
    method PushValue(num: int)
      requires Valid() && running
      modifies this`sp, this`exit, this`running, stack
      ensures Valid() && Abs() == Push(old(Abs()), num)
    {
      if sp == STACK_SIZE {
        Stop(StackOverflow);
        return;
      }
      stack[sp] := num;
      sp := sp + 1;
      assert stack[..sp] == old(stack[..sp]) + [num];
    }

    /** vm_pop; on underflow the machine has stopped and the value is meaningless. */
    method PopValue() returns (popped: int)
      requires Valid() && running
      modifies this`sp, this`exit, this`running
      ensures Valid()
      ensures old(sp) == 0 ==> Abs() == old(Abs()).(status := StackUnderflow)
      ensures old(sp) > 0 ==> popped == Top(old(Abs()), 0) && Abs() == Drop(old(Abs()), 1)
    {
      if sp <= 0 {
        Stop(StackUnderflow);
        return 0;
      }
      sp := sp - 1;
      popped := stack[sp];
      assert stack[..sp] == old(stack[..sp])[..sp];
    }

    /** The two pops every binary instruction starts with. */
    method PopTwo() returns (first: int, second: int)
      requires Valid() && running
      modifies this`sp, this`exit, this`running
      ensures Valid()
      ensures old(sp) < 2 ==> Abs() == old(Abs()).(stack := [], status := StackUnderflow)
      ensures old(sp) >= 2 ==>
        first == Top(old(Abs()), 0) && second == Top(old(Abs()), 1) && Abs() == Drop(old(Abs()), 2)
    {
      first := PopValue();
      if !running { second := 0; return; }
      second := PopValue();
    }

    method PushResult(v: Value)
      requires Valid() && running
      modifies this`sp, this`exit, this`running, stack
      ensures Valid() && Abs() == PushChecked(old(Abs()), v)
    {
      match v
      case Ok(x) => PushValue(x);
      case Fault(t) => Stop(Trapped(t));
    }

    /** OP_ADD, OP_SUB, OP_MUL, OP_DIV */
    method Arithmetic(op: byte)
      requires Valid() && running && op in {OP_ADD, OP_SUB, OP_MUL, OP_DIV}
      modifies this`sp, this`exit, this`running, stack
      ensures Valid() && Abs() == Execute(op, old(Abs()))
    {
      var b, a := PopTwo();
      if !running { return; }
      if op == OP_ADD {
        PushResult(Checked(a + b));
      } else if op == OP_SUB {
        PushResult(Checked(a - b));
      } else if op == OP_MUL {
        PushResult(Checked(a * b));
      } else if b == 0 {
        Stop(Trapped(DivByZero));
      } else {
        PushResult(Checked(TruncDiv(a, b)));
      }
    }

    /** OP_EQ, OP_GT, OP_LT: here the right operand is the one called `a`. */
    method Compare(op: byte)
      requires Valid() && running && op in {OP_EQ, OP_GT, OP_LT}
      modifies this`sp, this`exit, this`running, stack
      ensures Valid() && Abs() == Execute(op, old(Abs()))
    {
      var a, b := PopTwo();
      if !running { return; }
      var res := 0;
      if op == OP_EQ {
        if a == b { res := 1; }
      } else if op == OP_GT {
        if a < b { res := 1; }
      } else {
        if a > b { res := 1; }
      }
      PushValue(res);
    }

    /** OP_JMP, OP_JMP_IF_FALSE */
    method Jump(op: byte)
      requires Valid() && running && op in {OP_JMP, OP_JMP_IF_FALSE}
      modifies this`ip, this`sp, this`exit, this`running
      ensures Valid() && Abs() == Execute(op, old(Abs()))
    {
      if op == OP_JMP_IF_FALSE {
        var cond := PopValue();
        if !running { return; }
        if cond != 0 { ip := ip + 1; return; }
      }
      if ip >= codeLen { Stop(OffCode); return; }
      ip := code[ip];
    }

    /** OP_CALL, with vm_push_cs */
    method Call()
      requires Valid() && running
      modifies this`ip, this`csp, this`exit, this`running, cstack
      ensures Valid() && Abs() == Execute(OP_CALL, old(Abs()))
    {
      if ip >= codeLen { Stop(OffCode); return; }
      var dest := code[ip];
      ip := ip + 1;
      if csp == STACK_SIZE { Stop(CallOverflow); return; }
      cstack[csp] := ip;
      csp := csp + 1;
      assert cstack[..csp] == old(cstack[..csp]) + [ip];
      ip := dest;
    }

    /** OP_RET, with vm_pop_cs */
    method Return()
      requires Valid() && running
      modifies this`ip, this`csp, this`exit, this`running
      ensures Valid() && Abs() == Execute(OP_RET, old(Abs()))
    {
      if csp <= 0 { Stop(CallUnderflow); return; }
      csp := csp - 1;
      ip := cstack[csp];
      assert cstack[..csp] == old(cstack[..csp])[..csp];
    }

    /** OP_PUSH, OP_LOAD, OP_STORE: the operand is the next byte of code. */
    method WithOperand(op: byte)
      requires Valid() && running && op in {OP_PUSH, OP_LOAD, OP_STORE}
      modifies this`ip, this`sp, this`exit, this`running, stack, globals
      ensures Valid() && Abs() == Execute(op, old(Abs()))
    {
      hide PushChecked, Checked, TruncDiv, Flag;
      var val := 0;
      if op == OP_STORE {
        val := PopValue();
        if !running { return; }
      }
      if ip >= codeLen { Stop(OffCode); return; }
      var operand := code[ip];
      ip := ip + 1;
      if op == OP_PUSH {
        PushValue(operand);
      } else if op == OP_LOAD {
        PushValue(globals[operand]);
      } else {
        globals[operand] := val;
      }
    }

    /** OP_POP, OP_PRINT, OP_HALT, and whatever is no opcode. */
    method Plain(op: byte)
      requires Valid() && running && op !in {OP_PUSH, OP_LOAD, OP_STORE} + {OP_ADD, OP_SUB, OP_MUL, OP_DIV}
      requires op !in {OP_EQ, OP_GT, OP_LT} + {OP_JMP, OP_JMP_IF_FALSE, OP_CALL, OP_RET}
      modifies this`sp, this`exit, this`running, this`printed
      ensures Valid() && Abs() == Execute(op, old(Abs()))
    {
      hide Push, PushChecked, Checked, TruncDiv, Flag;
      if op == OP_POP {
        var _ := PopValue();
      } else if op == OP_PRINT {
        var value := PopValue();
        if running { printed := printed + [value]; }
      } else if op == OP_HALT {
        Stop(Halted);
      } else {
        Stop(UnknownOpcode);
      }
    }

    /** One pass of the loop in vm_run. */
    method Fetch()
      requires Valid() && running
      modifies this`ip, this`sp, this`csp, this`running, this`printed, this`exit, stack, globals, cstack
      ensures Valid() && Abs() == Step(old(Abs()))
    {
      hide Execute;
      if ip >= codeLen { Stop(OffCode); return; }
      var op := code[ip];
      ip := ip + 1;
      if op in {OP_PUSH, OP_LOAD, OP_STORE} {
        WithOperand(op);
      } else if op in {OP_ADD, OP_SUB, OP_MUL, OP_DIV} {
        Arithmetic(op);
      } else if op in {OP_EQ, OP_GT, OP_LT} {
        Compare(op);
      } else if op in {OP_JMP, OP_JMP_IF_FALSE} {
        Jump(op);
      } else if op == OP_CALL {
        Call();
      } else if op == OP_RET {
        Return();
      } else {
        Plain(op);
      }
    }

    /** vm_run, observed for at most `passes` turns of its loop (the loop itself need not end). */
    method RunLoop(passes: nat)
      requires Valid()
      modifies this`ip, this`sp, this`csp, this`running, this`printed, this`exit, stack, globals, cstack
      ensures Valid() && Abs() == Run(old(Abs()), passes)
    {
      hide Step, Execute;
      var k := 0;
      ghost var start := Abs();
      while running && k < passes
        invariant Valid() && k <= passes
        invariant Run(Abs(), passes - k) == Run(start, passes)
      {
        ghost var before := Abs();
        Fetch();
        RunUnfold(before, Abs(), passes - k);
        k := k + 1;
      }
      if k < passes {
        RunStopped(Abs(), passes - k);
      }
    }
  }
}
