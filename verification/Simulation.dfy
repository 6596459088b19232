/** The compiled bytecode does what the source program means.  Every observation of the source
    run is matched by a run of the machine that prints the same values, ends the same way, and
    stays inside the emitted code and the stack on the way. */
module Simulation {
  import opened Wrappers
  import opened Syntax
  import opened Semantics
  import opened Machine
  import opened CodeGen

  // ----- instruction boundaries -----

  function InstrLen(op: byte): nat {
    if op in {OP_PUSH, OP_LOAD, OP_STORE, OP_JMP, OP_JMP_IF_FALSE, OP_CALL} then 2 else 1
  }

  /** Decoding the code one instruction after another from `from` meets position `p`. */
  ghost predicate Boundary(code: seq<byte>, from: nat, p: nat)
    decreases p - from
  {
    from == p || (from < p && from < |code| && Boundary(code, from + InstrLen(code[from]), p))
  }

  lemma {:induction false} BoundaryNext(code: seq<byte>, from: nat, p: nat)
    requires Boundary(code, from, p) && p < |code|
    ensures Boundary(code, from, p + InstrLen(code[p]))
    decreases p - from
  {
    if from < p {
      BoundaryNext(code, from + InstrLen(code[from]), p);
    }
  }

  // ----- runs that stay safe -----

  /** No exit on overflow, underflow or an unknown opcode has happened; a running machine is about
      to fetch the first byte of an instruction inside the code. */
  ghost predicate Good(m: State, cap: nat) {
    && (m.status.Running? || m.status.Halted? || m.status.Trapped?)
    && (m.status.Running? ==> m.ip < |m.code| && Boundary(m.code, 0, m.ip))
    && |m.stack| <= cap
    && m.calls == []
  }

  ghost predicate Safe(m: State, n: nat, cap: nat)
    requires Shape(m)
    decreases n
  {
    Good(m, cap) && (n > 0 ==> Safe(Step(m), n - 1, cap))
  }

  lemma {:induction false} SafeAdd(m: State, a: nat, b: nat, cap: nat)
    requires Shape(m) && Safe(m, a, cap) && Safe(Run(m, a), b, cap)
    ensures Safe(m, a + b, cap) && Run(m, a + b) == Run(Run(m, a), b)
    decreases a
  {
    if a > 0 {
      SafeAdd(Step(m), a - 1, b, cap);
    }
  }

  lemma {:induction false} SafeAt(m: State, n: nat, k: nat, cap: nat)
    requires Shape(m) && Safe(m, n, cap) && k <= n
    ensures Good(Run(m, k), cap)
    decreases k
  {
    if k > 0 {
      SafeAt(Step(m), n - 1, k - 1, cap);
    }
  }

  /** `n` safe passes take `m` to `r`. */
  ghost predicate Reaches(m: State, n: nat, r: State, cap: nat)
    requires Shape(m)
  {
    Run(m, n) == r && Safe(m, n, cap)
  }

  lemma ReachesTrans(m: State, a: nat, r: State, b: nat, q: State, cap: nat)
    requires Shape(m) && Shape(r) && Reaches(m, a, r, cap) && Reaches(r, b, q, cap)
    ensures Reaches(m, a + b, q, cap)
  {
    SafeAdd(m, a, b, cap);
  }

  lemma ReachesSelf(m: State, cap: nat)
    requires Shape(m) && Good(m, cap)
    ensures Reaches(m, 0, m, cap)
  {
  }

  lemma ReachesStep(m: State, r: State, cap: nat)
    requires Shape(m) && Good(m, cap) && Step(m) == r && Good(r, cap)
    ensures Reaches(m, 1, r, cap)
  {
    assert Run(m, 1) == Run(Step(m), 0);
    assert Safe(r, 0, cap);
  }

  // ----- code placement and variables -----

  /** The fragment lies at `pos`, and at least one byte follows it. */
  ghost predicate CodeAt(code: seq<byte>, pos: nat, frag: seq<byte>) {
    pos + |frag| < |code| && code[pos..pos + |frag|] == frag
  }

  lemma CodeSplit(code: seq<byte>, pos: nat, a: seq<byte>, b: seq<byte>)
    requires CodeAt(code, pos, a + b)
    ensures CodeAt(code, pos, a) && CodeAt(code, pos + |a|, b)
  {
    var whole := code[pos..pos + |a + b|];
    assert whole[..|a|] == a && whole[|a|..] == b;
    assert code[pos..pos + |a|] == whole[..|a|];
    assert code[pos + |a|..pos + |a| + |b|] == whole[|a|..];
  }

  lemma CodeByte(code: seq<byte>, pos: nat, frag: seq<byte>, k: nat)
    requires CodeAt(code, pos, frag) && k < |frag|
    ensures code[pos + k] == frag[k]
  {
    assert code[pos..pos + |frag|][k] == frag[k];
  }

  /** The slots hold the source values of the names of the final table, and the slots beyond the
      table are still zero. */
  ghost predicate Agree(env: Env, globals: seq<int>, all: seq<string>) {
    && |globals| == GLOBALS && |all| <= GLOBALS
    && (forall i :: 0 <= i < |all| ==> globals[i] == Lookup(env, all[i]))
    && (forall i :: |all| <= i < GLOBALS ==> globals[i] == 0)
  }

  lemma AgreeStore(env: Env, globals: seq<int>, all: seq<string>, slot: nat, x: string, v: int)
    requires Agree(env, globals, all) && Distinct(all) && slot < |all| && all[slot] == x
    ensures Agree(env[x := v], globals[slot := v], all)
  {
  }

  /** A name's slot in the table so far is its slot in the final table. */
  lemma SlotStable(names: seq<string>, all: seq<string>, x: string)
    requires names <= all && x in names
    ensures Slot(names, x) < |all| && all[Slot(names, x)] == x
  {
  }

  // ----- single instructions -----

  ghost predicate Ready(m: State, cap: nat) {
    Shape(m) && m.status.Running? && Good(m, cap)
  }

  lemma PushStep(m: State, v: int, cap: nat)
    requires Ready(m, cap) && |m.stack| < cap <= STACK_SIZE && CodeAt(m.code, m.ip, [OP_PUSH, Low(v)])
    requires 0 <= v < 256
    ensures Reaches(m, 1, m.(ip := m.ip + 2, stack := m.stack + [v]), cap)
    ensures Good(m.(ip := m.ip + 2, stack := m.stack + [v]), cap)
  {
    CodeByte(m.code, m.ip, [OP_PUSH, Low(v)], 0);
    CodeByte(m.code, m.ip, [OP_PUSH, Low(v)], 1);
    BoundaryNext(m.code, 0, m.ip);
    ReachesStep(m, m.(ip := m.ip + 2, stack := m.stack + [v]), cap);
  }

  lemma LoadStep(m: State, slot: nat, cap: nat)
    requires Ready(m, cap) && |m.stack| < cap <= STACK_SIZE && CodeAt(m.code, m.ip, [OP_LOAD, Low(slot)])
    requires slot < GLOBALS
    ensures Reaches(m, 1, m.(ip := m.ip + 2, stack := m.stack + [m.globals[slot]]), cap)
    ensures Good(m.(ip := m.ip + 2, stack := m.stack + [m.globals[slot]]), cap)
  {
    CodeByte(m.code, m.ip, [OP_LOAD, Low(slot)], 0);
    CodeByte(m.code, m.ip, [OP_LOAD, Low(slot)], 1);
    BoundaryNext(m.code, 0, m.ip);
    ReachesStep(m, m.(ip := m.ip + 2, stack := m.stack + [m.globals[slot]]), cap);
  }

  lemma StoreStep(m: State, v: int, slot: nat, cap: nat)
    requires Ready(m, cap) && m.stack == [v] && CodeAt(m.code, m.ip, [OP_STORE, Low(slot)])
    requires slot < GLOBALS
    ensures Reaches(m, 1, m.(ip := m.ip + 2, stack := [], globals := m.globals[slot := v]), cap)
    ensures Good(m.(ip := m.ip + 2, stack := [], globals := m.globals[slot := v]), cap)
  {
    CodeByte(m.code, m.ip, [OP_STORE, Low(slot)], 0);
    CodeByte(m.code, m.ip, [OP_STORE, Low(slot)], 1);
    BoundaryNext(m.code, 0, m.ip);
    ReachesStep(m, m.(ip := m.ip + 2, stack := [], globals := m.globals[slot := v]), cap);
  }

  lemma PrintStep(m: State, v: int, cap: nat)
    requires Ready(m, cap) && m.stack == [v] && CodeAt(m.code, m.ip, [OP_PRINT])
    ensures Reaches(m, 1, m.(ip := m.ip + 1, stack := [], out := m.out + [v]), cap)
    ensures Good(m.(ip := m.ip + 1, stack := [], out := m.out + [v]), cap)
  {
    CodeByte(m.code, m.ip, [OP_PRINT], 0);
    BoundaryNext(m.code, 0, m.ip);
    ReachesStep(m, m.(ip := m.ip + 1, stack := [], out := m.out + [v]), cap);
  }

  lemma BranchStep(m: State, v: int, target: nat, cap: nat)
    requires Ready(m, cap) && m.stack == [v] && CodeAt(m.code, m.ip, [OP_JMP_IF_FALSE, Low(target)])
    requires target < 256 && (v == 0 ==> target < |m.code| && Boundary(m.code, 0, target))
    ensures Reaches(m, 1, m.(ip := if v == 0 then target else m.ip + 2, stack := []), cap)
    ensures Good(m.(ip := if v == 0 then target else m.ip + 2, stack := []), cap)
  {
    CodeByte(m.code, m.ip, [OP_JMP_IF_FALSE, Low(target)], 0);
    CodeByte(m.code, m.ip, [OP_JMP_IF_FALSE, Low(target)], 1);
    BoundaryNext(m.code, 0, m.ip);
    ReachesStep(m, m.(ip := if v == 0 then target else m.ip + 2, stack := []), cap);
  }

  lemma JumpStep(m: State, target: nat, cap: nat)
    requires Ready(m, cap) && CodeAt(m.code, m.ip, [OP_JMP, Low(target)])
    requires target < 256 && target < |m.code| && Boundary(m.code, 0, target)
    ensures Reaches(m, 1, m.(ip := target), cap)
  {
    CodeByte(m.code, m.ip, [OP_JMP, Low(target)], 0);
    CodeByte(m.code, m.ip, [OP_JMP, Low(target)], 1);
    ReachesStep(m, m.(ip := target), cap);
  }

  /** A binary instruction does to the two topmost values what the operator means. */
  lemma BinaryStep(m: State, op: BinOp, rest: seq<int>, a: int, b: int, cap: nat) returns (r: State)
    requires Ready(m, cap) && cap <= STACK_SIZE && CodeAt(m.code, m.ip, [Opcode(op)])
    requires m.stack == rest + [a] + [b]
    ensures Shape(r) && Good(r, cap) && Reaches(m, 1, r, cap) && r.out == m.out && r.code == m.code
    ensures match Apply(op, a, b)
            case Ok(v) => r == m.(ip := m.ip + 1, stack := rest + [v])
            case Fault(t) => r.status == Trapped(t)
  {
    CodeByte(m.code, m.ip, [Opcode(op)], 0);
    BoundaryNext(m.code, 0, m.ip);
    assert m.stack[..|m.stack| - 2] == rest;
    r := Step(m);
    ReachesStep(m, r, cap);
  }

  // ----- expressions -----

  /** What the code of `e` makes of `m`: one more value on the stack, or the trap. */
  ghost predicate ExprDone(e: Expr, names: seq<string>, env: Env, m: State, r: State) {
    match Eval(e, env)
    case Ok(v) => r == m.(ip := m.ip + |GenExpr(e, names)|, stack := m.stack + [v])
    case Fault(t) => r.status == Trapped(t) && r.out == m.out && r.code == m.code
  }

  /** What a binary operation asks for, operand by operand. */
  lemma BinParts(op: BinOp, left: Expr, right: Expr, names: seq<string>, code: seq<byte>, pos: nat)
    requires CodeAt(code, pos, GenExpr(Bin(op, left, right), names)) && ExprOk(Bin(op, left, right), names)
    ensures ExprOk(left, names) && ExprOk(right, names)
    ensures Need(left) <= Need(Bin(op, left, right)) && 1 + Need(right) <= Need(Bin(op, left, right))
    ensures CodeAt(code, pos, GenExpr(left, names)) && CodeAt(code, pos + |GenExpr(left, names)|, GenExpr(right, names))
    ensures CodeAt(code, pos + |GenExpr(left, names)| + |GenExpr(right, names)|, [Opcode(op)])
  {
    hide CodeAt;
    CodeSplit(code, pos, GenExpr(left, names) + GenExpr(right, names), [Opcode(op)]);
    CodeSplit(code, pos, GenExpr(left, names), GenExpr(right, names));
  }

  /** The two operands and the operator together. */
  lemma BinDone(op: BinOp, left: Expr, right: Expr, names: seq<string>, env: Env, m: State, m2: State, r: State)
    requires Eval(left, env).Ok? && Eval(right, env).Ok?
    requires var a, b := Eval(left, env).v, Eval(right, env).v;
             && m2 == m.(ip := m.ip + |GenExpr(left, names)| + |GenExpr(right, names)|, stack := m.stack + [a] + [b])
             && (var v := Apply(op, a, b);
                 if v.Ok? then r == m2.(ip := m2.ip + 1, stack := m.stack + [v.v])
                 else r.status == Trapped(v.trap) && r.out == m2.out && r.code == m2.code)
    ensures ExprDone(Bin(op, left, right), names, env, m, r)
  {
  }

  lemma {:induction false} SimExpr(e: Expr, names: seq<string>, all: seq<string>, env: Env, m: State, cap: nat)
    returns (n: nat, r: State)
    requires Ready(m, cap) && CodeAt(m.code, m.ip, GenExpr(e, names))
    requires ExprOk(e, names) && names <= all && Agree(env, m.globals, all)
    requires |m.stack| + Need(e) <= cap <= STACK_SIZE
    ensures n > 0 && Shape(r) && Good(r, cap) && Reaches(m, n, r, cap) && ExprDone(e, names, env, m, r)
    decreases e
  {
    hide Reaches, Boundary, CodeAt;
    match e
    case Num(v) =>
      PushStep(m, v, cap);
      n, r := 1, m.(ip := m.ip + 2, stack := m.stack + [v]);
    case Ident(x) =>
      SlotStable(names, all, x);
      LoadStep(m, Slot(names, x), cap);
      n, r := 1, m.(ip := m.ip + 2, stack := m.stack + [Lookup(env, x)]);
    case Bin(op, left, right) =>
      BinParts(op, left, right, names, m.code, m.ip);
      hide GenExpr, Agree, ExprOk, Need;
      var n1, m1 := SimExpr(left, names, all, env, m, cap);
      if Eval(left, env).Fault? { return n1, m1; }
      var n2, m2 := SimExpr(right, names, all, env, m1, cap);
      ReachesTrans(m, n1, m1, n2, m2, cap);
      if Eval(right, env).Fault? { return n1 + n2, m2; }
      r := BinaryStep(m2, op, m.stack, Eval(left, env).v, Eval(right, env).v, cap);
      ReachesTrans(m, n1 + n2, m2, 1, r, cap);
      n := n1 + n2 + 1;
      BinDone(op, left, right, names, env, m, m2, r);
  }

  // ----- fragments end on instruction boundaries -----

  lemma BoundaryOver(code: seq<byte>, pos: nat, frag: seq<byte>)
    requires CodeAt(code, pos, frag) && Boundary(code, 0, pos)
    requires |frag| == 2 ==> InstrLen(frag[0]) == 2
    requires |frag| == 1 ==> InstrLen(frag[0]) == 1
    requires 1 <= |frag| <= 2
    ensures Boundary(code, 0, pos + |frag|)
  {
    CodeByte(code, pos, frag, 0);
    BoundaryNext(code, 0, pos);
  }

  lemma {:induction false} BoundaryExpr(code: seq<byte>, pos: nat, e: Expr, names: seq<string>)
    requires ExprOk(e, names) && CodeAt(code, pos, GenExpr(e, names)) && Boundary(code, 0, pos)
    ensures Boundary(code, 0, pos + |GenExpr(e, names)|)
    decreases e
  {
    match e
    case Num(v) => BoundaryOver(code, pos, GenExpr(e, names));
    case Ident(x) => BoundaryOver(code, pos, GenExpr(e, names));
    case Bin(op, l, r) =>
      var cl, cr := GenExpr(l, names), GenExpr(r, names);
      CodeSplit(code, pos, cl + cr, [Opcode(op)]);
      CodeSplit(code, pos, cl, cr);
      BoundaryExpr(code, pos, l, names);
      BoundaryExpr(code, pos + |cl|, r, names);
      BoundaryOver(code, pos + |cl| + |cr|, [Opcode(op)]);
  }

  /** The three parts of a conditional: its test, its jump, its block. */
  lemma SplitIf(code: seq<byte>, pos: nat, s: Stmt, names: seq<string>)
    requires s.If? && CodeAt(code, pos, GenStmt(s, pos, names))
    ensures var test, end := GenExpr(s.cond, names), pos + |GenStmt(s, pos, names)|;
            && CodeAt(code, pos, test)
            && CodeAt(code, pos + |test|, [OP_JMP_IF_FALSE, Low(end)])
            && CodeAt(code, pos + |test| + 2, GenSeq(s.body, pos + |test| + 2, names))
            && end == pos + |test| + 2 + |GenSeq(s.body, pos + |test| + 2, names)|
  {
    var test, end := GenExpr(s.cond, names), pos + |GenStmt(s, pos, names)|;
    var block := GenSeq(s.body, pos + |test| + 2, names);
    CodeSplit(code, pos, test + [OP_JMP_IF_FALSE, Low(end)], block);
    CodeSplit(code, pos, test, [OP_JMP_IF_FALSE, Low(end)]);
  }

  /** A loop has a fourth: the jump back to its start. */
  lemma SplitWhile(code: seq<byte>, pos: nat, s: Stmt, names: seq<string>)
    requires s.While? && CodeAt(code, pos, GenStmt(s, pos, names))
    ensures var test, end := GenExpr(s.cond, names), pos + |GenStmt(s, pos, names)|;
            && CodeAt(code, pos, test)
            && CodeAt(code, pos + |test|, [OP_JMP_IF_FALSE, Low(end)])
            && CodeAt(code, pos + |test| + 2, GenSeq(s.body, pos + |test| + 2, names))
            && CodeAt(code, end - 2, [OP_JMP, Low(pos)])
            && end == pos + |test| + 4 + |GenSeq(s.body, pos + |test| + 2, names)|
  {
    var test, end := GenExpr(s.cond, names), pos + |GenStmt(s, pos, names)|;
    var block := GenSeq(s.body, pos + |test| + 2, names);
    CodeSplit(code, pos, test + [OP_JMP_IF_FALSE, Low(end)] + block, [OP_JMP, Low(pos)]);
    CodeSplit(code, pos, test + [OP_JMP_IF_FALSE, Low(end)], block);
    CodeSplit(code, pos, test, [OP_JMP_IF_FALSE, Low(end)]);
  }

  /** An expression and one instruction behind it. */
  lemma BoundaryThen(code: seq<byte>, pos: nat, e: Expr, names: seq<string>, instr: seq<byte>)
    requires ExprOk(e, names) && CodeAt(code, pos, GenExpr(e, names) + instr) && Boundary(code, 0, pos)
    requires 1 <= |instr| <= 2 && InstrLen(instr[0]) == |instr|
    ensures Boundary(code, 0, pos + |GenExpr(e, names)| + |instr|)
  {
    hide Boundary, CodeAt, GenExpr, ExprOk, InstrLen;
    CodeSplit(code, pos, GenExpr(e, names), instr);
    BoundaryExpr(code, pos, e, names);
    BoundaryOver(code, pos + |GenExpr(e, names)|, instr);
  }

  lemma {:induction false} BoundaryStmt(code: seq<byte>, pos: nat, s: Stmt, names: seq<string>)
    requires StmtOk(s, pos, names) && CodeAt(code, pos, GenStmt(s, pos, names)) && Boundary(code, 0, pos)
    ensures Boundary(code, 0, pos + |GenStmt(s, pos, names)|)
    decreases s, 1
  {
    hide Boundary, CodeAt, GenExpr, GenSeq, ExprOk, SeqOk;
    match s
    case Assign(x, e) => BoundaryThen(code, pos, e, names, [OP_STORE, Low(Slot(names, x))]);
    case Print(e) => BoundaryThen(code, pos, e, names, [OP_PRINT]);
    case If(c, body) =>
      SplitIf(code, pos, s, names);
      BoundaryExpr(code, pos, c, names);
      BoundaryOver(code, pos + |GenExpr(c, names)|, [OP_JMP_IF_FALSE, Low(pos + |GenStmt(s, pos, names)|)]);
      BoundarySeq(code, pos + |GenExpr(c, names)| + 2, body, names);
    case While(c, body) =>
      SplitWhile(code, pos, s, names);
      BoundaryExpr(code, pos, c, names);
      BoundaryOver(code, pos + |GenExpr(c, names)|, [OP_JMP_IF_FALSE, Low(pos + |GenStmt(s, pos, names)|)]);
      BoundarySeq(code, pos + |GenExpr(c, names)| + 2, body, names);
      BoundaryOver(code, pos + |GenStmt(s, pos, names)| - 2, [OP_JMP, Low(pos)]);
  }

  lemma {:induction false} BoundarySeq(code: seq<byte>, pos: nat, ss: seq<Stmt>, names: seq<string>)
    requires SeqOk(ss, pos, names) && CodeAt(code, pos, GenSeq(ss, pos, names)) && Boundary(code, 0, pos)
    ensures Boundary(code, 0, pos + |GenSeq(ss, pos, names)|)
    decreases ss, 0
  {
    if ss != [] {
      var first, table := GenStmt(ss[0], pos, names), NamesStmt(ss[0], names);
      CodeSplit(code, pos, first, GenSeq(ss[1..], pos + |first|, table));
      BoundaryStmt(code, pos, ss[0], names);
      BoundarySeq(code, pos + |first|, ss[1..], table);
    }
  }

  // ----- statements -----

  /** How a machine that started a statement list with an empty stack stands when the source run
      reports `res`: at the end of the code with agreeing variables, trapped in the same way, or
      still running after at least `fuel` passes; and with the same values printed. */
  ghost predicate Matches(res: Result, m: State, end: nat, fuel: nat, all: seq<string>, n: nat, r: State) {
    && r.out == res.out && r.code == m.code
    && match res
       case Done(env, _) => r.status.Running? && r.ip == end && r.stack == [] && Agree(env, r.globals, all)
       case Stopped(t, _) => r.status == Trapped(t)
       case Timeout(_) => r.status.Running? && n >= fuel
  }

  /** Everything a statement list needs of the machine and the tables. */
  ghost predicate Placed(m: State, names: seq<string>, after: seq<string>, all: seq<string>, env: Env,
                         need: nat, cap: nat) {
    && Ready(m, cap) && m.stack == [] && need <= cap <= STACK_SIZE
    && names <= after <= all && Distinct(all) && Agree(env, m.globals, all)
  }

  lemma SimSimple(s: Stmt, fuel: nat, names: seq<string>, all: seq<string>, env: Env, m: State, cap: nat)
    returns (n: nat, r: State)
    requires s.Assign? || s.Print?
    requires Placed(m, names, NamesStmt(s, names), all, env, NeedStmt(s), cap)
    requires StmtOk(s, m.ip, names) && CodeAt(m.code, m.ip, GenStmt(s, m.ip, names))
    ensures Shape(r) && Good(r, cap) && Reaches(m, n, r, cap)
    ensures Matches(ExecStmt(s, fuel, env, m.out), m, m.ip + |GenStmt(s, m.ip, names)|, fuel, all, n, r)
  {
    hide Reaches;
    var e := if s.Assign? then s.rhs else s.arg;
    var test := GenExpr(e, names);
    CodeSplit(m.code, m.ip, test, if s.Assign? then [OP_STORE, Low(Slot(names, s.target))] else [OP_PRINT]);
    var n1, m1 := SimExpr(e, names, all, env, m, cap);
    if Eval(e, env).Fault? { return n1, m1; }
    var v := Eval(e, env).v;
    if s.Assign? {
      var slot := Slot(names, s.target);
      assert all[slot] == s.target;
      AgreeStore(env, m.globals, all, slot, s.target, v);
      StoreStep(m1, v, slot, cap);
      r := m1.(ip := m1.ip + 2, stack := [], globals := m1.globals[slot := v]);
    } else {
      PrintStep(m1, v, cap);
      r := m1.(ip := m1.ip + 1, stack := [], out := m1.out + [v]);
    }
    ReachesTrans(m, n1, m1, 1, r, cap);
    n := n1 + 1;
  }

  /** The test of a conditional or loop and the jump after it, when the test yields a value. */
  lemma SimTest(c: Expr, target: nat, names: seq<string>, all: seq<string>, env: Env, m: State, cap: nat)
    returns (n: nat, r: State)
    requires Ready(m, cap) && m.stack == [] && Need(c) <= cap <= STACK_SIZE
    requires ExprOk(c, names) && names <= all && Agree(env, m.globals, all)
    requires CodeAt(m.code, m.ip, GenExpr(c, names))
    requires CodeAt(m.code, m.ip + |GenExpr(c, names)|, [OP_JMP_IF_FALSE, Low(target)])
    requires target < 256 && target < |m.code| && Boundary(m.code, 0, target)
    ensures n > 0 && Shape(r) && Good(r, cap) && Reaches(m, n, r, cap) && r.out == m.out && r.code == m.code
    ensures match Eval(c, env)
            case Ok(v) => r == m.(ip := if v == 0 then target else m.ip + |GenExpr(c, names)| + 2)
            case Fault(t) => r.status == Trapped(t)
  {
    hide Reaches;
    var n1, m1 := SimExpr(c, names, all, env, m, cap);
    if Eval(c, env).Fault? { return n1, m1; }
    var v := Eval(c, env).v;
    BranchStep(m1, v, target, cap);
    r := m1.(ip := if v == 0 then target else m1.ip + 2, stack := []);
    ReachesTrans(m, n1, m1, 1, r, cap);
    n := n1 + 1;
  }

  lemma {:induction false} SimStmt(s: Stmt, fuel: nat, names: seq<string>, all: seq<string>, env: Env,
                                  m: State, cap: nat)
    returns (n: nat, r: State)
    requires Placed(m, names, NamesStmt(s, names), all, env, NeedStmt(s), cap)
    requires StmtOk(s, m.ip, names) && CodeAt(m.code, m.ip, GenStmt(s, m.ip, names))
    ensures Shape(r) && Good(r, cap) && Reaches(m, n, r, cap)
    ensures Matches(ExecStmt(s, fuel, env, m.out), m, m.ip + |GenStmt(s, m.ip, names)|, fuel, all, n, r)
    decreases fuel, s, 1
  {
    match s
    case Assign(_, _) => n, r := SimSimple(s, fuel, names, all, env, m, cap);
    case Print(_) => n, r := SimSimple(s, fuel, names, all, env, m, cap);
    case If(_, _) => n, r := SimIf(s, fuel, names, all, env, m, cap);
    case While(_, _) => n, r := SimWhile(s, fuel, names, all, env, m, cap);
  }

  lemma {:induction false} SimIf(s: Stmt, fuel: nat, names: seq<string>, all: seq<string>, env: Env, m: State, cap: nat)
    returns (n: nat, r: State)
    requires s.If?
    requires Placed(m, names, NamesStmt(s, names), all, env, NeedStmt(s), cap)
    requires StmtOk(s, m.ip, names) && CodeAt(m.code, m.ip, GenStmt(s, m.ip, names))
    ensures Shape(r) && Good(r, cap) && Reaches(m, n, r, cap)
    ensures Matches(ExecStmt(s, fuel, env, m.out), m, m.ip + |GenStmt(s, m.ip, names)|, fuel, all, n, r)
    decreases fuel, s, 0
  {
    hide Reaches, Boundary, Agree, Distinct, CodeAt, ExecSeq, GenSeq, SeqOk, NeedSeq, NamesSeq, Eval, GenExpr, ExprOk;
    var end := m.ip + |GenStmt(s, m.ip, names)|;
    SplitIf(m.code, m.ip, s, names);
    BoundaryStmt(m.code, m.ip, s, names);
    var n1, m1 := SimTest(s.cond, end, names, all, env, m, cap);
    var v := Eval(s.cond, env);
    if v.Fault? || v.v == 0 { return n1, m1; }
    var n2, m2 := SimSeq(s.body, fuel, names, all, env, m1, cap);
    ReachesTrans(m, n1, m1, n2, m2, cap);
    n, r := n1 + n2, m2;
  }

  lemma {:induction false} SimWhile(s: Stmt, fuel: nat, names: seq<string>, all: seq<string>, env: Env,
                                  m: State, cap: nat)
    returns (n: nat, r: State)
    requires s.While?
    requires Placed(m, names, NamesStmt(s, names), all, env, NeedStmt(s), cap)
    requires StmtOk(s, m.ip, names) && CodeAt(m.code, m.ip, GenStmt(s, m.ip, names))
    ensures Shape(r) && Good(r, cap) && Reaches(m, n, r, cap)
    ensures Matches(ExecStmt(s, fuel, env, m.out), m, m.ip + |GenStmt(s, m.ip, names)|, fuel, all, n, r)
    decreases fuel, s, 0
  {
    hide Reaches, Boundary, Agree, Distinct, CodeAt, ExecSeq, GenSeq, SeqOk, NeedSeq, NamesSeq, Eval, GenExpr, ExprOk;
    var end := m.ip + |GenStmt(s, m.ip, names)|;
    SplitWhile(m.code, m.ip, s, names);
    BoundaryStmt(m.code, m.ip, s, names);
    var n1, m1 := SimTest(s.cond, end, names, all, env, m, cap);
    var v := Eval(s.cond, env);
    if v.Fault? || v.v == 0 || fuel == 0 { return n1, m1; }
    var n2, m2 := SimSeq(s.body, fuel - 1, names, all, env, m1, cap);
    ReachesTrans(m, n1, m1, n2, m2, cap);
    var res := ExecSeq(s.body, fuel - 1, env, m.out);
    if !res.Done? { return n1 + n2, m2; }
    JumpStep(m2, m.ip, cap);
    var m3 := m2.(ip := m.ip);
    ReachesTrans(m, n1 + n2, m2, 1, m3, cap);
    var n4, m4 := SimStmt(s, fuel - 1, names, all, res.env, m3, cap);
    ReachesTrans(m, n1 + n2 + 1, m3, n4, m4, cap);
    n, r := n1 + n2 + 1 + n4, m4;
  }

  lemma {:induction false} SimSeq(ss: seq<Stmt>, fuel: nat, names: seq<string>, all: seq<string>, env: Env,
                                  m: State, cap: nat)
    returns (n: nat, r: State)
    requires Placed(m, names, NamesSeq(ss, names), all, env, NeedSeq(ss), cap)
    requires SeqOk(ss, m.ip, names) && CodeAt(m.code, m.ip, GenSeq(ss, m.ip, names))
    ensures Shape(r) && Good(r, cap) && Reaches(m, n, r, cap)
    ensures Matches(ExecSeq(ss, fuel, env, m.out), m, m.ip + |GenSeq(ss, m.ip, names)|, fuel, all, n, r)
    decreases fuel, ss, 0
  {
    hide Reaches, Boundary, Agree, Distinct, CodeAt, ExecStmt, GenStmt, StmtOk, NeedStmt, NamesStmt;
    if ss == [] {
      ReachesSelf(m, cap);
      return 0, m;
    }
    var first, table := GenStmt(ss[0], m.ip, names), NamesStmt(ss[0], names);
    CodeSplit(m.code, m.ip, first, GenSeq(ss[1..], m.ip + |first|, table));
    NamesStmtExtend(ss[0], names);
    NamesSeqExtend(ss[1..], table);
    var n1, m1 := SimStmt(ss[0], fuel, names, all, env, m, cap);
    var res := ExecStmt(ss[0], fuel, env, m.out);
    if !res.Done? { return n1, m1; }
    var n2, m2 := SimSeq(ss[1..], fuel, table, all, res.env, m1, cap);
    ReachesTrans(m, n1, m1, n2, m2, cap);
    n, r := n1 + n2, m2;
  }
}
