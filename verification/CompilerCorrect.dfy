/** The main theorems about bytecode-vm: compiled programs mean what their source means, end
    exactly when it ends, and never leave the code or the stack.  The last part shows when
    literals, names, jumps and the stack come out right, behind any program. */
module CompilerCorrect {
  import opened Wrappers
  import opened Syntax
  import opened Semantics
  import opened Machine
  import opened CodeGen
  import opened Simulation

  /** The machine just started on the compiled program. */
  function Start(ss: seq<Stmt>): (m: State)
    ensures Shape(m)
  {
    Boot(Compile(ss))
  }

  /** The machine `r`, reached after `n` passes, stands as the source result `res` says. */
  ghost predicate Agrees(ss: seq<Stmt>, res: Result, fuel: nat, n: nat, r: State) {
    && r.out == res.out
    && match res
       case Done(env, _) => r.status.Halted? && r.stack == [] && Agree(env, r.globals, NamesSeq(ss, []))
       case Stopped(t, _) => r.status == Trapped(t)
       case Timeout(_) => r.status.Running? && n >= fuel
  }

  lemma HaltReached(r: State, cap: nat)
    requires Ready(r, cap) && r.code[r.ip] == OP_HALT
    ensures Reaches(r, 1, r.(ip := r.ip + 1, status := Halted), cap)
  {
    ReachesStep(r, r.(ip := r.ip + 1, status := Halted), cap);
  }

  /** Each observation of the source run has its counterpart in the machine. */
  lemma Simulates(ss: seq<Stmt>, fuel: nat) returns (n: nat)
    requires Compilable(ss)
    ensures Safe(Start(ss), n, NeedSeq(ss))
    ensures Agrees(ss, Exec(ss, fuel), fuel, n, Run(Start(ss), n))
  {
    var m, all, cap := Start(ss), NamesSeq(ss, []), NeedSeq(ss);
    NamesSeqExtend(ss, []);
    assert CodeAt(m.code, 0, GenSeq(ss, 0, []));
    assert Agree(map[], m.globals, all);
    var r: State;
    n, r := SimSeq(ss, fuel, [], all, map[], m, cap);
    if Exec(ss, fuel).Done? {
      assert m.code[r.ip] == OP_HALT;
      hide Step, Compilable, Exec, Agree;
      HaltReached(r, cap);
      ReachesTrans(m, n, r, 1, r.(ip := r.ip + 1, status := Halted), cap);
      n := n + 1;
    }
  }

  /** A source run that ends is reproduced: same printed values, and either a halt with every
      variable's slot holding its source value (all other slots zero), or the same trap. */
  lemma SemanticPreservation(ss: seq<Stmt>, fuel: nat)
    requires Compilable(ss) && !Exec(ss, fuel).Timeout?
    ensures exists n :: !Run(Start(ss), n).status.Running? && Agrees(ss, Exec(ss, fuel), fuel, n, Run(Start(ss), n))
  {
    var n := Simulates(ss, fuel);
    assert !Run(Start(ss), n).status.Running?;
  }

  /** Conversely every stop of the machine is the end of the source run, with the same result. */
  lemma StopsAreSourceEnds(ss: seq<Stmt>, n: nat)
    requires Compilable(ss) && !Run(Start(ss), n).status.Running?
    ensures !Exec(ss, n + 1).Timeout?
    ensures Agrees(ss, Exec(ss, n + 1), n + 1, n, Run(Start(ss), n))
  {
    hide Step, Start, Exec, Compilable;
    var m := Start(ss);
    var k := Simulates(ss, n + 1);
    if k >= n {
      RunAdd(m, n, k - n);
      RunStopped(Run(m, n), k - n);
    } else {
      RunAdd(m, k, n - k);
      RunStopped(Run(m, k), n - k);
    }
  }

  /** The machine stops exactly when the source run ends. */
  lemma TerminationEquivalence(ss: seq<Stmt>)
    requires Compilable(ss)
    ensures Ends(ss) <==> exists n :: !Run(Start(ss), n).status.Running?
  {
    if Ends(ss) {
      var fuel: nat :| !Exec(ss, fuel).Timeout?;
      SemanticPreservation(ss, fuel);
    }
    if n: nat :| !Run(Start(ss), n).status.Running? {
      StopsAreSourceEnds(ss, n);
    }
  }

  /** A program that never ends runs forever on the machine, which by then has printed exactly
      what any given observation of the source run has printed. */
  lemma DivergenceMatchesPrefixes(ss: seq<Stmt>, fuel: nat)
    requires Compilable(ss) && !Ends(ss)
    ensures forall n :: Run(Start(ss), n).status.Running?
    ensures exists n: nat :: n >= fuel && Run(Start(ss), n).out == Exec(ss, fuel).out
  {
    TerminationEquivalence(ss);
    var n := Simulates(ss, fuel);
    assert Exec(ss, fuel).Timeout?;
  }

  /** Nothing the machine prints is foreign: at every pass its output is a prefix of what the
      source run has printed by some observation. */
  lemma OutputIsSourcePrefix(ss: seq<Stmt>, n: nat)
    requires Compilable(ss)
    ensures exists fuel: nat :: Run(Start(ss), n).out <= Exec(ss, fuel).out
  {
    hide Step, Start, Exec, Compilable;
    var m := Start(ss);
    var k := Simulates(ss, n);
    if k >= n {
      RunAdd(m, n, k - n);
      OutputGrows(Run(m, n), k - n);
    } else {
      RunAdd(m, k, n - k);
      RunStopped(Run(m, k), n - k);
    }
    assert Run(m, n).out <= Exec(ss, n).out;
  }

  /** At every pass of every run: an instruction boundary inside the emitted code, no more stack
      than the deepest expression needs, an unused call stack, and none of the overflow,
      underflow and unknown-opcode exits. */
  lemma AlwaysSafe(ss: seq<Stmt>, k: nat)
    requires Compilable(ss)
    ensures Good(Run(Start(ss), k), NeedSeq(ss))
  {
    hide Step, Start, Exec, Compilable, Boundary;
    var m := Start(ss);
    var n := Simulates(ss, k);
    if k <= n {
      SafeAt(m, n, k, NeedSeq(ss));
    } else {
      SafeAt(m, n, n, NeedSeq(ss));
      RunAdd(m, n, k - n);
      RunStopped(Run(m, n), k - n);
    }
  }

  /** For code that fits 256 bytes only the tree needs checking, and 85 slots always do. */
  lemma SmallProgramsAreSafe(ss: seq<Stmt>, k: nat)
    requires WellUsedSeq(ss, []) && |Compile(ss)| <= 256
    ensures Good(Run(Start(ss), k), 85)
  {
    SmallProgramsCompile(ss);
    AlwaysSafe(ss, k);
  }

  // ----- the conditions are exact -----

  /** The machine has run the code of `pre` and is about to fetch what follows. */
  ghost predicate Behind(pre: seq<Stmt>, fuel: nat, r: State) {
    && Ready(r, STACK_SIZE) && r.stack == [] && r.ip == |GenSeq(pre, 0, [])|
    && Exec(pre, fuel).Done? && r.out == Exec(pre, fuel).out
    && Agree(Exec(pre, fuel).env, r.globals, NamesSeq(pre, []))
  }

  /** The machine right behind the code of a program that ends normally, when more code follows and
      more names may. */
  lemma PrefixRunFor(pre: seq<Stmt>, all: seq<string>, tail: seq<byte>, fuel: nat) returns (n: nat, r: State)
    requires Compilable(pre) && Exec(pre, fuel).Done? && tail != []
    requires NamesSeq(pre, []) <= all && Distinct(all) && |all| <= GLOBALS
    ensures var m := Boot(GenSeq(pre, 0, []) + tail); Run(m, n) == r && r.code == m.code == GenSeq(pre, 0, []) + tail
    ensures Ready(r, STACK_SIZE) && r.stack == [] && r.ip == |GenSeq(pre, 0, [])|
    ensures r.out == Exec(pre, fuel).out && Agree(Exec(pre, fuel).env, r.globals, all)
  {
    var m := Boot(GenSeq(pre, 0, []) + tail);
    assert CodeAt(m.code, 0, GenSeq(pre, 0, []));
    assert Agree(map[], m.globals, all);
    n, r := SimSeq(pre, fuel, [], all, map[], m, STACK_SIZE);
  }

  /** The same for the names so far. */
  lemma PrefixRun(pre: seq<Stmt>, tail: seq<byte>, fuel: nat) returns (n: nat, r: State)
    requires Compilable(pre) && Exec(pre, fuel).Done? && tail != []
    ensures var m := Boot(GenSeq(pre, 0, []) + tail); Run(m, n) == r && r.code == m.code == GenSeq(pre, 0, []) + tail
    ensures Behind(pre, fuel, r) && Shape(r) && r.status.Running? && r.stack == []
    ensures r.ip == |GenSeq(pre, 0, [])| && r.out == Exec(pre, fuel).out
  {
    NamesSeqExtend(pre, []);
    hide Step, Run, Exec, GenSeq, NamesSeq, NeedSeq, SeqOk;
    n, r := PrefixRunFor(pre, NamesSeq(pre, []), tail, fuel);
  }

  lemma CompileSnoc(pre: seq<Stmt>, s: Stmt)
    ensures var pos, names := |GenSeq(pre, 0, [])|, NamesSeq(pre, []);
            Compile(pre + [s]) == GenSeq(pre, 0, []) + (GenStmt(s, pos, names) + [OP_HALT])
  {
    hide GenSeq, GenStmt, NamesSeq;
    GenAppend(pre, [s], 0, []);
    GenOne(s, |GenSeq(pre, 0, [])|, NamesSeq(pre, []));
  }

  lemma StartSnoc(pre: seq<Stmt>, s: Stmt)
    ensures var pos, names := |GenSeq(pre, 0, [])|, NamesSeq(pre, []);
            && Compile(pre + [s]) == GenSeq(pre, 0, []) + (GenStmt(s, pos, names) + [OP_HALT])
            && Start(pre + [s]) == Boot(GenSeq(pre, 0, []) + (GenStmt(s, pos, names) + [OP_HALT]))
  {
    CompileSnoc(pre, s);
    hide GenSeq, GenStmt, NamesSeq, Compile, Boot;
  }

  /** What the source does with one statement more. */
  lemma ExecSnoc(pre: seq<Stmt>, s: Stmt, fuel: nat)
    requires Exec(pre, fuel).Done?
    ensures Exec(pre + [s], fuel) == ExecStmt(s, fuel, Exec(pre, fuel).env, Exec(pre, fuel).out)
  {
    ExecAppend(pre, [s], fuel, map[], []);
    ExecOne(s, fuel, Exec(pre, fuel).env, Exec(pre, fuel).out);
    hide ExecSeq, ExecStmt;
  }

  lemma LiteralCode(v: int, pos: nat, names: seq<string>)
    ensures GenStmt(Print(Num(v)), pos, names) + [OP_HALT] == [OP_PUSH, Low(v), OP_PRINT, OP_HALT]
    ensures Low(v) == v % 256 && (Low(v) == v <==> 0 <= v < 256)
  {
  }

  lemma EvalLiteral(v: int, env: Env)
    ensures Eval(Num(v), env) == Ok(v)
  {
  }

  lemma PrintSource(pre: seq<Stmt>, e: Expr, v: int, fuel: nat)
    requires Exec(pre, fuel).Done? && Eval(e, Exec(pre, fuel).env) == Ok(v)
    ensures Exec(pre + [Print(e)], fuel).out == Exec(pre, fuel).out + [v]
  {
    ExecSnoc(pre, Print(e), fuel);
    hide Exec, Eval;
  }

  lemma OneMore(out: seq<int>, a: int, b: int)
    ensures out + [a] == out + [b] <==> a == b
    ensures out != out + [a]
  {
    assert (out + [a])[|out|] == a && (out + [b])[|out|] == b;
  }

  /** The bytes ahead of a machine that stands behind `front`. */
  lemma TailByte(r: State, front: seq<byte>, tail: seq<byte>)
    requires r.code == front + tail && r.ip == |front|
    ensures forall i :: 0 <= i < |tail| ==> r.code[r.ip + i] == tail[i]
    ensures |r.code| == r.ip + |tail|
  {
  }

  lemma PrintHalt(m: State, v: int)
    requires Shape(m) && m.status.Running? && m.stack == [v]
    requires m.ip + 2 <= |m.code| && m.code[m.ip] == OP_PRINT && m.code[m.ip + 1] == OP_HALT
    ensures Run(m, 2).status.Halted? && Run(m, 2).out == m.out + [v]
  {
    var m1 := Step(m);
    assert m1 == m.(ip := m.ip + 1, stack := [], out := m.out + [v]);
    var m2 := Step(m1);
    assert m2.status.Halted? && m2.out == m.out + [v];
    hide Step;
    assert Run(m, 2) == Run(m1, 1) == Run(m2, 0);
  }

  lemma PushPrintHalt(m: State, b: byte)
    requires Shape(m) && m.status.Running? && m.stack == [] && m.ip + 4 <= |m.code|
    requires m.code[m.ip] == OP_PUSH && m.code[m.ip + 1] == b
    requires m.code[m.ip + 2] == OP_PRINT && m.code[m.ip + 3] == OP_HALT
    ensures Run(m, 3).status.Halted? && Run(m, 3).out == m.out + [b]
  {
    var m1 := Step(m);
    assert m1 == m.(ip := m.ip + 2, stack := [b]);
    hide Step;
    PrintHalt(m1, b);
    assert Run(m, 3) == Run(m1, 2);
  }

  /** After any program that ends, a literal is printed as written exactly when it fits a byte. */
  lemma LiteralExact(pre: seq<Stmt>, fuel: nat, v: int) returns (n: nat)
    requires Compilable(pre) && Exec(pre, fuel).Done?
    ensures var ss := pre + [Print(Num(v))];
            && Run(Start(ss), n).status.Halted?
            && Run(Start(ss), n).out == Exec(pre, fuel).out + [v % 256]
            && (Run(Start(ss), n).out == Exec(ss, fuel).out <==> 0 <= v < 256)
  {
    hide *;
    var ss, front, tail := pre + [Print(Num(v))], GenSeq(pre, 0, []), [OP_PUSH, Low(v), OP_PRINT, OP_HALT];
    StartSnoc(pre, Print(Num(v)));
    LiteralCode(v, |front|, NamesSeq(pre, []));
    EvalLiteral(v, Exec(pre, fuel).env);
    PrintSource(pre, Num(v), v, fuel);
    var k, r := PrefixRun(pre, tail, fuel);
    TailByte(r, front, tail);
    PushPrintHalt(r, Low(v));
    RunAdd(Start(ss), k, 3);
    n := k + 3;
    OneMore(Exec(pre, fuel).out, Low(v), v);
  }

  lemma EvalName(x: string, env: Env)
    ensures Eval(Ident(x), env) == Ok(Lookup(env, x))
  {
  }

  lemma NameCode(x: string, pos: nat, names: seq<string>)
    ensures GenStmt(Print(Ident(x)), pos, names) + [OP_HALT] ==
            if x in names then [OP_LOAD, Low(Slot(names, x)), OP_PRINT, OP_HALT] else [OP_LOAD, OP_PRINT, OP_HALT]
  {
  }

  lemma AgreeAt(env: Env, globals: seq<int>, all: seq<string>, i: nat)
    requires Agree(env, globals, all) && i < |all|
    ensures i < GLOBALS == |globals| && globals[i] == Lookup(env, all[i])
  {
    hide Lookup;
  }

  lemma BehindAgrees(pre: seq<Stmt>, fuel: nat, r: State)
    requires Behind(pre, fuel, r)
    ensures Agree(Exec(pre, fuel).env, r.globals, NamesSeq(pre, []))
  {
  }

  lemma SlotHolds(pre: seq<Stmt>, fuel: nat, r: State, x: string)
    requires Behind(pre, fuel, r) && x in NamesSeq(pre, [])
    ensures var slot := Slot(NamesSeq(pre, []), x);
            Low(slot) == slot < GLOBALS == |r.globals| && r.globals[slot] == Lookup(Exec(pre, fuel).env, x)
  {
    BehindAgrees(pre, fuel, r);
    hide Behind, Exec, GenSeq, NamesSeq, Lookup;
    AgreeAt(Exec(pre, fuel).env, r.globals, NamesSeq(pre, []), Slot(NamesSeq(pre, []), x));
  }

  lemma LoadPrintHalt(m: State, slot: nat)
    requires Shape(m) && m.status.Running? && m.stack == [] && m.ip + 4 <= |m.code| && slot < GLOBALS
    requires m.code[m.ip] == OP_LOAD && m.code[m.ip + 1] == slot
    requires m.code[m.ip + 2] == OP_PRINT && m.code[m.ip + 3] == OP_HALT
    ensures Run(m, 3).status.Halted? && Run(m, 3).out == m.out + [m.globals[slot]]
  {
    var m1 := Step(m);
    assert m1 == m.(ip := m.ip + 2, stack := [m.globals[slot]]);
    hide Step;
    PrintHalt(m1, m.globals[slot]);
    assert Run(m, 3) == Run(m1, 2);
  }

  lemma LoadSwallows(m: State)
    requires Shape(m) && m.status.Running? && m.stack == [] && m.ip + 3 <= |m.code|
    requires m.code[m.ip] == OP_LOAD && m.code[m.ip + 1] == OP_PRINT && m.code[m.ip + 2] == OP_HALT
    ensures Run(m, 2).status.Halted? && Run(m, 2).out == m.out
  {
    var m1 := Step(m);
    assert m1 == m.(ip := m.ip + 2, stack := [m.globals[OP_PRINT]]);
    var m2 := Step(m1);
    assert m2.status.Halted? && m2.out == m.out;
    hide Step;
    assert Run(m, 2) == Run(m1, 1) == Run(m2, 0);
  }

  lemma SlotRun(pre: seq<Stmt>, fuel: nat, x: string) returns (n: nat)
    requires Compilable(pre) && Exec(pre, fuel).Done? && x in NamesSeq(pre, [])
    ensures var slot := Slot(NamesSeq(pre, []), x);
            var r := Run(Boot(GenSeq(pre, 0, []) + [OP_LOAD, Low(slot), OP_PRINT, OP_HALT]), n);
            r.status.Halted? && r.out == Exec(pre, fuel).out + [Lookup(Exec(pre, fuel).env, x)]
  {
    hide *;
    var slot, front := Slot(NamesSeq(pre, []), x), GenSeq(pre, 0, []);
    var tail := [OP_LOAD, Low(slot), OP_PRINT, OP_HALT];
    var k, r := PrefixRun(pre, tail, fuel);
    TailByte(r, front, tail);
    SlotHolds(pre, fuel, r, x);
    LoadPrintHalt(r, slot);
    RunAdd(Boot(front + tail), k, 3);
    n := k + 3;
  }

  lemma NoSlotRun(pre: seq<Stmt>, fuel: nat) returns (n: nat)
    requires Compilable(pre) && Exec(pre, fuel).Done?
    ensures var r := Run(Boot(GenSeq(pre, 0, []) + [OP_LOAD, OP_PRINT, OP_HALT]), n);
            r.status.Halted? && r.out == Exec(pre, fuel).out
  {
    hide *;
    var front, tail := GenSeq(pre, 0, []), [OP_LOAD, OP_PRINT, OP_HALT];
    var k, r := PrefixRun(pre, tail, fuel);
    TailByte(r, front, tail);
    LoadSwallows(r);
    RunAdd(Boot(front + tail), k, 2);
    n := k + 2;
  }

  /** After any program that ends, reading a name works exactly when it has a slot; otherwise the
      load swallows the next opcode and nothing is printed. */
  lemma NameReadExact(pre: seq<Stmt>, fuel: nat, x: string) returns (n: nat)
    requires Compilable(pre) && Exec(pre, fuel).Done?
    ensures var ss := pre + [Print(Ident(x))];
            && Run(Start(ss), n).status.Halted?
            && Exec(ss, fuel).out == Exec(pre, fuel).out + [Lookup(Exec(pre, fuel).env, x)]
            && Run(Start(ss), n).out == (if x in NamesSeq(pre, []) then Exec(ss, fuel).out else Exec(pre, fuel).out)
            && (Run(Start(ss), n).out == Exec(ss, fuel).out <==> x in NamesSeq(pre, []))
  {
    hide *;
    var names, v := NamesSeq(pre, []), Lookup(Exec(pre, fuel).env, x);
    var ss, front := pre + [Print(Ident(x))], GenSeq(pre, 0, []);
    StartSnoc(pre, Print(Ident(x)));
    EvalName(x, Exec(pre, fuel).env);
    PrintSource(pre, Ident(x), v, fuel);
    NameCode(x, |front|, names);
    if x in names {
      n := SlotRun(pre, fuel, x);
    } else {
      n := NoSlotRun(pre, fuel);
      OneMore(Exec(pre, fuel).out, v, v);
    }
  }

  /** An expression's code has run. */
  lemma TestRun(pre: seq<Stmt>, fuel: nat, c: Expr, v: int, r: State, front: seq<byte>, more: seq<byte>)
    returns (n: nat, q: State)
    requires Behind(pre, fuel, r) && more != [] && r.ip == |front|
    requires r.code == front + (GenExpr(c, NamesSeq(pre, [])) + more)
    requires ExprOk(c, NamesSeq(pre, [])) && Need(c) <= STACK_SIZE && Eval(c, Exec(pre, fuel).env) == Ok(v)
    ensures Run(r, n) == q == r.(ip := r.ip + |GenExpr(c, NamesSeq(pre, []))|, stack := [v]) && Shape(q)
  {
    var names := NamesSeq(pre, []);
    var test := GenExpr(c, names);
    assert r.code[r.ip..r.ip + |test|] == test;
    n, q := SimExpr(c, names, names, Exec(pre, fuel).env, r, STACK_SIZE);
  }

  lemma SkipCode(s: Stmt, pos: nat, names: seq<string>) returns (rest: seq<byte>)
    requires s.If? || s.While?
    ensures rest != [] && rest[|rest| - 1] == OP_HALT
    ensures var end := pos + |GenStmt(s, pos, names)|;
            GenStmt(s, pos, names) + [OP_HALT] == GenExpr(s.cond, names) + ([OP_JMP_IF_FALSE, Low(end)] + rest)
  {
    var test := GenExpr(s.cond, names);
    var block := GenSeq(s.body, pos + |test| + 2, names);
    rest := (if s.If? then block else block + [OP_JMP, Low(pos)]) + [OP_HALT];
    hide GenExpr, GenSeq;
  }

  lemma SkipLands(m: State, target: byte)
    requires Shape(m) && m.status.Running? && m.stack == [0]
    requires m.ip + 2 <= |m.code| && m.code[m.ip] == OP_JMP_IF_FALSE && m.code[m.ip + 1] == target
    ensures Run(m, 1) == m.(ip := target, stack := [])
  {
    assert Run(m, 1) == Step(m);
  }

  /** The run up to the landing. */
  lemma SkipRun(pre: seq<Stmt>, fuel: nat, s: Stmt) returns (n: nat, r: State)
    requires Compilable(pre) && Exec(pre, fuel).Done? && (s.If? || s.While?)
    requires ExprOk(s.cond, NamesSeq(pre, [])) && Need(s.cond) <= STACK_SIZE
    requires Eval(s.cond, Exec(pre, fuel).env) == Ok(0)
    ensures var front := GenSeq(pre, 0, []);
            var whole := front + (GenStmt(s, |front|, NamesSeq(pre, [])) + [OP_HALT]);
            && Run(Boot(whole), n) == r && Shape(r) && r.code == whole && r.ip == Low(|whole| - 1)
            && r.status.Running? && r.stack == [] && r.out == Exec(pre, fuel).out
            && Agree(Exec(pre, fuel).env, r.globals, NamesSeq(pre, []))
            && |whole| > 0 && whole[|whole| - 1] == OP_HALT
  {
    hide *;
    var names, front := NamesSeq(pre, []), GenSeq(pre, 0, []);
    var test, end := GenExpr(s.cond, names), |front| + |GenStmt(s, |front|, names)|;
    var rest := SkipCode(s, |front|, names);
    var jump := [OP_JMP_IF_FALSE, Low(end)] + rest;
    var k, m := PrefixRun(pre, test + jump, fuel);
    var j, q := TestRun(pre, fuel, s.cond, 0, m, front, jump);
    Regroup(front, test, jump);
    TailByte(q, front + test, jump);
    SkipLands(q, Low(end));
    r := q.(ip := Low(end), stack := []);
    RunAdd(Boot(front + (test + jump)), k, j);
    RunAdd(Boot(front + (test + jump)), k + j, 1);
    n := k + j + 1;
    BehindAgrees(pre, fuel, m);
  }

  lemma SkipSource(pre: seq<Stmt>, s: Stmt, fuel: nat)
    requires Exec(pre, fuel).Done? && (s.If? || s.While?) && Eval(s.cond, Exec(pre, fuel).env) == Ok(0)
    ensures Exec(pre + [s], fuel) == Exec(pre, fuel)
  {
    ExecSnoc(pre, s, fuel);
    hide Exec, Eval;
  }

  lemma LowExact(x: nat)
    ensures Low(x) == x <==> x < 256
  {
  }

  lemma HaltStep(m: State)
    requires Shape(m) && m.status.Running? && m.ip < |m.code| && m.code[m.ip] == OP_HALT
    ensures Run(m, 1) == m.(ip := m.ip + 1, status := Halted)
  {
    assert Run(m, 1) == Step(m);
  }

  /** After any program that ends, an `if` or `while` whose condition is zero lands right behind
      itself exactly when that address fits a byte; then the program halts there, as the source
      does. */
  lemma SkipExact(pre: seq<Stmt>, fuel: nat, s: Stmt) returns (n: nat)
    requires Compilable(pre) && Exec(pre, fuel).Done? && (s.If? || s.While?)
    requires ExprOk(s.cond, NamesSeq(pre, [])) && Need(s.cond) <= STACK_SIZE
    requires Eval(s.cond, Exec(pre, fuel).env) == Ok(0)
    ensures var ss := pre + [s];
            var r := Run(Start(ss), n);
            && Exec(ss, fuel) == Exec(pre, fuel)
            && r.status.Running? && r.stack == [] && r.out == Exec(pre, fuel).out
            && Agree(Exec(pre, fuel).env, r.globals, NamesSeq(pre, []))
            && (r.ip == |Compile(ss)| - 1 <==> |Compile(ss)| <= 256)
            && (|Compile(ss)| <= 256 ==> Run(Start(ss), n + 1) == r.(ip := r.ip + 1, status := Halted))
  {
    hide *;
    var ss, front := pre + [s], GenSeq(pre, 0, []);
    var end := |front| + |GenStmt(s, |front|, NamesSeq(pre, []))|;
    StartSnoc(pre, s);
    SkipSource(pre, s, fuel);
    LowExact(end);
    var r: State;
    n, r := SkipRun(pre, fuel, s);
    if end < 256 {
      RunAdd(Start(ss), n, 1);
      HaltStep(r);
    }
  }

  lemma FragmentAt(front: seq<byte>, frag: seq<byte>, tail: seq<byte>)
    requires tail != []
    ensures CodeAt(front + (frag + tail), |front|, frag)
  {
  }

  lemma JumpLands(m: State, target: byte)
    requires Shape(m) && m.status.Running? && CodeAt(m.code, m.ip, [OP_JMP, target])
    ensures Run(m, 1) == m.(ip := target)
  {
    CodeByte(m.code, m.ip, [OP_JMP, target], 0);
    CodeByte(m.code, m.ip, [OP_JMP, target], 1);
    assert Run(m, 1) == Step(m);
  }

  /** A loop whose test gives `v`, and whose body ends normally from there. */
  ghost predicate Turns(s: Stmt, v: int, fuel: nat, pos: nat, names: seq<string>, env: Env, out: seq<int>) {
    && s.While? && v != 0 && ExprOk(s.cond, names) && Need(s.cond) <= STACK_SIZE && Eval(s.cond, env) == Ok(v)
    && SeqOk(s.body, pos + |GenExpr(s.cond, names)| + 2, names) && NeedSeq(s.body) <= STACK_SIZE
    && ExecSeq(s.body, fuel, env, out).Done?
  }

  /** The test of a loop that is entered, and the jump behind it, which is not taken. */
  lemma EnterRun(s: Stmt, v: int, names: seq<string>, all: seq<string>, env: Env, r: State)
    returns (n: nat, q: State)
    requires s.While? && v != 0 && ExprOk(s.cond, names) && Need(s.cond) <= STACK_SIZE && Eval(s.cond, env) == Ok(v)
    requires Ready(r, STACK_SIZE) && r.stack == [] && names <= all && Agree(env, r.globals, all)
    requires CodeAt(r.code, r.ip, GenStmt(s, r.ip, names))
    ensures Reaches(r, n, q, STACK_SIZE) && Ready(q, STACK_SIZE)
    ensures q == r.(ip := r.ip + |GenExpr(s.cond, names)| + 2)
  {
    hide Reaches, CodeAt, GenStmt, GenExpr, ExprOk, Agree, Boundary;
    var end := Low(r.ip + |GenStmt(s, r.ip, names)|);
    SplitWhile(r.code, r.ip, s, names);
    var k, m := SimExpr(s.cond, names, all, env, r, STACK_SIZE);
    BranchStep(m, v, end, STACK_SIZE);
    q := m.(ip := m.ip + 2, stack := []);
    ReachesTrans(r, k, m, 1, q, STACK_SIZE);
    n := k + 1;
  }

  lemma ReachedThen(m: State, n1: nat, m1: State, n2: nat)
    requires Shape(m) && Shape(m1) && Reaches(m, n1, m1, STACK_SIZE)
    ensures Run(m, n1 + n2) == Run(m1, n2)
  {
    RunAdd(m, n1, n2);
  }

  /** One turn of a loop, up to where its back jump lands. */
  lemma TurnRun(s: Stmt, v: int, fuel: nat, names: seq<string>, env: Env, r: State) returns (n: nat, q: State)
    requires Turns(s, v, fuel, r.ip, names, env, r.out)
    requires Ready(r, STACK_SIZE) && r.stack == [] && CodeAt(r.code, r.ip, GenStmt(s, r.ip, names))
    requires names <= NamesSeq(s.body, names) && Distinct(NamesSeq(s.body, names))
    requires Agree(env, r.globals, NamesSeq(s.body, names))
    ensures var res := ExecSeq(s.body, fuel, env, r.out);
            && Run(r, n) == q && Shape(q) && q.code == r.code && q.status.Running? && q.stack == []
            && q.out == res.out && Agree(res.env, q.globals, NamesSeq(s.body, names)) && q.ip == Low(r.ip)
  {
    hide Reaches, CodeAt, GenStmt, GenExpr, ExprOk, SeqOk, Agree, Boundary, Step, Run, ExecSeq, GenSeq, NamesSeq;
    var all := NamesSeq(s.body, names);
    SplitWhile(r.code, r.ip, s, names);
    var k, m := EnterRun(s, v, names, all, env, r);
    var j, m2 := SimSeq(s.body, fuel, names, all, env, m, STACK_SIZE);
    JumpLands(m2, Low(r.ip));
    ReachedThen(r, k, m, j);
    ReachedThen(m, j, m2, 1);
    ReachedThen(r, k, m, j + 1);
    n := k + (j + 1);
    q := m2.(ip := Low(r.ip));
  }

  lemma BodyNames(pre: seq<Stmt>, body: seq<Stmt>)
    ensures var names := NamesSeq(pre, []); names <= NamesSeq(body, names) && Distinct(NamesSeq(body, names))
  {
    NamesSeqExtend(pre, []);
    NamesSeqExtend(body, NamesSeq(pre, []));
    hide NamesSeq;
  }

  /** After any program that ends, one turn of a `while` that is entered and whose body ends leaves
      the source's output and variables, and comes back to its test exactly when the address of that
      fits a byte. */
  lemma BackJumpExact(pre: seq<Stmt>, fuel: nat, s: Stmt, v: int) returns (n: nat)
    requires Compilable(pre) && Exec(pre, fuel).Done? && s.While?
    requires Turns(s, v, fuel, |GenSeq(pre, 0, [])|, NamesSeq(pre, []), Exec(pre, fuel).env, Exec(pre, fuel).out)
    requires |NamesSeq(s.body, NamesSeq(pre, []))| <= GLOBALS
    ensures var pos, names := |GenSeq(pre, 0, [])|, NamesSeq(pre, []);
            var res := ExecSeq(s.body, fuel, Exec(pre, fuel).env, Exec(pre, fuel).out);
            var r := Run(Start(pre + [s]), n);
            && r.status.Running? && r.stack == [] && r.out == res.out
            && Agree(res.env, r.globals, NamesSeq(s.body, names))
            && r.ip == Low(pos) && (r.ip == pos <==> pos < 256)
  {
    hide *;
    var front, names := GenSeq(pre, 0, []), NamesSeq(pre, []);
    BodyNames(pre, s.body);
    var frag, all := GenStmt(s, |front|, names), NamesSeq(s.body, names);
    StartSnoc(pre, s);
    LowExact(|front|);
    var k, m := PrefixRunFor(pre, all, frag + [OP_HALT], fuel);
    FragmentAt(front, frag, [OP_HALT]);
    var j, q := TurnRun(s, v, fuel, names, Exec(pre, fuel).env, m);
    RunAdd(Start(pre + [s]), k, j);
    n := k + j;
  }

  lemma LandsOnOperand(m: State)
    requires Shape(m) && m.status.Running? && m.stack == [] && m.ip == 0 && |m.code| > 3
    requires m.code[0] == OP_PUSH && m.code[1] == 0 && m.code[2] == OP_JMP_IF_FALSE && m.code[3] == 3
    ensures Run(m, 3).status.StackUnderflow?
  {
    var m1 := Step(m);
    assert m1 == m.(ip := 2, stack := [0]);
    var m2 := Step(m1);
    assert m2 == m.(ip := 3, stack := []) && m2.code[3] == OP_ADD;
    var m3 := Step(m2);
    assert m3.status.StackUnderflow?;
    hide Step;
    assert Run(m, 3) == Run(m1, 2) == Run(m2, 1) == Run(m3, 0);
  }

  /** A wrong landing may by luck do no harm.  It does here: code of 260 bytes that skips its body
      lands on the operand of its own jump, which reads as OP_ADD, and leaves through the underflow
      exit where the source ends normally. */
  lemma JumpTooFar(s: Stmt)
    requires (s.If? || s.While?) && s.cond == Num(0) && |Compile([s])| == 260
    ensures Exec([s], 0) == Done(map[], [])
    ensures Run(Start([s]), 3).status.StackUnderflow?
  {
    GenOne(s, 0, []);
    ExecOne(s, 0, map[], []);
    var rest := SkipCode(s, 0, []);
    assert Compile([s]) == [OP_PUSH, 0] + ([OP_JMP_IF_FALSE, Low(259)] + rest);
    hide GenStmt, GenSeq, Compile, Step, Run;
    LandsOnOperand(Start([s]));
  }

  function Prints(k: nat): seq<Stmt> {
    if k == 0 then [] else [Print(Num(1))] + Prints(k - 1)
  }

  lemma {:induction false} PrintsSize(k: nat, pos: nat, names: seq<string>)
    ensures |GenSeq(Prints(k), pos, names)| == 3 * k && NamesSeq(Prints(k), names) == names
    ensures SeqOk(Prints(k), pos, names) && NeedSeq(Prints(k)) <= 1
  {
    if k > 0 {
      assert Prints(k)[1..] == Prints(k - 1);
      PrintsSize(k - 1, pos + 3, names);
    }
  }

  lemma {:induction false} PrintsRun(k: nat, fuel: nat, env: Env, out: seq<int>)
    ensures ExecSeq(Prints(k), fuel, env, out).Done? && ExecSeq(Prints(k), fuel, env, out).env == env
  {
    if k > 0 {
      assert Prints(k)[1..] == Prints(k - 1);
      PrintsRun(k - 1, fuel, env, out + [1]);
    }
  }

  lemma SkipSize(body: seq<Stmt>)
    ensures |Compile([If(Num(0), body)])| == 5 + |GenSeq(body, 4, [])|
  {
    GenOne(If(Num(0), body), 0, []);
    hide GenSeq;
  }

  /** For instance `if 0 { print 1 ... print 1 }` with 85 prints. */
  lemma JumpTooFarHappens()
    ensures var ss := [If(Num(0), Prints(85))];
            Exec(ss, 0) == Done(map[], []) && Run(Start(ss), 3).status.StackUnderflow?
  {
    var s := If(Num(0), Prints(85));
    SkipSize(Prints(85));
    hide *;
    PrintsSize(85, 4, []);
    JumpTooFar(s);
  }

  /** `x = 1` and 85 prints. */
  function LongPrefix(): seq<Stmt> { [Assign("x", Num(1))] + Prints(85) }

  function Once(): Stmt { While(Ident("x"), [Assign("x", Num(0))]) }

  lemma LongPrefixParts()
    ensures LongPrefix() == [Assign("x", Num(1))] + Prints(85)
    ensures var a := Assign("x", Num(1));
            && GenStmt(a, 0, []) == [OP_PUSH, 1, OP_STORE, 0] && NamesStmt(a, []) == ["x"]
            && NeedStmt(a) == 1 && StmtOk(a, 0, [])
  {
  }

  lemma ConsFacts(s: Stmt, rest: seq<Stmt>, pos: nat, names: seq<string>)
    ensures var code, table := GenStmt(s, pos, names), NamesStmt(s, names);
            && GenSeq([s] + rest, pos, names) == code + GenSeq(rest, pos + |code|, table)
            && NamesSeq([s] + rest, names) == NamesSeq(rest, table)
            && (SeqOk([s] + rest, pos, names) <==> StmtOk(s, pos, names) && SeqOk(rest, pos + |code|, table))
            && NeedSeq([s] + rest) <= NeedStmt(s) + NeedSeq(rest)
  {
    assert ([s] + rest)[0] == s && ([s] + rest)[1..] == rest;
    hide GenStmt, NamesStmt, StmtOk, NeedStmt;
  }

  lemma MadeCompilable(ss: seq<Stmt>)
    requires SeqOk(ss, 0, []) && NeedSeq(ss) <= 256 && |NamesSeq(ss, [])| <= 256
    ensures Compilable(ss)
  {
  }

  lemma LongPrefixCode()
    ensures Compilable(LongPrefix()) && NamesSeq(LongPrefix(), []) == ["x"]
    ensures var code := GenSeq(LongPrefix(), 0, []); |code| == 259 && code[3] == 0
  {
    hide *;
    var a, b := Assign("x", Num(1)), Prints(85);
    LongPrefixParts();
    PrintsSize(85, 4, ["x"]);
    ConsFacts(a, b, 0, []);
    MadeCompilable(LongPrefix());
    assert GenSeq(LongPrefix(), 0, [])[3] == GenStmt(a, 0, [])[3];
  }

  lemma LongPrefixRun(fuel: nat)
    ensures Exec(LongPrefix(), fuel).Done? && Exec(LongPrefix(), fuel).env == map["x" := 1]
  {
    var a, b := Assign("x", Num(1)), Prints(85);
    PrintsRun(85, fuel, map["x" := 1], []);
    assert ExecStmt(a, fuel, map[], []) == Done(map["x" := 1], []);
    assert LongPrefix()[0] == a && LongPrefix()[1..] == b;
    hide Prints, ExecStmt;
  }

  lemma OnceRun(out: seq<int>)
    ensures ExecStmt(Once(), 1, map["x" := 1], out) == Done(map["x" := 0], out)
    ensures Turns(Once(), 1, 0, 259, ["x"], map["x" := 1], out) && Once().While?
    ensures NamesSeq(Once().body, ["x"]) == ["x"] && |NamesSeq(Once().body, ["x"])| <= GLOBALS
  {
    var a := Assign("x", Num(0));
    ExecOne(a, 0, map["x" := 1], out);
    assert map["x" := 1]["x" := 0] == map["x" := 0];
    assert ExecStmt(a, 0, map["x" := 1], out) == Done(map["x" := 0], out);
    assert [a][1..] == [];
    assert ExecStmt(Once(), 0, map["x" := 0], out) == Done(map["x" := 0], out);
  }

  lemma UnknownStep(m: State)
    requires Shape(m) && m.status.Running? && m.ip < |m.code| && m.code[m.ip] == 0
    ensures Run(m, 1).status.UnknownOpcode?
  {
    assert Run(m, 1) == Step(m);
  }

  lemma BootCode(code: seq<byte>)
    ensures Boot(code).code == code
  {
  }

  lemma LandingIsThree()
    ensures Low(259) == 3
  {
  }

  lemma CodeKept(m: State, n: nat, front: seq<byte>, i: nat)
    requires Shape(m) && i < |front| && front <= m.code
    ensures i < |Run(m, n).code| && Run(m, n).code[i] == front[i]
  {
  }

  /** A loop at address 259 that turns once: its back jump lands on an operand, which is no opcode, and
      the machine leaves through that exit where the source ends normally. */
  lemma BackJumpTooFarHappens() returns (n: nat)
    ensures var ss := LongPrefix() + [Once()];
            Exec(ss, 1).Done? && Run(Start(ss), n).status.UnknownOpcode?
  {
    hide *;
    var pre, s := LongPrefix(), Once();
    LongPrefixCode();
    LongPrefixRun(0);
    LongPrefixRun(1);
    OnceRun(Exec(pre, 0).out);
    OnceRun(Exec(pre, 1).out);
    ExecSnoc(pre, s, 1);
    var k := BackJumpExact(pre, 0, s, 1);
    StartSnoc(pre, s);
    BootCode(GenSeq(pre, 0, []) + (GenStmt(s, 259, ["x"]) + [OP_HALT]));
    LandingIsThree();
    var m := Run(Start(pre + [s]), k);
    CodeKept(Start(pre + [s]), k, GenSeq(pre, 0, []), 3);
    UnknownStep(m);
    RunAdd(Start(pre + [s]), k, 1);
    n := k + 1;
  }

  lemma PushOverflows(m: State, instr: seq<byte>)
    requires Ready(m, STACK_SIZE) && |m.stack| == STACK_SIZE
    requires |instr| == 2 && instr[0] in {OP_PUSH, OP_LOAD} && CodeAt(m.code, m.ip, instr)
    ensures Run(m, 1).status.StackOverflow?
  {
    CodeByte(m.code, m.ip, instr, 0);
    assert Run(m, 1) == Step(m);
  }

  /** Too little room on the stack always ends in the overflow exit. */
  lemma {:induction false} OverflowExpr(e: Expr, names: seq<string>, all: seq<string>, env: Env, m: State)
    returns (n: nat)
    requires Ready(m, STACK_SIZE) && CodeAt(m.code, m.ip, GenExpr(e, names))
    requires ExprOk(e, names) && names <= all && Agree(env, m.globals, all)
    requires Eval(e, env).Ok? && |m.stack| + Need(e) > STACK_SIZE
    ensures Run(m, n).status.StackOverflow?
    decreases e
  {
    hide Reaches, Boundary, CodeAt, Agree, Step;
    match e
    case Num(v) =>
      PushOverflows(m, GenExpr(e, names));
      n := 1;
    case Ident(x) =>
      PushOverflows(m, GenExpr(e, names));
      n := 1;
    case Bin(op, l, r) =>
      CodeSplit(m.code, m.ip, GenExpr(l, names) + GenExpr(r, names), [Opcode(op)]);
      CodeSplit(m.code, m.ip, GenExpr(l, names), GenExpr(r, names));
      if |m.stack| + Need(l) > STACK_SIZE {
        n := OverflowExpr(l, names, all, env, m);
      } else {
        var n1, m1 := SimExpr(l, names, all, env, m, STACK_SIZE);
        var n2 := OverflowExpr(r, names, all, env, m1);
        ReachedThen(m, n1, m1, n2);
        n := n1 + n2;
      }
  }

  lemma PrintCode(e: Expr, pos: nat, names: seq<string>)
    ensures GenStmt(Print(e), pos, names) + [OP_HALT] == GenExpr(e, names) + [OP_PRINT, OP_HALT]
  {
    hide GenExpr;
  }

  lemma PrintHalts(pre: seq<Stmt>, fuel: nat, e: Expr, v: int, m: State, front: seq<byte>) returns (n: nat)
    requires Behind(pre, fuel, m) && Shape(m) && m.ip == |front|
    requires ExprOk(e, NamesSeq(pre, [])) && Need(e) <= STACK_SIZE && Eval(e, Exec(pre, fuel).env) == Ok(v)
    requires m.code == front + (GenExpr(e, NamesSeq(pre, [])) + [OP_PRINT, OP_HALT]) && m.status.Running?
    ensures Run(m, n).status.Halted? && Run(m, n).out == m.out + [v]
  {
    hide *;
    var code := GenExpr(e, NamesSeq(pre, []));
    var k, q := TestRun(pre, fuel, e, v, m, front, [OP_PRINT, OP_HALT]);
    Regroup(front, code, [OP_PRINT, OP_HALT]);
    TailByte(q, front + code, [OP_PRINT, OP_HALT]);
    PrintHalt(q, v);
    RunAdd(m, k, 2);
    n := k + 2;
  }

  lemma PrintOverflows(pre: seq<Stmt>, fuel: nat, e: Expr, m: State, front: seq<byte>) returns (n: nat)
    requires Behind(pre, fuel, m) && m.ip == |front|
    requires ExprOk(e, NamesSeq(pre, [])) && Need(e) > STACK_SIZE && Eval(e, Exec(pre, fuel).env).Ok?
    requires m.code == front + (GenExpr(e, NamesSeq(pre, [])) + [OP_PRINT, OP_HALT])
    ensures Run(m, n).status.StackOverflow?
  {
    var names := NamesSeq(pre, []);
    FragmentAt(front, GenExpr(e, names), [OP_PRINT, OP_HALT]);
    hide GenSeq, NamesSeq, Exec, Step, Run, GenExpr, Agree, CodeAt, Eval, Need, ExprOk;
    n := OverflowExpr(e, names, names, Exec(pre, fuel).env, m);
  }

  /** After any program that ends, printing a well-formed expression that has a value halts with that
      value printed exactly when the expression needs no more than the 256 slots; otherwise the
      overflow exit is taken. */
  lemma StackNeedExact(pre: seq<Stmt>, fuel: nat, e: Expr) returns (n: nat)
    requires Compilable(pre) && Exec(pre, fuel).Done? && ExprOk(e, NamesSeq(pre, []))
    requires Eval(e, Exec(pre, fuel).env).Ok?
    ensures var ss, r := pre + [Print(e)], Run(Start(pre + [Print(e)]), n);
            && Exec(ss, fuel).out == Exec(pre, fuel).out + [Eval(e, Exec(pre, fuel).env).v]
            && (Need(e) <= STACK_SIZE ==> r.status.Halted? && r.out == Exec(ss, fuel).out)
            && (Need(e) > STACK_SIZE ==> r.status.StackOverflow?)
  {
    hide *;
    var ss, front, names := pre + [Print(e)], GenSeq(pre, 0, []), NamesSeq(pre, []);
    var v := Eval(e, Exec(pre, fuel).env).v;
    StartSnoc(pre, Print(e));
    PrintSource(pre, e, v, fuel);
    PrintCode(e, |front|, names);
    var k, m := PrefixRun(pre, GenExpr(e, names) + [OP_PRINT, OP_HALT], fuel);
    var j: nat;
    if Need(e) <= STACK_SIZE {
      j := PrintHalts(pre, fuel, e, v, m, front);
    } else {
      j := PrintOverflows(pre, fuel, e, m, front);
    }
    RunAdd(Start(ss), k, j);
    n := k + j;
  }
}
