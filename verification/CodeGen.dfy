/** The bytes `walk` in bytecode-vm/compiler.c produces, as pure functions of the tree, of the
    position the code starts at and of the name table so far.  They keep the quirks of the
    source: operands are cut to one byte, and reading a name without a slot emits OP_LOAD alone. */
module CodeGen {
  import opened Wrappers
  import opened Syntax
  import opened Machine

  function Low(x: int): byte { x % 256 }

  /** The first index of `x` in the table, `|names|` when there is none. */
  function Slot(names: seq<string>, x: string): (i: nat)
    ensures i <= |names| && (i < |names| <==> x in names)
    ensures i < |names| ==> names[i] == x
    ensures forall j :: 0 <= j < i ==> names[j] != x
  {
    if names == [] then 0
    else if names[0] == x then 0
    else
      var i := Slot(names[1..], x);
      assert forall j :: 0 < j < i + 1 ==> names[j] == names[1..][j - 1];
      i + 1
  }

  function Opcode(op: BinOp): byte {
    match op
    case Add => OP_ADD
    case Sub => OP_SUB
    case Mul => OP_MUL
    case Div => OP_DIV
    case Gt => OP_GT
    case Lt => OP_LT
    case EqEq => OP_EQ
  }

  function GenExpr(e: Expr, names: seq<string>): seq<byte> {
    match e
    case Num(n) => [OP_PUSH, Low(n)]
    case Ident(x) => if x in names then [OP_LOAD, Low(Slot(names, x))] else [OP_LOAD]
    case Bin(op, l, r) => GenExpr(l, names) + GenExpr(r, names) + [Opcode(op)]
  }

  /** The name table after a statement: a slot is created after the right-hand side is walked. */
  function NamesStmt(s: Stmt, names: seq<string>): seq<string>
    decreases s, 1
  {
    match s
    case Assign(x, _) => if x in names then names else names + [x]
    case Print(_) => names
    case If(_, body) => NamesSeq(body, names)
    case While(_, body) => NamesSeq(body, names)
  }

  function NamesSeq(ss: seq<Stmt>, names: seq<string>): seq<string>
    decreases ss, 0
  {
    if ss == [] then names else NamesSeq(ss[1..], NamesStmt(ss[0], names))
  }

  function GenStmt(s: Stmt, pos: nat, names: seq<string>): seq<byte>
    decreases s, 1
  {
    match s
    case Assign(x, e) => GenExpr(e, names) + [OP_STORE, Low(Slot(names, x))]
    case Print(e) => GenExpr(e, names) + [OP_PRINT]
    case If(c, body) =>
      var test := GenExpr(c, names);
      var block := GenSeq(body, pos + |test| + 2, names);
      test + [OP_JMP_IF_FALSE, Low(pos + |test| + 2 + |block|)] + block
    case While(c, body) =>
      var test := GenExpr(c, names);
      var block := GenSeq(body, pos + |test| + 2, names);
      test + [OP_JMP_IF_FALSE, Low(pos + |test| + 4 + |block|)] + block + [OP_JMP, Low(pos)]
  }

  function GenSeq(ss: seq<Stmt>, pos: nat, names: seq<string>): seq<byte>
    decreases ss, 0
  {
    if ss == [] then []
    else
      var first := GenStmt(ss[0], pos, names);
      first + GenSeq(ss[1..], pos + |first|, NamesStmt(ss[0], names))
  }

  lemma GenOne(s: Stmt, pos: nat, names: seq<string>)
    ensures GenSeq([s], pos, names) == GenStmt(s, pos, names)
    ensures NamesSeq([s], names) == NamesStmt(s, names)
  {
    assert [s][1..] == [];
  }

  /** generate_byte: the statements in order, then OP_HALT. */
  function Compile(ss: seq<Stmt>): seq<byte> {
    GenSeq(ss, 0, []) + [OP_HALT]
  }

  // ----- what the compiler needs of a program for its output to be right -----

  /** Literals fit the one operand byte, and every name read has a slot already. */
  predicate ExprOk(e: Expr, names: seq<string>) {
    match e
    case Num(n) => 0 <= n < 256
    case Ident(x) => x in names
    case Bin(_, l, r) => ExprOk(l, names) && ExprOk(r, names)
  }

  /** ... and every jump target fits its operand byte. */
  predicate StmtOk(s: Stmt, pos: nat, names: seq<string>)
    decreases s, 1
  {
    match s
    case Assign(_, e) => ExprOk(e, names)
    case Print(e) => ExprOk(e, names)
    case If(c, body) =>
      ExprOk(c, names) && SeqOk(body, pos + |GenExpr(c, names)| + 2, names) &&
      pos + |GenStmt(s, pos, names)| < 256
    case While(c, body) =>
      ExprOk(c, names) && SeqOk(body, pos + |GenExpr(c, names)| + 2, names) &&
      pos + |GenStmt(s, pos, names)| < 256
  }

  predicate SeqOk(ss: seq<Stmt>, pos: nat, names: seq<string>)
    decreases ss, 0
  {
    ss == [] ||
    (StmtOk(ss[0], pos, names) &&
     SeqOk(ss[1..], pos + |GenStmt(ss[0], pos, names)|, NamesStmt(ss[0], names)))
  }

  function Max(a: nat, b: nat): nat { if a >= b then a else b }

  /** How many stack slots evaluating the expression takes. */
  function Need(e: Expr): nat {
    match e
    case Num(_) => 1
    case Ident(_) => 1
    case Bin(_, l, r) => Max(Need(l), 1 + Need(r))
  }

  function NeedStmt(s: Stmt): nat
    decreases s, 1
  {
    match s
    case Assign(_, e) => Need(e)
    case Print(e) => Need(e)
    case If(c, body) => Max(Need(c), NeedSeq(body))
    case While(c, body) => Max(Need(c), NeedSeq(body))
  }

  function NeedSeq(ss: seq<Stmt>): nat
    decreases ss, 0
  {
    if ss == [] then 0 else Max(NeedStmt(ss[0]), NeedSeq(ss[1..]))
  }

  /** The programs the compiler translates correctly. */
  predicate Compilable(ss: seq<Stmt>) {
    SeqOk(ss, 0, []) && NeedSeq(ss) <= STACK_SIZE && |NamesSeq(ss, [])| <= GLOBALS
  }

  // ----- the name table only grows, and never repeats a name -----

  ghost predicate Distinct(names: seq<string>) {
    forall i, j :: 0 <= i < j < |names| ==> names[i] != names[j]
  }

  lemma {:induction false} NamesStmtExtend(s: Stmt, names: seq<string>)
    ensures names <= NamesStmt(s, names)
    ensures Distinct(names) ==> Distinct(NamesStmt(s, names))
    decreases s, 1
  {
    match s
    case Assign(_, _) =>
    case Print(_) =>
    case If(_, body) => NamesSeqExtend(body, names);
    case While(_, body) => NamesSeqExtend(body, names);
  }

  /** Slots are stable: a name keeps its index, and no two names share one. */
  lemma {:induction false} NamesSeqExtend(ss: seq<Stmt>, names: seq<string>)
    ensures names <= NamesSeq(ss, names)
    ensures Distinct(names) ==> Distinct(NamesSeq(ss, names))
    decreases ss, 0
  {
    if ss != [] {
      NamesStmtExtend(ss[0], names);
      NamesSeqExtend(ss[1..], NamesStmt(ss[0], names));
    }
  }

  // ----- code of a concatenation -----

  lemma {:induction false} NamesAppend(a: seq<Stmt>, b: seq<Stmt>, names: seq<string>)
    ensures NamesSeq(a + b, names) == NamesSeq(b, NamesSeq(a, names))
    decreases |a|
  {
    if a == [] {
      assert a + b == b;
    } else {
      assert (a + b)[0] == a[0] && (a + b)[1..] == a[1..] + b;
      NamesAppend(a[1..], b, NamesStmt(a[0], names));
    }
  }

  lemma GenNothing(pos: nat, names: seq<string>)
    ensures GenSeq([], pos, names) == [] && NamesSeq([], names) == names
  {
  }

  lemma NamesHead(a: seq<Stmt>, names: seq<string>)
    requires a != []
    ensures NamesSeq(a, names) == NamesSeq(a[1..], NamesStmt(a[0], names))
  {
  }

  lemma GenHead(a: seq<Stmt>, b: seq<Stmt>, pos: nat, names: seq<string>)
    requires a != []
    ensures var first, table := GenStmt(a[0], pos, names), NamesStmt(a[0], names);
            && GenSeq(a, pos, names) == first + GenSeq(a[1..], pos + |first|, table)
            && GenSeq(a + b, pos, names) == first + GenSeq(a[1..] + b, pos + |first|, table)
  {
    assert (a + b)[0] == a[0] && (a + b)[1..] == a[1..] + b;
    hide GenStmt, NamesStmt;
  }

  lemma Regroup(x: seq<byte>, y: seq<byte>, z: seq<byte>)
    ensures x + (y + z) == (x + y) + z && |x + y| == |x| + |y|
  {
  }

  lemma {:induction false} GenAppend(a: seq<Stmt>, b: seq<Stmt>, pos: nat, names: seq<string>)
    ensures GenSeq(a + b, pos, names) ==
            GenSeq(a, pos, names) + GenSeq(b, pos + |GenSeq(a, pos, names)|, NamesSeq(a, names))
    decreases |a|
  {
    hide GenStmt, NamesStmt, NamesSeq, GenSeq;
    if a == [] {
      GenNothing(pos, names);
      assert a + b == b;
      Regroup([], [], GenSeq(b, pos, names));
    } else {
      var first, table := GenStmt(a[0], pos, names), NamesStmt(a[0], names);
      NamesHead(a, names);
      GenHead(a, b, pos, names);
      GenAppend(a[1..], b, pos + |first|, table);
      Regroup(first, GenSeq(a[1..], pos + |first|, table),
              GenSeq(b, pos + |first| + |GenSeq(a[1..], pos + |first|, table)|, NamesSeq(a[1..], table)));
    }
  }

  // ----- programs of at most 255 bytes are all compilable -----

  /** Literals and uses of names alone: the conditions on the program that a caller checks
      on the tree. */
  predicate WellUsed(s: Stmt, names: seq<string>)
    decreases s, 1
  {
    match s
    case Assign(_, e) => ExprOk(e, names)
    case Print(e) => ExprOk(e, names)
    case If(c, body) => ExprOk(c, names) && WellUsedSeq(body, names)
    case While(c, body) => ExprOk(c, names) && WellUsedSeq(body, names)
  }

  predicate WellUsedSeq(ss: seq<Stmt>, names: seq<string>)
    decreases ss, 0
  {
    ss == [] || (WellUsed(ss[0], names) && WellUsedSeq(ss[1..], NamesStmt(ss[0], names)))
  }

  lemma {:induction false} NeedBound(e: Expr, names: seq<string>)
    requires ExprOk(e, names)
    ensures 3 * Need(e) <= |GenExpr(e, names)| + 1
  {
    match e
    case Num(_) =>
    case Ident(_) =>
    case Bin(_, l, r) =>
      NeedBound(l, names);
      NeedBound(r, names);
  }

  lemma {:induction false} StmtBounds(s: Stmt, pos: nat, names: seq<string>)
    requires WellUsed(s, names) && pos + |GenStmt(s, pos, names)| < 256
    ensures StmtOk(s, pos, names)
    ensures 3 * NeedStmt(s) <= |GenStmt(s, pos, names)|
    ensures 4 * |NamesStmt(s, names)| <= 4 * |names| + |GenStmt(s, pos, names)|
    decreases s, 1
  {
    match s
    case Assign(_, e) =>
      NeedBound(e, names);
    case Print(e) =>
      NeedBound(e, names);
    case If(c, body) =>
      NeedBound(c, names);
      SeqBounds(body, pos + |GenExpr(c, names)| + 2, names);
    case While(c, body) =>
      NeedBound(c, names);
      SeqBounds(body, pos + |GenExpr(c, names)| + 2, names);
  }

  lemma {:induction false} SeqBounds(ss: seq<Stmt>, pos: nat, names: seq<string>)
    requires WellUsedSeq(ss, names) && pos + |GenSeq(ss, pos, names)| < 256
    ensures SeqOk(ss, pos, names)
    ensures 3 * NeedSeq(ss) <= |GenSeq(ss, pos, names)|
    ensures 4 * |NamesSeq(ss, names)| <= 4 * |names| + |GenSeq(ss, pos, names)|
    decreases ss, 0
  {
    if ss != [] {
      StmtBounds(ss[0], pos, names);
      SeqBounds(ss[1..], pos + |GenStmt(ss[0], pos, names)|, NamesStmt(ss[0], names));
    }
  }

  /** Code that fits 256 bytes with its OP_HALT takes at most 85 of the 256 stack slots and at
      most 63 of the 256 globals, and every jump target fits its byte. */
  lemma SmallProgramsCompile(ss: seq<Stmt>)
    requires WellUsedSeq(ss, []) && |Compile(ss)| <= 256
    ensures Compilable(ss) && NeedSeq(ss) <= 85 && |NamesSeq(ss, [])| <= 63
  {
    SeqBounds(ss, 0, []);
  }

  /** `1 + (1 + (1 + ...))` with `n + 1` literals. */
  function Ladder(n: nat): Expr {
    if n == 0 then Num(1) else Bin(Add, Num(1), Ladder(n - 1))
  }

  lemma {:induction false} LadderSize(n: nat, names: seq<string>)
    ensures ExprOk(Ladder(n), names) && Need(Ladder(n)) == n + 1
    ensures |GenExpr(Ladder(n), names)| == 3 * n + 2
  {
    if n > 0 {
      LadderSize(n - 1, names);
    }
  }

  /** No smaller bound on the stack holds for code of 256 bytes. */
  lemma StackBoundIsTight()
    ensures exists ss :: WellUsedSeq(ss, []) && |Compile(ss)| <= 256 && NeedSeq(ss) == 85
  {
    LadderSize(84, []);
    var ss := [Print(Ladder(84))];
    GenOne(ss[0], 0, []);
    assert WellUsedSeq(ss, []) && |Compile(ss)| == 256 && NeedSeq(ss) == 85;
  }
}
