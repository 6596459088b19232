/** `walk` and `generate_byte` of bytecode-vm/compiler.c as they run: bytes are written in place,
    a forward jump is written with a placeholder and patched once its target is known, and the
    global table of names grows as assignments are met. */
module Emitter {
  import opened Wrappers
  import opened Syntax
  import opened Machine
  import opened CodeGen

  const CODE_SIZE: nat := 4096

  /** The parser never makes an empty name; unused table rows are empty strings. */
  predicate NamedExpr(e: Expr) {
    match e
    case Num(_) => true
    case Ident(x) => x != ""
    case Bin(_, l, r) => NamedExpr(l) && NamedExpr(r)
  }

  predicate NamedStmt(s: Stmt) {
    match s
    case Assign(x, e) => x != "" && NamedExpr(e)
    case Print(e) => NamedExpr(e)
    case If(c, body) => NamedExpr(c) && forall t :: t in body ==> NamedStmt(t)
    case While(c, body) => NamedExpr(c) && forall t :: t in body ==> NamedStmt(t)
  }

  /** Patching the placeholder leaves everything around it as it was. */
  lemma PatchHole(code: seq<byte>, before: seq<byte>, test: seq<byte>, rest: seq<byte>, target: byte)
    requires code == before + (test + [OP_JMP_IF_FALSE, 0]) + rest
    ensures code[|before| + |test| + 1 := target] == before + (test + [OP_JMP_IF_FALSE, target] + rest)
  {
  }

  lemma PatchLoop(code: seq<byte>, before: seq<byte>, test: seq<byte>, block: seq<byte>, back: seq<byte>, target: byte)
    requires code == before + (test + [OP_JMP_IF_FALSE, 0]) + block + back
    ensures code[|before| + |test| + 1 := target] == before + (test + [OP_JMP_IF_FALSE, target] + block + back)
  {
    assert code == before + (test + [OP_JMP_IF_FALSE, 0]) + (block + back);
    PatchHole(code, before, test, block + back, target);
  }

  /** One turn of the loop over a body: what the next statement adds, and that it fits. */
  lemma PrefixStep(ss: seq<Stmt>, i: nat, pos: nat, names: seq<string>)
    requires i < |ss|
    ensures var code, table := GenSeq(ss[..i], pos, names), NamesSeq(ss[..i], names);
            && GenSeq(ss[..i + 1], pos, names) == code + GenStmt(ss[i], pos + |code|, table)
            && NamesSeq(ss[..i + 1], names) == NamesStmt(ss[i], table)
            && |code| + |GenStmt(ss[i], pos + |code|, table)| <= |GenSeq(ss, pos, names)|
            && |NamesStmt(ss[i], table)| <= |NamesSeq(ss, names)|
  {
    var code, table := GenSeq(ss[..i], pos, names), NamesSeq(ss[..i], names);
    assert ss[..i + 1] == ss[..i] + [ss[i]];
    GenAppend(ss[..i], [ss[i]], pos, names);
    NamesAppend(ss[..i], [ss[i]], names);
    GenOne(ss[i], pos + |code|, table);
    assert ss == ss[..i + 1] + ss[i + 1..];
    GenAppend(ss[..i + 1], ss[i + 1..], pos, names);
    NamesAppend(ss[..i + 1], ss[i + 1..], names);
    NamesSeqExtend(ss[i + 1..], NamesSeq(ss[..i + 1], names));
  }

  class Compiler {
    const bytes: array<byte>
    var count: nat
    const varNames: array<string>
    var varCount: nat

    ghost predicate Valid()
      reads this, bytes, varNames
    {
      && bytes.Length == CODE_SIZE && count <= CODE_SIZE
      && varNames.Length == GLOBALS && varCount <= GLOBALS
      && RowsFilled()
    }

    /** The names are in the first rows, and the other rows are empty. */
    ghost predicate RowsFilled()
      requires varCount <= GLOBALS == varNames.Length
      reads this`varCount, varNames
    {
      && (forall i :: 0 <= i < varCount ==> varNames[i] != "")
      && (forall i :: varCount <= i < GLOBALS ==> varNames[i] == "")
    }

    ghost function Code(): (c: seq<byte>)
      requires count <= bytes.Length
      reads this`count, bytes
      ensures |c| == count
    {
      bytes[..count]
    }

    ghost function Names(): (t: seq<string>)
      requires varCount <= varNames.Length
      reads this`varCount, varNames
      ensures |t| == varCount
    {
      varNames[..varCount]
    }

    constructor ()
      ensures Valid() && Code() == [] && Names() == []
      ensures fresh(bytes) && fresh(varNames)
    {
      bytes := new byte[CODE_SIZE];
      varNames := new string[GLOBALS](_ => "");
      count, varCount := 0, 0;
    }

    method Emit(b: byte)
      requires Valid() && count < CODE_SIZE
      modifies this`count, bytes
      ensures Valid() && Code() == old(Code()) + [b] && Names() == old(Names())
    {
      bytes[count] := b;
      count := count + 1;
    }

    method EmitPair(op: byte, operand: byte)
      requires Valid() && count + 2 <= CODE_SIZE
      modifies this`count, bytes
      ensures Valid() && Code() == old(Code()) + [op, operand] && Names() == old(Names())
    {
      Emit(op);
      Emit(operand);
    }

    /** The search over all 256 rows of the table. */
    method FindSlot(x: string) returns (found: bool, slot: nat)
      requires Valid() && x != ""
      ensures found <==> x in Names()
      ensures found ==> slot == Slot(Names(), x)
    {
      found, slot := false, 0;
      var i := 0;
      while i < GLOBALS
        invariant 0 <= i <= GLOBALS
        invariant forall j :: 0 <= j < i ==> varNames[j] != x
      {
        if varNames[i] == x {
          assert Names()[i] == x;
          return true, i;
        }
        i := i + 1;
      }
    }

    /** `walk` on an expression node */
    method WalkExpr(e: Expr)
      requires Valid() && NamedExpr(e)
      requires count + |GenExpr(e, Names())| <= CODE_SIZE
      modifies this`count, bytes
      ensures Valid()
      ensures Code() == old(Code()) + GenExpr(e, old(Names()))
      ensures Names() == old(Names())
      decreases e
    {
      hide RowsFilled;
      match e
      case Num(n) =>
        EmitPair(OP_PUSH, Low(n));
      case Ident(x) =>
        Emit(OP_LOAD);
        var found, slot := FindSlot(x);
        if found {
          Emit(Low(slot));
        }
      case Bin(op, l, r) =>
        WalkExpr(l);
        WalkExpr(r);
        Emit(Opcode(op));
    }

    /** `walk` on an assignment */
    method WalkAssign(x: string, e: Expr)
      requires Valid() && NamedExpr(e) && x != ""
      requires count + |GenStmt(Assign(x, e), count, Names())| <= CODE_SIZE
      requires |NamesStmt(Assign(x, e), Names())| <= GLOBALS
      modifies this`count, this`varCount, bytes, varNames
      ensures Valid()
      ensures Code() == old(Code()) + GenStmt(Assign(x, e), old(count), old(Names()))
      ensures Names() == NamesStmt(Assign(x, e), old(Names()))
    {
      hide GenExpr, NamedExpr;
      WalkExpr(e);
      Emit(OP_STORE);
      var found, slot := FindSlot(x);
      if found {
        Emit(Low(slot));
      } else {
        varNames[varCount] := x;
        varCount := varCount + 1;
        Emit(Low(varCount - 1));
      }
    }

    /** `walk` on any statement.  Everything below the entry position is kept, exactly the pure
        code for that position is appended, and the table is extended as the pure table is. */
    method Walk(s: Stmt)
      requires Valid() && NamedStmt(s)
      requires count + |GenStmt(s, count, Names())| <= CODE_SIZE
      requires |NamesStmt(s, Names())| <= GLOBALS
      modifies this`count, this`varCount, bytes, varNames
      ensures Valid()
      ensures Code() == old(Code()) + GenStmt(s, old(count), old(Names()))
      ensures Names() == NamesStmt(s, old(Names()))
      decreases s, 1
    {
      match s
      case Assign(x, e) => WalkAssign(x, e);
      case Print(e) =>
        WalkExpr(e);
        Emit(OP_PRINT);
      case If(c, body) => WalkIf(s);
      case While(c, body) => WalkWhile(s);
    }

    /** A condition and the jump over the body, its target still a placeholder. */
    method WalkTest(c: Expr) returns (hole: nat)
      requires Valid() && NamedExpr(c)
      requires count + |GenExpr(c, Names())| + 2 <= CODE_SIZE
      modifies this`count, bytes
      ensures Valid() && hole + 1 == count
      ensures Code() == old(Code()) + (GenExpr(c, old(Names())) + [OP_JMP_IF_FALSE, 0])
      ensures Names() == old(Names())
    {
      WalkExpr(c);
      EmitPair(OP_JMP_IF_FALSE, 0);
      hole := count - 1;
    }

    method WalkIf(s: Stmt)
      requires s.If?
      requires Valid() && NamedStmt(s)
      requires count + |GenStmt(s, count, Names())| <= CODE_SIZE
      requires |NamesStmt(s, Names())| <= GLOBALS
      modifies this`count, this`varCount, bytes, varNames
      ensures Valid()
      ensures Code() == old(Code()) + GenStmt(s, old(count), old(Names()))
      ensures Names() == NamesStmt(s, old(Names()))
      decreases s, 0
    {
      hide GenExpr, GenSeq, NamesSeq, NamedExpr, RowsFilled;
      ghost var before, test := Code(), GenExpr(s.cond, Names());
      ghost var block := GenSeq(s.body, count + |test| + 2, Names());
      var hole := WalkTest(s.cond);
      WalkBody(s.body);
      PatchHole(Code(), before, test, block, Low(count));
      bytes[hole] := Low(count);
    }

    method WalkWhile(s: Stmt)
      requires s.While?
      requires Valid() && NamedStmt(s)
      requires count + |GenStmt(s, count, Names())| <= CODE_SIZE
      requires |NamesStmt(s, Names())| <= GLOBALS
      modifies this`count, this`varCount, bytes, varNames
      ensures Valid()
      ensures Code() == old(Code()) + GenStmt(s, old(count), old(Names()))
      ensures Names() == NamesStmt(s, old(Names()))
      decreases s, 0
    {
      var loopback := count;
      hide GenExpr, GenSeq, NamesSeq, NamedExpr, RowsFilled;
      ghost var before, test := Code(), GenExpr(s.cond, Names());
      ghost var block := GenSeq(s.body, count + |test| + 2, Names());
      var hole := WalkTest(s.cond);
      WalkBody(s.body);
      EmitPair(OP_JMP, Low(loopback));
      PatchLoop(Code(), before, test, block, [OP_JMP, Low(loopback)], Low(count));
      bytes[hole] := Low(count);
    }

    /** The loop over the statements of a body, and of the whole program. */
    method WalkBody(ss: seq<Stmt>)
      requires Valid() && (forall t :: t in ss ==> NamedStmt(t))
      requires count + |GenSeq(ss, count, Names())| <= CODE_SIZE
      requires |NamesSeq(ss, Names())| <= GLOBALS
      modifies this`count, this`varCount, bytes, varNames
      ensures Valid()
      ensures Code() == old(Code()) + GenSeq(ss, old(count), old(Names()))
      ensures Names() == NamesSeq(ss, old(Names()))
      decreases ss, 0
    {
      hide GenExpr, GenStmt, NamesStmt, NamedExpr, NamedStmt, RowsFilled;
      ghost var pos, table, before := count, Names(), Code();
      assert GenSeq(ss[..0], pos, table) == [] && NamesSeq(ss[..0], table) == table;
      hide GenSeq, NamesSeq;
      var i := 0;
      while i < |ss|
        invariant 0 <= i <= |ss|
        invariant Valid()
        invariant Code() == before + GenSeq(ss[..i], pos, table)
        invariant Names() == NamesSeq(ss[..i], table)
      {
        PrefixStep(ss, i, pos, table);
        ghost var done := GenSeq(ss[..i], pos, table);
        Regroup(before, done, GenStmt(ss[i], pos + |done|, Names()));
        Walk(ss[i]);
        i := i + 1;
      }
      assert ss[..i] == ss;
    }

    /** generate_byte */
    method Generate(ss: seq<Stmt>)
      requires Valid() && Code() == [] && Names() == []
      requires forall t :: t in ss ==> NamedStmt(t)
      requires |Compile(ss)| <= CODE_SIZE
      requires |NamesSeq(ss, [])| <= GLOBALS
      modifies this`count, this`varCount, bytes, varNames
      ensures Valid()
      ensures Code() == Compile(ss) && Names() == NamesSeq(ss, [])
    {
      WalkBody(ss);
      Emit(OP_HALT);
    }
  }
}
