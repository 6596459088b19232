/** What a program of the source language means, independently of any bytecode: a big-step
    interpreter over the syntax tree.  A name that no executed assignment has written reads
    as zero.  `fuel` bounds the nesting of loop unrollings; a run that needs more ends in
    `Timeout`, which still reports everything printed so far. */
module Semantics {
  import opened Syntax

  type Env = map<string, int>

  function Lookup(env: Env, x: string): int {
    if x in env then env[x] else 0
  }

  function Apply(op: BinOp, l: int, r: int): Value {
    match op
    case Add => Checked(l + r)
    case Sub => Checked(l - r)
    case Mul => Checked(l * r)
    case Div => if r == 0 then Fault(DivByZero) else Checked(TruncDiv(l, r))
    case Gt => Ok(if l > r then 1 else 0)
    case Lt => Ok(if l < r then 1 else 0)
    case EqEq => Ok(if l == r then 1 else 0)
  }

  function Eval(e: Expr, env: Env): Value {
    match e
    case Num(n) => Ok(n)
    case Ident(x) => Ok(Lookup(env, x))
    case Bin(op, l, r) =>
      match Eval(l, env)
      case Fault(t) => Fault(t)
      case Ok(a) =>
        match Eval(r, env)
        case Fault(t) => Fault(t)
        case Ok(b) => Apply(op, a, b)
  }

  datatype Result =
    | Done(env: Env, out: seq<int>)
    | Stopped(trap: Trap, out: seq<int>)
    | Timeout(out: seq<int>)

  function ExecStmt(s: Stmt, fuel: nat, env: Env, out: seq<int>): Result
    decreases fuel, s, 1
  {
    match s
    case Assign(x, e) =>
      (match Eval(e, env)
       case Fault(t) => Stopped(t, out)
       case Ok(v) => Done(env[x := v], out))
    case Print(e) =>
      (match Eval(e, env)
       case Fault(t) => Stopped(t, out)
       case Ok(v) => Done(env, out + [v]))
    case If(c, body) =>
      (match Eval(c, env)
       case Fault(t) => Stopped(t, out)
       case Ok(v) => if v == 0 then Done(env, out) else ExecSeq(body, fuel, env, out))
    case While(c, body) =>
      (match Eval(c, env)
       case Fault(t) => Stopped(t, out)
       case Ok(v) =>
         if v == 0 then Done(env, out)
         else if fuel == 0 then Timeout(out)
         else
           var r := ExecSeq(body, fuel - 1, env, out);
           if r.Done? then ExecStmt(s, fuel - 1, r.env, r.out) else r)
  }

  function ExecSeq(ss: seq<Stmt>, fuel: nat, env: Env, out: seq<int>): Result
    decreases fuel, ss, 0
  {
    if ss == [] then Done(env, out)
    else
      var r := ExecStmt(ss[0], fuel, env, out);
      if r.Done? then ExecSeq(ss[1..], fuel, r.env, r.out) else r
  }

  lemma ExecOne(s: Stmt, fuel: nat, env: Env, out: seq<int>)
    ensures ExecSeq([s], fuel, env, out) == ExecStmt(s, fuel, env, out)
  {
    assert [s][1..] == [];
  }

  lemma {:induction false} ExecAppend(a: seq<Stmt>, b: seq<Stmt>, fuel: nat, env: Env, out: seq<int>)
    ensures var r := ExecSeq(a, fuel, env, out);
            ExecSeq(a + b, fuel, env, out) == if r.Done? then ExecSeq(b, fuel, r.env, r.out) else r
    decreases |a|
  {
    if a == [] {
      assert a + b == b;
    } else {
      assert (a + b)[0] == a[0] && (a + b)[1..] == a[1..] + b;
      hide ExecStmt;
      var r := ExecStmt(a[0], fuel, env, out);
      if r.Done? { ExecAppend(a[1..], b, fuel, r.env, r.out); }
    }
  }

  function Exec(ss: seq<Stmt>, fuel: nat): Result {
    ExecSeq(ss, fuel, map[], [])
  }

  /** The source program ends, normally or on a trap. */
  ghost predicate Ends(ss: seq<Stmt>) {
    exists fuel: nat :: !Exec(ss, fuel).Timeout?
  }

  // ----- the fuel is only a bound on the observation -----

  lemma {:induction false} StmtOutputGrows(s: Stmt, f: nat, env: Env, out: seq<int>)
    ensures out <= ExecStmt(s, f, env, out).out
    decreases f, s, 1
  {
    match s
    case Assign(x, e) =>
    case Print(e) =>
    case If(c, body) => SeqOutputGrows(body, f, env, out);
    case While(c, body) =>
      if f > 0 {
        SeqOutputGrows(body, f - 1, env, out);
        var r := ExecSeq(body, f - 1, env, out);
        if r.Done? {
          StmtOutputGrows(s, f - 1, r.env, r.out);
        }
      }
  }

  lemma {:induction false} StmtFuelMonotone(s: Stmt, f: nat, g: nat, env: Env, out: seq<int>)
    requires f <= g
    ensures out <= ExecStmt(s, f, env, out).out <= ExecStmt(s, g, env, out).out
    ensures !ExecStmt(s, f, env, out).Timeout? ==> ExecStmt(s, g, env, out) == ExecStmt(s, f, env, out)
    decreases f, s, 1
  {
    match s
    case Assign(x, e) =>
    case Print(e) =>
    case If(c, body) =>
      SeqFuelMonotone(body, f, g, env, out);
    case While(c, body) =>
      if f > 0 {
        SeqFuelMonotone(body, f - 1, g - 1, env, out);
        var r := ExecSeq(body, f - 1, env, out);
        if r.Done? {
          StmtFuelMonotone(s, f - 1, g - 1, r.env, r.out);
        } else if ExecSeq(body, g - 1, env, out).Done? {
          var q := ExecSeq(body, g - 1, env, out);
          StmtOutputGrows(s, g - 1, q.env, q.out);
        }
      } else {
        StmtOutputGrows(s, g, env, out);
      }
  }

  lemma {:induction false} SeqOutputGrows(ss: seq<Stmt>, f: nat, env: Env, out: seq<int>)
    ensures out <= ExecSeq(ss, f, env, out).out
    decreases f, ss, 0
  {
    if ss != [] {
      StmtOutputGrows(ss[0], f, env, out);
      var r := ExecStmt(ss[0], f, env, out);
      if r.Done? {
        SeqOutputGrows(ss[1..], f, r.env, r.out);
      }
    }
  }

  lemma {:induction false} SeqFuelMonotone(ss: seq<Stmt>, f: nat, g: nat, env: Env, out: seq<int>)
    requires f <= g
    ensures out <= ExecSeq(ss, f, env, out).out <= ExecSeq(ss, g, env, out).out
    ensures !ExecSeq(ss, f, env, out).Timeout? ==> ExecSeq(ss, g, env, out) == ExecSeq(ss, f, env, out)
    decreases f, ss, 0
  {
    if ss != [] {
      StmtFuelMonotone(ss[0], f, g, env, out);
      var r := ExecStmt(ss[0], f, env, out);
      var q := ExecStmt(ss[0], g, env, out);
      if r.Done? {
        SeqFuelMonotone(ss[1..], f, g, r.env, r.out);
      } else if q.Done? {
        SeqOutputGrows(ss[1..], g, q.env, q.out);
      }
    }
  }

  /** A program has one meaning: two observations that both end agree on the final
      environment, the trap and the printed values, and any earlier observation saw a prefix. */
  lemma MeaningIsUnique(ss: seq<Stmt>, f: nat, g: nat)
    requires !Exec(ss, f).Timeout?
    ensures Exec(ss, g).Timeout? ==> Exec(ss, g).out <= Exec(ss, f).out
    ensures !Exec(ss, g).Timeout? ==> Exec(ss, g) == Exec(ss, f)
  {
    if f <= g {
      SeqFuelMonotone(ss, f, g, map[], []);
    } else {
      SeqFuelMonotone(ss, g, f, map[], []);
    }
  }
}
