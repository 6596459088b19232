/** `main` of bytecode-vm/compiler.c: text to tokens to tree to bytes to output, with every stage
    replaced by what it has been proved to compute. */
module Pipeline {
  import opened Syntax
  import opened Semantics
  import opened Machine
  import opened CodeGen
  import opened Emitter
  import opened Lexer
  import opened Parser
  import opened RoundTrip
  import opened Simulation
  import opened CompilerCorrect

  /** Parsed programs only hold the non-empty names the lexer made. */
  lemma {:induction false} NamedExprOf(e: Expr)
    requires PrintableExpr(e)
    ensures NamedExpr(e)
  {
    if e.Bin? {
      NamedExprOf(e.left);
      NamedExprOf(e.right);
    }
  }

  lemma {:induction false} NamedStmtOf(s: Stmt)
    requires Printable(s)
    ensures NamedStmt(s)
    decreases s, 1
  {
    match s
    case Assign(_, e) => NamedExprOf(e);
    case Print(e) => NamedExprOf(e);
    case If(c, body) => NamedExprOf(c); NamedSeqOf(body);
    case While(c, body) => NamedExprOf(c); NamedSeqOf(body);
  }

  lemma {:induction false} NamedSeqOf(ss: seq<Stmt>)
    requires PrintableSeq(ss)
    ensures forall t :: t in ss ==> NamedStmt(t)
    decreases ss, 0
  {
    if ss != [] {
      NamedStmtOf(ss[0]);
      NamedSeqOf(ss[1..]);
    }
  }

  /** How main ends: in one of the front end's error exits, in what C leaves undefined there or by
      overrunning the code or name array, or with the machine as it stands. */
  datatype Outcome = Refused | Unspecified | Overrun | Ran(printed: seq<int>, status: Status)

  /** What main comes to on a text, `passes` turns into the machine's loop. */
  function MainOutcome(source: string, passes: nat): Outcome {
    match FrontEnd(source)
    case Rejected => Refused
    case Broken => Unspecified
    case Parsed(program, _) =>
      if |Compile(program)| > CODE_SIZE || |NamesSeq(program, [])| > GLOBALS then Overrun
      else
        var r := Run(Start(program), passes);
        Ran(r.out, r.status)
  }

  /** Compile a text and watch `passes` turns of the machine's loop. */
  method CompileAndRun(source: string, passes: nat) returns (o: Outcome)
    ensures o == MainOutcome(source, passes)
  {
    var lexed := LexText(source);
    if !lexed.Tokens? {
      return if lexed.Unexpected? then Refused else Unspecified;
    }
    var parsed := Program(lexed.ts);
    if !parsed.Parsed? {
      return if parsed.Rejected? then Refused else Unspecified;
    }
    var program := parsed.node;
    if |Compile(program)| > CODE_SIZE || |NamesSeq(program, [])| > GLOBALS {
      return Overrun;
    }
    AcceptedTextNormalises(source);
    NamedSeqOf(program);
    var compiler := new Compiler();
    compiler.Generate(program);
    var vm := new Vm(compiler.bytes, compiler.count);
    vm.RunLoop(passes);
    o := Ran(vm.printed, vm.exit);
  }

  /** End to end: a printable, compilable program written out as text goes through the lexer,
      parser and compiler to bytecode that ends exactly when the program ends and then has
      printed exactly the program's values, in the same final situation. */
  lemma EndToEnd(ss: seq<Stmt>, n: nat)
    requires ss != [] && PrintableSeq(ss) && Compilable(ss)
    ensures var p := FrontEnd(ProgramText(ss));
            && p.Parsed?
            && (Ends(ss) <==> exists k :: !Run(Start(p.node), k).status.Running?)
            && (!Run(Start(p.node), n).status.Running? ==>
                  Agrees(ss, Exec(ss, n + 1), n + 1, n, Run(Start(p.node), n)))
            && (exists fuel: nat :: Run(Start(p.node), n).out <= Exec(ss, fuel).out)
  {
    hide Step, Start, Exec, Compilable, ProgramText;
    TextRoundTrip(ss);
    TerminationEquivalence(ss);
    OutputIsSourcePrefix(ss, n);
    if !Run(Start(ss), n).status.Running? {
      StopsAreSourceEnds(ss, n);
    }
  }
}
