/** What running a text comes to, end to end, and the text of bytecode-vm's own main followed from
    its characters to the values it prints. */
module Programs {
  import opened Wrappers
  import opened Syntax
  import opened Semantics
  import opened Machine
  import opened CodeGen
  import opened Lexer
  import opened Parser
  import opened Grammar
  import opened RoundTrip
  import opened Layout
  import opened Simulation
  import opened CompilerCorrect
  import opened Pipeline

  // ----- which texts run -----

  /** main takes an error exit exactly when the lexer meets a stray character, or the parser a token
      that can start no statement where one should start. */
  lemma RefusedExact(source: string, n: nat)
    ensures MainOutcome(source, n) == Refused <==>
            Scan(source).Unexpected? || (Scan(source).Tokens? && ProgramRefuses(Scan(source).ts, 0))
    ensures MainOutcome(source, n) == Unspecified <==>
            Scan(source).Undefined? || (Scan(source).Tokens? && ParseProgram(Scan(source).ts).Broken?)
  {
    if Scan(source).Tokens? { ExactProgram(Scan(source).ts, [], 0); }
    hide ParseProgram, ProgramRefuses;
  }

  /** The tokens of the text are the statements `ss`, up to the end marker at `end`. */
  ghost predicate IsProgram(source: string, ss: seq<Stmt>, end: nat) {
    Scan(source).Tokens? && ProgramReads(Scan(source).ts, 0, ss, end)
  }

  lemma ProgramIs(source: string, ss: seq<Stmt>, end: nat)
    ensures IsProgram(source, ss, end) <==> FrontEnd(source) == Parsed(ss, end)
  {
    if Scan(source).Tokens? { ExactProgram(Scan(source).ts, ss, end); }
    hide ParseProgram, ProgramReads, Scan;
  }

  /** It overruns an array exactly when the text is a program whose code has more than 4096 bytes or
      which assigns to more than 256 names; any other program runs. */
  lemma OverrunExact(source: string, n: nat)
    ensures MainOutcome(source, n) == Overrun <==>
            exists ss, end :: IsProgram(source, ss, end) && (|Compile(ss)| > 4096 || |NamesSeq(ss, [])| > 256)
    ensures MainOutcome(source, n).Ran? <==>
            exists ss, end :: IsProgram(source, ss, end) && |Compile(ss)| <= 4096 && |NamesSeq(ss, [])| <= 256
  {
    hide Compile, NamesSeq, Run, Start, IsProgram, FrontEnd;
    var p := FrontEnd(source);
    if p.Parsed? { ProgramIs(source, p.node, p.next); }
    if ss, end :| IsProgram(source, ss, end) && (|Compile(ss)| > 4096 || |NamesSeq(ss, [])| > 256) {
      ProgramIs(source, ss, end);
    }
    if ss, end :| IsProgram(source, ss, end) && |Compile(ss)| <= 4096 && |NamesSeq(ss, [])| <= 256 {
      ProgramIs(source, ss, end);
    }
  }

  // ----- what they come to -----

  /** The machine after `n` passes of its loop, as main reports it. */
  lemma RunsProgram(ss: seq<Stmt>, n: nat)
    requires ss != [] && PrintableSeq(ss) && |Compile(ss)| <= 4096 && |NamesSeq(ss, [])| <= 256
    ensures var r := Run(Start(ss), n); MainOutcome(ProgramText(ss), n) == Ran(r.out, r.status)
  {
    TextRoundTrip(ss);
    hide Compile, NamesSeq, Run, Start, ProgramText, FrontEnd;
  }

  /** What a source run that has ended comes to: the printed values, and a halt or the trap. */
  ghost predicate Result(o: Outcome, res: Semantics.Result) {
    match res
    case Done(_, out) => o == Ran(out, Halted)
    case Stopped(t, out) => o == Ran(out, Trapped(t))
    case Timeout(_) => false
  }

  lemma AgreesResult(ss: seq<Stmt>, res: Semantics.Result, fuel: nat, n: nat, r: State)
    requires Agrees(ss, res, fuel, n, r) && !res.Timeout?
    ensures Result(Ran(r.out, r.status), res)
  {
  }

  /** A program written out as text, lexed, parsed, compiled and run: at every moment it has printed
      a part of what the program means; and once the machine has stopped, exactly that, having halted
      or trapped as the program does. */
  lemma MainFollowsProgram(ss: seq<Stmt>, n: nat)
    requires ss != [] && PrintableSeq(ss) && Compilable(ss) && |Compile(ss)| <= 4096
    ensures var o := MainOutcome(ProgramText(ss), n);
            && o.Ran? && (exists fuel: nat :: o.printed <= Exec(ss, fuel).out)
            && (o.status != Running ==> Result(o, Exec(ss, n + 1)))
  {
    assert |NamesSeq(ss, [])| <= 256;
    hide *;
    RunsProgram(ss, n);
    OutputIsSourcePrefix(ss, n);
    if !Run(Start(ss), n).status.Running? {
      StopsAreSourceEnds(ss, n);
      AgreesResult(ss, Exec(ss, n + 1), n + 1, n, Run(Start(ss), n));
    }
  }

  ghost predicate MainStops(ss: seq<Stmt>, n: nat)
  {
    PrintableSeq(ss) && MainOutcome(ProgramText(ss), n).Ran? && MainOutcome(ProgramText(ss), n).status != Running
  }

  lemma StopsIs(ss: seq<Stmt>, n: nat)
    requires PrintableSeq(ss)
    ensures MainStops(ss, n) <==>
            MainOutcome(ProgramText(ss), n).Ran? && MainOutcome(ProgramText(ss), n).status != Running
  {
    hide MainOutcome, ProgramText;
  }

  /** It stops exactly when the program ends. */
  lemma MainEndsExact(ss: seq<Stmt>)
    requires ss != [] && PrintableSeq(ss) && Compilable(ss) && |Compile(ss)| <= 4096
    ensures Ends(ss) <==> exists n :: MainStops(ss, n)
    ensures forall fuel: nat :: !Exec(ss, fuel).Timeout? ==>
              exists n :: MainStops(ss, n) && Result(MainOutcome(ProgramText(ss), n), Exec(ss, fuel))
  {
    assert |NamesSeq(ss, [])| <= 256;
    hide *;
    TerminationEquivalence(ss);
    if n: nat :| !Run(Start(ss), n).status.Running? {
      RunsProgram(ss, n);
      StopsIs(ss, n);
    }
    if n :| MainStops(ss, n) {
      RunsProgram(ss, n);
      StopsIs(ss, n);
    }
    forall fuel: nat | !Exec(ss, fuel).Timeout?
      ensures exists n :: MainStops(ss, n) && Result(MainOutcome(ProgramText(ss), n), Exec(ss, fuel))
    {
      SemanticPreservation(ss, fuel);
      var n :| !Run(Start(ss), n).status.Running? && Agrees(ss, Exec(ss, fuel), fuel, n, Run(Start(ss), n));
      AgreesResult(ss, Exec(ss, fuel), fuel, n, Run(Start(ss), n));
      RunsProgram(ss, n);
      StopsIs(ss, n);
    }
  }

  // ----- the program in main -----

  const COUNTDOWN_TEXT: string := "x = 3\nwhile x > 0 {\nprint x\nx = x - 1\n}"

  function Test(): Expr { Bin(Gt, Ident("x"), Num(0)) }
  function Less(): Expr { Bin(Sub, Ident("x"), Num(1)) }
  function Turn(): seq<Stmt> { [Print(Ident("x")), Assign("x", Less())] }
  function Loop(): Stmt { While(Test(), Turn()) }
  function Countdown(): seq<Stmt> { [Assign("x", Num(3)), Loop()] }

  function CountdownTokens(): seq<Token> {
    [TIdent("x"), TEq, TNum(3), TWhile, TIdent("x"), TGt, TNum(0), TLBrace, TPrint, TIdent("x"),
     TIdent("x"), TEq, TIdent("x"), TMinus, TNum(1), TRBrace]
  }

  lemma PrependTokens(t: Token, ts: seq<Token>)
    ensures Prepend([t], Tokens(ts)) == Tokens([t] + ts)
  {
  }

  /** One more token in front, and the blanks before it. */
  lemma LexedBefore(blank: string, t: Token, rest: string, ts: seq<Token>)
    requires (forall c :: c in blank ==> c in BLANKS) && Writable(t) && EndsBefore(t, rest) && Lex(rest) == Tokens(ts)
    ensures Lex(blank + (TokenText(t) + rest)) == Tokens([t] + ts)
  {
    hide *;
    LexBlank(blank, TokenText(t) + rest);
    TokenExact(t, rest);
    PrependTokens(t, ts);
  }

  predicate Blank(b: string) { forall c :: c in b ==> c in BLANKS }

  /** A token behind blanks, in front of blanks. */
  lemma LexedBetween(blank: string, t: Token, next: string, more: string, ts: seq<Token>)
    requires Blank(blank) && next != "" && Blank(next) && Writable(t) && Lex(next + more) == Tokens(ts)
    ensures Lex(blank + (TokenText(t) + (next + more))) == Tokens([t] + ts)
  {
    assert next[0] in next;
    BlankEnds(t, next, more);
    hide Lex, EndsBefore, Writable, TokenText;
    LexedBefore(blank, t, next + more, ts);
  }

  lemma BlankIs(b: string)
    requires Blank(b)
    ensures forall c :: c in b ==> c in BLANKS
  {
  }

  /** Four tokens with blanks between them. */
  lemma LexedFour(b0: string, t0: Token, b1: string, t1: Token, b2: string, t2: Token, b3: string, t3: Token,
                  rest: string, ts: seq<Token>)
    requires Blank(b0) && Blank(b1) && Blank(b2) && Blank(b3) && b1 != "" && b2 != "" && b3 != ""
    requires Writable(t0) && Writable(t1) && Writable(t2) && Writable(t3)
    requires EndsBefore(t3, rest) && Lex(rest) == Tokens(ts)
    ensures Lex(b0 + (TokenText(t0) + (b1 + (TokenText(t1) + (b2 + (TokenText(t2) + (b3 + (TokenText(t3) + rest))))))))
            == Tokens([t0] + ([t1] + ([t2] + ([t3] + ts))))
  {
    hide *;
    BlankIs(b3);
    LexedBefore(b3, t3, rest, ts);
    LexedBetween(b2, t2, b3, TokenText(t3) + rest, [t3] + ts);
    LexedBetween(b1, t1, b2, TokenText(t2) + (b3 + (TokenText(t3) + rest)), [t2] + ([t3] + ts));
    LexedBetween(b0, t0, b1, TokenText(t1) + (b2 + (TokenText(t2) + (b3 + (TokenText(t3) + rest)))),
                 [t1] + ([t2] + ([t3] + ts)));
  }

  lemma Regrouped(a: string, b: string, c: string)
    ensures a + (b + c) == (a + b) + c
  {
  }

  lemma EightAndRest(a: string, b: string, c: string, d: string, e: string, f: string, g: string, h: string,
                     rest: string)
    ensures a + (b + (c + (d + (e + (f + (g + (h + rest)))))))
            == (a + (b + (c + (d + (e + (f + (g + h))))))) + rest
  {
    Regrouped(g, h, rest);
    Regrouped(f, g + h, rest);
    Regrouped(e, f + (g + h), rest);
    Regrouped(d, e + (f + (g + h)), rest);
    Regrouped(c, d + (e + (f + (g + h))), rest);
    Regrouped(b, c + (d + (e + (f + (g + h)))), rest);
    Regrouped(a, b + (c + (d + (e + (f + (g + h))))), rest);
  }

  lemma SmallNumbers()
    ensures Decimal(0) == "0" && Decimal(1) == "1" && Decimal(3) == "3"
  {
  }

  lemma BlankStrings()
    ensures Blank("") && Blank(" ") && Blank("\n")
  {
  }

  /** Four tokens as `w`, behind blanks `b`, written as `flat`. */
  ghost predicate Line(b: seq<string>, t: seq<Token>, w: seq<string>, flat: string) {
    && |b| == |t| == |w| == 4
    && (forall k :: 0 <= k < 4 ==> Blank(b[k]) && Writable(t[k]) && TokenText(t[k]) == w[k] && (k > 0 ==> b[k] != ""))
    && flat == b[0] + (w[0] + (b[1] + (w[1] + (b[2] + (w[2] + (b[3] + w[3]))))))
  }

  lemma LineParts(b: seq<string>, t: seq<Token>, w: seq<string>, flat: string)
    requires Line(b, t, w, flat)
    ensures |b| == |t| == |w| == 4
    ensures Blank(b[0]) && Blank(b[1]) && Blank(b[2]) && Blank(b[3]) && b[1] != "" && b[2] != "" && b[3] != ""
    ensures Writable(t[0]) && Writable(t[1]) && Writable(t[2]) && Writable(t[3])
    ensures TokenText(t[0]) == w[0] && TokenText(t[1]) == w[1] && TokenText(t[2]) == w[2] && TokenText(t[3]) == w[3]
    ensures flat == b[0] + (w[0] + (b[1] + (w[1] + (b[2] + (w[2] + (b[3] + w[3]))))))
  {
    hide Blank, Writable, TokenText;
  }

  lemma FourTokens(t: seq<Token>, ts: seq<Token>)
    requires |t| == 4
    ensures [t[0]] + ([t[1]] + ([t[2]] + ([t[3]] + ts))) == t + ts
  {
  }

  lemma LineLexed(b: seq<string>, t: seq<Token>, w: seq<string>, flat: string, rest: string, ts: seq<Token>)
    requires Line(b, t, w, flat) && EndsBefore(t[3], rest) && Lex(rest) == Tokens(ts)
    ensures Lex(flat + rest) == Tokens(t + ts)
  {
    LineParts(b, t, w, flat);
    hide *;
    LexedFour(b[0], t[0], b[1], t[1], b[2], t[2], b[3], t[3], rest, ts);
    EightAndRest(b[0], w[0], b[1], w[1], b[2], w[2], b[3], w[3], rest);
    FourTokens(t, ts);
  }

  lemma LastLine()
    ensures Line([" ", " ", " ", "\n"], [TIdent("x"), TMinus, TNum(1), TRBrace], ["x", "-", "1", "}"], " x - 1\n}")
  {
    BlankStrings();
    SmallNumbers();
  }

  lemma Printing()
    ensures Line(["\n", " ", "\n", " "],
                 [TPrint, TIdent("x"), TIdent("x"), TEq], ["print", "x", "x", "="], "\nprint x\nx =")
  {
    BlankStrings();
    SmallNumbers();
  }

  lemma Testing()
    ensures Line([" ", " ", " ", " "], [TIdent("x"), TGt, TNum(0), TLBrace], ["x", ">", "0", "{"], " x > 0 {")
  {
    BlankStrings();
    SmallNumbers();
  }

  lemma FirstLine()
    ensures Line(["", " ", " ", "\n"], [TIdent("x"), TEq, TNum(3), TWhile], ["x", "=", "3", "while"], "x = 3\nwhile")
  {
    BlankStrings();
    SmallNumbers();
  }

  lemma BeforeBlank(t: Token, rest: string)
    requires rest != "" && rest[0] in BLANKS
    ensures EndsBefore(t, rest)
  {
    BlankEnds(t, [rest[0]], rest[1..]);
    assert [rest[0]] + rest[1..] == rest;
  }

  lemma TokenParts(t1: seq<Token>, t2: seq<Token>, t3: seq<Token>, t4: seq<Token>)
    requires t4 == [TIdent("x"), TMinus, TNum(1), TRBrace] && t3 == [TPrint, TIdent("x"), TIdent("x"), TEq]
    requires t2 == [TIdent("x"), TGt, TNum(0), TLBrace] && t1 == [TIdent("x"), TEq, TNum(3), TWhile]
    ensures t1 + (t2 + (t3 + (t4 + []))) == CountdownTokens() && |CountdownTokens()| < |COUNTDOWN_TEXT|
  {
  }

  lemma ScanOf(source: string, ts: seq<Token>)
    requires Lex(source) == Tokens(ts) && |ts| < |source|
    ensures Scan(source) == Tokens(ts + [TEof])
  {
  }

  lemma TextParts(l1: string, l2: string, l3: string, l4: string)
    requires l4 == " x - 1\n}" && l3 == "\nprint x\nx =" && l2 == " x > 0 {" && l1 == "x = 3\nwhile"
    ensures l1 + (l2 + (l3 + (l4 + ""))) == COUNTDOWN_TEXT
  {
  }

  lemma EmptyText()
    ensures Lex("") == Tokens([]) && EndsBefore(TRBrace, "")
  {
  }

  lemma BlankStarts(l4: string, l3: string, l2: string)
    requires l4 == " x - 1\n}" && l3 == "\nprint x\nx =" && l2 == " x > 0 {"
    ensures l4 + "" != "" && (l4 + "")[0] in BLANKS
    ensures l3 + (l4 + "") != "" && (l3 + (l4 + ""))[0] in BLANKS
    ensures l2 + (l3 + (l4 + "")) != "" && (l2 + (l3 + (l4 + "")))[0] in BLANKS
  {
  }

  lemma CountdownLexed()
    ensures Scan(COUNTDOWN_TEXT) == Tokens(CountdownTokens() + [TEof])
  {
    hide *;
    var b4, t4 := [" ", " ", " ", "\n"], [TIdent("x"), TMinus, TNum(1), TRBrace];
    var w4, l4 := ["x", "-", "1", "}"], " x - 1\n}";
    LastLine();
    var b3, t3 := ["\n", " ", "\n", " "], [TPrint, TIdent("x"), TIdent("x"), TEq];
    var w3, l3 := ["print", "x", "x", "="], "\nprint x\nx =";
    Printing();
    var b2, t2, w2, l2 := [" ", " ", " ", " "], [TIdent("x"), TGt, TNum(0), TLBrace], ["x", ">", "0", "{"], " x > 0 {";
    Testing();
    var b1, t1 := ["", " ", " ", "\n"], [TIdent("x"), TEq, TNum(3), TWhile];
    var w1, l1 := ["x", "=", "3", "while"], "x = 3\nwhile";
    FirstLine();
    EmptyText();
    LineLexed(b4, t4, w4, l4, "", []);
    BlankStarts(l4, l3, l2);
    BeforeBlank(t3[3], l4 + "");
    LineLexed(b3, t3, w3, l3, l4 + "", t4 + []);
    BeforeBlank(t2[3], l3 + (l4 + ""));
    LineLexed(b2, t2, w2, l2, l3 + (l4 + ""), t3 + (t4 + []));
    BeforeBlank(t1[3], l2 + (l3 + (l4 + "")));
    LineLexed(b1, t1, w1, l1, l2 + (l3 + (l4 + "")), t2 + (t3 + (t4 + [])));
    TextParts(l1, l2, l3, l4);
    TokenParts(t1, t2, t3, t4);
    ScanOf(COUNTDOWN_TEXT, CountdownTokens());
  }

  // ----- its tree, its code and its meaning -----

  lemma FirstParsed(ts: seq<Token>)
    requires ts == CountdownTokens() + [TEof]
    ensures ParseStatement(ts, 0) == Parsed(Assign("x", Num(3)), 3)
  {
    assert ts[0] == TIdent("x") && ts[1] == TEq && ts[2] == TNum(3) && ts[3] == TWhile;
    FactorAlone(ts, 2);
    assert ParseComparison(ts, 2) == Parsed(Num(3), 3);
    hide ParseComparison;
  }

  lemma TurnParsed(ts: seq<Token>)
    requires ts == CountdownTokens() + [TEof]
    ensures BodyTail(ts, [], 8) == Parsed(Turn(), 15)
  {
    assert ParseFactor(ts, 9) == Parsed(Ident("x"), 10);
    FactorAlone(ts, 9);
    assert ParseStatement(ts, 8) == Parsed(Print(Ident("x")), 10);
    assert ParseFactor(ts, 12) == Parsed(Ident("x"), 13) && ParseFactor(ts, 14) == Parsed(Num(1), 15);
    FactorPair(ts, 12, ParseFactor(ts, 12), ParseFactor(ts, 14));
    assert ParseStatement(ts, 10) == Parsed(Assign("x", Less()), 15);
    hide ParseStatement;
    assert ts[8] == TPrint && ts[10] == TIdent("x") && ts[15] == TRBrace;
    assert [] + [Print(Ident("x"))] + [Assign("x", Less())] == Turn();
    assert BodyTail(ts, [] + [Print(Ident("x"))], 10)
           == BodyTail(ts, [] + [Print(Ident("x"))] + [Assign("x", Less())], 15);
    assert BodyTail(ts, [], 8) == BodyTail(ts, [] + [Print(Ident("x"))], 10);
  }

  lemma LoopParsed(ts: seq<Token>)
    requires ts == CountdownTokens() + [TEof]
    ensures ParseStatement(ts, 3) == Parsed(Loop(), 16)
  {
    assert ParseFactor(ts, 4) == Parsed(Ident("x"), 5) && ParseFactor(ts, 6) == Parsed(Num(0), 7);
    FactorPair(ts, 4, ParseFactor(ts, 4), ParseFactor(ts, 6));
    assert ParseComparison(ts, 4) == Parsed(Test(), 7);
    TurnParsed(ts);
    hide ParseComparison, BodyTail;
    assert ParseBlock(ts, 4) == Parsed((Test(), Turn()), 16);
  }

  lemma CountdownPlaces(ts: seq<Token>)
    requires ts == CountdownTokens() + [TEof]
    ensures |ts| == 17 && !ts[0].TEof? && !ts[3].TEof? && ts[16] == TEof
    ensures [] + [Assign("x", Num(3))] + [Loop()] == Countdown()
  {
    hide Loop;
  }

  lemma FrontEndIs(source: string, ts: seq<Token>, ss: seq<Stmt>, end: nat)
    requires Scan(source) == Tokens(ts) && end < |ts| && ts[end] == TEof
    requires ProgramTail(ts, [], 0) == ProgramTail(ts, ss, end)
    ensures FrontEnd(source) == Parsed(ss, end)
  {
    hide Scan;
  }

  lemma CountdownParsed()
    ensures FrontEnd(COUNTDOWN_TEXT) == Parsed(Countdown(), 16)
  {
    hide *;
    var ts := CountdownTokens() + [TEof];
    var a, l := Assign("x", Num(3)), Loop();
    CountdownLexed();
    FirstParsed(ts);
    LoopParsed(ts);
    CountdownPlaces(ts);
    ProgramStep(ts, [], 0, a, 3);
    ProgramStep(ts, [] + [a], 3, l, 16);
    FrontEndIs(COUNTDOWN_TEXT, ts, [] + [a] + [l], 16);
  }

  lemma SimpleCode()
    ensures var a := Assign("x", Num(3));
            && GenStmt(a, 0, []) == [0x01, 3, 0x0E, 0] && NamesStmt(a, []) == ["x"]
            && NeedStmt(a) == 1 && StmtOk(a, 0, [])
    ensures var p, names := Print(Ident("x")), ["x"];
            && GenStmt(p, 11, names) == [0x0D, 0, 0x07] && NamesStmt(p, names) == names
            && NeedStmt(p) == 1 && StmtOk(p, 11, names)
    ensures var l, names := Assign("x", Less()), ["x"];
            && GenStmt(l, 14, names) == [0x0D, 0, 0x01, 1, 0x04, 0x0E, 0] && NamesStmt(l, names) == names
            && NeedStmt(l) == 2 && StmtOk(l, 14, names)
    ensures GenExpr(Test(), ["x"]) == [0x0D, 0, 0x01, 0, 0x0A] && ExprOk(Test(), ["x"]) && Need(Test()) == 2
  {
  }

  lemma NoCode(pos: nat, names: seq<string>)
    ensures GenSeq([], pos, names) == [] && NamesSeq([], names) == names && SeqOk([], pos, names) && NeedSeq([]) == 0
  {
  }

  lemma TurnCode()
    ensures var names := ["x"];
            && GenSeq(Turn(), 11, names) == [0x0D, 0, 0x07, 0x0D, 0, 0x01, 1, 0x04, 0x0E, 0]
            && NamesSeq(Turn(), names) == names && SeqOk(Turn(), 11, names) && NeedSeq(Turn()) <= 3
  {
    var p, l, names := Print(Ident("x")), Assign("x", Less()), ["x"];
    assert Turn() == [p] + ([l] + []);
    hide *;
    SimpleCode();
    NoCode(21, names);
    ConsFacts(l, [], 14, names);
    ConsFacts(p, [l] + [], 11, names);
  }

  lemma LoopCode()
    ensures var names := ["x"];
            && GenStmt(Loop(), 4, names)
               == [0x0D, 0, 0x01, 0, 0x0A, 0x0C, 23, 0x0D, 0, 0x07, 0x0D, 0, 0x01, 1, 0x04, 0x0E, 0, 0x0B, 4]
            && NamesStmt(Loop(), names) == names && StmtOk(Loop(), 4, names) && NeedStmt(Loop()) <= 3
  {
    SimpleCode();
    TurnCode();
    hide GenExpr, GenSeq, NamesSeq, SeqOk, NeedSeq, ExprOk, Need, Test, Turn;
  }

  lemma CountdownParts()
    ensures Countdown() == [Assign("x", Num(3))] + ([Loop()] + [])
  {
  }

  lemma CompileIs(ss: seq<Stmt>)
    ensures Compile(ss) == GenSeq(ss, 0, []) + [0xFF]
  {
    hide GenSeq;
  }

  /** Its 24 bytes. */
  lemma CountdownCompiled()
    ensures Compile(Countdown()) ==
            [0x01, 3, 0x0E, 0,
             0x0D, 0, 0x01, 0, 0x0A, 0x0C, 23, 0x0D, 0, 0x07, 0x0D, 0, 0x01, 1, 0x04, 0x0E, 0, 0x0B, 4,
             0xFF]
    ensures NamesSeq(Countdown(), []) == ["x"] && Compilable(Countdown())
  {
    var a := Assign("x", Num(3));
    CountdownParts();
    CompileIs(Countdown());
    hide *;
    SimpleCode();
    LoopCode();
    NoCode(23, ["x"]);
    ConsFacts(Loop(), [], 4, ["x"]);
    ConsFacts(a, [Loop()] + [], 0, []);
    MadeCompilable(Countdown());
  }

  function Down(k: nat): seq<int> { if k == 0 then [] else [k] + Down(k - 1) }

  lemma TurnRuns(k: nat, fuel: nat, out: seq<int>)
    requires 0 < k <= 3
    ensures ExecSeq(Turn(), fuel, map["x" := k], out) == Done(map["x" := k - 1], out + [k])
  {
    var p, l := Print(Ident("x")), Assign("x", Less());
    assert map["x" := k]["x" := k - 1] == map["x" := k - 1];
    assert Eval(Less(), map["x" := k]) == Ok(k - 1);
    assert ExecStmt(p, fuel, map["x" := k], out) == Done(map["x" := k], out + [k]);
    assert ExecStmt(l, fuel, map["x" := k], out + [k]) == Done(map["x" := k - 1], out + [k]);
    assert Turn()[0] == p && Turn()[1..] == [l];
    ExecOne(l, fuel, map["x" := k], out + [k]);
    hide ExecStmt;
  }

  lemma {:induction false} LoopRuns(k: nat, out: seq<int>)
    requires k <= 3
    ensures ExecStmt(Loop(), k, map["x" := k], out) == Done(map["x" := 0], out + Down(k))
  {
    assert Eval(Test(), map["x" := k]) == Ok(if k > 0 then 1 else 0);
    hide Eval, Test, Turn;
    if k > 0 {
      TurnRuns(k, k - 1, out);
      LoopRuns(k - 1, out + [k]);
      assert out + [k] + Down(k - 1) == out + ([k] + Down(k - 1));
    } else {
      assert out + [] == out;
    }
  }

  lemma CountdownMeans()
    ensures Exec(Countdown(), 3) == Done(map["x" := 0], [3, 2, 1])
  {
    var a := Assign("x", Num(3));
    assert ExecStmt(a, 3, map[], []) == Done(map["x" := 3], []) by { assert map[]["x" := 3] == map["x" := 3]; }
    assert Countdown()[0] == a && Countdown()[1..] == [Loop()];
    LoopRuns(3, []);
    assert [] + Down(3) == [3, 2, 1] by { assert Down(3) == [3] + ([2] + ([1] + [])); }
    hide ExecStmt, Down, Loop;
    ExecOne(Loop(), 3, map["x" := 3], []);
  }

  lemma ResultDone(o: Outcome, env: Env, out: seq<int>)
    requires Result(o, Done(env, out))
    ensures o == Ran(out, Halted)
  {
  }

  lemma RunsParsed(source: string, ss: seq<Stmt>, end: nat, n: nat)
    requires FrontEnd(source) == Parsed(ss, end) && |Compile(ss)| <= 24 && |NamesSeq(ss, [])| <= 1
    ensures MainOutcome(source, n) == Ran(Run(Start(ss), n).out, Run(Start(ss), n).status)
  {
    hide Compile, NamesSeq, Run, Start, FrontEnd;
  }

  /** From the text in main to what it prints: 3, 2 and 1, and then a halt. */
  lemma CountdownPrints()
    ensures exists n :: MainOutcome(COUNTDOWN_TEXT, n) == Ran([3, 2, 1], Halted)
  {
    var ss := Countdown();
    CountdownParsed();
    CountdownCompiled();
    CountdownMeans();
    hide *;
    SemanticPreservation(ss, 3);
    var n :| !Run(Start(ss), n).status.Running? && Agrees(ss, Exec(ss, 3), 3, n, Run(Start(ss), n));
    AgreesResult(ss, Exec(ss, 3), 3, n, Run(Start(ss), n));
    ResultDone(Ran(Run(Start(ss), n).out, Run(Start(ss), n).status), map["x" := 0], [3, 2, 1]);
    RunsParsed(COUNTDOWN_TEXT, ss, 16, n);
  }
}
