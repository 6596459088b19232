/** The rest of the grammar the parser has, routine by routine, in both directions: factors,
    comparisons and statements.  (Sums and products are in Parser.) */
module Grammar {
  import opened Syntax
  import opened Lexer
  import opened Parser

  // ----- which tokens are operators -----

  /** The token an operator is written with. */
  predicate Spells(t: Token, op: BinOp) {
    || (op == Add && t == TPlus) || (op == Sub && t == TMinus) || (op == Mul && t == TStar)
    || (op == Div && t == TSlash) || (op == Gt && t == TGt) || (op == Lt && t == TLt) || (op == EqEq && t == TEqEq)
  }

  lemma OperatorTokens(t: Token, op: BinOp)
    ensures IsCompareOp(t) <==> t in {TEqEq, TGt, TLt}
    ensures IsAddOp(t) <==> t in {TPlus, TMinus}
    ensures IsMulOp(t) <==> t in {TStar, TSlash}
    ensures IsOp(t) && OpOf(t) == op <==> Spells(t, op)
  {
  }

  // ----- factors -----

  /** A factor is a name, a number, or a comparison with a token before and a token behind it; the
      one before is a parenthesis, the one behind may be any. */
  lemma ExactFactor(ts: seq<Token>, i: nat, e: Expr, end: nat)
    requires i <= |ts|
    ensures ParseFactor(ts, i) == Parsed(e, end) <==>
            i < |ts| &&
            ((end == i + 1 && e.Ident? && ts[i] == TIdent(e.name)) ||
             (end == i + 1 && e.Num? && e.value >= 0 && ts[i] == TNum(e.value)) ||
             (end > 0 && ts[i] == TLParen && ParseComparison(ts, i + 1) == Parsed(e, end - 1)))
  {
  }

  // ----- comparisons -----

  /** A chain `e0 op1 e1 ... opk ek` of what parse_expression reads from `i` up to `end`, joined by
      `==`, `>` and `<`, with none of them behind. */
  ghost predicate Compares(ts: seq<Token>, i: nat, es: seq<Expr>, ops: seq<BinOp>, end: nat)
    requires i <= |ts| && |es| == |ops| + 1
    decreases |ops|
  {
    var e := ParseExpression(ts, i);
    && e.Parsed? && e.node == es[0]
    && if ops == [] then end == e.next && ts[end] !in {TEqEq, TGt, TLt}
       else ops[0] in {EqEq, Gt, Lt} && Spells(ts[e.next], ops[0]) && Compares(ts, e.next + 1, es[1..], ops[1..], end)
  }

  lemma {:induction false} ComparesTail(ts: seq<Token>, i: nat, left: Expr, es: seq<Expr>, ops: seq<BinOp>, end: nat)
    requires i <= |ts| && |es| == |ops| + 1 && Compares(ts, i, es, ops, end)
    ensures end < |ts|
    ensures var e := ParseExpression(ts, i);
            ComparisonTail(ts, left, e.next) == Parsed(LeftFold(left, ops, es[1..]), end)
    decreases |ops|
  {
    var e := ParseExpression(ts, i);
    OperatorTokens(ts[e.next], EqEq);
    if ops != [] {
      OperatorTokens(ts[e.next], ops[0]);
      var next := ParseExpression(ts, e.next + 1);
      assert next.Parsed? && next.node == es[1];
      ComparesTail(ts, e.next + 1, Bin(ops[0], left, es[1]), es[1..], ops[1..], end);
    }
  }

  lemma ComparesParsed(ts: seq<Token>, i: nat, es: seq<Expr>, ops: seq<BinOp>, end: nat)
    requires i <= |ts| && |es| == |ops| + 1 && Compares(ts, i, es, ops, end)
    ensures ParseComparison(ts, i) == Parsed(LeftFold(es[0], ops, es[1..]), end)
  {
    ComparesTail(ts, i, es[0], es, ops, end);
  }

  lemma {:induction false} TailCompares(ts: seq<Token>, i: nat, left: Expr) returns (es: seq<Expr>, ops: seq<BinOp>)
    requires i <= |ts| && ParseExpression(ts, i).Parsed?
    requires ComparisonTail(ts, left, ParseExpression(ts, i).next).Parsed?
    ensures |es| == |ops| + 1
    ensures Compares(ts, i, es, ops, ComparisonTail(ts, left, ParseExpression(ts, i).next).next)
    decreases |ts| - i
  {
    var e := ParseExpression(ts, i);
    OperatorTokens(ts[e.next], EqEq);
    if !IsCompareOp(ts[e.next]) {
      return [e.node], [];
    }
    var op := OpOf(ts[e.next]);
    OperatorTokens(ts[e.next], op);
    var es', ops' := TailCompares(ts, e.next + 1, Bin(op, left, ParseExpression(ts, e.next + 1).node));
    es, ops := [e.node] + es', [op] + ops';
    assert es[1..] == es' && ops[1..] == ops';
  }

  /** parse_comparison accepts exactly these chains, and folds them from the left. */
  lemma ExactComparison(ts: seq<Token>, i: nat, e: Expr, end: nat)
    requires i <= |ts|
    ensures ParseComparison(ts, i) == Parsed(e, end) <==>
            exists es, ops :: |es| == |ops| + 1 && Compares(ts, i, es, ops, end) && e == LeftFold(es[0], ops, es[1..])
  {
    if ParseComparison(ts, i) == Parsed(e, end) {
      var es, ops := TailCompares(ts, i, ParseExpression(ts, i).node);
      ComparesParsed(ts, i, es, ops, end);
      assert |es| == |ops| + 1 && Compares(ts, i, es, ops, end) && e == LeftFold(es[0], ops, es[1..]);
    }
    if es, ops :| |es| == |ops| + 1 && Compares(ts, i, es, ops, end) && e == LeftFold(es[0], ops, es[1..]) {
      ComparesParsed(ts, i, es, ops, end);
    }
  }

  lemma {:induction false} ChainIsArithmetic(ts: seq<Token>, i: nat, fs: seq<Expr>, ops: seq<BinOp>, end: nat)
    requires i <= |ts| && |fs| == |ops| + 1 && Chain(ts, i, fs, ops, end)
    ensures forall op :: op in ops ==> op in {Add, Sub, Mul, Div}
    decreases |ops|
  {
    if ops != [] {
      ChainIsArithmetic(ts, ParseFactor(ts, i).next + 1, fs[1..], ops[1..], end);
      assert ops == [ops[0]] + ops[1..];
    }
  }

  /** Each part of a comparison is a chain of factors joined by `+`, `-`, `*` and `/` only: `==`, `>`
      and `<` bind looser than any of those. */
  lemma ComparedAreArithmetic(ts: seq<Token>, i: nat) returns (fs: seq<Expr>, ops: seq<BinOp>)
    requires i <= |ts| && ParseExpression(ts, i).Parsed?
    ensures |fs| == |ops| + 1 && Chain(ts, i, fs, ops, ParseExpression(ts, i).next)
    ensures ParseExpression(ts, i).node == ChainTree(fs, ops) && forall op :: op in ops ==> op in {Add, Sub, Mul, Div}
    ensures ts[ParseExpression(ts, i).next] !in {TPlus, TMinus, TStar, TSlash}
  {
    fs, ops := ExpressionIsChain(ts, i);
    ChainFrom(ts, i, fs, ops, ParseExpression(ts, i).next);
    assert ParseExpression(ts, i) == Parsed(ChainTree(fs, ops), ParseExpression(ts, i).next);
    ChainIsArithmetic(ts, i, fs, ops, ParseExpression(ts, i).next);
    ExpressionStops(ts, i);
    var t := ts[ParseExpression(ts, i).next];
    OperatorTokens(t, Add);
    assert t !in {TPlus, TMinus} && t !in {TStar, TSlash};
  }

  lemma OneFactor(ts: seq<Token>, i: nat, n: nat)
    requires i + 1 < |ts| && ts[i] == TNum(n) && ts[i + 1] !in {TPlus, TMinus, TStar, TSlash}
    ensures ParseExpression(ts, i) == Parsed(Num(n), i + 1)
  {
    var t := ts[i + 1];
    OperatorTokens(t, Add);
    assert t !in {TPlus, TMinus} && t !in {TStar, TSlash};
    assert ParseTerm(ts, i) == TermTail(ts, Num(n), i + 1) == Parsed(Num(n), i + 1);
    assert ParseExpression(ts, i) == ExpressionTail(ts, Num(n), i + 1);
  }

  /** `3 > 2 > 1` is read as `(3 > 2) > 1`. */
  lemma ComparisonsFromTheLeft()
    ensures ParseComparison([TNum(3), TGt, TNum(2), TGt, TNum(1), TEof], 0)
            == Parsed(Bin(Gt, Bin(Gt, Num(3), Num(2)), Num(1)), 5)
  {
    var ts := [TNum(3), TGt, TNum(2), TGt, TNum(1), TEof];
    OneFactor(ts, 0, 3);
    OneFactor(ts, 2, 2);
    OneFactor(ts, 4, 1);
    hide ParseExpression;
    var two := Bin(Gt, Num(3), Num(2));
    var three := Bin(Gt, two, Num(1));
    assert ComparisonTail(ts, three, 5) == Parsed(three, 5);
    assert ComparisonTail(ts, two, 3) == ComparisonTail(ts, three, 5);
    assert ComparisonTail(ts, Num(3), 1) == ComparisonTail(ts, two, 3);
  }

  // ----- statements -----

  /** An assignment or a print is its keyword or name with `=`, and a whole comparison. */
  lemma ExactSimple(ts: seq<Token>, i: nat, x: string, e: Expr, end: nat)
    requires i <= |ts|
    ensures ParseStatement(ts, i) == Parsed(Assign(x, e), end) <==>
            i + 1 < |ts| && ts[i] == TIdent(x) && ts[i + 1] == TEq && ParseComparison(ts, i + 2) == Parsed(e, end)
    ensures ParseStatement(ts, i) == Parsed(Print(e), end) <==>
            i < |ts| && ts[i] == TPrint && ParseComparison(ts, i + 1) == Parsed(e, end)
  {
    hide ParseComparison, ParseBlock;
  }

  /** The statements `ss` stand one behind the other from `i` up to `end`. */
  ghost predicate Reads(ts: seq<Token>, i: nat, ss: seq<Stmt>, end: nat)
    requires i <= |ts|
    decreases |ss|
  {
    if ss == [] then end == i
    else
      var r := ParseStatement(ts, i);
      && i < |ts| && ts[i] != TRBrace && r.Parsed? && r.node == ss[0] && Reads(ts, r.next, ss[1..], end)
  }

  ghost predicate BlockReads(ts: seq<Token>, i: nat, c: Expr, body: seq<Stmt>, end: nat)
    requires i <= |ts|
  {
    var t := ParseComparison(ts, i);
    && t.Parsed? && t.node == c && 0 < end <= |ts| && ts[end - 1] == TRBrace
    && |body| <= 128 && Reads(ts, t.next + 1, body, end - 1)
  }

  lemma {:induction false} BodyReads(ts: seq<Token>, done: seq<Stmt>, i: nat, ss: seq<Stmt>, end: nat)
    requires i <= |ts| && Reads(ts, i, ss, end) && end < |ts| && ts[end] == TRBrace && |done| + |ss| <= 128
    ensures BodyTail(ts, done, i) == Parsed(done + ss, end)
    decreases |ss|
  {
    hide ParseStatement;
    if ss == [] {
      assert done + ss == done;
    } else {
      var r := ParseStatement(ts, i);
      BodyReads(ts, done + [ss[0]], r.next, ss[1..], end);
      assert done + [ss[0]] + ss[1..] == done + ss;
    }
  }

  lemma {:induction false} ReadsBody(ts: seq<Token>, done: seq<Stmt>, i: nat) returns (ss: seq<Stmt>)
    requires i <= |ts| && BodyTail(ts, done, i).Parsed? && |done| <= 128
    ensures var r := BodyTail(ts, done, i);
            r.node == done + ss && |r.node| <= 128 && Reads(ts, i, ss, r.next) && ts[r.next] == TRBrace
    decreases |ts| - i
  {
    hide ParseStatement;
    if ts[i].TRBrace? {
      ss := [];
      assert done + ss == done;
    } else {
      var r := ParseStatement(ts, i);
      var rest := ReadsBody(ts, done + [r.node], r.next);
      ss := [r.node] + rest;
      assert ss[1..] == rest && done + [r.node] + rest == done + ss;
    }
  }

  lemma {:induction false} ReadsUnique(ts: seq<Token>, i: nat, ss: seq<Stmt>, end: nat)
    requires i <= |ts| && Reads(ts, i, ss, end)
    ensures i <= end <= |ts|
    decreases |ss|
  {
    hide ParseStatement;
    if ss != [] { ReadsUnique(ts, ParseStatement(ts, i).next, ss[1..], end); }
  }

  lemma BlockExact(ts: seq<Token>, i: nat, c: Expr, body: seq<Stmt>, end: nat)
    requires i <= |ts|
    ensures ParseBlock(ts, i) == Parsed((c, body), end) <==> BlockReads(ts, i, c, body, end)
  {
    var t := ParseComparison(ts, i);
    if ParseBlock(ts, i) == Parsed((c, body), end) {
      var ss := ReadsBody(ts, [], t.next + 1);
      assert [] + ss == ss;
    }
    if BlockReads(ts, i, c, body, end) {
      ReadsUnique(ts, t.next + 1, body, end - 1);
      BodyReads(ts, [], t.next + 1, body, end - 1);
      assert [] + body == body;
    }
  }

  /** An `if` or `while` is its keyword, a comparison, any one token, and the statements up to the
      first `}` that starts none, at most 128 of them. */
  lemma ExactBlock(ts: seq<Token>, i: nat, c: Expr, body: seq<Stmt>, end: nat)
    requires i <= |ts|
    ensures ParseStatement(ts, i) == Parsed(If(c, body), end) <==>
            i < |ts| && ts[i] == TIf && BlockReads(ts, i + 1, c, body, end)
    ensures ParseStatement(ts, i) == Parsed(While(c, body), end) <==>
            i < |ts| && ts[i] == TWhile && BlockReads(ts, i + 1, c, body, end)
  {
    if i < |ts| { BlockExact(ts, i + 1, c, body, end); }
    hide ParseComparison, ParseBlock, BlockReads;
  }

  // ----- the error exit -----

  /** Expressions have no error exit: where they go wrong, C leaves open what happens. */
  lemma {:induction false} FactorNeverRejects(ts: seq<Token>, i: nat)
    requires i <= |ts|
    ensures !ParseFactor(ts, i).Rejected?
    decreases |ts| - i, 0
  {
    if i < |ts| && ts[i].TLParen? { ComparisonNeverRejects(ts, i + 1); }
  }

  lemma {:induction false} TermNeverRejects(ts: seq<Token>, i: nat)
    requires i <= |ts|
    ensures !ParseTerm(ts, i).Rejected?
    decreases |ts| - i, 1
  {
    FactorNeverRejects(ts, i);
    var f := ParseFactor(ts, i);
    if f.Parsed? && f.next < |ts| {
      TermLoopTurnsAtMostOnce(ts, i);
      if IsMulOp(ts[f.next]) { ExpressionNeverRejects(ts, f.next + 1); }
    }
  }

  lemma {:induction false} ExpressionNeverRejects(ts: seq<Token>, i: nat)
    requires i <= |ts|
    ensures !ParseExpression(ts, i).Rejected?
    decreases |ts| - i, 2
  {
    TermNeverRejects(ts, i);
    var r := ParseTerm(ts, i);
    if r.Parsed? { ExpressionTailNeverRejects(ts, r.node, r.next); }
  }

  lemma {:induction false} ExpressionTailNeverRejects(ts: seq<Token>, left: Expr, i: nat)
    requires i <= |ts|
    ensures !ExpressionTail(ts, left, i).Rejected?
    decreases |ts| - i, 4
  {
    if i < |ts| && IsAddOp(ts[i]) {
      TermNeverRejects(ts, i + 1);
      var r := ParseTerm(ts, i + 1);
      if r.Parsed? { ExpressionTailNeverRejects(ts, Bin(OpOf(ts[i]), left, r.node), r.next); }
    }
  }

  lemma {:induction false} ComparisonNeverRejects(ts: seq<Token>, i: nat)
    requires i <= |ts|
    ensures !ParseComparison(ts, i).Rejected?
    decreases |ts| - i, 3
  {
    ExpressionNeverRejects(ts, i);
    var r := ParseExpression(ts, i);
    if r.Parsed? { ComparisonTailNeverRejects(ts, r.node, r.next); }
  }

  lemma {:induction false} ComparisonTailNeverRejects(ts: seq<Token>, left: Expr, i: nat)
    requires i <= |ts|
    ensures !ComparisonTail(ts, left, i).Rejected?
    decreases |ts| - i, 4
  {
    if i < |ts| && IsCompareOp(ts[i]) {
      ExpressionNeverRejects(ts, i + 1);
      var r := ParseExpression(ts, i + 1);
      if r.Parsed? { ComparisonTailNeverRejects(ts, Bin(OpOf(ts[i]), left, r.node), r.next); }
    }
  }

  /** The statement at `i`, or one inside it, starts with a token that can start none. */
  ghost predicate Refuses(ts: seq<Token>, i: nat)
    requires i <= |ts|
    decreases |ts| - i, 0
  {
    i < |ts| &&
    (!(ts[i].TIdent? || ts[i] in {TPrint, TIf, TWhile}) ||
     (ts[i] in {TIf, TWhile} && ParseComparison(ts, i + 1).Parsed? &&
      RefusesIn(ts, ParseComparison(ts, i + 1).next + 1, 128)))
  }

  /** Among the statements of a body from `i` on there is such a one, behind at most `room` others. */
  ghost predicate RefusesIn(ts: seq<Token>, i: nat, room: nat)
    requires i <= |ts|
    decreases |ts| - i, 1
  {
    i < |ts| && ts[i] != TRBrace &&
    (Refuses(ts, i) ||
     (room > 0 && ParseStatement(ts, i).Parsed? && RefusesIn(ts, ParseStatement(ts, i).next, room - 1)))
  }

  /** parse_statement takes its error exit exactly there. */
  lemma {:induction false} StatementRejects(ts: seq<Token>, i: nat)
    requires i <= |ts|
    ensures ParseStatement(ts, i).Rejected? <==> Refuses(ts, i)
    decreases |ts| - i, 0
  {
    if i < |ts| {
      match ts[i]
      case TIdent(_) => if i + 1 < |ts| { ComparisonNeverRejects(ts, i + 2); }
      case TPrint => ComparisonNeverRejects(ts, i + 1);
      case TIf => BlockRejects(ts, i + 1);
      case TWhile => BlockRejects(ts, i + 1);
      case _ =>
    }
  }

  lemma {:induction false} BlockRejects(ts: seq<Token>, i: nat)
    requires i <= |ts|
    ensures var c := ParseComparison(ts, i);
            ParseBlock(ts, i).Rejected? <==> c.Parsed? && RefusesIn(ts, c.next + 1, 128)
    decreases |ts| - i, 2
  {
    ComparisonNeverRejects(ts, i);
    var c := ParseComparison(ts, i);
    if c.Parsed? { BodyRejects(ts, [], c.next + 1); }
  }

  lemma {:induction false} BodyRejects(ts: seq<Token>, body: seq<Stmt>, i: nat)
    requires i <= |ts| && |body| <= 128
    ensures BodyTail(ts, body, i).Rejected? <==> RefusesIn(ts, i, 128 - |body|)
    decreases |ts| - i, 1
  {
    if i < |ts| && !ts[i].TRBrace? {
      StatementRejects(ts, i);
      var r := ParseStatement(ts, i);
      if r.Parsed? && |body| < 128 { BodyRejects(ts, body + [r.node], r.next); }
    }
  }

  /** Among the statements of the program from `i` on, up to the end marker, there is such a one. */
  ghost predicate ProgramRefuses(ts: seq<Token>, i: nat)
    requires i <= |ts|
    decreases |ts| - i
  {
    i < |ts| && ts[i] != TEof &&
    (Refuses(ts, i) || (ParseStatement(ts, i).Parsed? && ProgramRefuses(ts, ParseStatement(ts, i).next)))
  }

  lemma {:induction false} ProgramRejects(ts: seq<Token>, stmts: seq<Stmt>, i: nat)
    requires i <= |ts|
    ensures ProgramTail(ts, stmts, i).Rejected? <==> ProgramRefuses(ts, i)
    decreases |ts| - i
  {
    if i < |ts| && !ts[i].TEof? {
      StatementRejects(ts, i);
      hide ParseStatement, Refuses;
      var r := ParseStatement(ts, i);
      if r.Parsed? { ProgramRejects(ts, stmts + [r.node], r.next); }
    }
  }

  /** parser accepts exactly the statements one behind the other up to the end marker. */
  ghost predicate ProgramReads(ts: seq<Token>, i: nat, ss: seq<Stmt>, end: nat)
    requires i <= |ts|
    decreases |ss|
  {
    i < |ts| &&
    if ss == [] then end == i && ts[i] == TEof
    else
      var r := ParseStatement(ts, i);
      ts[i] != TEof && r.Parsed? && r.node == ss[0] && ProgramReads(ts, r.next, ss[1..], end)
  }

  lemma {:induction false} TailExtends(ts: seq<Token>, done: seq<Stmt>, i: nat)
    requires i <= |ts|
    ensures var r := ProgramTail(ts, done, i); r.Parsed? ==> done <= r.node
    decreases |ts| - i
  {
    hide ParseStatement;
    if i < |ts| && !ts[i].TEof? {
      var r := ParseStatement(ts, i);
      if r.Parsed? { TailExtends(ts, done + [r.node], r.next); }
    }
  }

  lemma Extended(done: seq<Stmt>, s: Stmt, ss: seq<Stmt>)
    requires done + [s] <= done + ss
    ensures ss != [] && ss[0] == s
  {
    assert |done + ss| == |done| + |ss|;
    assert (done + ss)[|done|] == (done + [s])[|done|];
  }

  lemma {:induction false} TailReads(ts: seq<Token>, done: seq<Stmt>, i: nat, ss: seq<Stmt>, end: nat)
    requires i <= |ts|
    ensures ProgramTail(ts, done, i) == Parsed(done + ss, end) <==> ProgramReads(ts, i, ss, end)
    decreases |ts| - i
  {
    hide ParseStatement;
    if i < |ts| {
      if ts[i].TEof? {
        assert |done + ss| == |done| + |ss|;
        assert ss == [] ==> done + ss == done;
      } else {
        var r := ParseStatement(ts, i);
        if r.Parsed? {
          if ss != [] && ss[0] == r.node {
            assert done + [r.node] + ss[1..] == done + ss;
            TailReads(ts, done + [r.node], r.next, ss[1..], end);
          } else {
            TailExtends(ts, done + [r.node], r.next);
            if done + [r.node] <= done + ss { Extended(done, r.node, ss); }
          }
        }
      }
    }
  }

  lemma ExactProgram(ts: seq<Token>, ss: seq<Stmt>, end: nat)
    ensures ParseProgram(ts) == Parsed(ss, end) <==> ProgramReads(ts, 0, ss, end)
    ensures ParseProgram(ts).Rejected? <==> ProgramRefuses(ts, 0)
  {
    TailReads(ts, [], 0, ss, end);
    ProgramRejects(ts, [], 0);
    assert [] + ss == ss;
  }
}
