/** Text round trip: a program printed with every binary expression in parentheses and a space
    after every token is lexed and parsed back to the same tree. */
module RoundTrip {
  import opened Syntax
  import opened Lexer
  import opened Parser

  // ----- printing to tokens -----

  function OpToken(op: BinOp): (t: Token)
    ensures IsOp(t) && OpOf(t) == op
  {
    match op
    case Add => TPlus
    case Sub => TMinus
    case Mul => TStar
    case Div => TSlash
    case Gt => TGt
    case Lt => TLt
    case EqEq => TEqEq
  }

  predicate IsName(x: string) {
    && 0 < |x| <= WORD_MAX && IsAlpha(x[0]) && (forall i :: 0 <= i < |x| ==> IsAlnum(x[i]))
    && x != "print" && x != "while" && x != "if"
  }

  /** The programs that can be written down: names are identifiers of at most 31 characters,
      literals are non-negative ints, and no body has more than 128 statements. */
  predicate PrintableExpr(e: Expr) {
    match e
    case Num(n) => 0 <= n <= INT_MAX
    case Ident(x) => IsName(x)
    case Bin(_, l, r) => PrintableExpr(l) && PrintableExpr(r)
  }

  predicate Printable(s: Stmt)
    decreases s, 1
  {
    match s
    case Assign(x, e) => IsName(x) && PrintableExpr(e)
    case Print(e) => PrintableExpr(e)
    case If(c, body) => PrintableExpr(c) && |body| <= BODY_MAX && PrintableSeq(body)
    case While(c, body) => PrintableExpr(c) && |body| <= BODY_MAX && PrintableSeq(body)
  }

  predicate PrintableSeq(ss: seq<Stmt>)
    decreases ss, 0
  {
    ss == [] || (Printable(ss[0]) && PrintableSeq(ss[1..]))
  }

  function ExprTokens(e: Expr): (ts: seq<Token>)
    requires PrintableExpr(e)
    ensures |ts| > 0
  {
    match e
    case Num(n) => [TNum(n)]
    case Ident(x) => [TIdent(x)]
    case Bin(op, l, r) => [TLParen] + (ExprTokens(l) + [OpToken(op)] + ExprTokens(r) + [TRParen])
  }

  function StmtTokens(s: Stmt): (ts: seq<Token>)
    requires Printable(s)
    ensures |ts| > 0 && (ts[0].TIdent? || ts[0].TPrint? || ts[0].TIf? || ts[0].TWhile?)
    decreases s, 1
  {
    match s
    case Assign(x, e) => [TIdent(x), TEq] + ExprTokens(e)
    case Print(e) => [TPrint] + ExprTokens(e)
    case If(c, body) => [TIf] + BlockTokens(c, body)
    case While(c, body) => [TWhile] + BlockTokens(c, body)
  }

  function BlockTokens(c: Expr, body: seq<Stmt>): seq<Token>
    requires PrintableExpr(c) && PrintableSeq(body)
    decreases body, 1
  {
    ExprTokens(c) + [TLBrace] + SeqTokens(body) + [TRBrace]
  }

  function SeqTokens(ss: seq<Stmt>): (ts: seq<Token>)
    requires PrintableSeq(ss)
    ensures ts != [] ==> (ts[0].TIdent? || ts[0].TPrint? || ts[0].TIf? || ts[0].TWhile?)
    decreases ss, 0
  {
    if ss == [] then [] else StmtTokens(ss[0]) + SeqTokens(ss[1..])
  }

  // ----- parsing the tokens back -----

  /** `frag` stands at `i`, and at least one more token follows it. */
  ghost predicate TokensAt(ts: seq<Token>, i: nat, frag: seq<Token>) {
    i + |frag| < |ts| && ts[i..i + |frag|] == frag
  }

  lemma TokensSplit(ts: seq<Token>, i: nat, a: seq<Token>, b: seq<Token>)
    requires TokensAt(ts, i, a + b)
    ensures TokensAt(ts, i, a) && TokensAt(ts, i + |a|, b) && i + |a| + |b| < |ts|
  {
    var whole := ts[i..i + |a + b|];
    assert whole[..|a|] == a && whole[|a|..] == b;
    assert ts[i..i + |a|] == whole[..|a|];
    assert ts[i + |a|..i + |a| + |b|] == whole[|a|..];
  }

  lemma TokensSplit4(ts: seq<Token>, i: nat, a: seq<Token>, b: seq<Token>, c: seq<Token>, d: seq<Token>)
    requires TokensAt(ts, i, a + b + c + d)
    ensures TokensAt(ts, i, a) && TokensAt(ts, i + |a|, b)
    ensures TokensAt(ts, i + |a| + |b|, c) && TokensAt(ts, i + |a| + |b| + |c|, d)
    ensures i + |a| + |b| + |c| + |d| < |ts|
  {
    hide TokensAt;
    TokensSplit(ts, i, a + b + c, d);
    TokensSplit(ts, i, a + b, c);
    TokensSplit(ts, i, a, b);
  }

  lemma TokensHead(ts: seq<Token>, i: nat, frag: seq<Token>)
    requires TokensAt(ts, i, frag) && |frag| > 0
    ensures i + |frag| < |ts| && ts[i] == frag[0]
  {
    assert ts[i..i + |frag|][0] == frag[0];
  }

  /** A factor with no operator behind it is an expression and a comparison. */
  lemma FactorAlone(ts: seq<Token>, i: nat)
    requires i <= |ts| && ParseFactor(ts, i).Parsed? && ParseFactor(ts, i).next < |ts|
    ensures var f := ParseFactor(ts, i);
            && (!IsMulOp(ts[f.next]) ==> ParseTerm(ts, i) == f)
            && (!IsMulOp(ts[f.next]) && !IsAddOp(ts[f.next]) ==> ParseExpression(ts, i) == f)
            && (!IsOp(ts[f.next]) ==> ParseComparison(ts, i) == f)
  {
  }

  /** Two factors with an operator between them and none behind are parsed to that operation. */
  lemma FactorPair(ts: seq<Token>, i: nat, l: Parse<Expr>, r: Parse<Expr>)
    requires i <= |ts| && l == ParseFactor(ts, i) && l.Parsed? && l.next < |ts| && IsOp(ts[l.next])
    requires r == ParseFactor(ts, l.next + 1) && r.Parsed? && r.next < |ts| && !IsOp(ts[r.next])
    ensures ParseComparison(ts, i) == Parsed(Bin(OpOf(ts[l.next]), l.node, r.node), r.next)
  {
    FactorAlone(ts, i);
    FactorAlone(ts, l.next + 1);
    var both := Bin(OpOf(ts[l.next]), l.node, r.node);
    if IsMulOp(ts[l.next]) {
      TermLoopTurnsAtMostOnce(ts, i);
      assert ParseTerm(ts, i) == Parsed(both, r.next);
      assert ParseExpression(ts, i) == Parsed(both, r.next);
    } else if IsAddOp(ts[l.next]) {
      assert ParseExpression(ts, i) == ExpressionTail(ts, l.node, l.next) == ExpressionTail(ts, both, r.next);
      assert ParseExpression(ts, i) == Parsed(both, r.next);
    } else {
      assert ParseComparison(ts, i) == ComparisonTail(ts, l.node, l.next) == ComparisonTail(ts, both, r.next);
    }
  }

  /** Where the parts of a printed operation stand. */
  lemma PairShape(ts: seq<Token>, i: nat, tl: seq<Token>, op: Token, tr: seq<Token>)
    requires TokensAt(ts, i, [TLParen] + (tl + [op] + tr + [TRParen]))
    ensures var j, k := i + 1 + |tl|, i + 2 + |tl| + |tr|;
            && k + 1 < |ts| && ts[i] == TLParen && ts[j] == op && ts[k] == TRParen
            && TokensAt(ts, i + 1, tl) && TokensAt(ts, j + 1, tr)
  {
    hide TokensAt;
    TokensSplit(ts, i, [TLParen], tl + [op] + tr + [TRParen]);
    TokensSplit4(ts, i + 1, tl, [op], tr, [TRParen]);
    TokensHead(ts, i, [TLParen]);
    TokensHead(ts, i + 1 + |tl|, [op]);
    TokensHead(ts, i + 1 + |tl| + 1 + |tr|, [TRParen]);
  }

  /** Two factors with an operator between them, in parentheses. */
  lemma PairBack(ts: seq<Token>, i: nat, l: Expr, j: nat, op: BinOp, r: Expr, k: nat)
    requires i < j < k < |ts| && ts[i] == TLParen && ts[j] == OpToken(op) && ts[k] == TRParen
    requires ParseFactor(ts, i + 1) == Parsed(l, j) && ParseFactor(ts, j + 1) == Parsed(r, k)
    ensures ParseFactor(ts, i) == Parsed(Bin(op, l, r), k + 1)
  {
    hide ParseComparison, OpToken, OpOf;
    FactorPair(ts, i + 1, ParseFactor(ts, i + 1), ParseFactor(ts, j + 1));
  }

  lemma {:induction false} FactorBack(e: Expr, ts: seq<Token>, i: nat)
    requires PrintableExpr(e) && TokensAt(ts, i, ExprTokens(e))
    ensures ParseFactor(ts, i) == Parsed(e, i + |ExprTokens(e)|)
    decreases e
  {
    match e
    case Num(_) => TokensHead(ts, i, ExprTokens(e));
    case Ident(_) => TokensHead(ts, i, ExprTokens(e));
    case Bin(op, l, r) =>
      var tl, tr := ExprTokens(l), ExprTokens(r);
      assert ExprTokens(e) == [TLParen] + (tl + [OpToken(op)] + tr + [TRParen]);
      hide TokensAt, OpToken, OpOf, ParseComparison, ParseFactor, ExprTokens;
      PairShape(ts, i, tl, OpToken(op), tr);
      FactorBack(l, ts, i + 1);
      FactorBack(r, ts, i + 2 + |tl|);
      PairBack(ts, i, l, i + 1 + |tl|, op, r, i + 2 + |tl| + |tr|);
  }

  lemma ComparisonBack(e: Expr, ts: seq<Token>, i: nat)
    requires PrintableExpr(e) && TokensAt(ts, i, ExprTokens(e)) && !IsOp(ts[i + |ExprTokens(e)|])
    ensures ParseComparison(ts, i) == Parsed(e, i + |ExprTokens(e)|)
  {
    FactorBack(e, ts, i);
    FactorAlone(ts, i);
  }

  lemma BlockStatement(ts: seq<Token>, i: nat, c: Expr, body: seq<Stmt>, end: nat)
    requires i < |ts| && (ts[i].TIf? || ts[i].TWhile?) && ParseBlock(ts, i + 1) == Parsed((c, body), end)
    ensures ParseStatement(ts, i) == Parsed(if ts[i].TIf? then If(c, body) else While(c, body), end)
  {
    hide ParseBlock, ParseComparison;
  }

  lemma HeadPieces(ts: seq<Token>, i: nat, first: seq<Token>, rest: seq<Token>)
    requires first != [] && TokensAt(ts, i, first + rest)
    ensures TokensAt(ts, i, first) && TokensAt(ts, i + |first|, rest) && i + |first| + |rest| < |ts|
    ensures ts[i] == first[0] && (rest != [] ==> ts[i + |first|] == rest[0])
  {
    hide TokensAt;
    TokensSplit(ts, i, first, rest);
    TokensHead(ts, i, first);
    if rest != [] { TokensHead(ts, i + |first|, rest); }
  }

  lemma AssignBack(x: string, e: Expr, ts: seq<Token>, i: nat)
    requires PrintableExpr(e) && TokensAt(ts, i, [TIdent(x), TEq] + ExprTokens(e))
    requires !IsOp(ts[i + 2 + |ExprTokens(e)|])
    ensures ParseStatement(ts, i) == Parsed(Assign(x, e), i + 2 + |ExprTokens(e)|)
  {
    hide TokensAt, ExprTokens, PrintableExpr, ParseComparison, IsOp;
    HeadPieces(ts, i, [TIdent(x), TEq], ExprTokens(e));
    assert [TIdent(x), TEq] == [TIdent(x)] + [TEq];
    HeadPieces(ts, i, [TIdent(x)], [TEq]);
    ComparisonBack(e, ts, i + 2);
  }

  lemma PrintBack(e: Expr, ts: seq<Token>, i: nat)
    requires PrintableExpr(e) && TokensAt(ts, i, [TPrint] + ExprTokens(e))
    requires !IsOp(ts[i + 1 + |ExprTokens(e)|])
    ensures ParseStatement(ts, i) == Parsed(Print(e), i + 1 + |ExprTokens(e)|)
  {
    hide TokensAt, ExprTokens, PrintableExpr, ParseComparison, IsOp;
    HeadPieces(ts, i, [TPrint], ExprTokens(e));
    ComparisonBack(e, ts, i + 1);
  }

  lemma {:induction false} StatementBack(s: Stmt, ts: seq<Token>, i: nat)
    requires Printable(s) && TokensAt(ts, i, StmtTokens(s)) && !IsOp(ts[i + |StmtTokens(s)|])
    ensures ParseStatement(ts, i) == Parsed(s, i + |StmtTokens(s)|)
    decreases s, 1
  {
    match s
    case Assign(x, e) => AssignBack(x, e, ts, i);
    case Print(e) => PrintBack(e, ts, i);
    case If(c, body) =>
      hide TokensAt, ExprTokens, BlockTokens, ParseBlock, ParseStatement, IsOp;
      HeadPieces(ts, i, [TIf], BlockTokens(c, body));
      BlockBack(c, body, ts, i + 1);
      BlockStatement(ts, i, c, body, i + 1 + |BlockTokens(c, body)|);
    case While(c, body) =>
      hide TokensAt, ExprTokens, BlockTokens, ParseBlock, ParseStatement, IsOp;
      HeadPieces(ts, i, [TWhile], BlockTokens(c, body));
      BlockBack(c, body, ts, i + 1);
      BlockStatement(ts, i, c, body, i + 1 + |BlockTokens(c, body)|);
  }

  lemma BlockPieces(ts: seq<Token>, i: nat, tc: seq<Token>, tb: seq<Token>)
    requires TokensAt(ts, i, tc + [TLBrace] + tb + [TRBrace])
    ensures var j, k := i + |tc|, i + |tc| + 1 + |tb|;
            && k + 1 < |ts| && ts[j] == TLBrace && ts[k] == TRBrace
            && TokensAt(ts, i, tc) && TokensAt(ts, j + 1, tb)
  {
    hide TokensAt;
    TokensSplit4(ts, i, tc, [TLBrace], tb, [TRBrace]);
    TokensHead(ts, i + |tc|, [TLBrace]);
    TokensHead(ts, i + |tc| + 1 + |tb|, [TRBrace]);
  }

  /** Where the parts of a printed block stand. */
  lemma BlockShape(c: Expr, body: seq<Stmt>, ts: seq<Token>, i: nat)
    requires PrintableExpr(c) && PrintableSeq(body) && TokensAt(ts, i, BlockTokens(c, body))
    ensures var j, k := i + |ExprTokens(c)|, i + |ExprTokens(c)| + 1 + |SeqTokens(body)|;
            && i + |BlockTokens(c, body)| == k + 1 < |ts|
            && ts[j] == TLBrace && ts[k] == TRBrace
            && TokensAt(ts, i, ExprTokens(c)) && TokensAt(ts, j + 1, SeqTokens(body))
  {
    hide TokensAt, ExprTokens, SeqTokens, PrintableExpr, PrintableSeq;
    BlockPieces(ts, i, ExprTokens(c), SeqTokens(body));
  }

  lemma {:induction false} BlockBack(c: Expr, body: seq<Stmt>, ts: seq<Token>, i: nat)
    requires PrintableExpr(c) && PrintableSeq(body) && |body| <= BODY_MAX
    requires TokensAt(ts, i, BlockTokens(c, body))
    ensures ParseBlock(ts, i) == Parsed((c, body), i + |BlockTokens(c, body)|)
    decreases body, 1
  {
    hide TokensAt, ExprTokens, SeqTokens, BlockTokens, ParseComparison;
    BlockShape(c, body, ts, i);
    var j := i + |ExprTokens(c)|;
    ComparisonBack(c, ts, i);
    BodyBack([], body, ts, j + 1);
    assert [] + body == body;
  }

  lemma HeadTokens(ss: seq<Stmt>)
    requires ss != [] && PrintableSeq(ss)
    ensures Printable(ss[0]) && PrintableSeq(ss[1..])
    ensures SeqTokens(ss) == StmtTokens(ss[0]) + SeqTokens(ss[1..])
  {
  }

  /** A printed statement list starts with its first statement, and no operator follows that. */
  lemma FirstShape(ss: seq<Stmt>, ts: seq<Token>, i: nat)
    requires ss != [] && PrintableSeq(ss) && TokensAt(ts, i, SeqTokens(ss))
    requires ts[i + |SeqTokens(ss)|].TRBrace? || ts[i + |SeqTokens(ss)|].TEof?
    ensures var first, rest := StmtTokens(ss[0]), SeqTokens(ss[1..]);
            && i + |SeqTokens(ss)| == i + |first| + |rest| < |ts|
            && TokensAt(ts, i, first) && TokensAt(ts, i + |first|, rest)
            && !ts[i].TRBrace? && !ts[i].TEof? && !IsOp(ts[i + |first|])
  {
    hide TokensAt, StmtTokens, Printable, ExprTokens, PrintableExpr, BlockTokens;
    HeadTokens(ss);
    hide SeqTokens, PrintableSeq;
    HeadPieces(ts, i, StmtTokens(ss[0]), SeqTokens(ss[1..]));
  }

  lemma Moved(done: seq<Stmt>, ss: seq<Stmt>)
    requires ss != []
    ensures done + [ss[0]] + ss[1..] == done + ss
  {
  }

  lemma BodyStep(ts: seq<Token>, body: seq<Stmt>, i: nat, s: Stmt, next: nat)
    requires i < |ts| && !ts[i].TRBrace? && |body| < BODY_MAX && ParseStatement(ts, i) == Parsed(s, next)
    ensures next <= |ts| && BodyTail(ts, body, i) == BodyTail(ts, body + [s], next)
  {
    hide ParseStatement;
  }

  lemma {:induction false} BodyBack(done: seq<Stmt>, ss: seq<Stmt>, ts: seq<Token>, i: nat)
    requires PrintableSeq(ss) && |done| + |ss| <= BODY_MAX
    requires TokensAt(ts, i, SeqTokens(ss)) && ts[i + |SeqTokens(ss)|].TRBrace?
    ensures BodyTail(ts, done, i) == Parsed(done + ss, i + |SeqTokens(ss)|)
    decreases ss, 0
  {
    if ss == [] {
      assert done + ss == done;
    } else {
      HeadTokens(ss);
      hide TokensAt, ParseStatement, StmtTokens, SeqTokens, Printable, PrintableSeq, IsOp, BodyTail;
      var first, rest := StmtTokens(ss[0]), SeqTokens(ss[1..]);
      FirstShape(ss, ts, i);
      StatementBack(ss[0], ts, i);
      BodyStep(ts, done, i, ss[0], i + |first|);
      BodyBack(done + [ss[0]], ss[1..], ts, i + |first|);
      Moved(done, ss);
    }
  }

  lemma ProgramStep(ts: seq<Token>, stmts: seq<Stmt>, i: nat, s: Stmt, next: nat)
    requires i < |ts| && !ts[i].TEof? && ParseStatement(ts, i) == Parsed(s, next)
    ensures next <= |ts| && ProgramTail(ts, stmts, i) == ProgramTail(ts, stmts + [s], next)
  {
    hide ParseStatement;
  }

  lemma {:induction false} ProgramBack(done: seq<Stmt>, ss: seq<Stmt>, ts: seq<Token>, i: nat)
    requires PrintableSeq(ss)
    requires TokensAt(ts, i, SeqTokens(ss)) && ts[i + |SeqTokens(ss)|].TEof?
    ensures ProgramTail(ts, done, i) == Parsed(done + ss, i + |SeqTokens(ss)|)
    decreases |ss|
  {
    if ss == [] {
      assert done + ss == done;
    } else {
      HeadTokens(ss);
      hide TokensAt, ParseStatement, StmtTokens, SeqTokens, Printable, PrintableSeq, IsOp, ProgramTail;
      var first, rest := StmtTokens(ss[0]), SeqTokens(ss[1..]);
      FirstShape(ss, ts, i);
      StatementBack(ss[0], ts, i);
      ProgramStep(ts, done, i, ss[0], i + |first|);
      ProgramBack(done + [ss[0]], ss[1..], ts, i + |first|);
      Moved(done, ss);
    }
  }

  // ----- printing tokens to text -----

  function Digit(n: nat): (c: char)
    requires n < 10
    ensures IsDigit(c) && c as int - '0' as int == n
  {
    '0' + n as char
  }

  function Decimal(n: nat): (d: string)
    ensures |d| > 0 && (forall i :: 0 <= i < |d| ==> IsDigit(d[i])) && DecimalValue(d) == n
  {
    if n < 10 then
      var d := [Digit(n)];
      assert d[..|d| - 1] == "";
      d
    else
      var front := Decimal(n / 10);
      var d := front + [Digit(n % 10)];
      assert d[..|d| - 1] == front;
      d
  }

  function Pow10(k: nat): nat {
    if k == 0 then 1 else 10 * Pow10(k - 1)
  }

  lemma {:induction false} DecimalLength(n: nat, k: nat)
    requires 0 < k && n < Pow10(k)
    ensures |Decimal(n)| <= k
    decreases k
  {
    if n >= 10 {
      assert Pow10(k) == 10 * Pow10(k - 1);
      assert k > 1;
      DecimalLength(n / 10, k - 1);
    }
  }

  lemma IntMaxLength(n: nat)
    requires n <= INT_MAX
    ensures |Decimal(n)| <= 10
  {
    assert Pow10(3) == 1000 && Pow10(5) == 100 * Pow10(3);
    assert Pow10(7) == 100 * Pow10(5) && Pow10(9) == 100 * Pow10(7);
    assert Pow10(10) == 10 * Pow10(9);
    DecimalLength(n, 10);
  }

  /** The tokens that can be written down. */
  predicate Writable(t: Token) {
    match t
    case TNum(n) => n <= INT_MAX
    case TIdent(x) => IsName(x)
    case TEof => false
    case _ => true
  }

  function TokenText(t: Token): (w: string)
    requires Writable(t)
    ensures |w| > 0
  {
    match t
    case TNum(n) => Decimal(n)
    case TIdent(x) => x
    case TPlus => "+"
    case TMinus => "-"
    case TStar => "*"
    case TSlash => "/"
    case TEq => "="
    case TEqEq => "=="
    case TGt => ">"
    case TLt => "<"
    case TPrint => "print"
    case TWhile => "while"
    case TIf => "if"
    case TLBrace => "{"
    case TRBrace => "}"
    case TLParen => "("
    case TRParen => ")"
  }

  function Text(ts: seq<Token>): string
    requires forall t :: t in ts ==> Writable(t)
  {
    if ts == [] then "" else TokenText(ts[0]) + " " + Text(ts[1..])
  }

  // ----- lexing the text back -----

  lemma {:induction false} WordSpanOf(w: string, rest: string)
    requires (forall i :: 0 <= i < |w| ==> IsAlnum(w[i])) && rest != "" && !IsAlnum(rest[0])
    ensures WordSpan(w + rest) == |w|
    decreases |w|
  {
    if w == "" {
      assert w + rest == rest;
    } else {
      assert (w + rest)[1..] == w[1..] + rest;
      WordSpanOf(w[1..], rest);
    }
  }

  lemma {:induction false} DigitSpanOf(w: string, rest: string)
    requires (forall i :: 0 <= i < |w| ==> IsDigit(w[i])) && rest != "" && !IsDigit(rest[0])
    ensures DigitSpan(w + rest) == |w|
    decreases |w|
  {
    if w == "" {
      assert w + rest == rest;
    } else {
      assert (w + rest)[1..] == w[1..] + rest;
      DigitSpanOf(w[1..], rest);
    }
  }

  lemma LexSpace(rest: string)
    ensures Lex(" " + rest) == Lex(rest)
  {
    assert (" " + rest)[1..] == rest;
  }

  lemma LexWord(w: string, rest: string)
    requires 0 < |w| <= WORD_MAX && IsAlpha(w[0]) && (forall i :: 0 <= i < |w| ==> IsAlnum(w[i]))
    ensures Lex(w + " " + rest) == Prepend([WordToken(w)], Lex(rest))
  {
    var tail := " " + rest;
    assert w + " " + rest == w + tail;
    WordSpanOf(w, tail);
    assert (w + tail)[..|w|] == w && (w + tail)[|w|..] == tail;
    LexSpace(rest);
  }

  lemma LexNumber(n: nat, rest: string)
    requires n <= INT_MAX
    ensures Lex(Decimal(n) + " " + rest) == Prepend([TNum(n)], Lex(rest))
  {
    var d, tail := Decimal(n), " " + rest;
    assert d + " " + rest == d + tail;
    IntMaxLength(n);
    DigitSpanOf(d, tail);
    assert (d + tail)[..|d|] == d && (d + tail)[|d|..] == tail;
    LexSpace(rest);
  }

  lemma LexSymbol(c: char, rest: string)
    requires IsSymbol(c)
    ensures Lex([c] + " " + rest) == Prepend([SymbolToken(c)], Lex(rest))
  {
    var s := [c] + " " + rest;
    assert s[1..] == " " + rest;
    LexSpace(rest);
  }

  lemma LexEqEq(rest: string)
    ensures Lex("==" + " " + rest) == Prepend([TEqEq], Lex(rest))
  {
    assert ("==" + " " + rest)[2..] == " " + rest;
    LexSpace(rest);
  }

  lemma LexSymbolToken(t: Token, rest: string)
    requires Writable(t) && !(t.TNum? || t.TIdent? || t.TPrint? || t.TWhile? || t.TIf? || t.TEqEq?)
    ensures Lex(TokenText(t) + " " + rest) == Prepend([t], Lex(rest))
  {
    hide Lex;
    var w := TokenText(t);
    assert w == [w[0]] && IsSymbol(w[0]) && SymbolToken(w[0]) == t;
    LexSymbol(w[0], rest);
  }

  lemma LexOne(t: Token, rest: string)
    requires Writable(t)
    ensures Lex(TokenText(t) + " " + rest) == Prepend([t], Lex(rest))
  {
    hide Lex, SymbolToken;
    match t
    case TNum(n) => LexNumber(n, rest);
    case TIdent(x) => LexWord(x, rest);
    case TPrint => LexWord("print", rest);
    case TWhile => LexWord("while", rest);
    case TIf => LexWord("if", rest);
    case TEqEq => LexEqEq(rest);
    case _ => LexSymbolToken(t, rest);
  }

  lemma {:induction false} LexBack(ts: seq<Token>)
    requires forall t :: t in ts ==> Writable(t)
    ensures Lex(Text(ts)) == Tokens(ts) && 2 * |ts| <= |Text(ts)|
    decreases |ts|
  {
    if ts != [] {
      LexBack(ts[1..]);
      LexOne(ts[0], Text(ts[1..]));
      assert [ts[0]] + ts[1..] == ts;
    }
  }

  lemma {:induction false} ExprWritable(e: Expr)
    requires PrintableExpr(e)
    ensures forall t :: t in ExprTokens(e) ==> Writable(t)
  {
    if e.Bin? {
      ExprWritable(e.left);
      ExprWritable(e.right);
    }
  }

  lemma {:induction false} StmtWritable(s: Stmt)
    requires Printable(s)
    ensures forall t :: t in StmtTokens(s) ==> Writable(t)
    decreases s, 1
  {
    match s
    case Assign(x, e) => ExprWritable(e);
    case Print(e) => ExprWritable(e);
    case If(c, body) => ExprWritable(c); SeqWritable(body);
    case While(c, body) => ExprWritable(c); SeqWritable(body);
  }

  lemma {:induction false} SeqWritable(ss: seq<Stmt>)
    requires PrintableSeq(ss)
    ensures forall t :: t in SeqTokens(ss) ==> Writable(t)
    decreases ss, 0
  {
    if ss != [] {
      StmtWritable(ss[0]);
      SeqWritable(ss[1..]);
    }
  }

  /** A program as text. */
  function ProgramText(ss: seq<Stmt>): string
    requires PrintableSeq(ss)
  {
    SeqWritable(ss);
    Text(SeqTokens(ss))
  }

  /** The whole front end: text to tree. */
  function FrontEnd(source: string): Parse<seq<Stmt>> {
    var r := Scan(source);
    if r.Tokens? then ParseProgram(r.ts) else if r.Unexpected? then Rejected else Broken
  }

  /** Printing, lexing and parsing give the program back, with every token up to the end marker
      consumed. */
  lemma TextRoundTrip(ss: seq<Stmt>)
    requires PrintableSeq(ss) && ss != []
    ensures Scan(ProgramText(ss)) == Tokens(SeqTokens(ss) + [TEof])
    ensures FrontEnd(ProgramText(ss)) == Parsed(ss, |SeqTokens(ss)|)
  {
    var ts := SeqTokens(ss);
    SeqWritable(ss);
    LexBack(ts);
    ProgramBack([], ss, ts + [TEof], 0);
    assert [] + ss == ss;
  }

  // ----- everything the front end accepts can be printed -----

  ghost predicate Lexed(ts: seq<Token>) {
    forall i :: 0 <= i < |ts| ==> Writable(ts[i]) || ts[i].TEof?
  }

  lemma {:induction false} LexWritable(s: string)
    requires Lex(s).Tokens?
    ensures forall t :: t in Lex(s).ts ==> Writable(t)
    decreases |s|
  {
    if s == "" {
    } else if IsAlpha(s[0]) {
      var n := WordSpan(s);
      var w := s[..n];
      assert n > 0 && w[0] == s[0];
      LexWritable(s[n..]);
      assert Lex(s).ts == [WordToken(w)] + Lex(s[n..]).ts;
    } else if IsDigit(s[0]) {
      LexWritable(s[DigitSpan(s)..]);
    } else if IsSpace(s[0]) {
      LexWritable(s[1..]);
    } else if s[0] == '=' && |s| > 1 && s[1] == '=' {
      LexWritable(s[2..]);
    } else {
      LexWritable(s[1..]);
    }
  }

  lemma {:induction false} FactorPrintable(ts: seq<Token>, i: nat)
    requires Lexed(ts) && i <= |ts| && ParseFactor(ts, i).Parsed?
    ensures PrintableExpr(ParseFactor(ts, i).node)
    decreases |ts| - i, 0
  {
    if ts[i].TLParen? { ComparisonPrintable(ts, i + 1); }
  }

  lemma {:induction false} TermPrintable(ts: seq<Token>, i: nat)
    requires Lexed(ts) && i <= |ts| && ParseTerm(ts, i).Parsed?
    ensures PrintableExpr(ParseTerm(ts, i).node)
    decreases |ts| - i, 1
  {
    FactorPrintable(ts, i);
    TermTailPrintable(ts, ParseFactor(ts, i).node, ParseFactor(ts, i).next);
  }

  lemma {:induction false} TermTailPrintable(ts: seq<Token>, left: Expr, i: nat)
    requires Lexed(ts) && i <= |ts| && PrintableExpr(left) && TermTail(ts, left, i).Parsed?
    ensures PrintableExpr(TermTail(ts, left, i).node)
    decreases |ts| - i, 4
  {
    if IsMulOp(ts[i]) {
      ExpressionPrintable(ts, i + 1);
      var r := ParseExpression(ts, i + 1);
      TermTailPrintable(ts, Bin(OpOf(ts[i]), left, r.node), r.next);
    }
  }

  lemma {:induction false} ExpressionPrintable(ts: seq<Token>, i: nat)
    requires Lexed(ts) && i <= |ts| && ParseExpression(ts, i).Parsed?
    ensures PrintableExpr(ParseExpression(ts, i).node)
    decreases |ts| - i, 2
  {
    TermPrintable(ts, i);
    ExpressionTailPrintable(ts, ParseTerm(ts, i).node, ParseTerm(ts, i).next);
  }

  lemma {:induction false} ExpressionTailPrintable(ts: seq<Token>, left: Expr, i: nat)
    requires Lexed(ts) && i <= |ts| && PrintableExpr(left) && ExpressionTail(ts, left, i).Parsed?
    ensures PrintableExpr(ExpressionTail(ts, left, i).node)
    decreases |ts| - i, 4
  {
    if IsAddOp(ts[i]) {
      TermPrintable(ts, i + 1);
      var r := ParseTerm(ts, i + 1);
      ExpressionTailPrintable(ts, Bin(OpOf(ts[i]), left, r.node), r.next);
    }
  }

  lemma {:induction false} ComparisonPrintable(ts: seq<Token>, i: nat)
    requires Lexed(ts) && i <= |ts| && ParseComparison(ts, i).Parsed?
    ensures PrintableExpr(ParseComparison(ts, i).node)
    decreases |ts| - i, 3
  {
    ExpressionPrintable(ts, i);
    ComparisonTailPrintable(ts, ParseExpression(ts, i).node, ParseExpression(ts, i).next);
  }

  lemma {:induction false} ComparisonTailPrintable(ts: seq<Token>, left: Expr, i: nat)
    requires Lexed(ts) && i <= |ts| && PrintableExpr(left) && ComparisonTail(ts, left, i).Parsed?
    ensures PrintableExpr(ComparisonTail(ts, left, i).node)
    decreases |ts| - i, 4
  {
    if IsCompareOp(ts[i]) {
      ExpressionPrintable(ts, i + 1);
      var r := ParseExpression(ts, i + 1);
      ComparisonTailPrintable(ts, Bin(OpOf(ts[i]), left, r.node), r.next);
    }
  }

  lemma {:induction false} StatementPrintable(ts: seq<Token>, i: nat)
    requires Lexed(ts) && i <= |ts| && ParseStatement(ts, i).Parsed?
    ensures Printable(ParseStatement(ts, i).node)
    decreases |ts| - i, 0
  {
    match ts[i]
    case TIdent(_) => ComparisonPrintable(ts, i + 2);
    case TPrint => ComparisonPrintable(ts, i + 1);
    case TIf => BlockPrintable(ts, i + 1);
    case TWhile => BlockPrintable(ts, i + 1);
  }

  lemma {:induction false} BlockPrintable(ts: seq<Token>, i: nat)
    requires Lexed(ts) && i <= |ts| && ParseBlock(ts, i).Parsed?
    ensures var b := ParseBlock(ts, i).node; PrintableExpr(b.0) && |b.1| <= BODY_MAX && PrintableSeq(b.1)
    decreases |ts| - i, 2
  {
    ComparisonPrintable(ts, i);
    BodyPrintable(ts, [], ParseComparison(ts, i).next + 1);
  }

  lemma {:induction false} PrintableSnoc(ss: seq<Stmt>, s: Stmt)
    requires PrintableSeq(ss) && Printable(s)
    ensures PrintableSeq(ss + [s])
    decreases |ss|
  {
    if ss == [] {
      assert (ss + [s])[0] == s && (ss + [s])[1..] == [];
    } else {
      assert (ss + [s])[1..] == ss[1..] + [s];
      PrintableSnoc(ss[1..], s);
    }
  }

  lemma {:induction false} BodyPrintable(ts: seq<Token>, body: seq<Stmt>, i: nat)
    requires Lexed(ts) && i <= |ts| && PrintableSeq(body) && |body| <= BODY_MAX && BodyTail(ts, body, i).Parsed?
    ensures var b := BodyTail(ts, body, i).node; |b| <= BODY_MAX && PrintableSeq(b)
    decreases |ts| - i, 1
  {
    if !ts[i].TRBrace? {
      StatementPrintable(ts, i);
      var r := ParseStatement(ts, i);
      PrintableSnoc(body, r.node);
      BodyPrintable(ts, body + [r.node], r.next);
    }
  }

  lemma {:induction false} ProgramPrintable(ts: seq<Token>, stmts: seq<Stmt>, i: nat)
    requires Lexed(ts) && i <= |ts| && PrintableSeq(stmts) && ProgramTail(ts, stmts, i).Parsed?
    ensures PrintableSeq(ProgramTail(ts, stmts, i).node)
    decreases |ts| - i
  {
    if !ts[i].TEof? {
      StatementPrintable(ts, i);
      var r := ParseStatement(ts, i);
      PrintableSnoc(stmts, r.node);
      ProgramPrintable(ts, stmts + [r.node], r.next);
    }
  }

  /** Whatever text the front end accepts, its tree can be printed, and the printed form is
      read back to the same tree: the printed form is a normal form of the text. */
  lemma AcceptedTextNormalises(source: string)
    requires FrontEnd(source).Parsed?
    ensures PrintableSeq(FrontEnd(source).node)
    ensures var ss := FrontEnd(source).node;
            ss != [] ==> FrontEnd(ProgramText(ss)) == Parsed(ss, |SeqTokens(ss)|)
  {
    LexWritable(source);
    ProgramPrintable(Scan(source).ts, [], 0);
    if FrontEnd(source).node != [] {
      TextRoundTrip(FrontEnd(source).node);
    }
  }
}
