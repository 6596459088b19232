/** The recursive-descent parser of bytecode-vm/compiler.c.  The functions say what tree each
    routine builds and where it stops; the methods are the routines with their loops.  The
    grammar is the one the code has: the right operand of `*` and `/` is a whole expression, and
    the tokens standing where `{` and `)` belong are skipped without being looked at. */
module Parser {
  import opened Syntax
  import opened Lexer

  /** `Rejected` is the exit(1) of parse_statement; `Broken` is what C leaves undefined: reading
      past the end marker, a factor that is none, an identifier statement without `=`, and a
      129th statement in one body. */
  datatype Parse<T> =
    | Parsed(node: T, next: nat)
    | Rejected
    | Broken

  const BODY_MAX: nat := 128

  predicate IsMulOp(t: Token) { t.TStar? || t.TSlash? }
  predicate IsAddOp(t: Token) { t.TPlus? || t.TMinus? }
  predicate IsCompareOp(t: Token) { t.TEqEq? || t.TGt? || t.TLt? }
  predicate IsOp(t: Token) { IsMulOp(t) || IsAddOp(t) || IsCompareOp(t) }

  function OpOf(t: Token): BinOp
    requires IsOp(t)
  {
    match t
    case TStar => Mul
    case TSlash => Div
    case TPlus => Add
    case TMinus => Sub
    case TEqEq => EqEq
    case TGt => Gt
    case TLt => Lt
  }

  function ParseFactor(ts: seq<Token>, i: nat): (r: Parse<Expr>)
    requires i <= |ts|
    ensures r.Parsed? ==> i < r.next <= |ts|
    decreases |ts| - i, 0
  {
    if i >= |ts| then Broken
    else if ts[i].TIdent? then Parsed(Ident(ts[i].name), i + 1)
    else if ts[i].TNum? then Parsed(Num(ts[i].value), i + 1)
    else if ts[i].TLParen? then
      var r := ParseComparison(ts, i + 1);
      if r.Parsed? then Parsed(r.node, r.next + 1) else r
    else Broken
  }

  function ParseTerm(ts: seq<Token>, i: nat): (r: Parse<Expr>)
    requires i <= |ts|
    ensures r.Parsed? ==> i < r.next < |ts|
    decreases |ts| - i, 1
  {
    var r := ParseFactor(ts, i);
    if r.Parsed? then TermTail(ts, r.node, r.next) else r
  }

  /** The loop of parse_term with `left` built so far. */
  function TermTail(ts: seq<Token>, left: Expr, i: nat): (r: Parse<Expr>)
    requires i <= |ts|
    ensures r.Parsed? ==> i <= r.next < |ts| && !IsMulOp(ts[r.next])
    decreases |ts| - i, 4
  {
    if i >= |ts| then Broken
    else if !IsMulOp(ts[i]) then Parsed(left, i)
    else
      var r := ParseExpression(ts, i + 1);
      if r.Parsed? then TermTail(ts, Bin(OpOf(ts[i]), left, r.node), r.next) else r
  }

  function ParseExpression(ts: seq<Token>, i: nat): (r: Parse<Expr>)
    requires i <= |ts|
    ensures r.Parsed? ==> i < r.next < |ts|
    decreases |ts| - i, 2
  {
    var r := ParseTerm(ts, i);
    if r.Parsed? then ExpressionTail(ts, r.node, r.next) else r
  }

  function ExpressionTail(ts: seq<Token>, left: Expr, i: nat): (r: Parse<Expr>)
    requires i <= |ts|
    ensures r.Parsed? ==> i <= r.next < |ts| && !IsAddOp(ts[r.next])
    decreases |ts| - i, 4
  {
    if i >= |ts| then Broken
    else if !IsAddOp(ts[i]) then Parsed(left, i)
    else
      var r := ParseTerm(ts, i + 1);
      if r.Parsed? then ExpressionTail(ts, Bin(OpOf(ts[i]), left, r.node), r.next) else r
  }

  function ParseComparison(ts: seq<Token>, i: nat): (r: Parse<Expr>)
    requires i <= |ts|
    ensures r.Parsed? ==> i < r.next < |ts|
    decreases |ts| - i, 3
  {
    var r := ParseExpression(ts, i);
    if r.Parsed? then ComparisonTail(ts, r.node, r.next) else r
  }

  function ComparisonTail(ts: seq<Token>, left: Expr, i: nat): (r: Parse<Expr>)
    requires i <= |ts|
    ensures r.Parsed? ==> i <= r.next < |ts| && !IsCompareOp(ts[r.next])
    decreases |ts| - i, 4
  {
    if i >= |ts| then Broken
    else if !IsCompareOp(ts[i]) then Parsed(left, i)
    else
      var r := ParseExpression(ts, i + 1);
      if r.Parsed? then ComparisonTail(ts, Bin(OpOf(ts[i]), left, r.node), r.next) else r
  }

  function Fail<T>(rejected: bool): (r: Parse<T>)
    ensures !r.Parsed?
  {
    if rejected then Rejected else Broken
  }

  function ParseStatement(ts: seq<Token>, i: nat): (r: Parse<Stmt>)
    requires i <= |ts|
    ensures r.Parsed? ==> i < r.next <= |ts|
    decreases |ts| - i, 0
  {
    if i >= |ts| then Broken
    else
      match ts[i]
      case TIdent(x) =>
        if i + 1 >= |ts| || !ts[i + 1].TEq? then Broken
        else
          var r := ParseComparison(ts, i + 2);
          if r.Parsed? then Parsed(Assign(x, r.node), r.next) else Fail(r.Rejected?)
      case TPrint =>
        var r := ParseComparison(ts, i + 1);
        if r.Parsed? then Parsed(Print(r.node), r.next) else Fail(r.Rejected?)
      case TIf =>
        var r := ParseBlock(ts, i + 1);
        if r.Parsed? then Parsed(If(r.node.0, r.node.1), r.next) else Fail(r.Rejected?)
      case TWhile =>
        var r := ParseBlock(ts, i + 1);
        if r.Parsed? then Parsed(While(r.node.0, r.node.1), r.next) else Fail(r.Rejected?)
      case _ => Rejected
  }

  /** A condition, one skipped token, statements up to `}`, and the `}`. */
  function ParseBlock(ts: seq<Token>, i: nat): (r: Parse<(Expr, seq<Stmt>)>)
    requires i <= |ts|
    ensures r.Parsed? ==> i < r.next <= |ts|
    decreases |ts| - i, 2
  {
    var c := ParseComparison(ts, i);
    if !c.Parsed? then Fail(c.Rejected?)
    else
      var b := BodyTail(ts, [], c.next + 1);
      if b.Parsed? then Parsed((c.node, b.node), b.next + 1) else Fail(b.Rejected?)
  }

  function BodyTail(ts: seq<Token>, body: seq<Stmt>, i: nat): (r: Parse<seq<Stmt>>)
    requires i <= |ts|
    ensures r.Parsed? ==> i <= r.next < |ts|
    decreases |ts| - i, 1
  {
    if i >= |ts| then Broken
    else if ts[i].TRBrace? then Parsed(body, i)
    else
      var r := ParseStatement(ts, i);
      if !r.Parsed? then Fail(r.Rejected?)
      else if |body| >= BODY_MAX then Broken
      else BodyTail(ts, body + [r.node], r.next)
  }

  function ProgramTail(ts: seq<Token>, stmts: seq<Stmt>, i: nat): (r: Parse<seq<Stmt>>)
    requires i <= |ts|
    decreases |ts| - i
  {
    if i >= |ts| then Broken
    else if ts[i].TEof? then Parsed(stmts, i)
    else
      var r := ParseStatement(ts, i);
      if r.Parsed? then ProgramTail(ts, stmts + [r.node], r.next) else Fail(r.Rejected?)
  }

  /** parser: statements until the end marker. */
  function ParseProgram(ts: seq<Token>): Parse<seq<Stmt>> {
    ProgramTail(ts, [], 0)
  }

  // ----- the routines as they run -----

  method Factor(ts: seq<Token>, i: nat) returns (r: Parse<Expr>)
    requires i <= |ts|
    ensures r == ParseFactor(ts, i)
    decreases |ts| - i, 0
  {
    if i >= |ts| {
      r := Broken;
    } else if ts[i].TIdent? {
      r := Parsed(Ident(ts[i].name), i + 1);
    } else if ts[i].TNum? {
      r := Parsed(Num(ts[i].value), i + 1);
    } else if ts[i].TLParen? {
      r := Comparison(ts, i + 1);
      if r.Parsed? {
        r := Parsed(r.node, r.next + 1);
      }
    } else {
      r := Broken;
    }
  }

  method Term(ts: seq<Token>, i: nat) returns (r: Parse<Expr>)
    requires i <= |ts|
    ensures r == ParseTerm(ts, i)
    decreases |ts| - i, 1
  {
    r := Factor(ts, i);
    if !r.Parsed? { return; }
    var left, j := r.node, r.next;
    while j < |ts| && IsMulOp(ts[j])
      invariant i < j <= |ts|
      invariant ParseTerm(ts, i) == TermTail(ts, left, j)
      decreases |ts| - j
    {
      r := Expression(ts, j + 1);
      if !r.Parsed? { return; }
      left, j := Bin(OpOf(ts[j]), left, r.node), r.next;
    }
    r := if j < |ts| then Parsed(left, j) else Broken;
  }

  method Expression(ts: seq<Token>, i: nat) returns (r: Parse<Expr>)
    requires i <= |ts|
    ensures r == ParseExpression(ts, i)
    decreases |ts| - i, 2
  {
    r := Term(ts, i);
    if !r.Parsed? { return; }
    var left, j := r.node, r.next;
    while j < |ts| && IsAddOp(ts[j])
      invariant i < j <= |ts|
      invariant ParseExpression(ts, i) == ExpressionTail(ts, left, j)
      decreases |ts| - j
    {
      r := Term(ts, j + 1);
      if !r.Parsed? { return; }
      left, j := Bin(OpOf(ts[j]), left, r.node), r.next;
    }
    r := if j < |ts| then Parsed(left, j) else Broken;
  }

  method Comparison(ts: seq<Token>, i: nat) returns (r: Parse<Expr>)
    requires i <= |ts|
    ensures r == ParseComparison(ts, i)
    decreases |ts| - i, 3
  {
    r := Expression(ts, i);
    if !r.Parsed? { return; }
    var left, j := r.node, r.next;
    while j < |ts| && IsCompareOp(ts[j])
      invariant i < j <= |ts|
      invariant ParseComparison(ts, i) == ComparisonTail(ts, left, j)
      decreases |ts| - j
    {
      r := Expression(ts, j + 1);
      if !r.Parsed? { return; }
      left, j := Bin(OpOf(ts[j]), left, r.node), r.next;
    }
    r := if j < |ts| then Parsed(left, j) else Broken;
  }

  method Statement(ts: seq<Token>, i: nat) returns (r: Parse<Stmt>)
    requires i <= |ts|
    ensures r == ParseStatement(ts, i)
    decreases |ts| - i, 0
  {
    if i >= |ts| { return Broken; }
    if ts[i].TIdent? {
      if i + 1 >= |ts| || !ts[i + 1].TEq? { return Broken; }
      var e := Comparison(ts, i + 2);
      r := if e.Parsed? then Parsed(Assign(ts[i].name, e.node), e.next) else Fail(e.Rejected?);
    } else if ts[i].TPrint? {
      var e := Comparison(ts, i + 1);
      r := if e.Parsed? then Parsed(Print(e.node), e.next) else Fail(e.Rejected?);
    } else if ts[i].TIf? {
      var b := Block(ts, i + 1);
      r := if b.Parsed? then Parsed(If(b.node.0, b.node.1), b.next) else Fail(b.Rejected?);
    } else if ts[i].TWhile? {
      var b := Block(ts, i + 1);
      r := if b.Parsed? then Parsed(While(b.node.0, b.node.1), b.next) else Fail(b.Rejected?);
    } else {
      r := Rejected;
    }
  }

  /** The part parse_statement writes out twice, for `if` and for `while`. */
  method Block(ts: seq<Token>, i: nat) returns (r: Parse<(Expr, seq<Stmt>)>)
    requires i <= |ts|
    ensures r == ParseBlock(ts, i)
    decreases |ts| - i, 2
  {
    var c := Comparison(ts, i);
    if !c.Parsed? { return Fail(c.Rejected?); }
    var body, j := [], c.next + 1;
    while j < |ts| && !ts[j].TRBrace?
      invariant c.next < j <= |ts|
      invariant BodyTail(ts, [], c.next + 1) == BodyTail(ts, body, j)
      decreases |ts| - j
    {
      var s := Statement(ts, j);
      if !s.Parsed? { return Fail(s.Rejected?); }
      if |body| >= BODY_MAX { return Broken; }
      body, j := body + [s.node], s.next;
    }
    r := if j < |ts| then Parsed((c.node, body), j + 1) else Broken;
  }

  /** `parser` */
  method Program(ts: seq<Token>) returns (r: Parse<seq<Stmt>>)
    ensures r == ParseProgram(ts)
  {
    var stmts, i := [], 0;
    while i < |ts| && !ts[i].TEof?
      invariant 0 <= i <= |ts|
      invariant ParseProgram(ts) == ProgramTail(ts, stmts, i)
      decreases |ts| - i
    {
      var s := Statement(ts, i);
      if !s.Parsed? { return Fail(s.Rejected?); }
      stmts, i := stmts + [s.node], s.next;
    }
    r := if i < |ts| then Parsed(stmts, i) else Broken;
  }

  // ----- the grammar the code has -----

  lemma TermStops(ts: seq<Token>, i: nat)
    requires i <= |ts|
    ensures var r := ParseTerm(ts, i); r.Parsed? ==> !IsMulOp(ts[r.next])
  {
  }

  lemma {:induction false} ExpressionTailStops(ts: seq<Token>, left: Expr, i: nat)
    requires i < |ts| && !IsMulOp(ts[i])
    ensures var r := ExpressionTail(ts, left, i); r.Parsed? ==> !IsAddOp(ts[r.next]) && !IsMulOp(ts[r.next])
    decreases |ts| - i
  {
    if IsAddOp(ts[i]) {
      var r := ParseTerm(ts, i + 1);
      if r.Parsed? {
        TermStops(ts, i + 1);
        ExpressionTailStops(ts, Bin(OpOf(ts[i]), left, r.node), r.next);
      }
    }
  }

  /** After an expression no `+ - * /` follows: a product swallows the rest of the chain. */
  lemma {:induction false} ExpressionStops(ts: seq<Token>, i: nat)
    requires i <= |ts|
    ensures var r := ParseExpression(ts, i); r.Parsed? ==> !IsAddOp(ts[r.next]) && !IsMulOp(ts[r.next])
    decreases |ts| - i, 1
  {
    var r := ParseTerm(ts, i);
    if r.Parsed? {
      TermStops(ts, i);
      ExpressionTailStops(ts, r.node, r.next);
    }
  }

  /** So the loop of parse_term turns at most once: a term is one factor, or one factor, one
      `*` or `/` and a whole expression. */
  lemma TermLoopTurnsAtMostOnce(ts: seq<Token>, i: nat)
    requires i <= |ts|
    ensures var f := ParseFactor(ts, i);
            f.Parsed? && f.next < |ts| ==>
              ParseTerm(ts, i) ==
                if !IsMulOp(ts[f.next]) then f
                else
                  var e := ParseExpression(ts, f.next + 1);
                  if e.Parsed? then Parsed(Bin(OpOf(ts[f.next]), f.node, e.node), e.next) else e
  {
    var f := ParseFactor(ts, i);
    if f.Parsed? && f.next < |ts| && IsMulOp(ts[f.next]) {
      ExpressionStops(ts, f.next + 1);
      var e := ParseExpression(ts, f.next + 1);
      assert ParseTerm(ts, i) == TermTail(ts, f.node, f.next);
      if e.Parsed? {
        assert ParseTerm(ts, i) == TermTail(ts, Bin(OpOf(ts[f.next]), f.node, e.node), e.next);
      }
    }
  }

  /** A chain `f0 op1 f1 ... opk fk` of factors from `i` up to `end`, where no arithmetic
      operator follows. */
  ghost predicate Chain(ts: seq<Token>, i: nat, fs: seq<Expr>, ops: seq<BinOp>, end: nat)
    requires i <= |ts| && |fs| == |ops| + 1
    decreases |ops|
  {
    var f := ParseFactor(ts, i);
    && f.Parsed? && f.node == fs[0] && f.next < |ts|
    && if ops == [] then end == f.next && !IsAddOp(ts[end]) && !IsMulOp(ts[end])
       else (IsAddOp(ts[f.next]) || IsMulOp(ts[f.next])) && OpOf(ts[f.next]) == ops[0] &&
            Chain(ts, f.next + 1, fs[1..], ops[1..], end)
  }

  /** How many operators stand before the first `*` or `/`. */
  function AdditivePrefix(ops: seq<BinOp>): (k: nat)
    ensures k <= |ops|
  {
    if ops == [] || ops[0].Mul? || ops[0].Div? then 0 else 1 + AdditivePrefix(ops[1..])
  }

  function LeftFold(left: Expr, ops: seq<BinOp>, rights: seq<Expr>): Expr
    requires |ops| == |rights|
    decreases |ops|
  {
    if ops == [] then left else LeftFold(Bin(ops[0], left, rights[0]), ops[1..], rights[1..])
  }

  /** The tree of a chain: fold the additive prefix from the left, where the last operand is the
      factor before the first `*` or `/` with the whole remaining chain as its right operand. */
  function ChainTree(fs: seq<Expr>, ops: seq<BinOp>): Expr
    requires |fs| == |ops| + 1
    decreases |ops|, 1
  {
    var k := AdditivePrefix(ops);
    if k == 0 then LastOperand(fs, ops)
    else LeftFold(fs[0], ops[..k], fs[1..k] + [LastOperand(fs, ops)])
  }

  function LastOperand(fs: seq<Expr>, ops: seq<BinOp>): Expr
    requires |fs| == |ops| + 1
    decreases |ops|, 0
  {
    var k := AdditivePrefix(ops);
    if k == |ops| then fs[k] else Bin(ops[k], fs[k], ChainTree(fs[k + 1..], ops[k + 1..]))
  }

  /** The tree of a chain whose first factor is already part of `left`. */
  function FoldRest(left: Expr, fs: seq<Expr>, ops: seq<BinOp>): Expr
    requires |fs| == |ops| + 1 && (ops == [] || !(ops[0].Mul? || ops[0].Div?))
    decreases |ops|
  {
    if ops == [] then left
    else if |ops| == 1 || !(ops[1].Mul? || ops[1].Div?) then FoldRest(Bin(ops[0], left, fs[1]), fs[1..], ops[1..])
    else Bin(ops[0], left, Bin(ops[1], fs[1], ChainTree(fs[2..], ops[2..])))
  }

  lemma LastOperandShift(fs: seq<Expr>, ops: seq<BinOp>)
    requires |fs| == |ops| + 1 && |ops| > 0 && !(ops[0].Mul? || ops[0].Div?)
    ensures LastOperand(fs, ops) == LastOperand(fs[1..], ops[1..])
  {
    var k := AdditivePrefix(ops[1..]);
    assert fs[1..][k + 1..] == fs[k + 2..] || k == |ops| - 1;
    assert k < |ops| - 1 ==> ops[1..][k + 1..] == ops[k + 2..];
  }

  /** The last operand when it stands right behind the first operator. */
  lemma LastAfterOne(fs: seq<Expr>, ops: seq<BinOp>)
    requires |fs| == |ops| + 1 && |ops| > 0 && AdditivePrefix(ops) == 1
    ensures LastOperand(fs, ops) ==
            if |ops| == 1 then fs[1] else Bin(ops[1], fs[1], ChainTree(fs[2..], ops[2..]))
    ensures |ops| == 1 || ops[1].Mul? || ops[1].Div?
  {
    assert AdditivePrefix(ops[1..]) == 0;
  }

  lemma {:induction false} FoldRestIsFold(left: Expr, fs: seq<Expr>, ops: seq<BinOp>)
    requires |fs| == |ops| + 1 && (ops == [] || !(ops[0].Mul? || ops[0].Div?))
    ensures var k := AdditivePrefix(ops);
            FoldRest(left, fs, ops) ==
              if k == 0 then left else LeftFold(left, ops[..k], fs[1..k] + [LastOperand(fs, ops)])
    decreases |ops|
  {
    if ops != [] {
      hide ChainTree, LastOperand;
      var k, last := AdditivePrefix(ops), LastOperand(fs, ops);
      LastOperandShift(fs, ops);
      assert k == 1 + AdditivePrefix(ops[1..]);
      if |ops| == 1 || !(ops[1].Mul? || ops[1].Div?) {
        FoldRestIsFold(Bin(ops[0], left, fs[1]), fs[1..], ops[1..]);
      }
      if k == 1 {
        LastAfterOne(fs, ops);
        assert fs[1..1] + [last] == [last] && [last][1..] == [] && ops[..1] == [ops[0]] && [ops[0]][1..] == [];
        assert LeftFold(left, [ops[0]], [last]) == LeftFold(Bin(ops[0], left, last), [], []);
      } else {
        var rights := fs[1..k] + [last];
        assert rights[0] == fs[1] && rights[1..] == fs[1..][1..k - 1] + [last];
        assert ops[..k][0] == ops[0] && ops[..k][1..] == ops[1..][..k - 1];
        assert LeftFold(left, ops[..k], rights) == LeftFold(Bin(ops[0], left, fs[1]), ops[1..][..k - 1], rights[1..]);
      }
    }
  }

  lemma FoldRestIsTree(fs: seq<Expr>, ops: seq<BinOp>)
    requires |fs| == |ops| + 1 && (ops == [] || !(ops[0].Mul? || ops[0].Div?))
    ensures FoldRest(fs[0], fs, ops) == ChainTree(fs, ops)
  {
    FoldRestIsFold(fs[0], fs, ops);
  }

  lemma {:induction false} ChainFrom(ts: seq<Token>, i: nat, fs: seq<Expr>, ops: seq<BinOp>, end: nat)
    requires i <= |ts| && |fs| == |ops| + 1 && Chain(ts, i, fs, ops, end)
    ensures i < end < |ts| && ParseExpression(ts, i) == Parsed(ChainTree(fs, ops), end)
    decreases |ops|, 1
  {
    var f := ParseFactor(ts, i);
    TermLoopTurnsAtMostOnce(ts, i);
    if ops != [] && (ops[0].Mul? || ops[0].Div?) {
      ChainFrom(ts, f.next + 1, fs[1..], ops[1..], end);
      ExpressionStops(ts, f.next + 1);
    } else {
      ChainTail(ts, fs[0], f.next, fs, ops, end);
      assert ChainTree(fs, ops) == FoldRest(fs[0], fs, ops) by { FoldRestIsTree(fs, ops); }
    }
  }

  lemma {:induction false} ChainTail(ts: seq<Token>, left: Expr, j: nat, fs: seq<Expr>, ops: seq<BinOp>, end: nat)
    requires |fs| == |ops| + 1 && (ops == [] || !(ops[0].Mul? || ops[0].Div?))
    requires j < |ts|
    requires if ops == [] then end == j && !IsAddOp(ts[j]) && !IsMulOp(ts[j])
             else (IsAddOp(ts[j]) || IsMulOp(ts[j])) && OpOf(ts[j]) == ops[0] &&
                  Chain(ts, j + 1, fs[1..], ops[1..], end)
    ensures j <= end < |ts| && ExpressionTail(ts, left, j) == Parsed(FoldRest(left, fs, ops), end)
    decreases |ops|, 0
  {
    if ops != [] {
      var f := ParseFactor(ts, j + 1);
      TermLoopTurnsAtMostOnce(ts, j + 1);
      if |ops| == 1 || !(ops[1].Mul? || ops[1].Div?) {
        ChainTail(ts, Bin(ops[0], left, fs[1]), f.next, fs[1..], ops[1..], end);
      } else {
        assert fs[1..][1..] == fs[2..] && ops[1..][1..] == ops[2..];
        ChainFrom(ts, f.next + 1, fs[2..], ops[2..], end);
        ExpressionStops(ts, f.next + 1);
      }
    }
  }

  /** Conversely everything parse_expression accepts is such a chain. */
  lemma {:induction false} ExpressionIsChain(ts: seq<Token>, i: nat) returns (fs: seq<Expr>, ops: seq<BinOp>)
    requires i <= |ts| && ParseExpression(ts, i).Parsed?
    ensures |fs| == |ops| + 1 && Chain(ts, i, fs, ops, ParseExpression(ts, i).next)
    decreases |ts| - i, 1
  {
    var f := ParseFactor(ts, i);
    TermLoopTurnsAtMostOnce(ts, i);
    ExpressionStops(ts, i);
    if IsMulOp(ts[f.next]) {
      ExpressionStops(ts, f.next + 1);
      var fs', ops' := ExpressionIsChain(ts, f.next + 1);
      fs, ops := [f.node] + fs', [OpOf(ts[f.next])] + ops';
      assert fs[1..] == fs' && ops[1..] == ops';
    } else {
      var fs', ops' := TailIsChain(ts, f.node, f.next);
      fs, ops := [f.node] + fs', ops';
      assert fs[1..] == fs';
    }
  }

  lemma {:induction false} TailIsChain(ts: seq<Token>, left: Expr, j: nat) returns (fs: seq<Expr>, ops: seq<BinOp>)
    requires j < |ts| && !IsMulOp(ts[j]) && ExpressionTail(ts, left, j).Parsed?
    ensures |fs| == |ops|
    ensures var end := ExpressionTail(ts, left, j).next;
            if ops == [] then end == j && !IsAddOp(ts[j])
            else IsAddOp(ts[j]) && OpOf(ts[j]) == ops[0] && Chain(ts, j + 1, fs, ops[1..], end)
    decreases |ts| - j, 0
  {
    if !IsAddOp(ts[j]) {
      return [], [];
    }
    var f := ParseFactor(ts, j + 1);
    TermLoopTurnsAtMostOnce(ts, j + 1);
    if IsMulOp(ts[f.next]) {
      ExpressionStops(ts, f.next + 1);
      var fs', ops' := ExpressionIsChain(ts, f.next + 1);
      fs, ops := [f.node] + fs', [OpOf(ts[j])] + [OpOf(ts[f.next])] + ops';
      assert fs[1..] == fs' && ops[1..] == [OpOf(ts[f.next])] + ops' && ops[1..][1..] == ops';
    } else {
      var t := ParseTerm(ts, j + 1);
      var fs', ops' := TailIsChain(ts, Bin(OpOf(ts[j]), left, t.node), t.next);
      fs, ops := [f.node] + fs', [OpOf(ts[j])] + ops';
      assert fs[1..] == fs' && ops[1..] == ops';
    }
  }

  /** parse_expression accepts a chain of factors, yields the tree above, and stops behind it;
      and it accepts nothing else. */
  lemma ExactGrammar(ts: seq<Token>, i: nat, e: Expr, end: nat)
    requires i <= |ts|
    ensures ParseExpression(ts, i) == Parsed(e, end) <==>
            exists fs, ops :: |fs| == |ops| + 1 && Chain(ts, i, fs, ops, end) && e == ChainTree(fs, ops)
  {
    if ParseExpression(ts, i) == Parsed(e, end) {
      var fs, ops := ExpressionIsChain(ts, i);
      ChainFrom(ts, i, fs, ops, end);
    }
    if fs, ops :| |fs| == |ops| + 1 && Chain(ts, i, fs, ops, end) && e == ChainTree(fs, ops) {
      ChainFrom(ts, i, fs, ops, end);
    }
  }
}
