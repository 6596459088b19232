/** The comment at the head of bytecode-vm/compiler.c describes the usual precedence, with `*` and
    `/` binding tighter than `+` and `-`.  The code parses the right operand of `*` and `/` as a
    whole expression instead.  Here is exactly when the two agree. */
module Precedence {
  import opened Syntax
  import opened Lexer
  import opened Parser

  predicate Multiplies(op: BinOp) { op.Mul? || op.Div? }

  /** Index of the last operator that is not `*` or `/`, -1 when there is none. */
  function LastAdd(ops: seq<BinOp>): (j: int)
    ensures -1 <= j < |ops| && (j >= 0 ==> !Multiplies(ops[j]))
    ensures forall i :: j < i < |ops| ==> Multiplies(ops[i])
  {
    if ops == [] then -1
    else if !Multiplies(ops[|ops| - 1]) then |ops| - 1
    else LastAdd(ops[..|ops| - 1])
  }

  /** A term: everything from the left. */
  function MulFold(fs: seq<Expr>, ops: seq<BinOp>): Expr
    requires |fs| == |ops| + 1
    decreases |ops|
  {
    var n := |ops|;
    if n == 0 then fs[0] else Bin(ops[n - 1], MulFold(fs[..n], ops[..n - 1]), fs[n])
  }

  /** The conventional tree: terms first, then sums of terms from the left. */
  function Conventional(fs: seq<Expr>, ops: seq<BinOp>): Expr
    requires |fs| == |ops| + 1
    decreases |ops|
  {
    var j := LastAdd(ops);
    if j < 0 then MulFold(fs, ops)
    else Bin(ops[j], Conventional(fs[..j + 1], ops[..j]), MulFold(fs[j + 1..], ops[j + 1..]))
  }

  // ----- sizes tell the trees apart -----

  function Size(e: Expr): nat {
    if e.Bin? then 1 + Size(e.left) + Size(e.right) else 1
  }

  function Sizes(fs: seq<Expr>): nat {
    if fs == [] then 0 else Sizes(fs[..|fs| - 1]) + Size(fs[|fs| - 1])
  }

  lemma {:induction false} SizesAppend(a: seq<Expr>, b: seq<Expr>)
    ensures Sizes(a + b) == Sizes(a) + Sizes(b)
    decreases |b|
  {
    if b == [] {
      assert a + b == a;
    } else {
      assert (a + b)[..|a + b| - 1] == a + b[..|b| - 1];
      SizesAppend(a, b[..|b| - 1]);
    }
  }

  lemma {:induction false} SizesAtLeast(fs: seq<Expr>)
    ensures Sizes(fs) >= |fs|
    decreases |fs|
  {
    if fs != [] { SizesAtLeast(fs[..|fs| - 1]); }
  }

  lemma {:induction false} MulFoldSize(fs: seq<Expr>, ops: seq<BinOp>)
    requires |fs| == |ops| + 1
    ensures Size(MulFold(fs, ops)) == Sizes(fs) + |ops|
    decreases |ops|
  {
    if ops == [] {
      assert fs[..0] == [];
    } else {
      MulFoldSize(fs[..|ops|], ops[..|ops| - 1]);
    }
  }

  lemma {:induction false} ConventionalSize(fs: seq<Expr>, ops: seq<BinOp>)
    requires |fs| == |ops| + 1
    ensures Size(Conventional(fs, ops)) == Sizes(fs) + |ops|
    decreases |ops|
  {
    var j := LastAdd(ops);
    if j < 0 {
      MulFoldSize(fs, ops);
    } else {
      ConventionalSize(fs[..j + 1], ops[..j]);
      MulFoldSize(fs[j + 1..], ops[j + 1..]);
      SizesAppend(fs[..j + 1], fs[j + 1..]);
      assert fs[..j + 1] + fs[j + 1..] == fs;
    }
  }

  // ----- folds seen from the right -----

  lemma {:induction false} LeftFoldLast(left: Expr, ops: seq<BinOp>, rights: seq<Expr>, op: BinOp, r: Expr)
    requires |ops| == |rights|
    ensures LeftFold(left, ops + [op], rights + [r]) == Bin(op, LeftFold(left, ops, rights), r)
    decreases |ops|
  {
    if ops == [] {
      assert [op][1..] == [] && [r][1..] == [];
      assert ops + [op] == [op] && rights + [r] == [r];
    } else {
      assert (ops + [op])[1..] == ops[1..] + [op] && (rights + [r])[1..] == rights[1..] + [r];
      LeftFoldLast(Bin(ops[0], left, rights[0]), ops[1..], rights[1..], op, r);
    }
  }

  /** A chain of sums only is the same either way. */
  lemma {:induction false} SumsAgree(fs: seq<Expr>, ops: seq<BinOp>)
    requires |fs| == |ops| + 1 && forall i :: 0 <= i < |ops| ==> !Multiplies(ops[i])
    ensures Conventional(fs, ops) == LeftFold(fs[0], ops, fs[1..])
    decreases |ops|
  {
    var n := |ops|;
    if n > 0 {
      SumsAgree(fs[..n], ops[..n - 1]);
      LeftFoldLast(fs[0], ops[..n - 1], fs[1..n], ops[n - 1], fs[n]);
      assert ops[..n - 1] + [ops[n - 1]] == ops && fs[1..n] + [fs[n]] == fs[1..] && fs[..n][1..] == fs[1..n];
      assert MulFold(fs[n..], ops[n..]) == fs[n];
    }
  }

  lemma {:induction false} PrefixIsSums(ops: seq<BinOp>)
    ensures var k := AdditivePrefix(ops);
            (forall i :: 0 <= i < k ==> !Multiplies(ops[i])) && (k < |ops| ==> Multiplies(ops[k]))
    decreases |ops|
  {
    if ops != [] && !Multiplies(ops[0]) {
      PrefixIsSums(ops[1..]);
      assert forall i :: 0 < i < AdditivePrefix(ops) ==> ops[i] == ops[1..][i - 1];
    }
  }

  lemma ChainUnfold(fs: seq<Expr>, ops: seq<BinOp>)
    requires |fs| == |ops| + 1 && AdditivePrefix(ops) > 0
    ensures var k := AdditivePrefix(ops);
            ChainTree(fs, ops) == LeftFold(fs[0], ops[..k], fs[1..k] + [LastOperand(fs, ops)])
  {
  }

  /** The parsed tree with its root in view, when a sum comes first. */
  lemma ChainRoot(fs: seq<Expr>, ops: seq<BinOp>)
    requires |fs| == |ops| + 1 && AdditivePrefix(ops) > 0
    ensures var k := AdditivePrefix(ops);
            ChainTree(fs, ops) == Bin(ops[k - 1], Conventional(fs[..k], ops[..k - 1]), LastOperand(fs, ops))
  {
    hide *;
    var k := AdditivePrefix(ops);
    var last := LastOperand(fs, ops);
    ChainUnfold(fs, ops);
    PrefixIsSums(ops);
    SumsAgree(fs[..k], ops[..k - 1]);
    LeftFoldLast(fs[0], ops[..k - 1], fs[1..k], ops[k - 1], last);
    assert ops[..k - 1] + [ops[k - 1]] == ops[..k] && fs[..k][1..] == fs[1..k];
  }

  lemma ProductOfTwo(fs: seq<Expr>, ops: seq<BinOp>)
    requires |fs| == 2 && |ops| == 1
    ensures MulFold(fs, ops) == Bin(ops[0], fs[0], fs[1])
  {
    assert MulFold(fs[..1], ops[..0]) == fs[0];
  }

  /** The first `*` or `/` is the last operator, or there is none. */
  lemma AgreeWhenLast(fs: seq<Expr>, ops: seq<BinOp>)
    requires |fs| == |ops| + 1 && AdditivePrefix(ops) + 1 >= |ops|
    ensures ChainTree(fs, ops) == Conventional(fs, ops)
  {
    var k, n := AdditivePrefix(ops), |ops|;
    PrefixIsSums(ops);
    if k == n {
      if k > 0 { ChainRoot(fs, ops); assert MulFold(fs[n..], ops[n..]) == fs[n]; }
    } else {
      assert LastAdd(ops) == k - 1;
      assert ChainTree(fs[k + 1..], ops[k + 1..]) == fs[n];
      ProductOfTwo(fs[k..], ops[k..]);
      assert fs[k..][0] == fs[k] && fs[k..][1] == fs[n] && ops[k..][0] == ops[k];
      if k > 0 {
        ChainRoot(fs, ops);
      } else {
        assert fs[0..] == fs && ops[0..] == ops;
      }
    }
  }

  lemma FirstIsSmaller(fs: seq<Expr>, ops: seq<BinOp>)
    requires |fs| == |ops| + 1 && |ops| >= 1
    ensures Size(MulFold(fs, ops)) > Size(fs[0])
  {
    MulFoldSize(fs, ops);
    hide MulFold;
    assert [fs[0]][..0] == [];
    assert Sizes([fs[0]]) == Size(fs[0]);
    hide Sizes, Size;
    SizesAppend([fs[0]], fs[1..]);
    assert [fs[0]] + fs[1..] == fs;
  }

  /** Two or more products in a row: the left operand is too large to be the first factor. */
  lemma ProductsDiffer(fs: seq<Expr>, ops: seq<BinOp>)
    requires |fs| == |ops| + 1 && |ops| >= 2
    ensures MulFold(fs, ops).Bin? && MulFold(fs, ops).left != fs[0]
  {
    var n := |ops|;
    assert MulFold(fs, ops) == Bin(ops[n - 1], MulFold(fs[..n], ops[..n - 1]), fs[n]);
    FirstIsSmaller(fs[..n], ops[..n - 1]);
  }

  lemma LastAddAfterPrefix(ops: seq<BinOp>)
    ensures LastAdd(ops) >= AdditivePrefix(ops) - 1
  {
    PrefixIsSums(ops);
    if AdditivePrefix(ops) > 0 { assert !Multiplies(ops[AdditivePrefix(ops) - 1]); }
  }

  lemma ConventionalRoot(fs: seq<Expr>, ops: seq<BinOp>)
    requires |fs| == |ops| + 1 && LastAdd(ops) >= 0
    ensures var j := LastAdd(ops);
            Conventional(fs, ops)
            == Bin(ops[j], Conventional(fs[..j + 1], ops[..j]), MulFold(fs[j + 1..], ops[j + 1..]))
  {
  }

  /** The parsed right operand has a factor on its left, the conventional one a product. */
  lemma OperandsDiffer(fs: seq<Expr>, ops: seq<BinOp>)
    requires |fs| == |ops| + 1 && AdditivePrefix(ops) < |ops| - 1
    ensures var k := AdditivePrefix(ops); LastOperand(fs, ops) != MulFold(fs[k..], ops[k..])
  {
    var k := AdditivePrefix(ops);
    ProductsDiffer(fs[k..], ops[k..]);
    hide MulFold, ChainTree, AdditivePrefix;
    assert LastOperand(fs, ops).left == fs[k] == fs[k..][0];
  }

  /** A longer sum on the left is a larger tree. */
  lemma LeftPartsDiffer(fs: seq<Expr>, ops: seq<BinOp>, k: nat, j: nat)
    requires 0 < k <= j < |ops| && |fs| == |ops| + 1
    ensures Conventional(fs[..k], ops[..k - 1]) != Conventional(fs[..j + 1], ops[..j])
  {
    ConventionalSize(fs[..k], ops[..k - 1]);
    ConventionalSize(fs[..j + 1], ops[..j]);
    hide Conventional;
    assert fs[..j + 1] == fs[..k] + fs[k..j + 1];
    SizesAppend(fs[..k], fs[k..j + 1]);
  }

  lemma DifferAfterSum(fs: seq<Expr>, ops: seq<BinOp>)
    requires |fs| == |ops| + 1 && 0 < AdditivePrefix(ops) < |ops| - 1
    ensures ChainTree(fs, ops) != Conventional(fs, ops)
  {
    hide *;
    var k, j := AdditivePrefix(ops), LastAdd(ops);
    LastAddAfterPrefix(ops);
    ChainRoot(fs, ops);
    ConventionalRoot(fs, ops);
    if j == k - 1 { OperandsDiffer(fs, ops); } else { LeftPartsDiffer(fs, ops, k, j); }
  }

  lemma DifferOtherwise(fs: seq<Expr>, ops: seq<BinOp>)
    requires |fs| == |ops| + 1 && AdditivePrefix(ops) + 1 < |ops|
    ensures ChainTree(fs, ops) != Conventional(fs, ops)
  {
    PrefixIsSums(ops);
    if AdditivePrefix(ops) == 0 {
      if LastAdd(ops) < 0 { ProductsDiffer(fs, ops); }
    } else {
      DifferAfterSum(fs, ops);
    }
  }

  /** An unparenthesised chain is parsed as convention has it exactly when no operator follows its
      first `*` or `/`. */
  lemma PrecedenceExact(fs: seq<Expr>, ops: seq<BinOp>)
    requires |fs| == |ops| + 1
    ensures ChainTree(fs, ops) == Conventional(fs, ops) <==> AdditivePrefix(ops) + 1 >= |ops|
  {
    if AdditivePrefix(ops) + 1 >= |ops| {
      AgreeWhenLast(fs, ops);
    } else {
      DifferOtherwise(fs, ops);
    }
  }

  /** The same of the parser itself: of every chain of factors it accepts. */
  lemma ParsedAsConvention(ts: seq<Token>, i: nat, fs: seq<Expr>, ops: seq<BinOp>, end: nat)
    requires i <= |ts| && |fs| == |ops| + 1 && Chain(ts, i, fs, ops, end)
    ensures ParseExpression(ts, i).Parsed? && ParseExpression(ts, i).next == end
    ensures ParseExpression(ts, i).node == Conventional(fs, ops) <==> AdditivePrefix(ops) + 1 >= |ops|
  {
    hide *;
    ChainFrom(ts, i, fs, ops, end);
    PrecedenceExact(fs, ops);
  }

  /** For instance `2 * 3 + 4` is read as `2 * (3 + 4)`. */
  lemma ProductThenSum()
    ensures ParseExpression([TNum(2), TStar, TNum(3), TPlus, TNum(4), TEof], 0)
            == Parsed(Bin(Mul, Num(2), Bin(Add, Num(3), Num(4))), 5)
  {
    var ts := [TNum(2), TStar, TNum(3), TPlus, TNum(4), TEof];
    assert ParseTerm(ts, 4) == Parsed(Num(4), 5);
    assert ParseTerm(ts, 2) == Parsed(Num(3), 3);
    assert ParseExpression(ts, 2) == Parsed(Bin(Add, Num(3), Num(4)), 5);
    assert ParseTerm(ts, 0) == Parsed(Bin(Mul, Num(2), Bin(Add, Num(3), Num(4))), 5);
  }
}
