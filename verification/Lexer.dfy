/** The lexer of bytecode-vm/compiler.c: a function from text to tokens, and the loop over the
    characters that fills the token array, proved to compute it. */
module Lexer {
  import opened Syntax

  datatype Token =
    | TNum(value: nat) | TIdent(name: string)
    | TPlus | TMinus | TStar | TSlash | TEq | TEqEq | TGt | TLt
    | TPrint | TWhile | TIf | TLBrace | TRBrace | TLParen | TRParen | TEof

  /** `Unexpected` is the exit(1) on a stray character.  `Undefined` collects what C leaves open:
      a word or number that overruns its 32-byte buffer, a literal beyond INT_MAX, and a token
      array without room for the end marker. */
  datatype LexResult =
    | Tokens(ts: seq<Token>)
    | Unexpected(c: char)
    | Undefined

  const WORD_MAX: nat := 31

  predicate IsAlpha(c: char) { 'a' <= c <= 'z' || 'A' <= c <= 'Z' }
  predicate IsDigit(c: char) { '0' <= c <= '9' }
  predicate IsAlnum(c: char) { IsAlpha(c) || IsDigit(c) }
  predicate IsSpace(c: char) { c == ' ' || '\t' <= c <= '\r' }

  /** How many leading characters are letters or digits, and how many are digits. */
  function WordSpan(s: string): (n: nat)
    ensures n <= |s| && (forall i :: 0 <= i < n ==> IsAlnum(s[i])) && (n < |s| ==> !IsAlnum(s[n]))
  {
    if s == "" || !IsAlnum(s[0]) then 0 else 1 + WordSpan(s[1..])
  }

  function DigitSpan(s: string): (n: nat)
    ensures n <= |s| && (forall i :: 0 <= i < n ==> IsDigit(s[i])) && (n < |s| ==> !IsDigit(s[n]))
  {
    if s == "" || !IsDigit(s[0]) then 0 else 1 + DigitSpan(s[1..])
  }

  /** atoi on a string of digits */
  function DecimalValue(d: string): nat
    requires forall i :: 0 <= i < |d| ==> IsDigit(d[i])
  {
    if d == "" then 0
    else
      assert IsDigit(d[|d| - 1]);
      10 * DecimalValue(d[..|d| - 1]) + (d[|d| - 1] as int - '0' as int)
  }

  function WordToken(w: string): Token {
    if w == "print" then TPrint else if w == "while" then TWhile else if w == "if" then TIf else TIdent(w)
  }

  predicate IsSymbol(c: char) { c in "+-*/=><(){}" }

  function SymbolToken(c: char): Token
    requires IsSymbol(c)
  {
    if c == '+' then TPlus else if c == '-' then TMinus else if c == '*' then TStar
    else if c == '/' then TSlash else if c == '=' then TEq else if c == '>' then TGt
    else if c == '<' then TLt else if c == '(' then TLParen else if c == ')' then TRParen
    else if c == '{' then TLBrace else TRBrace
  }

  function Prepend(ts: seq<Token>, r: LexResult): LexResult {
    if r.Tokens? then Tokens(ts + r.ts) else r
  }

  /** The tokens of a text, without the end marker. */
  function Lex(s: string): LexResult
    decreases |s|
  {
    if s == "" then Tokens([])
    else if IsAlpha(s[0]) then
      var n := WordSpan(s);
      if n > WORD_MAX then Undefined else Prepend([WordToken(s[..n])], Lex(s[n..]))
    else if IsDigit(s[0]) then
      var n := DigitSpan(s);
      if n > WORD_MAX || DecimalValue(s[..n]) > INT_MAX then Undefined
      else Prepend([TNum(DecimalValue(s[..n]))], Lex(s[n..]))
    else if IsSpace(s[0]) then Lex(s[1..])
    else if s[0] == '=' && |s| > 1 && s[1] == '=' then Prepend([TEqEq], Lex(s[2..]))
    else if IsSymbol(s[0]) then Prepend([SymbolToken(s[0])], Lex(s[1..]))
    else Unexpected(s[0])
  }

  /** Tokens and end marker, in an array of as many cells as the text has characters. */
  function Scan(s: string): LexResult {
    var r := Lex(s);
    if !r.Tokens? then r else if |r.ts| >= |s| then Undefined else Tokens(r.ts + [TEof])
  }

  /** Each token takes at least one character, so only the end marker can lack a cell. */
  lemma {:induction false} TokenCount(s: string)
    ensures Lex(s).Tokens? ==> |Lex(s).ts| <= |s|
    decreases |s|
  {
    if s == "" {
    } else if IsAlpha(s[0]) {
      assert WordSpan(s) > 0;
      TokenCount(s[WordSpan(s)..]);
    } else if IsDigit(s[0]) {
      assert DigitSpan(s) > 0;
      TokenCount(s[DigitSpan(s)..]);
    } else if s[0] == '=' && |s| > 1 && s[1] == '=' {
      TokenCount(s[2..]);
    } else {
      TokenCount(s[1..]);
    }
  }

  // ----- the lexer as it runs -----

  /** The loop that consumes a word. */
  method TakeWord(source: string, start: nat) returns (current: nat)
    requires start < |source| && IsAlpha(source[start])
    ensures start < current <= |source| && current - start == WordSpan(source[start..])
  {
    current := start + 1;
    while current < |source| && IsAlnum(source[current])
      invariant start < current <= |source|
      invariant WordSpan(source[start..]) == current - start + WordSpan(source[current..])
    {
      assert source[current..][1..] == source[current + 1..];
      current := current + 1;
    }
  }

  method TakeDigits(source: string, start: nat) returns (current: nat)
    requires start < |source| && IsDigit(source[start])
    ensures start < current <= |source| && current - start == DigitSpan(source[start..])
  {
    current := start;
    while current < |source| && IsDigit(source[current])
      invariant start <= current <= |source|
      invariant DigitSpan(source[start..]) == current - start + DigitSpan(source[current..])
    {
      assert source[current..][1..] == source[current + 1..];
      current := current + 1;
    }
  }

  /** One pass of the lexer's loop: the token read, if any, or how lexing ends here. */
  method NextToken(source: string, current: nat) returns (r: LexResult, next: nat)
    requires current < |source|
    ensures !r.Tokens? ==> Lex(source[current..]) == r
    ensures r.Tokens? ==> current + |r.ts| <= next <= |source| && current < next && |r.ts| <= 1
    ensures r.Tokens? ==> Lex(source[current..]) == Prepend(r.ts, Lex(source[next..]))
  {
    hide WordSpan, DigitSpan, DecimalValue, WordToken, SymbolToken;
    ghost var rest := source[current..];
    var c := source[current];
    next := current;
    if IsAlpha(c) {
      next := TakeWord(source, current);
      assert rest[next - current..] == source[next..] && rest[..next - current] == source[current..next];
      r := if next - current > WORD_MAX then Undefined else Tokens([WordToken(source[current..next])]);
    } else if IsDigit(c) {
      next := TakeDigits(source, current);
      assert rest[next - current..] == source[next..] && rest[..next - current] == source[current..next];
      r := if next - current > WORD_MAX || DecimalValue(source[current..next]) > INT_MAX then Undefined
           else Tokens([TNum(DecimalValue(source[current..next]))]);
    } else if IsSpace(c) {
      next := current + 1;
      assert rest[1..] == source[next..];
      r := Tokens([]);
    } else if IsSymbol(c) {
      var t := SymbolToken(c);
      if c == '=' && current + 1 < |source| && source[current + 1] == '=' {
        t := TEqEq;
        next := current + 1;
        assert rest[2..] == source[next + 1..];
      }
      next := next + 1;
      assert rest[1..] == source[current + 1..];
      r := Tokens([t]);
    } else {
      r := Unexpected(c);
    }
  }

  lemma PrependTwice(a: seq<Token>, b: seq<Token>, r: LexResult)
    ensures Prepend(a + b, r) == Prepend(a, Prepend(b, r))
  {
    if r.Tokens? {
      assert (a + b) + r.ts == a + (b + r.ts);
    }
  }

  method LexText(source: string) returns (r: LexResult)
    ensures r == Scan(source)
  {
    var tokens := new Token[|source|](_ => TEof);
    var count, current := 0, 0;
    while current < |source|
      invariant 0 <= count <= current <= |source|
      invariant Lex(source) == Prepend(tokens[..count], Lex(source[current..]))
    {
      var step, next := NextToken(source, current);
      if !step.Tokens? {
        return step;
      }
      ghost var before, tail := tokens[..count], Lex(source[next..]);
      if |step.ts| == 1 {
        tokens[count] := step.ts[0];
        count := count + 1;
      }
      assert tokens[..count] == before + step.ts;
      PrependTwice(before, step.ts, tail);
      current := next;
    }
    assert source[current..] == "";
    assert tokens[..count] + [] == tokens[..count];
    if count == |source| {
      return Undefined;
    }
    tokens[count] := TEof;
    assert tokens[..count + 1] == tokens[..count] + [TEof];
    r := Tokens(tokens[..count + 1]);
  }
}
