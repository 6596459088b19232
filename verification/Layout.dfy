/** How a text may be laid out: which characters are what to the lexer, where blanks may stand and
    where they must, and how long words and numbers may be. */
module Layout {
  import opened Syntax
  import opened Lexer
  import opened RoundTrip

  // ----- the characters -----

  /** The six characters of isspace. */
  const BLANKS: string := " \t\n\U{0B}\U{0C}\r"

  lemma LowerCase(c: char)
    ensures c in "abcdefghijklmnopqrstuvwxyz" <==> 'a' <= c <= 'z'
  {
  }

  lemma UpperCase(c: char)
    ensures c in "ABCDEFGHIJKLMNOPQRSTUVWXYZ" <==> 'A' <= c <= 'Z'
  {
  }

  lemma Digits(c: char)
    ensures c in "0123456789" <==> '0' <= c <= '9'
  {
  }

  lemma Spaces(c: char)
    ensures c in BLANKS <==> c == ' ' || '\t' <= c <= '\r'
  {
  }

  lemma Symbols(c: char)
    ensures IsSymbol(c) <==> c in "+-*/=<>(){}"
  {
  }

  lemma CharacterClasses(c: char)
    ensures IsSpace(c) <==> c in BLANKS
    ensures IsDigit(c) <==> c in "0123456789"
    ensures IsAlpha(c) <==> c in "abcdefghijklmnopqrstuvwxyz" || c in "ABCDEFGHIJKLMNOPQRSTUVWXYZ"
    ensures IsSymbol(c) <==> c in "+-*/=<>(){}"
  {
    LowerCase(c);
    UpperCase(c);
    Digits(c);
    Spaces(c);
    Symbols(c);
  }

  /** Any other character is the error exit. */
  lemma StrayExit(c: char, rest: string)
    requires c !in BLANKS && c !in "0123456789" && c !in "+-*/=<>(){}"
    requires c !in "abcdefghijklmnopqrstuvwxyz" && c !in "ABCDEFGHIJKLMNOPQRSTUVWXYZ"
    ensures Lex([c] + rest) == Unexpected(c)
  {
    CharacterClasses(c);
    hide IsSpace, IsDigit, IsAlpha, IsSymbol;
    assert ([c] + rest)[0] == c;
  }

  // ----- blanks -----

  lemma {:induction false} LexBlank(blank: string, rest: string)
    requires forall c :: c in blank ==> c in BLANKS
    ensures Lex(blank + rest) == Lex(rest)
    decreases |blank|
  {
    if blank == "" {
      assert blank + rest == rest;
    } else {
      CharacterClasses(blank[0]);
      assert (blank + rest)[0] == blank[0] && (blank + rest)[1..] == blank[1..] + rest;
      LexBlank(blank[1..], rest);
    }
  }

  // ----- one token in front of anything that does not extend it -----

  /** A longest match of `t` ends before `rest`. */
  predicate EndsBefore(t: Token, rest: string) {
    rest == "" ||
    match t
    case TIdent(_) => !IsAlnum(rest[0])
    case TPrint => !IsAlnum(rest[0])
    case TWhile => !IsAlnum(rest[0])
    case TIf => !IsAlnum(rest[0])
    case TNum(_) => !IsDigit(rest[0])
    case TEq => rest[0] != '='
    case _ => true
  }

  lemma {:induction false} WordEnds(w: string, rest: string)
    requires (forall i :: 0 <= i < |w| ==> IsAlnum(w[i])) && (rest == "" || !IsAlnum(rest[0]))
    ensures WordSpan(w + rest) == |w|
    decreases |w|
  {
    if w == "" {
      assert w + rest == rest;
    } else {
      assert (w + rest)[0] == w[0] && (w + rest)[1..] == w[1..] + rest;
      WordEnds(w[1..], rest);
    }
  }

  lemma {:induction false} DigitsEnd(w: string, rest: string)
    requires (forall i :: 0 <= i < |w| ==> IsDigit(w[i])) && (rest == "" || !IsDigit(rest[0]))
    ensures DigitSpan(w + rest) == |w|
    decreases |w|
  {
    if w == "" {
      assert w + rest == rest;
    } else {
      assert (w + rest)[0] == w[0] && (w + rest)[1..] == w[1..] + rest;
      DigitsEnd(w[1..], rest);
    }
  }

  /** A word of letters and digits, a letter first, in front of something else: one token, if it has
      no more than 31 characters. */
  lemma WordExact(w: string, rest: string)
    requires w != "" && IsAlpha(w[0]) && (forall i :: 0 <= i < |w| ==> IsAlnum(w[i]))
    requires rest == "" || !IsAlnum(rest[0])
    ensures Lex(w + rest) == if |w| <= 31 then Prepend([WordToken(w)], Lex(rest)) else Undefined
  {
    WordEnds(w, rest);
    assert (w + rest)[0] == w[0] && (w + rest)[..|w|] == w && (w + rest)[|w|..] == rest;
  }

  /** A number: one token, if it has no more than 31 digits and is at most 2147483647. */
  lemma NumberExact(d: string, rest: string)
    requires d != "" && (forall i :: 0 <= i < |d| ==> IsDigit(d[i])) && (rest == "" || !IsDigit(rest[0]))
    ensures Lex(d + rest) ==
            if |d| <= 31 && DecimalValue(d) <= 2147483647 then Prepend([TNum(DecimalValue(d))], Lex(rest))
            else Undefined
  {
    DigitsEnd(d, rest);
    assert (d + rest)[0] == d[0] && (d + rest)[..|d|] == d && (d + rest)[|d|..] == rest;
  }

  /** The value of a number in the decimal system: the last digit counts once, all before it ten times. */
  lemma DecimalExact(d: string, k: nat)
    requires (forall i :: 0 <= i < |d| ==> IsDigit(d[i])) && k < 10
    ensures DecimalValue("") == 0
    ensures IsDigit("0123456789"[k]) && DecimalValue(d + ["0123456789"[k]]) == 10 * DecimalValue(d) + k
  {
    var c := "0123456789"[k];
    assert c as int == '0' as int + k;
    assert (d + [c])[..|d|] == d && (d + [c])[|d|] == c;
  }

  lemma WordTokens(w: string)
    ensures WordToken(w) == if w == "print" then TPrint else if w == "while" then TWhile
                            else if w == "if" then TIf else TIdent(w)
  {
  }

  lemma OneSymbol(c: char, rest: string)
    requires IsSymbol(c) && (c == '=' ==> rest == "" || rest[0] != '=')
    ensures Lex([c] + rest) == Prepend([SymbolToken(c)], Lex(rest))
  {
    hide SymbolToken;
    assert ([c] + rest)[0] == c && ([c] + rest)[1..] == rest;
    assert |[c] + rest| > 1 ==> ([c] + rest)[1] == rest[0];
  }

  lemma SymbolExact(t: Token, rest: string)
    requires Writable(t) && !(t.TNum? || t.TIdent? || t.TPrint? || t.TWhile? || t.TIf?) && EndsBefore(t, rest)
    ensures Lex(TokenText(t) + rest) == Prepend([t], Lex(rest))
  {
    var w := TokenText(t);
    if t.TEqEq? {
      assert (w + rest)[0] == '=' && (w + rest)[1] == '=' && (w + rest)[2..] == rest;
    } else {
      assert w == [w[0]] && SymbolToken(w[0]) == t && IsSymbol(w[0]);
      assert t.TEq? <==> w[0] == '=';
      OneSymbol(w[0], rest);
    }
  }

  lemma TokenExact(t: Token, rest: string)
    requires Writable(t) && EndsBefore(t, rest)
    ensures Lex(TokenText(t) + rest) == Prepend([t], Lex(rest))
  {
    hide Lex;
    match t
    case TNum(n) => IntMaxLength(n); NumberExact(Decimal(n), rest);
    case TIdent(x) => WordExact(x, rest);
    case TPrint => WordExact("print", rest);
    case TWhile => WordExact("while", rest);
    case TIf => WordExact("if", rest);
    case _ => SymbolExact(t, rest);
  }

  // ----- any layout -----

  /** The tokens with `blanks[k]` before token `k`, and the last blanks behind all of them. */
  function LaidOut(ts: seq<Token>, blanks: seq<string>): string
    requires |blanks| == |ts| + 1 && forall t :: t in ts ==> Writable(t)
  {
    if ts == [] then blanks[0] else blanks[0] + (TokenText(ts[0]) + LaidOut(ts[1..], blanks[1..]))
  }

  /** Only blanks between the tokens, and some wherever the longest match of a token would run into
      the next one. */
  ghost predicate Separated(ts: seq<Token>, blanks: seq<string>)
    requires |blanks| == |ts| + 1 && forall t :: t in ts ==> Writable(t)
  {
    && (forall b, c :: b in blanks && c in b ==> c in BLANKS)
    && (forall k :: 0 < k < |ts| && blanks[k] == "" ==> EndsBefore(ts[k - 1], TokenText(ts[k])))
  }

  lemma NoBlankInside(c: char)
    requires IsSpace(c)
    ensures !IsAlnum(c) && !IsDigit(c) && c != '='
  {
  }

  lemma BlankEnds(t: Token, blank: string, rest: string)
    requires blank != "" && blank[0] in BLANKS
    ensures EndsBefore(t, blank + rest)
  {
    CharacterClasses(blank[0]);
    assert (blank + rest)[0] == blank[0];
    NoBlankInside(blank[0]);
    hide IsSpace, IsAlpha, IsDigit;
  }

  /** The first token ends before what follows it. */
  lemma FirstEnds(ts: seq<Token>, blanks: seq<string>)
    requires |blanks| == |ts| + 1 && ts != [] && (forall t :: t in ts ==> Writable(t)) && Separated(ts, blanks)
    ensures EndsBefore(ts[0], LaidOut(ts[1..], blanks[1..]))
  {
    var t, rest, more := ts[0], LaidOut(ts[1..], blanks[1..]), blanks[1..];
    var b := blanks[1];
    assert b in blanks;
    if b != "" {
      if |ts| == 1 {
        assert rest == b + "";
        BlankEnds(t, b, "");
      } else {
        BlankEnds(t, b, TokenText(ts[1..][0]) + LaidOut(ts[1..][1..], more[1..]));
      }
    } else if |ts| > 1 {
      var w, tail := TokenText(ts[1]), LaidOut(ts[1..][1..], more[1..]);
      assert rest == "" + (w + tail) == w + tail && rest[0] == w[0];
      assert EndsBefore(t, w);
    }
  }

  lemma LaidOutHead(ts: seq<Token>, blanks: seq<string>)
    requires |blanks| == |ts| + 1 && (forall t :: t in ts ==> Writable(t)) && ts != []
    ensures LaidOut(ts, blanks) == blanks[0] + (TokenText(ts[0]) + LaidOut(ts[1..], blanks[1..]))
  {
  }

  lemma RestSeparated(ts: seq<Token>, blanks: seq<string>)
    requires |blanks| == |ts| + 1 && ts != [] && (forall t :: t in ts ==> Writable(t)) && Separated(ts, blanks)
    ensures Separated(ts[1..], blanks[1..])
  {
    var us, cs := ts[1..], blanks[1..];
    forall b, c | b in cs && c in b ensures c in BLANKS { assert b in blanks; }
    forall k | 0 < k < |us| && cs[k] == "" ensures EndsBefore(us[k - 1], TokenText(us[k])) {
      assert blanks[k + 1] == cs[k] && ts[k + 1] == us[k] && ts[k] == us[k - 1];
    }
  }

  /** However a token list is laid out, lexing gives it back. */
  lemma {:induction false} LayoutBack(ts: seq<Token>, blanks: seq<string>)
    requires |blanks| == |ts| + 1 && (forall t :: t in ts ==> Writable(t)) && Separated(ts, blanks)
    ensures Lex(LaidOut(ts, blanks)) == Tokens(ts)
    decreases |ts|
  {
    assert blanks[0] in blanks;
    if ts == [] {
      LexBlank(blanks[0], "");
      assert blanks[0] + "" == blanks[0];
    } else {
      LaidOutHead(ts, blanks);
      RestSeparated(ts, blanks);
      FirstEnds(ts, blanks);
      assert Writable(ts[0]) && forall c :: c in blanks[0] ==> c in BLANKS;
      assert [ts[0]] + ts[1..] == ts;
      hide Lex, LaidOut, Separated, TokenText, EndsBefore, Writable;
      LexBlank(blanks[0], TokenText(ts[0]) + LaidOut(ts[1..], blanks[1..]));
      TokenExact(ts[0], LaidOut(ts[1..], blanks[1..]));
      LayoutBack(ts[1..], blanks[1..]);
    }
  }

  /** The whole lexer: the same, with the end marker, as long as the text has more characters than
      tokens; otherwise the token array has no room for it. */
  lemma ScanLayout(ts: seq<Token>, blanks: seq<string>)
    requires |blanks| == |ts| + 1 && (forall t :: t in ts ==> Writable(t)) && Separated(ts, blanks)
    ensures Scan(LaidOut(ts, blanks)) == if |LaidOut(ts, blanks)| > |ts| then Tokens(ts + [TEof]) else Undefined
  {
    LayoutBack(ts, blanks);
  }

  /** Where the blanks between two tokens may be left out. */
  lemma TouchExact(a: Token, b: Token)
    requires Writable(a) && Writable(b)
    ensures EndsBefore(a, TokenText(b)) <==>
            !((a.TIdent? || a in {TPrint, TWhile, TIf}) && (b.TIdent? || b.TNum? || b in {TPrint, TWhile, TIf})) &&
            !(a.TNum? && b.TNum?) && !(a == TEq && b in {TEq, TEqEq})
  {
  }
}
