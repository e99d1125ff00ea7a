/** Spelling of query texts, stated without the scanner, and the scanner's agreement with it. */
module QuerySpelling {
  import opened Machine
  import opened QueryGrammar
  import opened QueryParser
  import opened QueryLexer

  /** A C string: no NUL before its end. */
  predicate NoNul(t: string) { forall i :: 0 <= i < |t| ==> t[i] != '\0' }

  // ----- numbers -----

  /** A decimal digit. */
  predicate Decimal(c: char) { c in "0123456789" }

  function Digit(c: char): int { c as int - '0' as int }

  predicate InBase(d: string, base: int) { forall i :: 0 <= i < |d| ==> IsDigit(d[i]) && Digit(d[i]) < base }

  /** The value of a digit string by place. */
  function PlaceValue(d: string, base: int): int {
    if d == [] then 0 else PlaceValue(d[..|d| - 1], base) * base + Digit(d[|d| - 1])
  }

  /** The longest front of d that is written in the base. */
  function Front(d: string, base: int): (n: nat)
    ensures n <= |d| && InBase(d[..n], base)
    ensures n < |d| ==> !IsDigit(d[n]) || Digit(d[n]) >= base
  {
    if d == [] || !IsDigit(d[0]) || Digit(d[0]) >= base then 0 else
    var n := 1 + Front(d[1..], base);
    assert forall i :: 0 < i < n ==> d[i] == d[1..][..n - 1][i - 1];
    n
  }

  lemma {:induction false} ParseIsPlace(d: string, base: int, e: string)
    requires InBase(e, base) && 0 < base <= 10
    ensures ParseBase(d, base, PlaceValue(e, base)) == PlaceValue(e + d[..Front(d, base)], base)
    decreases |d|
  {
    if d == [] || !IsDigit(d[0]) || Digit(d[0]) >= base {
      assert e + d[..0] == e;
    } else {
      var f := e + [d[0]];
      assert f[..|f| - 1] == e;
      ParseIsPlace(d[1..], base, f);
      assert f + d[1..][..Front(d[1..], base)] == e + d[..Front(d, base)];
    }
  }

  /** strtol reads decimal digits by place, and after a leading zero octal ones as far as they go. */
  lemma StrtolValue(d: string)
    requires InBase(d, 10)
    ensures d != [] && d[0] == '0' ==> Strtol(d) == PlaceValue(d[..Front(d, 8)], 8)
    ensures d == [] || d[0] != '0' ==> Strtol(d) == PlaceValue(d, 10)
    ensures Strtol("-" + d) == -Strtol(d)
  {
    var base := if d != [] && d[0] == '0' then 8 else 10;
    ParseIsPlace(d, base, []);
    assert [] + d[..Front(d, base)] == d[..Front(d, base)];
    assert base == 10 ==> Front(d, 10) == |d| && d[..|d|] == d;
    assert ("-" + d)[1..] == d;
  }

  // ----- tokens and texts -----

  /** A number: a digit or a minus sign, then digits, in at most 15 characters. */
  predicate IsNumber(w: string) {
    1 <= |w| <= 15 && (Decimal(w[0]) || w[0] == '-') && forall i :: 0 < i < |w| ==> Decimal(w[i])
  }

  predicate Spelling(w: string, t: Token) {
    match t
    case Val(v) => IsNumber(w) && v == Strtol(w) && IsInt32(v)
    case Opr(c) => w == [c] && (c == '!' || c == '&' || c == '|')
    case Open => w == "("
    case Close => w == ")"
    case End => false
    case Err => false
  }

  /** Only blanks from `pos` up to `n`. */
  predicate Blank(s: string, pos: nat, n: nat) {
    pos <= n <= |s| && forall i :: pos <= i < n ==> s[i] == ' '
  }

  /** The spelling of a token stands from `n` up to `m`, behind blanks from `pos` on. */
  predicate Stands(s: string, pos: nat, n: nat, m: nat, t: Token) {
    Blank(s, pos, n) && n <= m <= |s| && Spelling(s[n..m], t)
  }

  /** From `pos` on the text is the spellings of the tokens in order, with any number of blanks before,
      between and after them. */
  ghost predicate SpellsFrom(s: string, pos: nat, ts: seq<Token>)
    decreases |ts|
  {
    && ts != []
    && if ts[0].End? then |ts| == 1 && Blank(s, pos, |s|)
       else exists n: nat, m: nat :: Stands(s, pos, n, m, ts[0]) && SpellsFrom(s, m, ts[1..])
  }

  ghost predicate Spells(s: string, ts: seq<Token>) { SpellsFrom(s, 0, ts) }

  // ----- what the scanner delivers is spelled -----

  lemma {:induction false} GetTokSpelled(s: string, pos: nat, wait: Wait, count: nat) returns (n: nat)
    requires pos <= |s| && Ready(wait) && NoNul(s) && !GetTok(s, pos, wait, count).tok.Err?
    ensures var r := GetTok(s, pos, wait, count);
            && Blank(s, pos, n) && n <= r.pos <= |s|
            && if r.tok.End? then n == r.pos == |s| else Spelling(s[n..r.pos], r.tok)
    decreases |s| - pos
  {
    if At(s, pos) == ' ' {
      n := GetTokSpelled(s, pos + 1, wait, count);
    } else {
      n := pos;
      var r := GetTok(s, pos, wait, count);
      if r.tok.Val? {
        assert s[pos..r.pos][1..] == s[pos + 1..r.pos];
      } else if !r.tok.End? {
        assert s[pos..pos + 1] == [s[pos]];
      }
    }
  }

  ghost predicate Ends(ts: seq<Token>) { ts != [] && ts[|ts| - 1] == End }

  lemma SpelledCons(s: string, pos: nat, n: nat, m: nat, tok: Token, ts: seq<Token>)
    requires Stands(s, pos, n, m, tok) && SpellsFrom(s, m, ts)
    ensures SpellsFrom(s, pos, [tok] + ts)
  {
    assert ([tok] + ts)[1..] == ts;
  }

  lemma {:induction false} StreamSpelled(s: string, pos: nat, wait: Wait, count: nat)
    requires pos <= |s| && Ready(wait) && NoNul(s) && Ends(Stream(s, pos, wait, count))
    ensures SpellsFrom(s, pos, Stream(s, pos, wait, count))
    decreases |s| - pos
  {
    var r := GetTok(s, pos, wait, count);
    var n := GetTokSpelled(s, pos, wait, count);
    if !r.tok.End? {
      GetTokShape(s, pos, wait, count);
      StreamSpelled(s, r.pos, r.wait, r.count);
      SpelledCons(s, pos, n, r.pos, r.tok, Stream(s, r.pos, r.wait, r.count));
    }
  }

  // ----- what is spelled the scanner delivers -----

  lemma {:induction false} SkipBlanks(s: string, pos: nat, n: nat, wait: Wait, count: nat)
    requires Blank(s, pos, n) && Ready(wait)
    ensures GetTok(s, pos, wait, count) == GetTok(s, n, wait, count)
    decreases n - pos
  {
    if pos < n { SkipBlanks(s, pos + 1, n, wait, count); }
  }

  /** What follows an operand does not begin with a digit, and is not the end of the text as long as a
      parenthesis is open. */
  lemma AfterOperand(s: string, pos: nat, ts: seq<Token>, count: nat)
    requires pos <= |s| && SpellsFrom(s, pos, ts) && Lexed(ts, false, count)
    ensures pos < |s| ==> !IsDigit(s[pos])
    ensures count > 0 ==> pos < |s|
  {
    if !ts[0].End? {
      var n: nat, m: nat :| Stands(s, pos, n, m, ts[0]) && SpellsFrom(s, m, ts[1..]);
      assert s[n] == s[n..m][0];
    }
  }

  lemma {:induction false} DigitsTo(s: string, i: nat, n: nat)
    requires i <= n <= |s| && AllDigits(s[i..n]) && !IsDigit(At(s, n))
    ensures DigitEnd(s, i) == n
    decreases n - i
  {
    if i < n {
      assert s[i] == s[i..n][0];
      assert s[i + 1..n] == s[i..n][1..];
      DigitsTo(s, i + 1, n);
    }
  }

  /** A number that no digit follows is delivered as its value. */
  lemma NumberDelivered(s: string, n: nat, m: nat, count: nat, v: int)
    requires n <= m <= |s| && Spelling(s[n..m], Val(v)) && NoNul(s)
    requires (m < |s| ==> !IsDigit(s[m])) && (count > 0 ==> m < |s|)
    ensures NumberToken(s, n, count) == LexStep(Val(v), m, WaitOperator, count)
  {
    assert s[n..m][1..] == s[n + 1..m];
    DigitsTo(s, n + 1, m);
  }

  /** One spelled token is delivered. */
  lemma SpelledGetTok(s: string, pos: nat, n: nat, m: nat, wait: Wait, count: nat, ts: seq<Token>)
    requires ts != [] && Stands(s, pos, n, m, ts[0]) && Ready(wait) && NoNul(s)
    requires Lexed(ts, wait == WaitOperand, count) && SpellsFrom(s, m, ts[1..])
    ensures var r := GetTok(s, pos, wait, count); r.tok == ts[0] && r.pos == m
  {
    SkipBlanks(s, pos, n, wait, count);
    assert s[n] == s[n..m][0];
    if ts[0].Val? {
      AfterOperand(s, m, ts[1..], count);
      NumberDelivered(s, n, m, count, ts[0].v);
    }
  }

  lemma {:induction false} SpelledStream(s: string, pos: nat, wait: Wait, count: nat, ts: seq<Token>)
    requires pos <= |s| && Ready(wait) && NoNul(s) && SpellsFrom(s, pos, ts) && Lexed(ts, wait == WaitOperand, count)
    ensures Stream(s, pos, wait, count) == ts
    decreases |ts|
  {
    if ts[0].End? {
      SkipBlanks(s, pos, |s|, wait, count);
      assert ts == [End];
    } else {
      var n: nat, m: nat :| Stands(s, pos, n, m, ts[0]) && SpellsFrom(s, m, ts[1..]);
      SpelledGetTok(s, pos, n, m, wait, count, ts);
      GetTokShape(s, pos, wait, count);
      var r := GetTok(s, pos, wait, count);
      SpelledStream(s, m, r.wait, r.count, ts[1..]);
      assert ts == [ts[0]] + ts[1..];
    }
  }

  lemma {:induction false} SpelledEnds(s: string, pos: nat, ts: seq<Token>)
    requires SpellsFrom(s, pos, ts)
    ensures Ends(ts)
    decreases |ts|
  {
    if !ts[0].End? {
      var n: nat, m: nat :| Stands(s, pos, n, m, ts[0]) && SpellsFrom(s, m, ts[1..]);
      SpelledEnds(s, m, ts[1..]);
    }
  }

  /** For every text, the scanner delivers a token sequence without an error if and only if the text
      spells it and it alternates and balances. */
  lemma TokensIff(s: string, ts: seq<Token>)
    requires NoNul(s)
    ensures Tokens(s) == ts && Ends(ts) <==> Spells(s, ts) && Lexed(ts, true, 0)
  {
    if Tokens(s) == ts && Ends(ts) {
      StreamSpelled(s, 0, WaitOperand, 0);
      StreamLexed(s, 0, WaitOperand, 0);
    }
    if Spells(s, ts) && Lexed(ts, true, 0) {
      SpelledStream(s, 0, WaitOperand, 0, ts);
      SpelledEnds(s, 0, ts);
    }
  }

  // ----- texts of derivations -----

  lemma {:induction false} YieldLexedD(d: Disj, rest: seq<Token>, count: nat)
    requires Lexed(rest, false, count)
    ensures Lexed(YieldD(d) + rest, true, count)
    decreases d
  {
    match d
    case DOne(c) => YieldLexedC(c, rest, count);
    case DMore(d', c) =>
      YieldLexedC(c, rest, count);
      LexedOpr('|', YieldC(c) + rest, count);
      YieldLexedD(d', [Opr('|')] + (YieldC(c) + rest), count);
      Cat4(YieldD(d'), [Opr('|')], YieldC(c), rest);
  }

  lemma {:induction false} YieldLexedC(c: Conj, rest: seq<Token>, count: nat)
    requires Lexed(rest, false, count)
    ensures Lexed(YieldC(c) + rest, true, count)
    decreases c
  {
    match c
    case COne(u) => YieldLexedU(u, rest, count);
    case CMore(c', u) =>
      YieldLexedU(u, rest, count);
      LexedOpr('&', YieldU(u) + rest, count);
      YieldLexedC(c', [Opr('&')] + (YieldU(u) + rest), count);
      Cat4(YieldC(c'), [Opr('&')], YieldU(u), rest);
  }

  lemma {:induction false} YieldLexedU(u: Unary, rest: seq<Token>, count: nat)
    requires Lexed(rest, false, count)
    ensures Lexed(YieldU(u) + rest, true, count)
    decreases u
  {
    match u
    case UVal(v) =>
      assert ([Val(v)] + rest)[1..] == rest;
    case UNot(u') =>
      YieldLexedU(u', rest, count);
      Cat3([Opr('!')], YieldU(u'), rest);
      assert ([Opr('!')] + (YieldU(u') + rest))[1..] == YieldU(u') + rest;
    case UParen(d) =>
      assert ([Close] + rest)[1..] == rest;
      YieldLexedD(d, [Close] + rest, count + 1);
      Cat4([Open], YieldD(d), [Close], rest);
      assert ([Open] + (YieldD(d) + ([Close] + rest)))[1..] == YieldD(d) + ([Close] + rest);
  }

  lemma LexedOpr(op: char, rest: seq<Token>, count: nat)
    requires Lexed(rest, true, count) && (op == '&' || op == '|')
    ensures Lexed([Opr(op)] + rest, false, count)
  {
    assert ([Opr(op)] + rest)[1..] == rest;
  }

  /** The text spells what the derivation yields. */
  ghost predicate TextOf(s: string, d: Disj) { Spells(s, YieldD(d) + [End]) && ShallowD(d) }

  /** A text is read by a derivation if and only if it is a text of the derivation. */
  lemma TextDerives(s: string, d: Disj)
    requires NoNul(s)
    ensures Derives(Tokens(s), d) <==> TextOf(s, d)
  {
    YieldLexedD(d, [End], 0);
    TokensIff(s, YieldD(d) + [End]);
  }
}
