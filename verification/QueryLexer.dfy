/** gettoken as a function: the token stream that a query string gives rise to. */
module QueryLexer {
  import opened Machine
  import opened QueryGrammar
  import opened QueryParser

  datatype Wait = WaitOperand | WaitEndOperand | WaitOperator

  predicate Ready(w: Wait) { w == WaitOperand || w == WaitOperator }

  /** The byte at `i` of a zero-terminated string. */
  function At(s: string, i: nat): char { if i < |s| then s[i] else '\0' }

  predicate IsDigit(c: char) { '0' <= c <= '9' }

  predicate AllDigits(t: string) { forall i :: 0 <= i < |t| ==> IsDigit(t[i]) }

  function DigitEnd(s: string, i: nat): (n: nat)
    ensures i <= n && (i <= |s| ==> n <= |s|)
    ensures forall k :: i <= k < n ==> k < |s| && IsDigit(s[k])
    ensures !IsDigit(At(s, n))
    decreases |s| - i
  {
    if IsDigit(At(s, i)) then DigitEnd(s, i + 1) else i
  }

  // ----- numbers -----

  /** Digits up to the first one the base does not have. */
  function ParseBase(d: string, base: int, acc: int): int {
    if d == [] || !IsDigit(d[0]) || d[0] as int - '0' as int >= base then acc
    else ParseBase(d[1..], base, acc * base + (d[0] as int - '0' as int))
  }

  /** strtol with base 0 on an optional sign and digits: a leading zero means octal. */
  function Strtol(t: string): int {
    var d := if t != [] && t[0] == '-' then t[1..] else t;
    var m := ParseBase(d, if d != [] && d[0] == '0' then 8 else 10, 0);
    if t != [] && t[0] == '-' then -m else m
  }

  const NUMBUF := 16

  // ----- one token -----

  datatype LexStep = LexStep(tok: Token, pos: nat, wait: Wait, count: int)

  function Failed(pos: nat, wait: Wait, count: int): LexStep { LexStep(Err, pos, wait, count) }

  function NumberToken(s: string, start: nat, count: int): (r: LexStep)
    requires start < |s|
    ensures r.tok.Val? || r.tok.Err?
    ensures r.tok.Val? ==> start < r.pos <= |s| && r.wait == WaitOperator && r.count == count
  {
    var n := DigitEnd(s, start + 1);
    if n - start >= NUMBUF then Failed(n, WaitEndOperand, count)
    else
      var v := Strtol(s[start..n]);
      if !IsInt32(v) || (count != 0 && At(s, n) == '\0') then Failed(n, WaitEndOperand, count)
      else LexStep(Val(v), n, WaitOperator, count)
  }

  function GetTok(s: string, pos: nat, wait: Wait, count: int): (r: LexStep)
    requires pos <= |s| && Ready(wait)
    ensures r.tok.End? ==>
        At(s, r.pos) == '\0' && r.wait == wait == WaitOperator && r.count == count == 0 && pos <= r.pos <= |s|
    ensures !r.tok.Err? && !r.tok.End? ==> pos < r.pos <= |s| && Ready(r.wait)
    decreases |s| - pos
  {
    var c := At(s, pos);
    if wait == WaitOperand then
      if pos < |s| && (IsDigit(c) || c == '-') then NumberToken(s, pos, count)
      else if c == '!' then LexStep(Opr('!'), pos + 1, WaitOperand, count)
      else if c == '(' then LexStep(Open, pos + 1, WaitOperand, count + 1)
      else if c == ' ' then GetTok(s, pos + 1, wait, count)
      else Failed(pos, wait, count)
    else
      if c == '&' || c == '|' then LexStep(Opr(c), pos + 1, WaitOperand, count)
      else if c == ')' then if count - 1 < 0 then Failed(pos, wait, count)
          else LexStep(Close, pos + 1, WaitOperator, count - 1)
      else if c == '\0' then if count != 0 then Failed(pos, wait, count) else LexStep(End, pos, wait, count)
      else if c == ' ' then GetTok(s, pos + 1, wait, count)
      else Failed(pos, wait, count)
  }

  // ----- the whole stream -----

  /** All tokens from a state on, up to and including the end or the first error. */
  function Stream(s: string, pos: nat, wait: Wait, count: int): (ts: seq<Token>)
    requires pos <= |s| && Ready(wait)
    ensures |ts| > 0 && ts[0] == GetTok(s, pos, wait, count).tok
    decreases |s| - pos
  {
    var r := GetTok(s, pos, wait, count);
    if r.tok.End? || r.tok.Err? then [r.tok]
    else [r.tok] + Stream(s, r.pos, r.wait, r.count)
  }

  function Tokens(s: string): seq<Token> { Stream(s, 0, WaitOperand, 0) }

  lemma {:induction false} GetTokShape(s: string, pos: nat, wait: Wait, count: nat)
    requires pos <= |s| && Ready(wait)
    ensures var r := GetTok(s, pos, wait, count);
            match r.tok
            case Err => true
            case End => wait == WaitOperator && count == 0
            case Val(_) => wait == WaitOperand && r.wait == WaitOperator && r.count == count
            case Open => wait == WaitOperand && r.wait == WaitOperand && r.count == count + 1
            case Close => wait == WaitOperator && count > 0 && r.wait == WaitOperator && r.count == count - 1
            case Opr(c) => r.wait == WaitOperand && r.count == count &&
                           if wait == WaitOperand then c == '!' else c == '&' || c == '|'
    decreases |s| - pos
  {
    if At(s, pos) == ' ' { GetTokShape(s, pos + 1, wait, count); }
  }

  lemma {:induction false} StreamLexed(s: string, pos: nat, wait: Wait, count: nat)
    requires pos <= |s| && Ready(wait)
    ensures Lexed(Stream(s, pos, wait, count), wait == WaitOperand, count)
    decreases |s| - pos
  {
    var r := GetTok(s, pos, wait, count);
    GetTokShape(s, pos, wait, count);
    if !r.tok.End? && !r.tok.Err? {
      StreamLexed(s, r.pos, r.wait, r.count);
    }
  }
}
