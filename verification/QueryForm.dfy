/** The printed form of a query and what reading it gives. */
module QueryForm {
  import opened Machine
  import opened QueryGrammar
  import opened QueryParser
  import opened QueryLexer
  import opened QueryItems

  // ----- decimal numbers -----

  function DecNat(n: nat): (s: string)
    ensures |s| > 0 && AllDigits(s) && (n > 0 ==> s[0] != '0')
  {
    var d := [('0' as int + n % 10) as char];
    if n < 10 then d else DecNat(n / 10) + d
  }

  /** sprintf "%d" */
  function Dec(v: int): string { if v < 0 then "-" + DecNat(-v) else DecNat(v) }

  function Pow10(k: nat): nat { if k == 0 then 1 else 10 * Pow10(k - 1) }

  lemma {:induction false} DecNatLength(n: nat, k: nat)
    requires k > 0 && n < Pow10(k)
    ensures |DecNat(n)| <= k
    decreases k
  {
    if n >= 10 { DecNatLength(n / 10, k - 1); }
  }

  lemma {:induction false} ParseBaseAppend(a: string, b: string, acc: int)
    requires AllDigits(a)
    ensures ParseBase(a + b, 10, acc) == ParseBase(b, 10, ParseBase(a, 10, acc))
    decreases |a|
  {
    if a == [] {
      assert a + b == b;
    } else {
      assert (a + b)[1..] == a[1..] + b;
      ParseBaseAppend(a[1..], b, acc * 10 + (a[0] as int - '0' as int));
    }
  }

  lemma {:induction false} ParseDecNat(n: nat)
    ensures ParseBase(DecNat(n), 10, 0) == n
    decreases n
  {
    var d := [('0' as int + n % 10) as char];
    assert d[1..] == [];
    if n >= 10 {
      ParseDecNat(n / 10);
      ParseBaseAppend(DecNat(n / 10), d, 0);
    }
  }

  lemma StrtolDec(v: int)
    ensures Strtol(Dec(v)) == v
  {
    if v < 0 {
      ParseDecNat(-v);
      assert Dec(v)[1..] == DecNat(-v);
    } else if v == 0 {
      assert Dec(0) == "0" && "0"[1..] == [];
      assert ParseBase("0", 8, 0) == ParseBase([], 8, 0);
    } else {
      ParseDecNat(v);
    }
  }

  lemma DecLength(v: int)
    requires IsInt32(v)
    ensures |Dec(v)| <= 11
  {
    assert Pow10(5) == 100000;
    assert Pow10(10) == 10_000_000_000;
    DecNatLength(if v < 0 then -v else v, 10);
  }

  // ----- the printed form -----

  function Paren(t: string): string { "( " + t + " )" }

  /** Text of `e`; `first` is set where an enclosing pair of parentheses would be redundant. */
  function Print(e: Expr, first: bool): string
    decreases e, 1
  {
    match e
    case Leaf(v) => Dec(v)
    case Not(a) => "!" + if a.Leaf? then Print(a, false) else Paren(Print(a, true))
    case And(_, _) => PrintBinary(e)
    case Or(_, _) => if first then PrintBinary(e) else Paren(PrintBinary(e))
  }

  function PrintBinary(e: Expr): string
    requires Binary(e)
    decreases e, 0
  {
    Print(e.left, false) + ([' ', OpOf(e), ' '] + Print(e.right, false))
  }

  /** Operand values are 32-bit integers. */
  predicate Int32Leaves(e: Expr) {
    match e
    case Leaf(v) => IsInt32(v)
    case Not(a) => Int32Leaves(a)
    case And(l, r) => Int32Leaves(l) && Int32Leaves(r)
    case Or(l, r) => Int32Leaves(l) && Int32Leaves(r)
  }

  // ----- the derivation a printed query has -----

  function AppendC(a: Conj, b: Conj): Conj {
    match b
    case COne(u) => CMore(a, u)
    case CMore(c, u) => CMore(AppendC(a, c), u)
  }

  function UnaryOf(e: Expr): Unary
    decreases e, 0
  {
    if e.Leaf? then UVal(e.v)
    else if e.Not? then UNot(if e.arg.Leaf? then UVal(e.arg.v) else UParen(DisjOf(e.arg)))
    else UParen(DMore(DOne(ConjOf(e.left)), ConjOf(e.right)))
  }

  function ConjOf(e: Expr): Conj
    decreases e, 1
  {
    if e.And? then AppendC(ConjOf(e.left), ConjOf(e.right)) else COne(UnaryOf(e))
  }

  function DisjOf(e: Expr): Disj
    decreases e, 2
  {
    if e.Or? then DMore(DOne(ConjOf(e.left)), ConjOf(e.right)) else DOne(ConjOf(e))
  }

  lemma {:induction false} AppendYield(a: Conj, b: Conj)
    ensures YieldC(AppendC(a, b)) == YieldC(a) + ([Opr('&')] + YieldC(b))
    decreases b
  {
    if b.COne? {
      Cat3(YieldC(a), [Opr('&')], YieldU(b.u));
    } else {
      AppendYield(a, b.c);
      var x := [Opr('&')] + YieldC(b.c);
      Cat4(YieldC(a), x, [Opr('&')], YieldU(b.u));
      Cat4([Opr('&')], YieldC(b.c), [Opr('&')], YieldU(b.u));
    }
  }

  // ----- reading the printed form -----

  lemma StreamStep(s: string, pos: nat, wait: Wait, count: nat, r: LexStep)
    requires pos <= |s| && Ready(wait) && r == GetTok(s, pos, wait, count)
    requires !r.tok.End? && !r.tok.Err?
    ensures Stream(s, pos, wait, count) == [r.tok] + Stream(s, r.pos, r.wait, r.count)
  {
  }

  lemma LexOperator(s: string, pos: nat, op: char, count: nat)
    requires pos + 3 <= |s| && s[pos..pos + 3] == [' ', op, ' '] && (op == '&' || op == '|')
    ensures Stream(s, pos, WaitOperator, count) == [Opr(op)] + Stream(s, pos + 3, WaitOperand, count)
  {
    assert s[pos] == s[pos..pos + 3][0] && s[pos + 1] == s[pos..pos + 3][1] && s[pos + 2] == s[pos..pos + 3][2];
    assert GetTok(s, pos, WaitOperator, count) == GetTok(s, pos + 1, WaitOperator, count)
        == LexStep(Opr(op), pos + 2, WaitOperand, count);
    SkipBlank(s, pos + 2, WaitOperand, count);
  }

  lemma SkipBlank(s: string, pos: nat, wait: Wait, count: nat)
    requires pos < |s| && s[pos] == ' ' && Ready(wait)
    ensures Stream(s, pos, wait, count) == Stream(s, pos + 1, wait, count)
  {
    assert GetTok(s, pos, wait, count) == GetTok(s, pos + 1, wait, count);
  }

  lemma LexOpen(s: string, pos: nat, count: nat)
    requires pos + 2 <= |s| && s[pos..pos + 2] == "( "
    ensures Stream(s, pos, WaitOperand, count) == [Open] + Stream(s, pos + 2, WaitOperand, count + 1)
  {
    assert s[pos] == s[pos..pos + 2][0] && s[pos + 1] == s[pos..pos + 2][1];
    SkipBlank(s, pos + 1, WaitOperand, count + 1);
  }

  lemma LexClose(s: string, pos: nat, count: nat)
    requires pos + 2 <= |s| && s[pos..pos + 2] == " )"
    ensures Stream(s, pos, WaitOperator, count + 1) == [Close] + Stream(s, pos + 2, WaitOperator, count)
  {
    assert s[pos] == s[pos..pos + 2][0] && s[pos + 1] == s[pos..pos + 2][1];
    SkipBlank(s, pos, WaitOperator, count + 1);
  }

  lemma {:induction false} DigitRun(s: string, i: nat, n: nat)
    requires i <= n <= |s| && AllDigits(s[i..n]) && !IsDigit(At(s, n))
    ensures DigitEnd(s, i) == n
    decreases n - i
  {
    if i < n {
      assert s[i] == s[i..n][0] && s[i + 1..n] == s[i..n][1..];
      DigitRun(s, i + 1, n);
    }
  }

  /** What may stand behind an operand: no digit, and the end only outside all parentheses. */
  predicate Boundary(s: string, n: nat, count: nat) {
    !IsDigit(At(s, n)) && (count != 0 ==> At(s, n) != '\0')
  }

  predicate Stands(s: string, pos: nat, text: string) {
    pos + |text| <= |s| && s[pos..pos + |text|] == text
  }

  lemma StandsCat(s: string, pos: nat, a: string, b: string)
    requires Stands(s, pos, a + b)
    ensures Stands(s, pos, a) && Stands(s, pos + |a|, b)
  {
    var t := a + b;
    assert t[..|a|] == a && t[|a|..] == b;
    SubSlice(s, pos, |t|, 0, |a|);
    SubSlice(s, pos, |t|, |a|, |t|);
  }

  lemma StandsFirst(s: string, pos: nat, text: string)
    requires Stands(s, pos, text) && text != []
    ensures s[pos] == text[0]
  {
    assert s[pos] == s[pos..pos + |text|][0];
  }

  lemma SubSlice(s: string, pos: nat, len: nat, i: nat, j: nat)
    requires pos + len <= |s| && i <= j <= len
    ensures s[pos + i..pos + j] == s[pos..pos + len][i..j]
  {
    var a, b := s[pos + i..pos + j], s[pos..pos + len][i..j];
    assert |a| == |b| && forall k :: 0 <= k < |a| ==> a[k] == s[pos + i + k] == b[k];
  }

  lemma Chain2(s0: seq<Token>, x: seq<Token>, s1: seq<Token>, y: seq<Token>, r: seq<Token>)
    requires s0 == x + s1 && s1 == y + r
    ensures s0 == (x + y) + r
  {
    Cat3(x, y, r);
  }

  /** The tokenizer reads what stands from `pos` to `n` as `ts`, if a number cannot go on there. */
  ghost predicate ReadsTo(s: string, pos: nat, n: nat, ts: seq<Token>, count: nat)
    requires pos <= |s| && n <= |s|
  {
    Boundary(s, n, count) ==>
      Stream(s, pos, WaitOperand, count) == ts + Stream(s, n, WaitOperator, count)
  }

  /** If `text` stands in `s` at `pos`, then the tokenizer reads it there as `ts`. */
  ghost predicate Reads(s: string, pos: nat, text: string, ts: seq<Token>, count: nat) {
    Stands(s, pos, text) ==> ReadsTo(s, pos, pos + |text|, ts, count)
  }

  lemma ReadsNumber(s: string, pos: nat, v: int, count: nat)
    requires IsInt32(v)
    ensures Reads(s, pos, Dec(v), [Val(v)], count)
  {
    var t, n := Dec(v), pos + |Dec(v)|;
    if Stands(s, pos, t) && Boundary(s, n, count) {
      StrtolDec(v);
      DecLength(v);
      StandsFirst(s, pos, t);
      assert s[pos + 1..n] == t[1..];
      DigitRun(s, pos + 1, n);
      assert GetTok(s, pos, WaitOperand, count) == LexStep(Val(v), n, WaitOperator, count);
    }
  }

  lemma ReadsNot(s: string, pos: nat, text: string, ts: seq<Token>, count: nat)
    requires Reads(s, pos + 1, text, ts, count)
    ensures Reads(s, pos, "!" + text, [Opr('!')] + ts, count)
  {
    var t := "!" + text;
    if Stands(s, pos, t) {
      StandsCat(s, pos, "!", text);
      LexNot(s, pos, pos + |t|, ts, count);
    }
  }

  lemma LexNot(s: string, pos: nat, n: nat, ts: seq<Token>, count: nat)
    requires pos < n <= |s| && Stands(s, pos, "!") && ReadsTo(s, pos + 1, n, ts, count)
    ensures ReadsTo(s, pos, n, [Opr('!')] + ts, count)
  {
    if Boundary(s, n, count) {
      StandsFirst(s, pos, "!");
      StreamStep(s, pos, WaitOperand, count, LexStep(Opr('!'), pos + 1, WaitOperand, count));
      Chain2(Stream(s, pos, WaitOperand, count), [Opr('!')], Stream(s, pos + 1, WaitOperand, count),
             ts, Stream(s, n, WaitOperator, count));
    }
  }

  lemma ReadsParen(s: string, pos: nat, text: string, ts: seq<Token>, count: nat)
    requires Reads(s, pos + 2, text, ts, count + 1)
    ensures Reads(s, pos, Paren(text), [Open] + ts + [Close], count)
  {
    if Stands(s, pos, Paren(text)) {
      StandsParen(s, pos, text);
      LexParen(s, pos, pos + 2 + |text|, ts, count);
    }
  }

  lemma StandsParen(s: string, pos: nat, text: string)
    requires Stands(s, pos, Paren(text))
    ensures |Paren(text)| == 2 + |text| + 2
    ensures Stands(s, pos, "( ") && Stands(s, pos + 2, text) && Stands(s, pos + 2 + |text|, " )")
  {
    StandsCat(s, pos, "( " + text, " )");
    StandsCat(s, pos, "( ", text);
  }

  lemma LexParen(s: string, pos: nat, n: nat, ts: seq<Token>, count: nat)
    requires pos + 2 <= n <= n + 2 <= |s| && Stands(s, pos, "( ") && Stands(s, n, " )")
    requires ReadsTo(s, pos + 2, n, ts, count + 1)
    ensures ReadsTo(s, pos, n + 2, [Open] + ts + [Close], count)
  {
    StandsFirst(s, n, " )");
    LexOpen(s, pos, count);
    LexClose(s, n, count);
    Cat4([Open], ts, [Close], Stream(s, n + 2, WaitOperator, count));
  }

  lemma ReadsBinary(s: string, pos: nat, a: string, ta: seq<Token>, op: char, c: string, tc: seq<Token>, count: nat,
                    text: string, ts: seq<Token>)
    requires op == '&' || op == '|'
    requires Reads(s, pos, a, ta, count) && Reads(s, pos + |a| + 3, c, tc, count)
    requires text == a + ([' ', op, ' '] + c) && ts == ta + ([Opr(op)] + tc)
    ensures Reads(s, pos, text, ts, count)
  {
    if Stands(s, pos, text) {
      StandsBinary(s, pos, a, op, c, text);
      LexBinary(s, pos, pos + |a|, pos + |text|, ta, op, tc, count, ts);
    }
  }

  lemma StandsBinary(s: string, pos: nat, a: string, op: char, c: string, text: string)
    requires Stands(s, pos, text) && text == a + ([' ', op, ' '] + c)
    ensures |text| == |a| + 3 + |c|
    ensures Stands(s, pos, a) && Infixed(s, pos + |a|, op) && Stands(s, pos + |a| + 3, c)
  {
    StandsCat(s, pos, a, [' ', op, ' '] + c);
    StandsCat(s, pos + |a|, [' ', op, ' '], c);
    assert s[pos + |a|..pos + |a| + 3] == [' ', op, ' '];
  }

  /** An operator between blanks. */
  predicate Infixed(s: string, pos: nat, op: char) {
    pos + 3 <= |s| && s[pos..pos + 3] == [' ', op, ' ']
  }

  lemma LexBinary(s: string, p0: nat, p1: nat, p3: nat, ta: seq<Token>, op: char, tc: seq<Token>, count: nat,
                  ts: seq<Token>)
    requires p0 <= p1 && p1 + 3 <= p3 <= |s| && Infixed(s, p1, op) && (op == '&' || op == '|')
    requires ReadsTo(s, p0, p1, ta, count) && ReadsTo(s, p1 + 3, p3, tc, count)
    requires ts == ta + ([Opr(op)] + tc)
    ensures ReadsTo(s, p0, p3, ts, count)
  {
    if Boundary(s, p3, count) {
      assert s[p1] == s[p1..p1 + 3][0];
      LexOperator(s, p1, op, count);
      var s0, s1, s2, s3 := Stream(s, p0, WaitOperand, count), Stream(s, p1, WaitOperator, count),
                            Stream(s, p1 + 3, WaitOperand, count), Stream(s, p3, WaitOperator, count);
      Chain2(s1, [Opr(op)], s2, tc, s3);
      Chain2(s0, ta, s1, [Opr(op)] + tc, s3);
    }
  }

  /** Printed text is read as the yield of its derivation. */
  lemma {:induction false} ReadsPrinted(s: string, pos: nat, e: Expr, count: nat)
    requires Int32Leaves(e)
    ensures Reads(s, pos, Print(e, false), YieldC(ConjOf(e)), count)
    ensures Reads(s, pos, Print(e, true), YieldD(DisjOf(e)), count)
    decreases e, 1
  {
    match e {
      case Leaf(v) =>
        ReadsNumber(s, pos, v, count);
      case Not(a) =>
        ReadsPrintedNot(s, pos, a, count);
        assert YieldD(DisjOf(e)) == YieldC(ConjOf(e)) == YieldU(UnaryOf(e));
      case And(_, _) =>
        ReadsOperands(s, pos, e, count);
        AppendYield(ConjOf(e.left), ConjOf(e.right));
        assert YieldD(DisjOf(e)) == YieldC(ConjOf(e));
      case Or(_, _) =>
        ReadsOperands(s, pos, e, count);
        ReadsPrintedOr(s, pos, e, count);
        assert YieldC(ConjOf(e)) == YieldU(UnaryOf(e));
    }
  }

  lemma {:induction false} ReadsPrintedNot(s: string, pos: nat, a: Expr, count: nat)
    requires Int32Leaves(a)
    ensures Reads(s, pos, Print(Not(a), false), YieldU(UnaryOf(Not(a))), count)
    decreases a, 2
  {
    if a.Leaf? {
      ReadsNumber(s, pos + 1, a.v, count);
      ReadsNot(s, pos, Dec(a.v), [Val(a.v)], count);
      assert YieldU(UnaryOf(Not(a))) == [Opr('!')] + YieldU(UVal(a.v));
    } else {
      ReadsPrinted(s, pos + 3, a, count + 1);
      assert YieldU(UnaryOf(Not(a))) == [Opr('!')] + YieldU(UParen(DisjOf(a)));
      ReadsNotParen(s, pos, Print(a, true), YieldD(DisjOf(a)), count, Print(Not(a), false), YieldU(UnaryOf(Not(a))));
    }
  }

  lemma ReadsNotParen(s: string, pos: nat, t: string, y: seq<Token>, count: nat, text: string, ts: seq<Token>)
    requires Reads(s, pos + 3, t, y, count + 1)
    requires text == "!" + Paren(t) && ts == [Opr('!')] + ([Open] + y + [Close])
    ensures Reads(s, pos, text, ts, count)
  {
    ReadsParen(s, pos + 1, t, y, count);
    ReadsNot(s, pos, Paren(t), [Open] + y + [Close], count);
  }

  lemma {:induction false} ReadsPrintedOr(s: string, pos: nat, e: Expr, count: nat)
    requires Int32Leaves(e) && e.Or?
    ensures Reads(s, pos, Paren(PrintBinary(e)), YieldU(UnaryOf(e)), count)
    ensures YieldD(DisjOf(e)) == YieldC(ConjOf(e.left)) + ([Opr('|')] + YieldC(ConjOf(e.right)))
    decreases e, 0
  {
    var d := DMore(DOne(ConjOf(e.left)), ConjOf(e.right));
    Cat3(YieldC(ConjOf(e.left)), [Opr('|')], YieldC(ConjOf(e.right)));
    assert YieldD(d) == YieldC(ConjOf(e.left)) + ([Opr('|')] + YieldC(ConjOf(e.right)));
    ReadsOperands(s, pos + 2, e, count + 1);
    ReadsParen(s, pos, PrintBinary(e), YieldD(d), count);
    assert YieldU(UnaryOf(e)) == [Open] + YieldD(d) + [Close];
  }

  lemma {:induction false} ReadsOperands(s: string, pos: nat, e: Expr, count: nat)
    requires Binary(e) && Int32Leaves(e)
    ensures Reads(s, pos, PrintBinary(e), YieldC(ConjOf(e.left)) + ([Opr(OpOf(e))] + YieldC(ConjOf(e.right))), count)
    decreases e, -1
  {
    ReadsPrinted(s, pos, e.left, count);
    ReadsPrinted(s, pos + |Print(e.left, false)| + 3, e.right, count);
    ReadsBinary(s, pos, Print(e.left, false), YieldC(ConjOf(e.left)), OpOf(e), Print(e.right, false),
                YieldC(ConjOf(e.right)), count, PrintBinary(e),
                YieldC(ConjOf(e.left)) + ([Opr(OpOf(e))] + YieldC(ConjOf(e.right))));
  }

  // ----- regrouping -----

  function Graft(a: Expr, b: Expr): Expr {
    if b.And? then And(Graft(a, b.left), b.right) else And(a, b)
  }

  /** `e` with every chain of '&' grouped to the left. */
  function Regroup(e: Expr): Expr {
    match e
    case Leaf(_) => e
    case Not(a) => Not(Regroup(a))
    case And(l, r) => Graft(Regroup(l), Regroup(r))
    case Or(l, r) => Or(Regroup(l), Regroup(r))
  }

  /** The first operand of a chain is not itself a parenthesized chain. */
  predicate PlainStart(c: Conj) { match c case COne(u) => !TreeU(u).And? case CMore(c', _) => PlainStart(c') }

  lemma {:induction false} AppendTree(a: Conj, b: Conj)
    requires PlainStart(b)
    ensures TreeC(AppendC(a, b)) == Graft(TreeC(a), TreeC(b))
    ensures PlainStart(AppendC(a, b)) == PlainStart(a)
    decreases b
  {
    if b.CMore? { AppendTree(a, b.c); }
  }

  lemma {:induction false} TreeOfPrinted(e: Expr)
    ensures TreeC(ConjOf(e)) == TreeD(DisjOf(e)) == Regroup(e) && PlainStart(ConjOf(e))
    decreases e
  {
    if e.Not? {
      TreeOfPrinted(e.arg);
      assert TreeU(UnaryOf(e)) == Not(Regroup(e.arg));
    } else if Binary(e) {
      TreeOfPrinted(e.left);
      TreeOfPrinted(e.right);
      AppendTree(ConjOf(e.left), ConjOf(e.right));
    }
  }

  /** No operand starts with more negations than the stack holds below two other operators. */
  predicate TerseU(u: Unary) { ShallowU(u, 0) && ShallowU(u, 1) && ShallowU(u, 2) }
  predicate TerseC(c: Conj) { match c case COne(u) => TerseU(u) case CMore(c', u) => TerseC(c') && TerseU(u) }

  lemma {:induction b} TerseAppend(a: Conj, b: Conj)
    requires TerseC(a) && TerseC(b)
    ensures TerseC(AppendC(a, b))
  {
  }

  lemma {:induction c} TerseShallow(c: Conj)
    requires TerseC(c)
    ensures ShallowC(c, 0) && ShallowC(c, 1)
  {
  }

  lemma TerseOperand(u: Unary)
    requires u.UVal? || (u.UParen? && ShallowD(u.d))
    ensures TerseU(u) && TerseU(UNot(u))
  {
    assert ShallowU(u, 0) && ShallowU(u, 1) && ShallowU(u, 2) && ShallowU(u, 3);
  }

  /** Printed text never makes more than three operators wait on one level. */
  lemma {:induction false} PrintedShallow(e: Expr)
    ensures TerseC(ConjOf(e)) && ShallowD(DisjOf(e))
    decreases e
  {
    if e.Leaf? {
      TerseOperand(UVal(e.v));
    } else if e.Not? {
      PrintedShallow(e.arg);
      TerseOperand(if e.arg.Leaf? then UVal(e.arg.v) else UParen(DisjOf(e.arg)));
    } else {
      PrintedShallow(e.left);
      PrintedShallow(e.right);
      TerseShallow(ConjOf(e.left));
      TerseShallow(ConjOf(e.right));
      TerseAppend(ConjOf(e.left), ConjOf(e.right));
      var d := DOne(ConjOf(e.left));
      assert ShallowD(d) && ShallowD(DMore(d, ConjOf(e.right)));
      TerseOperand(UParen(DMore(d, ConjOf(e.right))));
    }
    assert e.And? || ConjOf(e) == COne(UnaryOf(e));
    TerseShallow(ConjOf(e));
  }

  // ----- the round trip -----

  lemma {:induction false} GraftFacts(a: Expr, b: Expr, env: int -> bool)
    ensures Eval(Graft(a, b), env) == (Eval(a, env) && Eval(b, env))
    ensures Size(Graft(a, b)) == Size(a) + Size(b) + 1
    decreases b
  {
    if b.And? { GraftFacts(a, b.left, env); }
  }

  /** Regrouping changes neither the truth value nor the number of items. */
  lemma {:induction false} RegroupPreserves(e: Expr, env: int -> bool)
    ensures Eval(Regroup(e), env) == Eval(e, env) && Size(Regroup(e)) == Size(e)
    decreases e
  {
    if e.Not? {
      RegroupPreserves(e.arg, env);
    } else if Binary(e) {
      RegroupPreserves(e.left, env);
      RegroupPreserves(e.right, env);
      GraftFacts(Regroup(e.left), Regroup(e.right), env);
    }
  }

  /** No '&' has another '&' as its right operand. */
  predicate LeftGrouped(e: Expr) {
    match e
    case Leaf(_) => true
    case Not(a) => LeftGrouped(a)
    case And(l, r) => LeftGrouped(l) && LeftGrouped(r) && !r.And?
    case Or(l, r) => LeftGrouped(l) && LeftGrouped(r)
  }

  lemma {:induction false} GraftGrouped(a: Expr, b: Expr)
    requires LeftGrouped(a) && LeftGrouped(b)
    ensures LeftGrouped(Graft(a, b))
    decreases b
  {
    if b.And? { GraftGrouped(a, b.left); }
  }

  /** Printing and reading gives the same query back exactly when it is grouped to the left. */
  lemma {:induction false} RegroupIdentityIff(e: Expr)
    ensures LeftGrouped(Regroup(e))
    ensures Regroup(e) == e <==> LeftGrouped(e)
    decreases e
  {
    if e.Not? {
      RegroupIdentityIff(e.arg);
    } else if Binary(e) {
      RegroupIdentityIff(e.left);
      RegroupIdentityIff(e.right);
      if e.And? { GraftGrouped(Regroup(e.left), Regroup(e.right)); }
    }
  }

  lemma PrintedDerives(e: Expr)
    requires Int32Leaves(e)
    ensures Derives(Tokens(Print(e, true)), DisjOf(e)) && TreeD(DisjOf(e)) == Regroup(e)
  {
    var s := Print(e, true);
    ReadsPrinted(s, 0, e, 0);
    assert Stands(s, 0, s) by { assert s[0..0 + |s|] == s; }
    assert Stream(s, |s|, WaitOperator, 0) == [End];
    PrintedShallow(e);
    TreeOfPrinted(e);
  }
}
