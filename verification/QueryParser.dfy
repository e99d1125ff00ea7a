/** The operator-stack machine of makepol, as a function on token sequences, and its
    equivalence with the grammar. */
module QueryParser {
  import opened Wrappers
  import opened QueryGrammar

  datatype PolResult = Done(out: seq<Node>, rest: seq<Token>) | SyntaxError | TooComplex

  /** Pops the '&' and '!' operators on top of the stack into the output. */
  function Reduce(stack: seq<char>, out: seq<Node>): (r: (seq<char>, seq<Node>))
    ensures |r.0| <= |stack|
  {
    if |stack| > 0 && (stack[|stack| - 1] == '&' || stack[|stack| - 1] == '!')
    then Reduce(stack[..|stack| - 1], out + [Op(stack[|stack| - 1])])
    else (stack, out)
  }

  /** Pops the whole stack into the output. */
  function Flush(stack: seq<char>, out: seq<Node>): seq<Node> {
    if |stack| == 0 then out else Flush(stack[..|stack| - 1], out + [Op(stack[|stack| - 1])])
  }

  /** One call of makepol from the middle of its loop. A nested call starts with an empty stack
      and shares the output; the end token is not consumed. */
  function Pol(ts: seq<Token>, stack: seq<char>, out: seq<Node>): (r: PolResult)
    ensures r.Done? ==> |r.rest| <= |ts|
    decreases |ts|
  {
    if ts == [] then SyntaxError else
    match ts[0]
    case End => Done(Flush(stack, out), ts)
    case Close => Done(Flush(stack, out), ts[1..])
    case Err => SyntaxError
    case Val(v) =>
      var (st, o) := Reduce(stack, out + [Value(v)]);
      Pol(ts[1..], st, o)
    case Opr(c) =>
      if |stack| > 0 && c == '|' then Pol(ts[1..], stack, out + [Op(c)])
      else if |stack| == STACKDEPTH then TooComplex
      else Pol(ts[1..], stack + [c], out)
    case Open =>
      match Pol(ts[1..], [], out)
      case Done(o1, rest) =>
        var (st, o) := Reduce(stack, o1);
        Pol(rest, st, o)
      case SyntaxError => SyntaxError
      case TooComplex => TooComplex
  }

  /** Token sequences the tokenizer can produce from the given state: operands and operators
      alternate, and with `count` parentheses open there is neither an early end nor a
      surplus close. */
  ghost predicate Lexed(ts: seq<Token>, operand: bool, count: nat) {
    && ts != []
    && match ts[0]
       case Err => |ts| == 1
       case End => !operand && count == 0 && |ts| == 1
       case Val(_) => operand && Lexed(ts[1..], false, count)
       case Open => operand && Lexed(ts[1..], true, count + 1)
       case Close => !operand && count > 0 && Lexed(ts[1..], false, count - 1)
       case Opr(c) =>
         if operand then c == '!' && Lexed(ts[1..], true, count)
         else (c == '&' || c == '|') && Lexed(ts[1..], true, count)
  }

  lemma Cat3<T>(a: seq<T>, b: seq<T>, c: seq<T>)
    ensures a + b + c == a + (b + c)
  {
  }

  lemma Cat4<T>(a: seq<T>, b: seq<T>, c: seq<T>, d: seq<T>)
    ensures a + b + c + d == a + (b + c + d) == a + (b + (c + d))
  {
  }

  lemma Nil<T>(a: seq<T>)
    ensures a + [] == a == [] + a
  {
  }

  // ----- what the stack and the output stand for -----

  /** `n` negations waiting on the stack. */
  function Bangs(n: nat): (s: seq<char>)
    ensures |s| == n
  {
    if n == 0 then [] else Bangs(n - 1) + ['!']
  }

  function OrMark(d: Option<Disj>): seq<char> { if d.Some? then ['|'] else [] }
  function AndMark(c: Option<Conj>): seq<char> { if c.Some? then ['&'] else [] }
  function OutD(d: Option<Disj>): seq<Node> { if d.Some? then Postfix(TreeD(d.value)) else [] }
  function OutC(c: Option<Conj>): seq<Node> { if c.Some? then Postfix(TreeC(c.value)) else [] }
  function ReadD(d: Option<Disj>): seq<Token> { if d.Some? then YieldD(d.value) + [Opr('|')] else [] }
  function ReadC(c: Option<Conj>): seq<Token> { if c.Some? then YieldC(c.value) + [Opr('&')] else [] }
  function ReadN(n: nat): seq<Token> { if n == 0 then [] else ReadN(n - 1) + [Opr('!')] }

  function Negated(u: Unary, n: nat): Unary
    decreases n
  {
    if n == 0 then u else Negated(UNot(u), n - 1)
  }
  function AddC(c: Option<Conj>, u: Unary): Conj { if c.Some? then CMore(c.value, u) else COne(u) }
  function AddD(d: Option<Disj>, c: Conj): Disj { if d.Some? then DMore(d.value, c) else DOne(c) }
  function Waiting(d: Option<Disj>): nat { if d.Some? then 1 else 0 }

  ghost predicate Fine(d: Option<Disj>, c: Option<Conj>) {
    (d.Some? ==> ShallowD(d.value)) && (c.Some? ==> ShallowC(c.value, Waiting(d)))
  }

  lemma {:induction false} NegatedYield(u: Unary, n: nat)
    ensures YieldU(Negated(u, n)) == ReadN(n) + YieldU(u)
    decreases n
  {
    if n > 0 {
      NegatedYield(UNot(u), n - 1);
      assert ReadN(n - 1) + ([Opr('!')] + YieldU(u)) == ReadN(n) + YieldU(u);
    }
  }

  lemma {:induction false} NegatedShallow(u: Unary, n: nat, w: nat)
    requires w + n <= STACKDEPTH && ShallowU(u, w + n)
    ensures ShallowU(Negated(u, n), w)
    decreases n
  {
    if n > 0 { NegatedShallow(UNot(u), n - 1, w); }
  }

  lemma ReduceStep(stack: seq<char>, op: char, out: seq<Node>)
    requires op == '&' || op == '!'
    ensures Reduce(stack + [op], out) == Reduce(stack, out + [Op(op)])
  {
    assert (stack + [op])[..|stack|] == stack;
  }

  /** After an operand, the waiting negations and the waiting '&' are applied to it. */
  lemma {:induction false} ReduceOperand(d: Option<Disj>, c: Option<Conj>, n: nat, u: Unary, out: seq<Node>)
    ensures Reduce(OrMark(d) + AndMark(c) + Bangs(n), out + OutC(c) + Postfix(TreeU(u)))
         == (OrMark(d), out + Postfix(TreeC(AddC(c, Negated(u, n)))))
    decreases n
  {
    if n > 0 {
      ReduceBang(OrMark(d) + AndMark(c), n, u, out + OutC(c));
      ReduceOperand(d, c, n - 1, UNot(u), out);
    } else {
      ReduceAnd(d, c, u, out);
      Nil(OrMark(d) + AndMark(c));
    }
  }

  /** One waiting negation. */
  lemma ReduceBang(marks: seq<char>, n: nat, u: Unary, out: seq<Node>)
    requires n > 0
    ensures Reduce(marks + Bangs(n), out + Postfix(TreeU(u)))
        == Reduce(marks + Bangs(n - 1), out + Postfix(TreeU(UNot(u))))
  {
    Cat3(marks, Bangs(n - 1), ['!']);
    ReduceStep(marks + Bangs(n - 1), '!', out + Postfix(TreeU(u)));
    Cat3(out, Postfix(TreeU(u)), [Op('!')]);
  }

  lemma ReduceAnd(d: Option<Disj>, c: Option<Conj>, u: Unary, out: seq<Node>)
    ensures Reduce(OrMark(d) + AndMark(c), out + OutC(c) + Postfix(TreeU(u)))
         == (OrMark(d), out + Postfix(TreeC(AddC(c, u))))
  {
    var o := out + OutC(c) + Postfix(TreeU(u));
    if c.Some? {
      ReduceStep(OrMark(d), '&', o);
      Cat4(out, OutC(c), Postfix(TreeU(u)), [Op('&')]);
    } else {
      Nil(OrMark(d));
      Nil(out);
    }
  }

  // ----- soundness: whatever the machine accepts is a derivation -----

  /** The tokens read so far on this level, `pre`, together with those the machine still reads,
      are the yield of one derivation whose postfix form is what the machine emits. */
  ghost predicate Accepts(pre: seq<Token>, ts: seq<Token>, base: seq<Node>, r: PolResult, count: nat) {
    exists d: Disj, k: nat :: AcceptsAs(pre, ts, base, r, count, d, k)
  }

  ghost predicate AcceptsAs(pre: seq<Token>, ts: seq<Token>, base: seq<Node>, r: PolResult, count: nat, d: Disj,
      k: nat) {
    && r.Done?
    && k < |ts|
    && pre + ts[..k] == YieldD(d)
    && ShallowD(d)
    && r.out == base + Postfix(TreeD(d))
    && (if count == 0 then ts[k..] == [End] == r.rest
        else ts[k] == Close && r.rest == ts[k + 1..] && Lexed(r.rest, false, count - 1))
  }

  lemma {:induction false} SoundOperand(ts: seq<Token>, base: seq<Node>, d: Option<Disj>, c: Option<Conj>, n: nat,
      count: nat)
    requires Lexed(ts, true, count) && Fine(d, c)
    requires Waiting(d) + |AndMark(c)| + n <= STACKDEPTH
    ensures var r := Pol(ts, OrMark(d) + AndMark(c) + Bangs(n), base + OutD(d) + OutC(c));
            r.Done? ==> Accepts(ReadD(d) + ReadC(c) + ReadN(n), ts, base, r, count)
    decreases |ts|, 2
  {
    match ts[0] {
      case Val(v) =>
        var r := Pol(ts, OrMark(d) + AndMark(c) + Bangs(n), base + OutD(d) + OutC(c));
        if r.Done? {
          AfterOperand(ts[1..], base, d, c, n, UVal(v), count);
          ExtendOperand(ts, 1, base, d, c, n, UVal(v), r, count);
        }
      case Opr(op) =>
        SoundBang(ts, base, d, c, n, count);
      case Open =>
        SoundOpen(ts, base, d, c, n, count);
      case _ =>
    }
  }

  /** A negation: one more pending operator on the stack. */
  lemma {:induction false} SoundBang(ts: seq<Token>, base: seq<Node>, d: Option<Disj>, c: Option<Conj>, n: nat,
      count: nat)
    requires Lexed(ts, true, count) && Fine(d, c) && ts[0].Opr?
    requires Waiting(d) + |AndMark(c)| + n <= STACKDEPTH
    ensures var r := Pol(ts, OrMark(d) + AndMark(c) + Bangs(n), base + OutD(d) + OutC(c));
            r.Done? ==> Accepts(ReadD(d) + ReadC(c) + ReadN(n), ts, base, r, count)
    decreases |ts|, 1
  {
    var stack, out := OrMark(d) + AndMark(c) + Bangs(n), base + OutD(d) + OutC(c);
    PolBang(ts, stack, out);
    var r := Pol(ts, stack, out);
    if r.Done? {
      Cat3(OrMark(d) + AndMark(c), Bangs(n), ['!']);
      Cat3(ReadD(d) + ReadC(c), ReadN(n), [Opr('!')]);
      SoundOperand(ts[1..], base, d, c, n + 1, count);
      Extend(ReadD(d) + ReadC(c) + ReadN(n), [Opr('!')], ts, base, r, count);
    }
  }

  lemma PolBang(ts: seq<Token>, stack: seq<char>, out: seq<Node>)
    requires ts != [] && ts[0] == Opr('!') && |stack| <= STACKDEPTH
    ensures Pol(ts, stack, out).Done? ==>
        |stack| < STACKDEPTH && Pol(ts, stack, out) == Pol(ts[1..], stack + ['!'], out)
  {
  }

  /** A parenthesized operand: the nested call reads a whole disjunction. */
  lemma {:induction false} SoundOpen(ts: seq<Token>, base: seq<Node>, d: Option<Disj>, c: Option<Conj>, n: nat,
      count: nat)
    requires Lexed(ts, true, count) && Fine(d, c) && ts[0] == Open
    requires Waiting(d) + |AndMark(c)| + n <= STACKDEPTH
    ensures var r := Pol(ts, OrMark(d) + AndMark(c) + Bangs(n), base + OutD(d) + OutC(c));
            r.Done? ==> Accepts(ReadD(d) + ReadC(c) + ReadN(n), ts, base, r, count)
    decreases |ts|, 1
  {
    var r := Pol(ts, OrMark(d) + AndMark(c) + Bangs(n), base + OutD(d) + OutC(c));
    if r.Done? {
      var d', k := SoundLevel(ts, base + OutD(d) + OutC(c), count);
      AfterOperand(ts[k..], base, d, c, n, UParen(d'), count);
      ExtendOperand(ts, k, base, d, c, n, UParen(d'), r, count);
    }
  }

  /** The nested level up to its closing parenthesis. */
  lemma {:induction false} SoundLevel(ts: seq<Token>, out: seq<Node>, count: nat) returns (d: Disj, k: nat)
    requires Lexed(ts, true, count) && ts[0] == Open && Pol(ts[1..], [], out).Done?
    ensures 0 < k <= |ts| && ts[..k] == YieldU(UParen(d)) && ShallowD(d) && Lexed(ts[k..], false, count)
    ensures Pol(ts[1..], [], out) == Done(out + Postfix(TreeU(UParen(d))), ts[k..])
    decreases |ts|, 0
  {
    SoundOperand(ts[1..], out, None, None, 0, count + 1);
    d, k := NestedLevel(ts[1..], out, count + 1);
    Bracketed(ts, d, k);
    k := k + 2;
  }

  /** A level starts with nothing read, an empty stack and nothing emitted. */
  lemma NestedLevel(ts: seq<Token>, base: seq<Node>, count: nat) returns (d: Disj, k: nat)
    requires var r := Pol(ts, OrMark(None) + AndMark(None) + Bangs(0), base + OutD(None) + OutC(None));
             r.Done? ==> Accepts(ReadD(None) + ReadC(None) + ReadN(0), ts, base, r, count)
    requires Pol(ts, [], base).Done?
    ensures AcceptsAs([], ts, base, Pol(ts, [], base), count, d, k)
  {
    var stack, out := OrMark(None) + AndMark(None) + Bangs(0), base + OutD(None) + OutC(None);
    var pre := ReadD(None) + ReadC(None) + ReadN(0);
    assert stack == [] && out == base && pre == [];
    d, k :| AcceptsAs([], ts, base, Pol(ts, [], base), count, d, k);
  }

  lemma Bracketed(ts: seq<Token>, d: Disj, k: nat)
    requires k + 1 < |ts| && ts[0] == Open && ts[1..][k] == Close
    requires [] + ts[1..][..k] == YieldD(d)
    ensures ts[..k + 2] == YieldU(UParen(d)) && ts[1..][k + 1..] == ts[k + 2..]
  {
    assert ts[..k + 2] == [ts[0]] + ts[1..][..k] + [ts[1..][k]];
  }

  /** The state after operand `u` has been read and reduced. */
  lemma {:induction false} AfterOperand(ts: seq<Token>, base: seq<Node>, d: Option<Disj>, c: Option<Conj>, n: nat,
      u: Unary, count: nat)
    requires Lexed(ts, false, count) && Fine(d, c)
    requires u.UVal? || (u.UParen? && ShallowD(u.d))
    requires Waiting(d) + |AndMark(c)| + n <= STACKDEPTH
    ensures var (st, o) := Reduce(OrMark(d) + AndMark(c) + Bangs(n), base + OutD(d) + OutC(c) + Postfix(TreeU(u)));
            var r := Pol(ts, st, o);
            r.Done? ==> Accepts(ReadD(d) + YieldC(AddC(c, Negated(u, n))), ts, base, r, count)
    decreases |ts|, 1
  {
    ReduceOperand(d, c, n, u, base + OutD(d));
    NegatedShallow(u, n, Waiting(d) + |AndMark(c)|);
    SoundOperator(ts, base, d, AddC(c, Negated(u, n)), count);
  }

  lemma {:induction false} SoundOperator(ts: seq<Token>, base: seq<Node>, d: Option<Disj>, c: Conj, count: nat)
    requires Lexed(ts, false, count) && Fine(d, Some(c))
    ensures var r := Pol(ts, OrMark(d), base + OutD(d) + Postfix(TreeC(c)));
            r.Done? ==> Accepts(ReadD(d) + YieldC(c), ts, base, r, count)
    decreases |ts|, 0
  {
    if ts[0].End? || ts[0].Close? {
      EndLevel(ts, base, d, c, count);
    } else if ts[0] == Opr('&') {
      AndStep(d, c);
      SoundOperand(ts[1..], base, d, Some(c), 0, count);
      ReadOperator(ts, '&', ReadD(d) + YieldC(c), ReadD(d) + ReadC(Some(c)) + ReadN(0), base,
                   Pol(ts, OrMark(d), base + OutD(d) + Postfix(TreeC(c))), count);
    } else if ts[0] == Opr('|') {
      var whole := Some(AddD(d, c));
      OrStep(d, c, base);
      SoundOperand(ts[1..], base, whole, None, 0, count);
      ReadOperator(ts, '|', ReadD(d) + YieldC(c), ReadD(whole) + ReadC(None) + ReadN(0), base,
                   Pol(ts, OrMark(d), base + OutD(d) + Postfix(TreeC(c))), count);
    }
  }

  lemma ReadOperator(ts: seq<Token>, op: char, pre: seq<Token>, pre': seq<Token>, base: seq<Node>, r: PolResult,
      count: nat)
    requires ts != [] && ts[0] == Opr(op) && pre' == pre + [Opr(op)]
    requires r.Done? ==> Accepts(pre', ts[1..], base, r, count)
    ensures r.Done? ==> Accepts(pre, ts, base, r, count)
  {
    if r.Done? { Extend(pre, [Opr(op)], ts, base, r, count); }
  }

  lemma EndLevel(ts: seq<Token>, base: seq<Node>, d: Option<Disj>, c: Conj, count: nat)
    requires Lexed(ts, false, count) && Fine(d, Some(c)) && (ts[0].End? || ts[0].Close?)
    ensures Accepts(ReadD(d) + YieldC(c), ts, base, Pol(ts, OrMark(d), base + OutD(d) + Postfix(TreeC(c))), count)
  {
    var r := Pol(ts, OrMark(d), base + OutD(d) + Postfix(TreeC(c)));
    FlushLevel(d, c, base);
    Nil(ReadD(d) + YieldC(c));
    Nil(YieldC(c));
    assert AcceptsAs(ReadD(d) + YieldC(c), ts, base, r, count, AddD(d, c), 0);
  }

  lemma AndStep(d: Option<Disj>, c: Conj)
    ensures OrMark(d) + ['&'] == OrMark(d) + AndMark(Some(c)) + Bangs(0)
    ensures ReadD(d) + ReadC(Some(c)) + ReadN(0) == (ReadD(d) + YieldC(c)) + [Opr('&')]
  {
    Nil(OrMark(d) + ['&']);
    Cat3(ReadD(d), YieldC(c), [Opr('&')]);
    Nil(ReadD(d) + ReadC(Some(c)));
  }

  /** A '|' closes the conjunction before it: the older '|' is emitted, the new one waits. */
  lemma OrStep(d: Option<Disj>, c: Conj, base: seq<Node>)
    ensures var out, whole := base + OutD(d) + Postfix(TreeC(c)), Some(AddD(d, c));
            && [] + ['|'] == ['|'] == OrMark(whole) + AndMark(None) + Bangs(0)
            && (if d.Some? then out + [Op('|')] else out) == base + OutD(whole) + OutC(None)
            && ReadD(whole) + ReadC(None) + ReadN(0) == (ReadD(d) + YieldC(c)) + [Opr('|')]
  {
    var whole := AddD(d, c);
    Nil(['|']);
    Nil(base + Postfix(TreeD(whole)));
    Nil(YieldD(whole) + [Opr('|')]);
    if d.Some? {
      Cat4(base, OutD(d), Postfix(TreeC(c)), [Op('|')]);
    } else {
      Nil(base);
      Nil(YieldC(c));
    }
  }

  /** At the end of a level the waiting '|', if any, is emitted. */
  lemma FlushLevel(d: Option<Disj>, c: Conj, base: seq<Node>)
    ensures Flush(OrMark(d), base + OutD(d) + Postfix(TreeC(c))) == base + Postfix(TreeD(AddD(d, c)))
  {
    var out := base + OutD(d) + Postfix(TreeC(c));
    if d.Some? {
      assert Flush(['|'], out) == Flush([], out + [Op('|')]);
      Cat4(base, OutD(d), Postfix(TreeC(c)), [Op('|')]);
    } else {
      Nil(base);
    }
  }

  /** Moves tokens `mid`, the front of `ts`, from the unread part to the part already read. */
  lemma Extend(pre: seq<Token>, mid: seq<Token>, ts: seq<Token>, base: seq<Node>, r: PolResult, count: nat)
    requires |mid| <= |ts| && ts[..|mid|] == mid
    requires Accepts(pre + mid, ts[|mid|..], base, r, count)
    ensures Accepts(pre, ts, base, r, count)
  {
    var rest := ts[|mid|..];
    var d: Disj, k: nat :| AcceptsAs(pre + mid, rest, base, r, count, d, k);
    assert pre + ts[..|mid| + k] == (pre + mid) + rest[..k] by {
      assert ts[..|mid| + k] == mid + rest[..k];
      Cat3(pre, mid, rest[..k]);
    }
    assert ts[|mid| + k..] == rest[k..];
    assert ts[|mid| + k + 1..] == rest[k + 1..];
    assert AcceptsAs(pre, ts, base, r, count, d, |mid| + k);
  }

  lemma ExtendOperand(ts: seq<Token>, m: nat, base: seq<Node>, d: Option<Disj>, c: Option<Conj>, n: nat, u: Unary,
      r: PolResult, count: nat)
    requires m <= |ts| && ts[..m] == YieldU(u)
    requires Accepts(ReadD(d) + YieldC(AddC(c, Negated(u, n))), ts[m..], base, r, count)
    ensures Accepts(ReadD(d) + ReadC(c) + ReadN(n), ts, base, r, count)
  {
    var pre := ReadD(d) + ReadC(c) + ReadN(n);
    NegatedYield(u, n);
    Cat4(ReadD(d), ReadC(c), ReadN(n), YieldU(u));
    Nil(ReadN(n) + YieldU(u));
    Extend(pre, YieldU(u), ts, base, r, count);
  }

  // ----- completeness: every shallow derivation is accepted -----

  lemma {:induction false} CompleteU(u: Unary, ts: seq<Token>, stack: seq<char>, out: seq<Node>)
    requires |stack| <= STACKDEPTH && ShallowU(u, |stack|)
    ensures var (st, o) := Reduce(stack, out + Postfix(TreeU(u)));
            Pol(YieldU(u) + ts, stack, out) == Pol(ts, st, o)
    decreases u
  {
    var all := YieldU(u) + ts;
    match u {
      case UVal(v) =>
        assert all[1..] == ts;
      case UNot(u') =>
        assert all[1..] == YieldU(u') + ts;
        CompleteU(u', ts, stack + ['!'], out);
        ReduceStep(stack, '!', out + Postfix(TreeU(u')));
        Cat3(out, Postfix(TreeU(u')), [Op('!')]);
      case UParen(d) =>
        assert all[1..] == YieldD(d) + ([Close] + ts);
        CompleteD(d, [Close] + ts, out);
        FlushD(d, out);
        assert ([Close] + ts)[1..] == ts;
    }
  }

  lemma {:induction false} CompleteC(c: Conj, ts: seq<Token>, stack: seq<char>, out: seq<Node>)
    requires stack == [] || stack == ['|']
    requires ShallowC(c, |stack|)
    ensures Pol(YieldC(c) + ts, stack, out) == Pol(ts, stack, out + Postfix(TreeC(c)))
    decreases c
  {
    match c {
      case COne(u) =>
        CompleteU(u, ts, stack, out);
      case CMore(c', u) =>
        var tail := [Opr('&')] + (YieldU(u) + ts);
        assert YieldC(c) + ts == YieldC(c') + tail;
        CompleteC(c', tail, stack, out);
        var out' := out + Postfix(TreeC(c'));
        assert tail[1..] == YieldU(u) + ts;
        CompleteU(u, ts, stack + ['&'], out');
        ReduceStep(stack, '&', out' + Postfix(TreeU(u)));
        Cat4(out, Postfix(TreeC(c')), Postfix(TreeU(u)), [Op('&')]);
    }
  }

  /** Stack and output of the machine after a disjunction, before its last '|' is emitted. */
  function StackD(d: Disj): seq<char> { if d.DMore? then ['|'] else [] }
  function PartD(d: Disj): seq<Node> {
    match d
    case DOne(c) => Postfix(TreeC(c))
    case DMore(d', c) => Postfix(TreeD(d')) + Postfix(TreeC(c))
  }

  lemma {:induction false} CompleteD(d: Disj, ts: seq<Token>, out: seq<Node>)
    requires ShallowD(d)
    ensures Pol(YieldD(d) + ts, [], out) == Pol(ts, StackD(d), out + PartD(d))
    decreases d
  {
    match d {
      case DOne(c) =>
        CompleteC(c, ts, [], out);
      case DMore(d', c) =>
        var tail := [Opr('|')] + (YieldC(c) + ts);
        assert YieldD(d) + ts == YieldD(d') + tail;
        CompleteD(d', tail, out);
        assert tail[1..] == YieldC(c) + ts;
        var out' := out + Postfix(TreeD(d'));
        assert d'.DMore? ==> out + PartD(d') + [Op('|')] == out';
        assert [] + ['|'] == ['|'];
        CompleteC(c, ts, ['|'], out');
        assert out' + Postfix(TreeC(c)) == out + PartD(d);
    }
  }

  lemma FlushD(d: Disj, out: seq<Node>)
    ensures Flush(StackD(d), out + PartD(d)) == out + Postfix(TreeD(d))
  {
    if d.DMore? {
      var o := out + PartD(d);
      assert Flush(['|'], o) == Flush([], o + [Op('|')]);
    }
  }

  // ----- the equivalence -----

  /** `d` is a derivation of the token sequence `ts` that the stack of makepol can hold. */
  ghost predicate Derives(ts: seq<Token>, d: Disj) { ts == YieldD(d) + [End] && ShallowD(d) }

  lemma PolSound(ts: seq<Token>)
    requires Lexed(ts, true, 0) && Pol(ts, [], []).Done?
    ensures exists d :: Derives(ts, d) && Pol(ts, [], []) == Done(Postfix(TreeD(d)), [End])
  {
    SoundOperand(ts, [], None, None, 0, 0);
    var d, k := NestedLevel(ts, [], 0);
    assert [] + ts[..k] == ts[..k] && ts == ts[..k] + ts[k..];
    Nil(Postfix(TreeD(d)));
    assert Derives(ts, d);
  }

  lemma PolComplete(ts: seq<Token>, d: Disj)
    requires Derives(ts, d)
    ensures Pol(ts, [], []) == Done(Postfix(TreeD(d)), [End])
  {
    CompleteD(d, [End], []);
    FlushD(d, []);
    Nil(Postfix(TreeD(d)));
  }
}
