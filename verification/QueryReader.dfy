/** bqarr_in: tokenizer, operator-stack parser and operand links, as the code runs them. */
module QueryReader {
  import opened Machine
  import opened QueryGrammar
  import opened QueryParser
  import opened QueryLexer
  import opened QuerySpelling
  import opened QueryItems

  datatype Status = Success | Syntax | Complex

  /** What the spec machine's verdict means for the code. */
  function StatusOf(r: PolResult): Status {
    match r case Done(_, _) => Success case SyntaxError => Syntax case TooComplex => Complex
  }

  /** The machine's moves, one token at a time. */
  lemma PolStep(tok: Token, rest: seq<Token>, stack: seq<char>, out: seq<Node>)
    ensures var p := Pol([tok] + rest, stack, out);
            && (tok.End? ==> p == Done(Flush(stack, out), [tok] + rest))
            && (tok.Close? ==> p == Done(Flush(stack, out), rest))
            && (tok.Err? ==> p == SyntaxError)
            && (tok.Val? ==> var q := Reduce(stack, out + [Value(tok.v)]); p == Pol(rest, q.0, q.1))
            && (tok.Opr? && |stack| > 0 && tok.op == '|' ==> p == Pol(rest, stack, out + [Op(tok.op)]))
            && (tok.Opr? && !(|stack| > 0 && tok.op == '|') ==>
                  p == if |stack| == STACKDEPTH then TooComplex else Pol(rest, stack + [tok.op], out))
            && (tok.Open? ==> var i := Pol(rest, [], out);
                  p == if i.Done? then (var q := Reduce(stack, i.out); Pol(i.rest, q.0, q.1)) else i)
  {
    assert ([tok] + rest)[1..] == rest;
  }

  class WorkState {
    const buf: string
    var pos: nat
    var wait: Wait
    var count: int
    /** Nodes pushed so far, oldest first. */
    var str: seq<Node>

    ghost predicate Valid()
      reads this
    {
      pos <= |buf| && Ready(wait) && count >= 0
    }

    /** The tokens still to come. */
    ghost function Todo(): seq<Token>
      requires Valid()
      reads this
    {
      Stream(buf, pos, wait, count)
    }

    constructor (s: string)
      ensures Valid() && buf == s && str == [] && Todo() == Tokens(s)
    {
      buf, pos, wait, count, str := s, 0, WaitOperand, 0, [];
    }

    method GetToken() returns (tok: Token)
      requires Valid()
      modifies this`pos, this`wait, this`count
      ensures var r := GetTok(buf, old(pos), old(wait), old(count));
              tok == r.tok && (!tok.Err? ==> r == LexStep(tok, pos, wait, count))
    {
      ghost var goal := GetTok(buf, pos, wait, count);
      while true
        invariant Valid() && count == old(count) && goal == GetTok(buf, pos, wait, count)
        decreases |buf| - pos
      {
        var c := At(buf, pos);
        if wait == WaitOperand {
          if IsDigit(c) || c == '-' {
            tok := GetNumber();
            return;
          } else if c == '!' {
            pos := pos + 1;
            return Opr('!');
          } else if c == '(' {
            count := count + 1;
            pos := pos + 1;
            return Open;
          } else if c != ' ' {
            return Err;
          }
        } else {
          if c == '&' || c == '|' {
            wait := WaitOperand;
            pos := pos + 1;
            return Opr(c);
          } else if c == ')' {
            pos := pos + 1;
            count := count - 1;
            return if count < 0 then Err else Close;
          } else if c == '\0' {
            return if count != 0 then Err else End;
          } else if c != ' ' {
            return Err;
          }
        }
        pos := pos + 1;
      }
    }

    /** The turns of gettoken's loop spent in the middle of a number. `nnn` is the 16-byte number
        buffer; the test in front of every turn keeps it in bounds. */
    method GetNumber() returns (tok: Token)
      requires pos < |buf|
      modifies this`pos, this`wait
      ensures var r := NumberToken(buf, old(pos), count);
              tok == r.tok && (!tok.Err? ==> r == LexStep(tok, pos, wait, count))
    {
      wait := WaitEndOperand;
      var nnn := [At(buf, pos)];
      pos := pos + 1;
      while IsDigit(At(buf, pos))
        invariant old(pos) < pos <= |buf| && nnn == buf[old(pos)..pos] && |nnn| < NUMBUF
        invariant DigitEnd(buf, old(pos) + 1) == DigitEnd(buf, pos)
        decreases |buf| - pos
      {
        nnn := nnn + [At(buf, pos)];
        pos := pos + 1;
        if |nnn| >= NUMBUF { return Err; }
      }
      var v := Strtol(nnn);
      if !IsInt32(v) { return Err; }
      wait := WaitOperator;
      return if count != 0 && At(buf, pos) == '\0' then Err else Val(v);
    }

    method PushQuery(n: Node)
      modifies this`str
      ensures str == old(str) + [n]
    {
      str := str + [n];
    }

    /** One nesting level. The stack is the code's fixed array. */
    method MakePol() returns (r: Status)
      requires Valid()
      modifies this
      ensures var p := Pol(old(Todo()), [], old(str));
              r == StatusOf(p) && (r == Success ==> LevelDone(old(pos), p))
      decreases |buf| - pos, 1
    {
      ghost var goal := Pol(Todo(), [], str);
      var stack := new char[STACKDEPTH];
      var lenstack := 0;
      var tok := NextToken();
      while tok != End && tok != Close
        invariant 0 <= lenstack <= STACKDEPTH && fresh(stack)
        invariant tok.Err? ==> goal == SyntaxError
        invariant !tok.Err? ==> Valid() && goal == Pol(After(tok), stack[..lenstack], str)
        invariant !tok.Err? ==> pos >= old(pos) && (tok.End? || pos > old(pos))
        invariant tok.End? ==> Todo() == [End]
        decreases if tok.Err? then 0 else 1 + |buf| - pos, if tok.End? then 0 else 1
      {
        if tok.Err? { return Syntax; }
        r, lenstack := Shift(tok, stack, lenstack);
        if r != Success { return; }
        tok := NextToken();
      }
      CloseLevel(tok, stack, lenstack);
      return Success;
    }

    /** The end of a level. */
    method CloseLevel(tok: Token, stack: array<char>, len: nat)
      requires Valid() && len <= stack.Length == STACKDEPTH
      requires tok.Close? || (tok.End? && Todo() == [End])
      modifies this`str
      ensures LevelDone(pos, Pol(old(After(tok)), stack[..len], old(str)))
    {
      PolStep(tok, if tok.End? then [] else Todo(), stack[..len], str);
      PopAll(stack, len);
    }

    /** The state after a level has been read to the end with verdict `p`. */
    ghost predicate LevelDone(from: nat, p: PolResult)
      reads this
    {
      p.Done? && Valid() && pos >= from && str == p.out && Todo() == p.rest
    }

    /** One turn of the loop of makepol on a token that does not end the level. */
    method Shift(tok: Token, stack: array<char>, len: nat) returns (r: Status, n: nat)
      requires Valid() && len <= stack.Length == STACKDEPTH
      requires tok.Val? || tok.Opr? || tok.Open?
      modifies this, stack
      ensures var p := Pol(old(After(tok)), old(stack[..len]), old(str));
              if r == Success then n <= stack.Length && Valid() && pos >= old(pos) && p == Pol(Todo(), stack[..n], str)
              else StatusOf(p) == r
      decreases |buf| - pos, 2
    {
      r, n := Success, len;
      PolStep(tok, Todo(), stack[..len], str);
      match tok {
        case Val(v) =>
          PushQuery(Value(v));
          n := PopReduce(stack, len);
        case Opr(c) =>
          if len > 0 && c == '|' {
            PushQuery(Op(c));
          } else if len == STACKDEPTH {
            r := Complex;
          } else {
            stack[len] := c;
            n := len + 1;
            assert stack[..n] == old(stack[..len]) + [c];
          }
        case Open =>
          r := MakePol();
          if r == Success {
            assert stack[..len] == old(stack[..len]);
            n := PopReduce(stack, len);
          }
        case _ =>
      }
    }

    /** The stream a token was the head of. */
    ghost function After(tok: Token): seq<Token>
      requires Valid()
      reads this
    {
      if tok.End? || tok.Err? then [tok] else [tok] + Todo()
    }

    method NextToken() returns (tok: Token)
      requires Valid()
      modifies this`pos, this`wait, this`count
      ensures tok.Err? ==> old(Todo()) == [Err]
      ensures !tok.Err? ==> Valid() && old(Todo()) == After(tok) && pos >= old(pos)
      ensures tok.End? ==> Todo() == [End]
      ensures !tok.Err? && !tok.End? ==> pos > old(pos)
    {
      GetTokShape(buf, pos, wait, count);
      tok := GetToken();
      if tok.End? { assert GetTok(buf, pos, wait, count).tok == End; }
    }

    method PopReduce(stack: array<char>, len: nat) returns (n: nat)
      requires len <= stack.Length
      modifies this`str
      ensures n <= len && (stack[..n], str) == Reduce(stack[..len], old(str))
    {
      n := len;
      while n > 0 && (stack[n - 1] == '&' || stack[n - 1] == '!')
        invariant 0 <= n <= len && Reduce(stack[..n], str) == Reduce(stack[..len], old(str))
      {
        n := n - 1;
        PushQuery(Op(stack[n]));
        assert stack[..n + 1][..n] == stack[..n];
      }
    }

    method PopAll(stack: array<char>, len: nat)
      requires len <= stack.Length
      modifies this`str
      ensures str == Flush(stack[..len], old(str))
    {
      var n := len;
      while n > 0
        invariant 0 <= n <= len && Flush(stack[..n], str) == Flush(stack[..len], old(str))
      {
        n := n - 1;
        PushQuery(Op(stack[n]));
        assert stack[..n + 1][..n] == stack[..n];
      }
    }
  }
  datatype ReadResult = Query(items: seq<Item>) | BadSyntax | TooManyOperators | TooManyItems

  /** Items that fit in one allocation. */
  const QUERYTYPEMAXITEMS := (0x3fff_ffff - 8) / 8

  /** bqarr_in on the tokens of the string: exactly the sequences that have a derivation are accepted,
      and the postfix form of its tree is stored. The code's test for an empty query never fires:
      every accepted string has an operand. */
  method ReadTokens(buf: string) returns (r: ReadResult)
    ensures r.Query? ==> exists d :: Derives(Tokens(buf), d) && Stores(r.items, TreeD(d))
    ensures r.TooManyItems? ==> exists d :: Derives(Tokens(buf), d) && Size(TreeD(d)) > QUERYTYPEMAXITEMS
    ensures r.BadSyntax? || r.TooManyOperators? ==> !exists d :: Derives(Tokens(buf), d)
    ensures r.BadSyntax? <==> Pol(Tokens(buf), [], []) == SyntaxError
    ensures r.TooManyOperators? <==> Pol(Tokens(buf), [], []) == TooComplex
  {
    var state := new WorkState(buf);
    StreamLexed(buf, 0, WaitOperand, 0);
    var st := state.MakePol();
    if st != Success {
      forall d ensures !Derives(Tokens(buf), d) {
        if Derives(Tokens(buf), d) { PolComplete(Tokens(buf), d); }
      }
      return if st == Syntax then BadSyntax else TooManyOperators;
    }
    PolSound(Tokens(buf));
    ghost var d :| Derives(Tokens(buf), d) && state.str == Postfix(TreeD(d));
    PostfixSize(TreeD(d));
    if |state.str| > QUERYTYPEMAXITEMS { return TooManyItems; }
    var items := LinkNodes(state.str, TreeD(d));
    return Query(items);
  }

  /** bqarr_in: a C string is accepted exactly if it is a text of some derivation, and the postfix form
      of its tree is stored. */
  method BqarrIn(buf: string) returns (r: ReadResult)
    requires NoNul(buf)
    ensures r.Query? ==> exists d :: TextOf(buf, d) && Stores(r.items, TreeD(d))
    ensures r.TooManyItems? ==> exists d :: TextOf(buf, d) && Size(TreeD(d)) > QUERYTYPEMAXITEMS
    ensures r.BadSyntax? || r.TooManyOperators? ==> !exists d :: TextOf(buf, d)
    ensures r.BadSyntax? <==> Pol(Tokens(buf), [], []) == SyntaxError
    ensures r.TooManyOperators? <==> Pol(Tokens(buf), [], []) == TooComplex
  {
    r := ReadTokens(buf);
    forall d ensures Derives(Tokens(buf), d) <==> TextOf(buf, d) { TextDerives(buf, d); }
  }

  /** The tail of bqarr_in: copies the nodes into the item array and links them. */
  method LinkNodes(nodes: seq<Node>, ghost e: Expr) returns (items: seq<Item>)
    requires nodes == Postfix(e) && |nodes| <= QUERYTYPEMAXITEMS
    ensures Stores(items, e)
  {
    PostfixSize(e);
    assert Placed(nodes, 0, e) by { PostfixPlaced([], e, []); Nil(nodes); }
    var ptr := new Item[|nodes|](_ => Item(Value(0), 0));
    for i := 0 to |nodes|
      invariant forall k :: 0 <= k < i ==> ptr[k].node == nodes[k]
    {
      ptr[i] := Item(nodes[i], 0);
    }
    var pos := FindOprnd(ptr, |nodes| - 1, nodes, 0, e);
    items := ptr[..];
  }

  /** A stored query: the linked postfix form of `e` and nothing else. */
  ghost predicate Stores(items: seq<Item>, e: Expr) {
    |items| == Size(e) <= QUERYTYPEMAXITEMS && Linked(items, 0, e)
  }
}
