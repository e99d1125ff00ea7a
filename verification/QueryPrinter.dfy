/** bqarr_out, and what reading its output gives back. */
module QueryPrinter {
  import opened Wrappers
  import opened Machine
  import opened QueryGrammar
  import opened QueryParser
  import opened QueryUnique
  import opened QueryLexer
  import opened QuerySpelling
  import opened QueryItems
  import opened QueryReader
  import opened QueryForm

  // ----- the output buffer -----

  /** An output buffer and a position in the item array. Every method answers whether it got the
      memory it asked for; the first refusal ends the printing. */
  class Infix {
    var curpol: int
    var buf: string
    var buflen: nat

    constructor (curpol: int, buflen: nat)
      ensures this.curpol == curpol && this.buf == "" && this.buflen == buflen
    {
      this.curpol, this.buf, this.buflen := curpol, "", buflen;
    }

    /** RESIZEBUF: doubles the buffer until `addsize` bytes and a terminator fit. */
    method Resize(addsize: nat) returns (ok: bool)
      requires BufferSize(buflen)
      modifies this`buflen
      ensures BufferSize(buflen)
      ensures ok <==> |buf| + addsize + 1 < LARGEST
      ensures ok ==> |buf| + addsize + 1 < buflen
    {
      while |buf| + addsize + 1 >= buflen
        invariant BufferSize(buflen)
        decreases |buf| + addsize + 2 - buflen
      {
        if buflen * 2 > MAX_ALLOC { return false; }
        buflen := buflen * 2;
      }
      return true;
    }

    /** RESIZEBUF followed by a write of at most `addsize` bytes and a terminator. */
    method Put(text: string, addsize: nat) returns (ok: bool)
      requires |text| <= addsize && BufferSize(buflen)
      modifies this`buf, this`buflen
      ensures BufferSize(buflen)
      ensures ok <==> |old(buf)| + addsize + 1 < LARGEST
      ensures ok ==> buf == old(buf) + text && |buf| + 1 < buflen
    {
      ok := Resize(addsize);
      if ok { buf := buf + text; }
    }

    method Run(nodes: seq<Node>, first: bool, ghost lo: nat, ghost e: Expr) returns (ok: bool)
      requires Placed(nodes, lo, e) && curpol == lo + Size(e) - 1 && Int32Leaves(e)
      requires BufferSize(buflen)
      modifies this
      ensures BufferSize(buflen)
      ensures ok ==> buf == old(buf) + Print(e, first) && curpol == lo - 1 && |buf| + 1 < LARGEST
      ensures !ok ==> |old(buf)| + |Print(e, first)| + 12 >= LARGEST
      decreases e, 2
    {
      if nodes[curpol].Value? {
        DecLength(e.v);
        ok := Put(Dec(nodes[curpol].v), 11);
        curpol := curpol - 1;
      } else if nodes[curpol] == Op('!') {
        ok := RunNot(nodes, lo, e);
      } else {
        ok := RunBinary(nodes, first, lo, e);
      }
    }

    /** The branch for '!'. */
    method RunNot(nodes: seq<Node>, ghost lo: nat, ghost e: Expr) returns (ok: bool)
      requires Placed(nodes, lo, e) && curpol == lo + Size(e) - 1 && Int32Leaves(e) && e.Not?
      requires BufferSize(buflen)
      modifies this
      ensures BufferSize(buflen)
      ensures ok ==> buf == old(buf) + Print(e, false) && curpol == lo - 1 && |buf| + 1 < LARGEST
      ensures !ok ==> |old(buf)| + |Print(e, false)| + 12 >= LARGEST
      decreases e, 1
    {
      ok := Put("!", 1);
      if !ok { return; }
      curpol := curpol - 1;
      var isopr := nodes[curpol].Op?;
      assert isopr == !e.arg.Leaf?;
      if isopr {
        ok := Put("( ", 2);
        if !ok { return; }
      }
      ok := Run(nodes, isopr, lo, e.arg);
      if !ok { return; }
      if isopr {
        ok := Put(" )", 2);
        if !ok { return; }
      }
      ParenCat(old(buf) + "!", Print(e.arg, isopr));
      Cat3(old(buf), "!", if isopr then Paren(Print(e.arg, true)) else Print(e.arg, false));
    }

    /** The branch for '&' and '|'. */
    method RunBinary(nodes: seq<Node>, first: bool, ghost lo: nat, ghost e: Expr) returns (ok: bool)
      requires Placed(nodes, lo, e) && curpol == lo + Size(e) - 1 && Int32Leaves(e) && Binary(e)
      requires BufferSize(buflen)
      modifies this
      ensures BufferSize(buflen)
      ensures ok ==> buf == old(buf) + Print(e, first) && curpol == lo - 1 && |buf| + 1 < LARGEST
      ensures !ok ==> |old(buf)| + |Print(e, first)| + 12 >= LARGEST
      decreases e, 1
    {
      var parens := nodes[curpol].op == '|' && !first;
      if parens {
        ok := Put("( ", 2);
        if !ok { return; }
      }
      ok := RunOperands(nodes, lo, e);
      if !ok { return; }
      if parens {
        ok := Put(" )", 2);
        if !ok { return; }
      }
      ParenCat(old(buf), PrintBinary(e));
    }

    /** The right operand is printed into a buffer of its own, the left one in front of it. */
    method RunOperands(nodes: seq<Node>, ghost lo: nat, ghost e: Expr) returns (ok: bool)
      requires Placed(nodes, lo, e) && curpol == lo + Size(e) - 1 && Int32Leaves(e) && Binary(e)
      requires BufferSize(buflen)
      modifies this
      ensures BufferSize(buflen)
      ensures ok ==> buf == old(buf) + PrintBinary(e) && curpol == lo - 1 && |buf| + 1 < LARGEST
      ensures !ok ==> |old(buf)| + |PrintBinary(e)| + 12 >= LARGEST
      decreases e, 0
    {
      var op := nodes[curpol].op;
      assert op == OpOf(e);
      var nrm := new Infix(curpol - 1, 16);
      ok := nrm.Run(nodes, false, lo + Size(e.left), e.right);
      if !ok { return; }
      var right := [' ', op, ' '] + nrm.buf;
      assert right == [' ', OpOf(e), ' '] + Print(e.right, false) by { Nil(nrm.buf); }
      curpol := nrm.curpol;
      ok := Run(nodes, false, lo, e.left);
      if !ok { return; }
      ok := Put(right, |right|);
      Cat3(old(buf), Print(e.left, false), right);
    }
  }

  lemma ParenCat(b: string, t: string)
    ensures b + "( " + t + " )" == b + Paren(t)
  {
    Cat4(b, "( ", t, " )");
  }

  /** bqarr_out: the text, or nothing when a buffer would have to grow past an allocation. */
  method BqarrOut(items: seq<Item>, ghost e: Expr) returns (text: Option<string>)
    requires Stores(items, e) && Int32Leaves(e)
    ensures text.Some? ==> text.value == Print(e, true) && |text.value| + 1 < LARGEST
    ensures text.None? ==> |Print(e, true)| + 12 >= LARGEST
  {
    var nodes := seq(|items|, i requires 0 <= i < |items| => items[i].node);
    LinkedPlaced(items, nodes, 0, e);
    var nrm := new Infix(|items| - 1, 32);
    var ok := nrm.Run(nodes, true, 0, e);
    if !ok { return None; }
    Nil(nrm.buf);
    text := Some(nrm.buf);
  }

  lemma {:induction false} LinkedPlaced(items: seq<Item>, nodes: seq<Node>, lo: int, e: Expr)
    requires Linked(items, lo, e)
    requires |nodes| == |items| && forall i :: 0 <= i < |items| ==> nodes[i] == items[i].node
    ensures Placed(nodes, lo, e)
    decreases e
  {
    if e.Not? {
      LinkedPlaced(items, nodes, lo, e.arg);
    } else if Binary(e) {
      LinkedPlaced(items, nodes, lo, e.left);
      LinkedPlaced(items, nodes, lo + Size(e.left), e.right);
    }
  }

  /** Whatever is stored and can be printed can be read again; the result is the same query with
      its '&' chains grouped to the left, and has the same value on every array. */
  method PrintAndRead(items: seq<Item>, ghost e: Expr) returns (r: Option<ReadResult>)
    requires Stores(items, e) && Int32Leaves(e)
    ensures r.Some? ==> r.value.Query? && Stores(r.value.items, Regroup(e))
    ensures r.None? ==> |Print(e, true)| + 12 >= LARGEST
    ensures forall env: int -> bool :: Eval(Regroup(e), env) == Eval(e, env)
  {
    forall env: int -> bool ensures Eval(Regroup(e), env) == Eval(e, env) { RegroupPreserves(e, env); }
    var text := BqarrOut(items, e);
    if text.None? { return None; }
    PrintedText(e);
    RegroupPreserves(e, v => false);
    var read := BqarrIn(text.value);
    r := Some(read);
  }

  /** The printed form is a text of one derivation only. */
  lemma PrintedText(e: Expr)
    requires Int32Leaves(e)
    ensures var s := Print(e, true);
            NoNul(s) && TextOf(s, DisjOf(e)) && forall d :: TextOf(s, d) ==> TreeD(d) == Regroup(e)
  {
    var s := Print(e, true);
    PrintedNoNul(e);
    PrintedDerives(e);
    TextDerives(s, DisjOf(e));
    forall d | TextOf(s, d) ensures TreeD(d) == Regroup(e) {
      TextDerives(s, d);
      SameFront(YieldD(d), End, YieldD(DisjOf(e)), End);
      YieldInjective(d, DisjOf(e));
    }
  }

  lemma {:induction false} PrintedNoNul(e: Expr)
    ensures NoNul(Print(e, true)) && NoNul(Print(e, false))
    decreases e
  {
    match e
    case Leaf(v) => assert AllDigits(DecNat(if v < 0 then -v else v));
    case Not(a) => PrintedNoNul(a);
    case _ =>
      PrintedNoNul(e.left);
      PrintedNoNul(e.right);
      assert NoNul(PrintBinary(e));
  }
}
