/** The flat item array of a query and its operand links. */
module QueryItems {
  import opened QueryGrammar

  /** An item carries a 16-bit relative link to its left operand. */
  datatype Item = Item(node: Node, left: int)

  /** Assignment to an int16 field. */
  function Int16(x: int): int { (x + 0x8000) % 0x1_0000 - 0x8000 }

  predicate Binary(e: Expr) { e.And? || e.Or? }

  function OpOf(e: Expr): char
    requires !e.Leaf?
  {
    if e.Not? then '!' else if e.And? then '&' else '|'
  }

  function Size(e: Expr): (n: nat)
    ensures n > 0
  {
    if e.Leaf? then 1 else if e.Not? then Size(e.arg) + 1 else Size(e.left) + Size(e.right) + 1
  }

  lemma {:induction e} PostfixSize(e: Expr)
    ensures |Postfix(e)| == Size(e)
  {
  }

  /** The postfix form of `e` stands in `nodes` from `lo` on. */
  ghost predicate Placed(nodes: seq<Node>, lo: int, e: Expr)
    decreases e
  {
    && 0 <= lo && lo + Size(e) <= |nodes|
    && (if e.Leaf? then nodes[lo] == Value(e.v)
        else nodes[lo + Size(e) - 1] == Op(OpOf(e)) &&
             if e.Not? then Placed(nodes, lo, e.arg)
             else Placed(nodes, lo, e.left) && Placed(nodes, lo + Size(e.left), e.right))
  }

  lemma {:induction false} PostfixPlaced(x: seq<Node>, e: Expr, y: seq<Node>)
    ensures Placed(x + Postfix(e) + y, |x|, e)
    decreases e
  {
    PostfixSize(e);
    var s := x + Postfix(e) + y;
    if e.Not? {
      assert s == x + Postfix(e.arg) + ([Op('!')] + y);
      PostfixPlaced(x, e.arg, [Op('!')] + y);
    } else if !e.Leaf? {
      PostfixSize(e.left);
      var t := [Op(OpOf(e))] + y;
      assert s == x + Postfix(e.left) + (Postfix(e.right) + t);
      PostfixPlaced(x, e.left, Postfix(e.right) + t);
      assert s == (x + Postfix(e.left)) + Postfix(e.right) + t;
      PostfixPlaced(x + Postfix(e.left), e.right, t);
    }
  }

  /** The items from `lo` on are the postfix form of `e` with the links findoprnd computes. */
  ghost predicate Linked(items: seq<Item>, lo: int, e: Expr)
    decreases e
  {
    && 0 <= lo && lo + Size(e) <= |items|
    && (if e.Leaf? then items[lo] == Item(Value(e.v), 0)
        else if e.Not? then Linked(items, lo, e.arg) && items[lo + Size(e) - 1] == Item(Op('!'), -1)
        else Linked(items, lo, e.left) && Linked(items, lo + Size(e.left), e.right) &&
             items[lo + Size(e) - 1] == Item(Op(OpOf(e)), Int16(-1 - Size(e.right))))
  }

  lemma {:induction false} LinkedFrame(a: seq<Item>, b: seq<Item>, lo: int, e: Expr)
    requires Linked(a, lo, e) && |a| == |b| && forall i :: lo <= i < lo + Size(e) ==> a[i] == b[i]
    ensures Linked(b, lo, e)
    decreases e
  {
    if e.Not? {
      LinkedFrame(a, b, lo, e.arg);
    } else if !e.Leaf? {
      LinkedFrame(a, b, lo, e.left);
      LinkedFrame(a, b, lo + Size(e.left), e.right);
    }
  }

  /** findoprnd works on the array in place and moves `pos` down past the operand it handled. */
  method FindOprnd(ptr: array<Item>, pos: int, ghost nodes: seq<Node>, ghost lo: nat, ghost e: Expr) returns (pos': int)
    requires |nodes| == ptr.Length && forall i :: 0 <= i < |nodes| ==> ptr[i].node == nodes[i]
    requires Placed(nodes, lo, e) && pos == lo + Size(e) - 1
    modifies ptr
    ensures pos' == lo - 1 && Linked(ptr[..], lo, e)
    ensures forall i :: 0 <= i < |nodes| ==> ptr[i].node == nodes[i]
    ensures forall i :: 0 <= i < |nodes| && !(lo <= i < lo + Size(e)) ==> ptr[i] == old(ptr[i])
    decreases e
  {
    assert ptr[pos].node == nodes[pos];
    if ptr[pos].node.Value? {
      assert e.Leaf?;
      ptr[pos] := ptr[pos].(left := 0);
      pos' := pos - 1;
    } else if ptr[pos].node == Op('!') {
      assert e.Not?;
      ptr[pos] := ptr[pos].(left := -1);
      pos' := FindOprnd(ptr, pos - 1, nodes, lo, e.arg);
      assert ptr[..][pos] == Item(Op('!'), -1);
    } else {
      assert Binary(e);
      pos' := FindOprnd(ptr, pos - 1, nodes, lo + Size(e.left), e.right);
      ghost var first := ptr[..];
      ptr[pos] := ptr[pos].(left := Int16(pos' - pos));
      pos' := FindOprnd(ptr, pos', nodes, lo, e.left);
      LinkedBinary(first, ptr[..], lo, e);
    }
  }

  lemma LinkedBinary(first: seq<Item>, items: seq<Item>, lo: nat, e: Expr)
    requires Binary(e) && |first| == |items| && lo + Size(e) <= |items|
    requires Linked(first, lo + Size(e.left), e.right) && Linked(items, lo, e.left)
    requires forall i :: lo + Size(e.left) <= i < lo + Size(e) - 1 ==> items[i] == first[i]
    requires items[lo + Size(e) - 1] == Item(Op(OpOf(e)), Int16(-1 - Size(e.right)))
    ensures Linked(items, lo, e)
  {
    LinkedFrame(first, items, lo + Size(e.left), e.right);
  }

  // ----- do the links lead to the operands? -----

  /** Every right operand is short enough for the link across it to fit in 16 bits. */
  predicate Fits(e: Expr) {
    e.Leaf? || if e.Not? then Fits(e.arg) else Fits(e.left) && Fits(e.right) && Size(e.right) < 0x8000
  }

  /** The right operand of an operator at `cur` ends just before it, the left one at the link. */
  ghost predicate Reaches(items: seq<Item>, cur: int, e: Expr)
    decreases e
  {
    && Size(e) - 1 <= cur < |items|
    && (if e.Leaf? then items[cur].node == Value(e.v)
        else items[cur].node == Op(OpOf(e)) &&
             if e.Not? then Reaches(items, cur - 1, e.arg)
             else Reaches(items, cur - 1, e.right) &&
                  items[cur].left == -1 - Size(e.right) && Reaches(items, cur + items[cur].left, e.left))
  }

  lemma LinkExactIff(n: nat)
    ensures Int16(-1 - n) == -1 - n <==> n < 0x8000
  {
    if n >= 0x8000 { assert Int16(-1 - n) >= -0x8000; }
  }

  /** The links are right exactly when none overflows the 16-bit field. */
  lemma {:induction false} LinksReachIffFits(items: seq<Item>, lo: int, e: Expr)
    requires Linked(items, lo, e)
    ensures Reaches(items, lo + Size(e) - 1, e) <==> Fits(e)
    decreases e
  {
    if e.Not? {
      LinksReachIffFits(items, lo, e.arg);
    } else if !e.Leaf? {
      LinksReachIffFits(items, lo, e.left);
      LinksReachIffFits(items, lo + Size(e.left), e.right);
      LinkExactIff(Size(e.right));
    }
  }
}
