/** Evaluation of linked queries, exact and lossy, and the GIN support functions. */
module QueryEval {
  import opened QueryGrammar
  import opened QueryItems

  /** execute: recursion over the flat array by links. The tree `e` only shows that the links
      lead somewhere; the code never looks at it. With `calcnot` off every '!' counts as true. */
  function Execute(items: seq<Item>, cur: int, ghost e: Expr, calcnot: bool, chk: int -> bool): bool
    requires Reaches(items, cur, e)
    decreases e
  {
    var it := items[cur];
    if it.node.Value? then chk(cur)
    else if it.node.op == '!' then
      if calcnot then !Execute(items, cur - 1, e.arg, calcnot, chk) else true
    else if it.node.op == '&' then
      Execute(items, cur + it.left, e.left, calcnot, chk) && Execute(items, cur - 1, e.right, calcnot, chk)
    else
      Execute(items, cur + it.left, e.left, calcnot, chk) || Execute(items, cur - 1, e.right, calcnot, chk)
  }

  /** The callback answers, for each operand position, what `env` says about its value. */
  ghost predicate Answers(items: seq<Item>, chk: int -> bool, env: int -> bool) {
    forall i :: 0 <= i < |items| && items[i].node.Value? ==> chk(i) == env(items[i].node.v)
  }

  /** Truth value when negations are taken as unknown, that is, possibly true. */
  function Lax(e: Expr, env: int -> bool): bool {
    match e
    case Leaf(v) => env(v)
    case Not(_) => true
    case And(l, r) => Lax(l, env) && Lax(r, env)
    case Or(l, r) => Lax(l, env) || Lax(r, env)
  }

  lemma {:induction false} ExecuteEvaluates(items: seq<Item>, cur: int, e: Expr, chk: int -> bool, env: int -> bool)
    requires Reaches(items, cur, e) && Answers(items, chk, env)
    ensures Execute(items, cur, e, true, chk) == Eval(e, env)
    ensures Execute(items, cur, e, false, chk) == Lax(e, env)
    decreases e
  {
    if e.Not? {
      ExecuteEvaluates(items, cur - 1, e.arg, chk, env);
    } else if !e.Leaf? {
      ExecuteEvaluates(items, cur - 1, e.right, chk, env);
      ExecuteEvaluates(items, cur + items[cur].left, e.left, chk, env);
    }
  }

  /** A key that stands for at least the elements of the indexed array is never pruned wrongly:
      lossy evaluation over it is true whenever the query holds of the array. */
  lemma {:induction false} LaxCoversEval(e: Expr, env: int -> bool, wider: int -> bool)
    requires forall v :: env(v) ==> wider(v)
    ensures Eval(e, env) ==> Lax(e, wider)
    decreases e
  {
    if Binary(e) {
      LaxCoversEval(e.left, env, wider);
      LaxCoversEval(e.right, env, wider);
    }
  }

  // ----- membership by binary search -----

  predicate Sorted(a: seq<int>) { forall i, j :: 0 <= i < j < |a| ==> a[i] <= a[j] }

  /** checkcondition_arr */
  method CheckConditionArr(a: seq<int>, v: int) returns (r: bool)
    requires Sorted(a)
    ensures r <==> v in a
  {
    var lo, hi := 0, |a|;
    while lo < hi
      invariant 0 <= lo <= hi <= |a|
      invariant forall i :: 0 <= i < |a| && a[i] == v ==> lo <= i < hi
    {
      var mid := lo + (hi - lo) / 2;
      if a[mid] == v { return true; }
      if a[mid] < v { lo := mid + 1; } else { hi := mid; }
    }
    return false;
  }

  // ----- GIN -----

  /** The operand values in item order. */
  function Operands(items: seq<Item>): seq<int> {
    if items == [] then []
    else Operands(items[..|items| - 1]) +
         if items[|items| - 1].node.Value? then [items[|items| - 1].node.v] else []
  }

  /** The Boolean branch of ginint4_queryextract. */
  method QueryExtract(items: seq<Item>) returns (res: seq<int>)
    ensures res == Operands(items)
  {
    res := [];
    for i := 0 to |items|
      invariant res == Operands(items[..i])
    {
      assert items[..i + 1][..i] == items[..i];
      if items[i].node.Value? { res := res + [items[i].node.v]; }
    }
    assert items[..|items|] == items;
  }

  lemma {:induction false} OperandsPrefix(items: seq<Item>, i: nat)
    requires i <= |items|
    ensures Operands(items[..i]) <= Operands(items)
    decreases |items|
  {
    if i < |items| {
      OperandsPrefix(items[..|items| - 1], i);
      assert items[..|items| - 1][..i] == items[..i];
    } else {
      assert items[..i] == items;
    }
  }

  /** gin_bool_consistent. If `check` says which extracted values the indexed array has, the
      answer is the value of the query on that array. */
  method GinBoolConsistent(items: seq<Item>, check: seq<bool>, ghost e: Expr, ghost has: int -> bool) returns (r: bool)
    requires items != [] && Reaches(items, |items| - 1, e)
    requires |check| == |Operands(items)|
    requires forall k :: 0 <= k < |check| ==> check[k] == has(Operands(items)[k])
    ensures r == Eval(e, has)
  {
    var mapped := new bool[|items|](_ => false);
    var j := 0;
    for i := 0 to |items|
      invariant j == |Operands(items[..i])|
      invariant forall k :: 0 <= k < i && items[k].node.Value? ==> mapped[k] == has(items[k].node.v)
    {
      assert items[..i + 1][..i] == items[..i];
      if items[i].node.Value? {
        OperandsPrefix(items, i + 1);
        assert Operands(items)[j] == items[i].node.v;
        mapped[i] := check[j];
        j := j + 1;
      }
    }
    var answers := mapped[..];
    var chk := (i: int) => 0 <= i < |answers| && answers[i];
    ExecuteEvaluates(items, |items| - 1, e, chk, has);
    r := Execute(items, |items| - 1, e, true, chk);
  }

  /** contains_required_value */
  function ContainsRequired(items: seq<Item>, cur: int, ghost e: Expr): bool
    requires Reaches(items, cur, e)
    decreases e
  {
    var it := items[cur];
    if it.node.Value? then true
    else if it.node.op == '!' then false
    else if it.node.op == '&' then
      ContainsRequired(items, cur + it.left, e.left) || ContainsRequired(items, cur - 1, e.right)
    else
      ContainsRequired(items, cur + it.left, e.left) && ContainsRequired(items, cur - 1, e.right)
  }

  lemma {:induction false} OperandsContain(items: seq<Item>, i: nat)
    requires i < |items| && items[i].node.Value?
    ensures items[i].node.v in Operands(items)
    decreases |items|
  {
    if i < |items| - 1 { OperandsContain(items[..|items| - 1], i); }
  }

  /** A query has a required value exactly when lossy evaluation rejects the empty array. */
  lemma {:induction false} RequiredIffLaxRejectsEmpty(items: seq<Item>, cur: int, e: Expr)
    requires Reaches(items, cur, e)
    ensures ContainsRequired(items, cur, e) <==> !Lax(e, v => false)
    decreases e
  {
    if Binary(e) {
      RequiredIffLaxRejectsEmpty(items, cur + items[cur].left, e.left);
      RequiredIffLaxRejectsEmpty(items, cur - 1, e.right);
    }
  }

  /** Looking only at rows that have an extracted value misses no match: a query with a required
      value holds only of arrays that have some operand value. */
  lemma {:induction false} RequiredValueFound(items: seq<Item>, cur: int, e: Expr, env: int -> bool)
    requires Reaches(items, cur, e) && ContainsRequired(items, cur, e) && Eval(e, env)
    ensures exists v :: v in Operands(items) && env(v)
    decreases e
  {
    if e.Leaf? {
      OperandsContain(items, cur);
    } else {
      var l := cur + items[cur].left;
      if ContainsRequired(items, l, e.left) && Eval(e.left, env) {
        RequiredValueFound(items, l, e.left, env);
      } else {
        RequiredValueFound(items, cur - 1, e.right, env);
      }
    }
  }

  /** The whole path from an accepted query to its answer, for every assignment of truth values. */
  lemma LinkedQueryEvaluates(items: seq<Item>, e: Expr, env: int -> bool)
    requires Linked(items, 0, e) && |items| == Size(e) && Fits(e)
    ensures Reaches(items, |items| - 1, e)
    ensures Execute(items, |items| - 1, e, true, (i: int) => 0 <= i < |items| && items[i].node.Value? &&
        env(items[i].node.v)) == Eval(e, env)
  {
    LinksReachIffFits(items, 0, e);
    var chk := (i: int) => 0 <= i < |items| && items[i].node.Value? && env(items[i].node.v);
    ExecuteEvaluates(items, |items| - 1, e, chk, env);
  }
}
