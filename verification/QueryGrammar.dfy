/** Syntax of intarray Boolean queries: tokens, derivations, expression trees and
    their postfix form. Nothing here follows the C code; the reader, the evaluator
    and the printer are stated against these definitions. */
module QueryGrammar {
  datatype Token = Val(v: int) | Opr(op: char) | Open | Close | End | Err

  /** One element of a query in postfix order. */
  datatype Node = Value(v: int) | Op(op: char)

  datatype Expr = Leaf(v: int) | Not(arg: Expr) | And(left: Expr, right: Expr) | Or(left: Expr, right: Expr)

  function Eval(e: Expr, env: int -> bool): bool {
    match e
    case Leaf(v) => env(v)
    case Not(a) => !Eval(a, env)
    case And(l, r) => Eval(l, env) && Eval(r, env)
    case Or(l, r) => Eval(l, env) || Eval(r, env)
  }

  function Postfix(e: Expr): (p: seq<Node>)
    ensures |p| > 0
    ensures p[|p| - 1].Value? <==> e.Leaf?
  {
    match e
    case Leaf(v) => [Value(v)]
    case Not(a) => Postfix(a) + [Op('!')]
    case And(l, r) => Postfix(l) + Postfix(r) + [Op('&')]
    case Or(l, r) => Postfix(l) + Postfix(r) + [Op('|')]
  }

  // Derivations of the left-associative grammar, ! above & above |:
  //   disj ::= conj | disj '|' conj      conj ::= unary | conj '&' unary
  //   unary ::= number | '!' unary | '(' disj ')'

  datatype Disj = DOne(c: Conj) | DMore(d: Disj, c: Conj)
  datatype Conj = COne(u: Unary) | CMore(c: Conj, u: Unary)
  datatype Unary = UVal(v: int) | UNot(u: Unary) | UParen(d: Disj)

  function YieldD(d: Disj): seq<Token> {
    match d
    case DOne(c) => YieldC(c)
    case DMore(d', c) => YieldD(d') + [Opr('|')] + YieldC(c)
  }

  function YieldC(c: Conj): seq<Token> {
    match c
    case COne(u) => YieldU(u)
    case CMore(c', u) => YieldC(c') + [Opr('&')] + YieldU(u)
  }

  function YieldU(u: Unary): seq<Token> {
    match u
    case UVal(v) => [Val(v)]
    case UNot(u') => [Opr('!')] + YieldU(u')
    case UParen(d) => [Open] + YieldD(d) + [Close]
  }

  function TreeD(d: Disj): Expr {
    match d
    case DOne(c) => TreeC(c)
    case DMore(d', c) => Or(TreeD(d'), TreeC(c))
  }

  function TreeC(c: Conj): Expr {
    match c
    case COne(u) => TreeU(u)
    case CMore(c', u) => And(TreeC(c'), TreeU(u))
  }

  function TreeU(u: Unary): Expr {
    match u
    case UVal(v) => Leaf(v)
    case UNot(u') => Not(TreeU(u'))
    case UParen(d) => TreeD(d)
  }

  /** Operators that may wait on one nesting level before the reader gives up. */
  const STACKDEPTH := 16

  /** No operand of the derivation has STACKDEPTH or more operators of its own level waiting
      in front of one of its '!' signs. */
  predicate ShallowD(d: Disj) {
    match d
    case DOne(c) => ShallowC(c, 0)
    case DMore(d', c) => ShallowD(d') && ShallowC(c, 1)
  }

  predicate ShallowC(c: Conj, waiting: nat) {
    match c
    case COne(u) => ShallowU(u, waiting)
    case CMore(c', u) => ShallowC(c', waiting) && ShallowU(u, waiting + 1)
  }

  predicate ShallowU(u: Unary, waiting: nat) {
    match u
    case UVal(_) => true
    case UNot(u') => waiting < STACKDEPTH && ShallowU(u', waiting + 1)
    case UParen(d) => ShallowD(d)
  }
}
