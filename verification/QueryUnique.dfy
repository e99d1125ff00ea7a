/** The grammar of intarray queries is unambiguous, at any nesting. */
module QueryUnique {
  import opened QueryGrammar

  predicate EndsWith(x: seq<Token>, op: char) { x != [] && x[|x| - 1] == Opr(op) }

  /** Two sequences that end in the same token agree before it. */
  lemma SameFront(x1: seq<Token>, t1: Token, x2: seq<Token>, t2: Token)
    requires x1 + [t1] == x2 + [t2]
    ensures x1 == x2 && t1 == t2
  {
    var p1, p2 := x1 + [t1], x2 + [t2];
    assert p1[|p1| - 1] == p2[|p2| - 1];
    assert p1[..|p1| - 1] == x1 && p2[..|p2| - 1] == x2;
  }

  lemma Assoc(a: seq<Token>, b: seq<Token>, c: seq<Token>)
    ensures a + (b + c) == a + b + c
  {
  }

  // ----- an operand without its '!' signs -----

  function Base(u: Unary): Unary { if u.UNot? then Base(u.u) else u }

  function Nots(u: Unary): seq<Token> { if u.UNot? then [Opr('!')] + Nots(u.u) else [] }

  lemma {:induction false} NotsFront(u: Unary)
    ensures YieldU(u) == Nots(u) + YieldU(Base(u)) && !Base(u).UNot?
  {
    if u.UNot? {
      NotsFront(u.u);
      Assoc([Opr('!')], Nots(u.u), YieldU(Base(u)));
    }
  }

  /** What is in front of the '!' signs tells how many there are. */
  lemma {:induction false} NotsUnique(x1: seq<Token>, u1: Unary, x2: seq<Token>, u2: Unary)
    requires !EndsWith(x1, '!') && !EndsWith(x2, '!')
    requires x1 + Nots(u1) == x2 + Nots(u2) && Base(u1) == Base(u2)
    ensures x1 == x2 && u1 == u2
    decreases u1
  {
    NotsShift(x1, u1);
    NotsShift(x2, u2);
    if u1.UNot? && u2.UNot? {
      NotsMore(u1);
      NotsMore(u2);
      Assoc(x1, Nots(u1.u), [Opr('!')]);
      Assoc(x2, Nots(u2.u), [Opr('!')]);
      SameFront(x1 + Nots(u1.u), Opr('!'), x2 + Nots(u2.u), Opr('!'));
      NotsUnique(x1, u1.u, x2, u2.u);
    }
  }

  lemma {:induction false} NotsMore(u: Unary)
    requires u.UNot?
    ensures Nots(u) == Nots(u.u) + [Opr('!')]
  {
    if u.u.UNot? {
      NotsMore(u.u);
      Assoc([Opr('!')], Nots(u.u.u), [Opr('!')]);
    }
  }

  lemma NotsShift(x: seq<Token>, u: Unary)
    ensures u.UNot? ==> EndsWith(x + Nots(u), '!')
    ensures !u.UNot? ==> x + Nots(u) == x
  {
    if u.UNot? { NotsMore(u); }
  }

  // ----- one token sequence, one derivation -----

  lemma {:induction false} UnaryUnique(x1: seq<Token>, u1: Unary, x2: seq<Token>, u2: Unary)
    requires !EndsWith(x1, '!') && !EndsWith(x2, '!')
    requires x1 + YieldU(u1) == x2 + YieldU(u2)
    ensures x1 == x2 && u1 == u2
    decreases u1, 0
  {
    NotsFront(u1);
    NotsFront(u2);
    BaseSmaller(u1);
    Assoc(x1, Nots(u1), YieldU(Base(u1)));
    Assoc(x2, Nots(u2), YieldU(Base(u2)));
    BaseUnique(x1 + Nots(u1), Base(u1), x2 + Nots(u2), Base(u2), u1);
    NotsUnique(x1, u1, x2, u2);
  }

  /** `of` is the operand whose base `u1` is, or one around it. */
  lemma {:induction false} BaseUnique(x1: seq<Token>, u1: Unary, x2: seq<Token>, u2: Unary, of: Unary)
    requires !u1.UNot? && !u2.UNot? && (u1 == of || u1 < of)
    requires x1 + YieldU(u1) == x2 + YieldU(u2)
    ensures x1 == x2 && u1 == u2
    decreases of, 0, 0
  {
    match u1 {
      case UVal(v) =>
        LastOf(x2, u2);
        SameFront(x1, Val(v), BaseFront(x2, u2), LastToken(u2));
      case UParen(d) =>
        LastOf(x1, u1);
        LastOf(x2, u2);
        SameFront(BaseFront(x1, u1), Close, BaseFront(x2, u2), LastToken(u2));
        DisjUnique(x1 + [Open], d, x2 + [Open], u2.d);
        SameFront(x1, Open, x2, Open);
    }
  }

  function LastToken(u: Unary): Token
    requires !u.UNot?
  {
    if u.UVal? then Val(u.v) else Close
  }

  /** What stands before the last token of an operand that follows `x`. */
  function BaseFront(x: seq<Token>, u: Unary): seq<Token>
    requires !u.UNot?
  {
    if u.UVal? then x else x + [Open] + YieldD(u.d)
  }

  lemma LastOf(x: seq<Token>, u: Unary)
    requires !u.UNot?
    ensures x + YieldU(u) == BaseFront(x, u) + [LastToken(u)]
  {
  }

  lemma {:induction false} BaseSmaller(u: Unary)
    ensures Base(u) == u || Base(u) < u
  {
    if u.UNot? { BaseSmaller(u.u); }
  }

  lemma {:induction false} ConjUnique(x1: seq<Token>, c1: Conj, x2: seq<Token>, c2: Conj)
    requires !EndsWith(x1, '!') && !EndsWith(x2, '!') && !EndsWith(x1, '&') && !EndsWith(x2, '&')
    requires x1 + YieldC(c1) == x2 + YieldC(c2)
    ensures x1 == x2 && c1 == c2
    decreases c1
  {
    ConjSplit(x1, c1);
    ConjSplit(x2, c2);
    UnaryUnique(ConjFront(x1, c1), c1.u, ConjFront(x2, c2), c2.u);
    if c1.CMore? && c2.CMore? {
      SameFront(x1 + YieldC(c1.c), Opr('&'), x2 + YieldC(c2.c), Opr('&'));
      ConjUnique(x1, c1.c, x2, c2.c);
    }
  }

  /** What stands before the last operand of a conjunction that follows `x`. */
  function ConjFront(x: seq<Token>, c: Conj): seq<Token> {
    if c.COne? then x else x + YieldC(c.c) + [Opr('&')]
  }

  lemma ConjSplit(x: seq<Token>, c: Conj)
    ensures x + YieldC(c) == ConjFront(x, c) + YieldU(c.u)
  {
  }

  lemma {:induction false} DisjUnique(x1: seq<Token>, d1: Disj, x2: seq<Token>, d2: Disj)
    requires x1 == [] || !x1[|x1| - 1].Opr?
    requires x2 == [] || !x2[|x2| - 1].Opr?
    requires x1 + YieldD(d1) == x2 + YieldD(d2)
    ensures x1 == x2 && d1 == d2
    decreases d1
  {
    DisjSplit(x1, d1);
    DisjSplit(x2, d2);
    ConjUnique(DisjFront(x1, d1), d1.c, DisjFront(x2, d2), d2.c);
    if d1.DMore? && d2.DMore? {
      SameFront(x1 + YieldD(d1.d), Opr('|'), x2 + YieldD(d2.d), Opr('|'));
      DisjUnique(x1, d1.d, x2, d2.d);
    }
  }

  /** What stands before the last conjunction of a disjunction that follows `x`. */
  function DisjFront(x: seq<Token>, d: Disj): seq<Token> {
    if d.DOne? then x else x + YieldD(d.d) + [Opr('|')]
  }

  lemma DisjSplit(x: seq<Token>, d: Disj)
    ensures x + YieldD(d) == DisjFront(x, d) + YieldC(d.c)
  {
  }

  /** One token sequence, one derivation. */
  lemma YieldInjective(d1: Disj, d2: Disj)
    requires YieldD(d1) == YieldD(d2)
    ensures d1 == d2
  {
    assert [] + YieldD(d1) == YieldD(d1) && [] + YieldD(d2) == YieldD(d2);
    DisjUnique([], d1, [], d2);
  }
}
