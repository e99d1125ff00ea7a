/** Grammar of hstore texts, stated without the scanners, and their agreement with it. */
module HstoreGrammar {
  import opened Wrappers
  import opened ByteStrings
  import opened SortedMaps
  import opened HstoreLayout
  import opened HstoreText

  // text  ::= space* | pair (',' pair)* [',' space*]
  // pair  ::= space* word space* '=' '>' space* word space*
  // word  ::= '"' glyph* '"' | glyph glyph*
  // glyph ::= byte | '\' byte

  /** Blank, tab, newline, vertical tab, form feed and carriage return. */
  predicate White(c: byte) { c in {32, 9, 10, 11, 12, 13} }

  lemma Characters(c: byte)
    ensures White(c) <==> IsSpace(c)
    ensures QUOTE == '"' as int && BACKSLASH == '\\' as int && EQUALS == '=' as int
    ensures GREATER == '>' as int && COMMA == ',' as int
  {
  }

  datatype Glyph = Plain(c: byte) | Escaped(c: byte)

  datatype Spelt = Quotes(gs: seq<Glyph>) | Bare(gs: seq<Glyph>)

  function Ink(gs: seq<Glyph>): Bytes {
    if gs == [] then [] else (if gs[0].Plain? then [gs[0].c] else [BACKSLASH, gs[0].c]) + Ink(gs[1..])
  }

  function Meaning(gs: seq<Glyph>): (w: Bytes)
    ensures |w| == |gs|
  {
    if gs == [] then [] else [gs[0].c] + Meaning(gs[1..])
  }

  /** Inside quotes anything but quotes and backslashes stands for itself. */
  predicate QuotesOk(gs: seq<Glyph>) {
    forall i :: 0 <= i < |gs| && gs[i].Plain? ==> gs[i].c != QUOTE && gs[i].c != BACKSLASH
  }

  /** Ends an unquoted key, or an unquoted value. */
  function Mark(key: bool): byte { if key then EQUALS else COMMA }

  /** Outside of quotes white space and the mark end the word; the first byte must not be a quote, nor,
      in a key, an equals sign, while a value may begin with a comma. */
  predicate BareOk(gs: seq<Glyph>, key: bool) {
    gs != [] && FirstOk(gs[0], key) && RestOk(gs[1..], key)
  }

  predicate FirstOk(g: Glyph, key: bool) {
    g.Plain? ==> !White(g.c) && g.c != BACKSLASH && g.c != QUOTE && (key ==> g.c != EQUALS)
  }

  predicate RestOk(gs: seq<Glyph>, key: bool) {
    forall i :: 0 <= i < |gs| && gs[i].Plain? ==> !White(gs[i].c) && gs[i].c != BACKSLASH && gs[i].c != Mark(key)
  }

  predicate WordOk(w: Spelt, key: bool) {
    |w.gs| <= WORD_MAX && if w.Quotes? then QuotesOk(w.gs) else BareOk(w.gs, key)
  }

  function WordInk(w: Spelt): Bytes { if w.Quotes? then [QUOTE] + (Ink(w.gs) + [QUOTE]) else Ink(w.gs) }

  /** The four letters, in either case. */
  predicate SpellsNull(w: Bytes) {
    |w| == 4 && w[0] in {78, 110} && w[1] in {85, 117} && w[2] in {76, 108} && w[3] in {76, 108}
  }

  function ValueIn(w: Spelt): Option<Bytes> {
    if w.Bare? && SpellsNull(Meaning(w.gs)) then None else Some(Meaning(w.gs))
  }

  predicate Space(t: Bytes) { forall i :: 0 <= i < |t| ==> White(t[i]) }

  /** A pair with the white space around its words. */
  datatype Clause = Clause(s1: Bytes, key: Spelt, s2: Bytes, s3: Bytes, val: Spelt, s4: Bytes)

  predicate ClauseOk(e: Clause) {
    Space(e.s1) && Space(e.s2) && Space(e.s3) && Space(e.s4) && WordOk(e.key, true) && WordOk(e.val, false)
  }

  function ClauseInk(e: Clause): Bytes { e.s1 + (WordInk(e.key) + (e.s2 + ([EQUALS, GREATER] + ValueInk(e)))) }

  function ValueInk(e: Clause): Bytes { e.s3 + (WordInk(e.val) + e.s4) }

  function ClausePair(e: Clause): KeyValue { Pair(Meaning(e.key.gs), ValueIn(e.val)) }

  /** Entries with commas between them; `tail` is white space behind a last comma, or all there is. */
  function TextInk(es: seq<Clause>, tail: Option<Bytes>): Bytes {
    if es == [] then if tail.Some? then tail.value else []
    else if |es| == 1 && tail.None? then ClauseInk(es[0])
    else ClauseInk(es[0]) + ([COMMA] + TextInk(es[1..], tail))
  }

  function PairsIn(es: seq<Clause>): (ps: seq<KeyValue>)
    ensures |ps| == |es| && forall i :: 0 <= i < |es| ==> ps[i] == ClausePair(es[i])
  {
    seq(|es|, i requires 0 <= i < |es| => ClausePair(es[i]))
  }

  predicate TextOk(es: seq<Clause>, tail: Option<Bytes>) {
    (forall i :: 0 <= i < |es| ==> ClauseOk(es[i])) && (tail.Some? ==> Space(tail.value)) && (es == [] ==> tail.Some?)
  }

  /** The text derives the pairs. */
  ghost predicate Derives(t: Bytes, ps: seq<KeyValue>) {
    exists es, tail :: TextOk(es, tail) && t == TextInk(es, tail) && ps == PairsIn(es)
  }

  // ----- words: what is derived is read -----

  lemma IsNullSame(w: Bytes)
    ensures IsNullWord(w) <==> SpellsNull(w)
  {
  }

  lemma InkPush(g: Glyph, gs: seq<Glyph>, u: Bytes)
    ensures Ink([g] + gs) + u == (if g.Plain? then [g.c] else [BACKSLASH, g.c]) + (Ink(gs) + u)
    ensures Meaning([g] + gs) == [g.c] + Meaning(gs)
  {
    assert ([g] + gs)[1..] == gs;
    Cat(if g.Plain? then [g.c] else [BACKSLASH, g.c], Ink(gs), u);
  }

  lemma Head(gs: seq<Glyph>)
    requires gs != []
    ensures gs == [gs[0]] + gs[1..]
  {
  }

  /** A backslash and the byte behind it. */
  lemma EscapeRead(c: byte, t: Bytes, st: Mode, word: Bytes, escaped: bool, ig: bool)
    requires |word| < WORD_MAX && !st.WaitEscIn? && !st.WaitEscEscIn?
    ensures GetVal([BACKSLASH, c] + t, st, word, escaped, ig) ==
      GetVal(t, if st.InEscVal? then InEscVal else InVal, word + [c], escaped, ig)
  {
    assert [BACKSLASH, c] + t == [BACKSLASH] + ([c] + t);
    Cons(BACKSLASH, [c] + t);
    Cons(c, t);
  }

  lemma {:induction false} QuotesRead(gs: seq<Glyph>, u: Bytes, word: Bytes, ig: bool)
    requires QuotesOk(gs) && |word| + |gs| <= WORD_MAX
    ensures GetVal(Ink(gs) + ([QUOTE] + u), InEscVal, word, true, ig) == Word(word + Meaning(gs), true, u)
    decreases |gs|
  {
    if gs == [] {
      assert Ink(gs) + ([QUOTE] + u) == [QUOTE] + u && word + Meaning(gs) == word;
      Cons(QUOTE, u);
    } else {
      var g, rest := gs[0], gs[1..];
      Head(gs);
      InkPush(g, rest, [QUOTE] + u);
      QuotesRead(rest, u, word + [g.c], ig);
      Cat(word, [g.c], Meaning(rest));
      if g.Plain? { Cons(g.c, Ink(rest) + ([QUOTE] + u)); }
      else { EscapeRead(g.c, Ink(rest) + ([QUOTE] + u), InEscVal, word, true, ig); }
    }
  }

  /** What may stand behind an unquoted word. */
  predicate EndsBare(u: Bytes, key: bool) { u == [] || IsSpace(u[0]) || u[0] == Mark(key) }

  /** What the scanner leaves of it: one space is consumed. */
  function Left(u: Bytes): Bytes { if u != [] && IsSpace(u[0]) then u[1..] else u }

  lemma {:induction false} RestRead(gs: seq<Glyph>, u: Bytes, word: Bytes, key: bool)
    requires RestOk(gs, key) && EndsBare(u, key) && |word| + |gs| <= WORD_MAX
    ensures GetVal(Ink(gs) + u, InVal, word, false, !key) == Word(word + Meaning(gs), false, Left(u))
    decreases |gs|
  {
    if gs == [] {
      assert Ink(gs) + u == u && word + Meaning(gs) == word;
    } else {
      var g, rest := gs[0], gs[1..];
      Head(gs);
      InkPush(g, rest, u);
      RestRead(rest, u, word + [g.c], key);
      Cat(word, [g.c], Meaning(rest));
      if g.Plain? { Cons(g.c, Ink(rest) + u); } else { EscapeRead(g.c, Ink(rest) + u, InVal, word, false, !key); }
    }
  }

  lemma BareRead(gs: seq<Glyph>, u: Bytes, key: bool)
    requires BareOk(gs, key) && EndsBare(u, key) && |gs| <= WORD_MAX
    ensures GetVal(Ink(gs) + u, WaitVal, [], false, !key) == Word(Meaning(gs), false, Left(u))
  {
    var g, rest := gs[0], gs[1..];
    Head(gs);
    InkPush(g, rest, u);
    RestRead(rest, u, [g.c], key);
    assert [] + [g.c] == [g.c];
    if g.Plain? { Cons(g.c, Ink(rest) + u); } else { EscapeRead(g.c, Ink(rest) + u, WaitVal, [], false, !key); }
  }

  lemma {:induction false} SpaceSkipped(s: Bytes, t: Bytes, ig: bool)
    requires Space(s)
    ensures GetVal(s + t, WaitVal, [], false, ig) == GetVal(t, WaitVal, [], false, ig)
    decreases |s|
  {
    if s == [] {
      assert s + t == t;
    } else {
      assert s + t == [s[0]] + (s[1..] + t);
      Cons(s[0], s[1..] + t);
      SpaceSkipped(s[1..], t, ig);
    }
  }

  /** What the scanner leaves behind a word. */
  function LeftOf(w: Spelt, u: Bytes): Bytes { if w.Quotes? then u else Left(u) }

  lemma WordRead(s: Bytes, w: Spelt, u: Bytes, key: bool)
    requires Space(s) && WordOk(w, key) && (w.Bare? ==> EndsBare(u, key))
    ensures GetVal(s + (WordInk(w) + u), WaitVal, [], false, !key) == Word(Meaning(w.gs), w.Quotes?, LeftOf(w, u))
  {
    SpaceSkipped(s, WordInk(w) + u, !key);
    if w.Bare? {
      BareRead(w.gs, u, key);
    } else {
      Cat([QUOTE], Ink(w.gs) + [QUOTE], u);
      Cat(Ink(w.gs), [QUOTE], u);
      Cons(QUOTE, Ink(w.gs) + ([QUOTE] + u));
      QuotesRead(w.gs, u, [], !key);
      assert [] + Meaning(w.gs) == Meaning(w.gs);
    }
  }

  // ----- texts: what is derived is read -----

  lemma {:induction false} EqRead(s: Bytes, t: Bytes, key: Bytes, pairs: seq<KeyValue>)
    requires Space(s)
    ensures Parse(s + ([EQUALS, GREATER] + t), WEq, key, pairs) == Parse(t, WVal, key, pairs)
    decreases |s|
  {
    var rest := [EQUALS, GREATER] + t;
    if s == [] {
      assert s + rest == [EQUALS] + ([GREATER] + t);
      Cons(EQUALS, [GREATER] + t);
      Cons(GREATER, t);
    } else {
      assert s + rest == [s[0]] + (s[1..] + rest);
      Cons(s[0], s[1..] + rest);
      EqRead(s[1..], t, key, pairs);
    }
  }

  /** Behind a pair: the end, or a comma and more. */
  lemma {:induction false} DelRead(s: Bytes, t: Bytes, pairs: seq<KeyValue>)
    requires Space(s)
    ensures Parse(s, WDel, [], pairs) == Ok(pairs)
    ensures Parse(s + ([COMMA] + t), WDel, [], pairs) == Parse(t, WKey, [], pairs)
    decreases |s|
  {
    if s == [] {
      assert s + ([COMMA] + t) == [COMMA] + t;
      Cons(COMMA, t);
    } else {
      assert s + ([COMMA] + t) == [s[0]] + (s[1..] + ([COMMA] + t));
      Cons(s[0], s[1..] + ([COMMA] + t));
      DelRead(s[1..], t, pairs);
    }
  }

  /** A space that the scanner consumed would have been skipped. */
  lemma LeftSkipped(w: Spelt, u: Bytes, st: Phase, key: Bytes, pairs: seq<KeyValue>)
    requires st == WEq || (st == WDel && key == [])
    ensures Parse(LeftOf(w, u), st, key, pairs) == Parse(u, st, key, pairs)
  {
  }

  /** Behind the key of an entry, and behind its value, with r after the entry. */
  function AfterKey(e: Clause, r: Bytes): Bytes { e.s2 + ([EQUALS, GREATER] + (e.s3 + (WordInk(e.val) + (e.s4 + r)))) }

  lemma ClauseShape(e: Clause, r: Bytes)
    ensures ClauseInk(e) + r == e.s1 + (WordInk(e.key) + AfterKey(e, r))
  {
    var v := WordInk(e.val);
    Cat(e.s1, WordInk(e.key) + (e.s2 + ([EQUALS, GREATER] + ValueInk(e))), r);
    Cat(WordInk(e.key), e.s2 + ([EQUALS, GREATER] + ValueInk(e)), r);
    Cat(e.s2, [EQUALS, GREATER] + ValueInk(e), r);
    Cat([EQUALS, GREATER], ValueInk(e), r);
    Cat(e.s3, v + e.s4, r);
    Cat(v, e.s4, r);
  }

  lemma ClauseRead(e: Clause, r: Bytes, pairs: seq<KeyValue>)
    requires ClauseOk(e) && Ends(r) && |pairs| < PAIRS_MAX
    ensures Parse(ClauseInk(e) + r, WKey, [], pairs) == Parse(e.s4 + r, WDel, [], pairs + [ClausePair(e)])
  {
    var u, v := AfterKey(e, r), e.s4 + r;
    ClauseShape(e, r);
    AfterKeyEnds(e, r);
    WordRead(e.s1, e.key, u, true);
    LeftSkipped(e.key, u, WEq, Meaning(e.key.gs), pairs);
    EqRead(e.s2, e.s3 + (WordInk(e.val) + v), Meaning(e.key.gs), pairs);
    WordRead(e.s3, e.val, v, false);
    IsNullSame(Meaning(e.val.gs));
    LeftSkipped(e.val, v, WDel, [], pairs + [ClausePair(e)]);
  }

  lemma AfterKeyEnds(e: Clause, r: Bytes)
    requires ClauseOk(e) && Ends(r)
    ensures EndsBare(AfterKey(e, r), true) && EndsBare(e.s4 + r, false)
  {
    var u := AfterKey(e, r);
    if e.s2 == [] { assert u[0] == EQUALS; } else { assert u[0] == e.s2[0]; }
    if e.s4 != [] { assert (e.s4 + r)[0] == e.s4[0]; } else { assert e.s4 + r == r; }
  }

  lemma TextPush(e: Clause, rest: seq<Clause>, tail: Option<Bytes>, pairs: seq<KeyValue>)
    requires rest == [] ==> tail.Some?
    ensures TextInk([e] + rest, tail) == ClauseInk(e) + ([COMMA] + TextInk(rest, tail))
    ensures pairs + PairsIn([e] + rest) == (pairs + [ClausePair(e)]) + PairsIn(rest)
  {
    var es := [e] + rest;
    assert es[1..] == rest;
    assert PairsIn(es) == [ClausePair(e)] + PairsIn(rest);
  }

  lemma ClauseThen(e: Clause, t: Bytes, pairs: seq<KeyValue>)
    requires ClauseOk(e) && |pairs| < PAIRS_MAX
    ensures Parse(ClauseInk(e) + ([COMMA] + t), WKey, [], pairs) == Parse(t, WKey, [], pairs + [ClausePair(e)])
  {
    ClauseRead(e, [COMMA] + t, pairs);
    DelRead(e.s4, t, pairs + [ClausePair(e)]);
  }

  lemma ClauseLast(e: Clause, pairs: seq<KeyValue>)
    requires ClauseOk(e) && |pairs| < PAIRS_MAX
    ensures Parse(ClauseInk(e), WKey, [], pairs) == Ok(pairs + [ClausePair(e)])
  {
    ClauseRead(e, [], pairs);
    assert ClauseInk(e) + [] == ClauseInk(e) && e.s4 + [] == e.s4;
    DelRead(e.s4, [], pairs + [ClausePair(e)]);
  }

  lemma BlankRead(s: Bytes, pairs: seq<KeyValue>)
    requires Space(s)
    ensures Parse(s, WKey, [], pairs) == Ok(pairs)
  {
    SpaceSkipped(s, [], false);
    assert s + [] == s;
  }

  lemma {:induction false} TextRead(es: seq<Clause>, tail: Option<Bytes>, pairs: seq<KeyValue>)
    requires TextOk(es, tail) && |pairs| + |es| <= PAIRS_MAX
    ensures Parse(TextInk(es, tail), WKey, [], pairs) == Ok(pairs + PairsIn(es))
    decreases |es|
  {
    if es == [] {
      BlankRead(tail.value, pairs);
      assert pairs + PairsIn(es) == pairs;
    } else if |es| == 1 && tail.None? {
      ClauseLast(es[0], pairs);
      assert PairsIn(es) == [ClausePair(es[0])];
    } else {
      var e, rest := es[0], es[1..];
      assert es == [e] + rest;
      TextPush(e, rest, tail, pairs);
      ClauseThen(e, TextInk(rest, tail), pairs);
      TextRead(rest, tail, pairs + [ClausePair(e)]);
    }
  }

  // ----- words: what is read is derived -----

  /** A backslash in a word that was read has a byte behind it, and room for that byte. */
  lemma EscapeFound(t: Bytes, st: Mode, word: Bytes, escaped: bool, ig: bool)
    requires t != [] && t[0] == BACKSLASH && !st.WaitEscIn? && !st.WaitEscEscIn?
    requires GetVal(t, st, word, escaped, ig).Word?
    ensures |t| >= 2 && t == [BACKSLASH, t[1]] + t[2..] && |word| < WORD_MAX
    ensures GetVal(t, st, word, escaped, ig) ==
      GetVal(t[2..], if st.InEscVal? then InEscVal else InVal, word + [t[1]], escaped, ig)
  {
    if |t| >= 2 && |word| < WORD_MAX {
      assert t == [BACKSLASH, t[1]] + t[2..];
      EscapeRead(t[1], t[2..], st, word, escaped, ig);
    }
  }

  /** One more glyph in front. */
  lemma GlyphFound(g: Glyph, rest: seq<Glyph>, t: Bytes, t': Bytes, u: Bytes, word: Bytes)
    requires t == (if g.Plain? then [g.c] else [BACKSLASH, g.c]) + t' && t' == Ink(rest) + u
    ensures t == Ink([g] + rest) + u && (word + [g.c]) + Meaning(rest) == word + Meaning([g] + rest)
  {
    InkPush(g, rest, u);
    Cat(word, [g.c], Meaning(rest));
  }

  lemma {:induction false} QuotesFound(t: Bytes, word: Bytes, ig: bool) returns (gs: seq<Glyph>, u: Bytes)
    requires |word| <= WORD_MAX && GetVal(t, InEscVal, word, true, ig).Word?
    ensures QuotesOk(gs) && |word| + |gs| <= WORD_MAX && t == Ink(gs) + ([QUOTE] + u)
    ensures GetVal(t, InEscVal, word, true, ig) == Word(word + Meaning(gs), true, u)
    decreases |t|
  {
    if t[0] == QUOTE {
      gs, u := [], t[1..];
      assert t == [] + ([QUOTE] + u) && word + Meaning(gs) == word;
    } else {
      var g, t' := Plain(t[0]), t[1..];
      if t[0] == BACKSLASH {
        EscapeFound(t, InEscVal, word, true, ig);
        g, t' := Escaped(t[1]), t[2..];
      } else {
        assert t == [t[0]] + t[1..];
      }
      var rest;
      rest, u := QuotesFound(t', word + [g.c], ig);
      gs := [g] + rest;
      GlyphFound(g, rest, t, t', [QUOTE] + u, word);
    }
  }

  /** The next glyph of an unquoted word that goes on. */
  lemma RestGlyph(t: Bytes, word: Bytes, key: bool) returns (g: Glyph, t': Bytes)
    requires t != [] && !IsSpace(t[0]) && t[0] != Mark(key) && GetVal(t, InVal, word, false, !key).Word?
    ensures RestOk([g], key) && |word| < WORD_MAX && |t'| < |t|
    ensures t == (if g.Plain? then [g.c] else [BACKSLASH, g.c]) + t'
    ensures GetVal(t, InVal, word, false, !key) == GetVal(t', InVal, word + [g.c], false, !key)
  {
    if t[0] == BACKSLASH {
      EscapeFound(t, InVal, word, false, !key);
      g, t' := Escaped(t[1]), t[2..];
    } else {
      g, t' := Plain(t[0]), t[1..];
      assert t == [t[0]] + t[1..];
    }
  }

  lemma {:induction false} RestFound(t: Bytes, word: Bytes, key: bool) returns (gs: seq<Glyph>, u: Bytes)
    requires |word| <= WORD_MAX && GetVal(t, InVal, word, false, !key).Word?
    ensures RestOk(gs, key) && |word| + |gs| <= WORD_MAX && t == Ink(gs) + u && EndsBare(u, key)
    ensures GetVal(t, InVal, word, false, !key) == Word(word + Meaning(gs), false, Left(u))
    decreases |t|
  {
    if EndsBare(t, key) {
      gs, u := [], t;
      assert t == [] + u && word + Meaning(gs) == word;
      RestRead([], u, word, key);
    } else {
      var g, t' := RestGlyph(t, word, key);
      var rest;
      rest, u := RestFound(t', word + [g.c], key);
      gs := [g] + rest;
      GlyphFound(g, rest, t, t', u, word);
      RestOkPush(g, rest, key);
    }
  }

  lemma RestOkPush(g: Glyph, rest: seq<Glyph>, key: bool)
    requires RestOk([g], key) && RestOk(rest, key)
    ensures RestOk([g] + rest, key)
  {
    assert [g][0] == g;
  }

  /** A word that starts at once. */
  lemma StartFound(t: Bytes, key: bool) returns (w: Spelt, u: Bytes)
    requires t != [] && !IsSpace(t[0]) && GetVal(t, WaitVal, [], false, !key).Word?
    ensures WordOk(w, key) && (w.Bare? ==> EndsBare(u, key)) && t == WordInk(w) + u
    ensures GetVal(t, WaitVal, [], false, !key) == Word(Meaning(w.gs), w.Quotes?, LeftOf(w, u))
  {
    var gs;
    if t[0] == QUOTE {
      gs, u := QuotesFound(t[1..], [], !key);
      w := Quotes(gs);
      Cat([QUOTE], Ink(gs) + [QUOTE], u);
      Cat(Ink(gs), [QUOTE], u);
      assert t == [QUOTE] + t[1..] && [] + Meaning(gs) == Meaning(gs);
    } else {
      var g, t' := Plain(t[0]), t[1..];
      if t[0] == BACKSLASH {
        EscapeFound(t, WaitVal, [], false, !key);
        g, t' := Escaped(t[1]), t[2..];
      } else {
        assert t == [t[0]] + t[1..];
      }
      assert [] + [g.c] == [g.c];
      gs, u := RestFound(t', [g.c], key);
      w := Bare([g] + gs);
      GlyphFound(g, gs, t, t', u, []);
      assert [] + Meaning([g] + gs) == Meaning([g] + gs) && ([g] + gs)[1..] == gs;
    }
  }

  lemma {:induction false} WordFound(t: Bytes, key: bool) returns (s: Bytes, w: Spelt, u: Bytes)
    requires GetVal(t, WaitVal, [], false, !key).Word?
    ensures Space(s) && WordOk(w, key) && (w.Bare? ==> EndsBare(u, key)) && t == s + (WordInk(w) + u)
    ensures GetVal(t, WaitVal, [], false, !key) == Word(Meaning(w.gs), w.Quotes?, LeftOf(w, u))
    decreases |t|
  {
    if IsSpace(t[0]) {
      var s';
      assert t == [t[0]] + t[1..];
      SpaceSkipped([t[0]], t[1..], !key);
      s', w, u := WordFound(t[1..], key);
      s := [t[0]] + s';
      Cat([t[0]], s', WordInk(w) + u);
    } else {
      s := [];
      w, u := StartFound(t, key);
      assert t == [] + t;
    }
  }

  lemma {:induction false} NoneFound(t: Bytes, ig: bool)
    requires GetVal(t, WaitVal, [], false, ig).NoVal?
    ensures Space(t)
    decreases |t|
  {
    if t != [] && IsSpace(t[0]) { NoneFound(t[1..], ig); }
    else if t != [] { NotAbsent(t, ig); }
  }

  /** Once a word has begun it is not absent. */
  lemma NotAbsent(t: Bytes, ig: bool)
    requires t != [] && !IsSpace(t[0])
    ensures !GetVal(t, WaitVal, [], false, ig).NoVal?
  {
    BegunNotAbsent(t[1..], InEscVal, [], true, ig);
    BegunNotAbsent(t[1..], WaitEscIn, [], false, ig);
    BegunNotAbsent(t[1..], InVal, [] + [t[0]], false, ig);
  }

  lemma {:induction false} BegunNotAbsent(t: Bytes, st: Mode, word: Bytes, escaped: bool, ig: bool)
    requires !st.WaitVal?
    ensures !GetVal(t, st, word, escaped, ig).NoVal?
    decreases |t|
  {
    if t != [] {
      BegunNotAbsent(t[1..], InVal, word + [t[0]], escaped, ig);
      BegunNotAbsent(t[1..], InEscVal, word + [t[0]], escaped, ig);
      BegunNotAbsent(t[1..], WaitEscIn, word, escaped, ig);
      BegunNotAbsent(t[1..], WaitEscEscIn, word, escaped, ig);
    }
  }

  // ----- texts: what is read is derived -----

  lemma {:induction false} EqFound(u: Bytes, key: Bytes, pairs: seq<KeyValue>) returns (s: Bytes, v: Bytes)
    requires Parse(u, WEq, key, pairs).Ok?
    ensures Space(s) && u == s + ([EQUALS, GREATER] + v)
    ensures Parse(u, WEq, key, pairs) == Parse(v, WVal, key, pairs)
    decreases |u|
  {
    if IsSpace(u[0]) {
      var s';
      s', v := EqFound(u[1..], key, pairs);
      s := [u[0]] + s';
      assert u == [u[0]] + u[1..];
    } else {
      s, v := [], u[1..][1..];
      assert u == [u[0]] + ([u[1..][0]] + u[1..][1..]);
      assert u == [] + ([EQUALS, GREATER] + v);
    }
  }

  /** Behind a pair: None stands for the end. */
  lemma {:induction false} DelFound(u: Bytes, pairs: seq<KeyValue>) returns (s: Bytes, v: Option<Bytes>)
    requires Parse(u, WDel, [], pairs).Ok?
    ensures Space(s) && u == s + (if v.Some? then [COMMA] + v.value else [])
    ensures Parse(u, WDel, [], pairs) == if v.Some? then Parse(v.value, WKey, [], pairs) else Ok(pairs)
    decreases |u|
  {
    if u == [] {
      s, v := [], None;
    } else if u[0] == COMMA {
      s, v := [], Some(u[1..]);
      assert u == [] + ([COMMA] + u[1..]);
    } else {
      var s';
      s', v := DelFound(u[1..], pairs);
      s := [u[0]] + s';
      assert u == [u[0]] + u[1..];
      Cat([u[0]], s', if v.Some? then [COMMA] + v.value else []);
    }
  }

  /** One pair, and what is behind it. */
  lemma ClauseFound(t: Bytes, pairs: seq<KeyValue>) returns (e: Clause, v: Option<Bytes>)
    requires Parse(t, WKey, [], pairs).Ok? && GetVal(t, WaitVal, [], false, false).Word?
    ensures ClauseOk(e) && |pairs| < PAIRS_MAX && t == ClauseInk(e) + (if v.Some? then [COMMA] + v.value else [])
    ensures Parse(t, WKey, [], pairs) ==
      if v.Some? then Parse(v.value, WKey, [], pairs + [ClausePair(e)]) else Ok(pairs + [ClausePair(e)])
  {
    var s1, key, u := WordFound(t, true);
    LeftSkipped(key, u, WEq, Meaning(key.gs), pairs);
    var s2, t2 := EqFound(u, Meaning(key.gs), pairs);
    NoValueFails(t2, Meaning(key.gs), pairs);
    var s3, val, x := WordFound(t2, false);
    IsNullSame(Meaning(val.gs));
    var p := Pair(Meaning(key.gs), ValueIn(val));
    LeftSkipped(val, x, WDel, [], pairs + [p]);
    var s4;
    s4, v := DelFound(x, pairs + [p]);
    e := Clause(s1, key, s2, s3, val, s4);
    ClauseShape(e, if v.Some? then [COMMA] + v.value else []);
  }

  lemma NoValueFails(t: Bytes, key: Bytes, pairs: seq<KeyValue>)
    requires Parse(t, WVal, key, pairs).Ok?
    ensures GetVal(t, WaitVal, [], false, true).Word?
  {
  }

  lemma {:induction false} TextFound(t: Bytes, pairs: seq<KeyValue>) returns (es: seq<Clause>, tail: Option<Bytes>)
    requires Parse(t, WKey, [], pairs).Ok? && |pairs| <= PAIRS_MAX
    ensures TextOk(es, tail) && t == TextInk(es, tail) && |pairs| + |es| <= PAIRS_MAX
    ensures Parse(t, WKey, [], pairs) == Ok(pairs + PairsIn(es))
    decreases |t|
  {
    if GetVal(t, WaitVal, [], false, false).NoVal? {
      NoneFound(t, false);
      es, tail := [], Some(t);
      assert pairs + PairsIn(es) == pairs;
    } else {
      var e, v := ClauseFound(t, pairs);
      if v.None? {
        es, tail := [e], None;
        assert t == ClauseInk(e) + [] == ClauseInk(e);
        assert PairsIn(es) == [ClausePair(e)];
      } else {
        var rest;
        rest, tail := TextFound(v.value, pairs + [ClausePair(e)]);
        es := [e] + rest;
        TextPush(e, rest, tail, pairs);
      }
    }
  }

  /** For every text, hstore_in reads exactly the pairs the text derives, if the parser can hold them. */
  lemma ParseIff(t: Bytes, ps: seq<KeyValue>)
    ensures Parse(t, WKey, [], []) == Ok(ps) <==> Derives(t, ps) && |ps| <= PAIRS_MAX
  {
    assert forall es :: [] + PairsIn(es) == PairsIn(es);
    if Parse(t, WKey, [], []) == Ok(ps) {
      var es, tail := TextFound(t, []);
    }
    if Derives(t, ps) && |ps| <= PAIRS_MAX {
      var es, tail :| TextOk(es, tail) && t == TextInk(es, tail) && ps == PairsIn(es);
      TextRead(es, tail, []);
    }
  }
}
