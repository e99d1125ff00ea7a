/** Text form of hstore: the two scanners of hstore_in as functions of the text still to be read,
    the printer, and the round trip. */
module HstoreText {
  import opened Machine
  import opened Wrappers
  import opened ByteStrings
  import opened SortedMaps
  import opened HstoreLayout

  const QUOTE: byte := 34
  const COMMA: byte := 44
  const EQUALS: byte := 61
  const GREATER: byte := 62
  const BACKSLASH: byte := 92
  const BLANK: byte := 32

  /** isspace in the C locale. */
  predicate IsSpace(c: byte) { c == 32 || 9 <= c <= 13 }

  /** Errors, with the number of bytes left where the scanner stopped. */
  datatype Failure = SyntaxError(left: nat) | UnexpectedEnd | NoMemory

  /** The longest word the scanner can hold: its buffer doubles from 32 bytes and keeps one to spare.
      The checks of hstoreCheckKeyLen and hstoreCheckValLen therefore never fire. */
  const WORD_MAX := LARGEST - 1

  /** The most pairs the parser can hold: its array doubles from 16 pairs of PAIR_SIZE bytes. */
  const PAIRS_MAX := 0x100_0000

  // ----- scanner for one key or value -----

  datatype Mode = WaitVal | InVal | InEscVal | WaitEscIn | WaitEscEscIn

  datatype Got = NoVal | Word(word: Bytes, escaped: bool, rest: Bytes) | Bad(failure: Failure)

  /** get_val from mode st, with the word read so far. The rest of a word is what the caller
      looks at next. */
  function GetVal(t: Bytes, st: Mode, word: Bytes, escaped: bool, ignoreEq: bool): (r: Got)
    ensures r.Word? ==> |r.rest| <= |t| && (st.WaitVal? ==> |r.rest| < |t|)
    ensures r.Word? && |word| <= WORD_MAX && (st.WaitVal? ==> word == []) ==> |r.word| <= WORD_MAX
    decreases |t|
  {
    match st
    case WaitVal =>
      if t == [] then NoVal
      else if t[0] == QUOTE then GetVal(t[1..], InEscVal, word, true, ignoreEq)
      else if t[0] == EQUALS && !ignoreEq then Bad(SyntaxError(|t|))
      else if t[0] == BACKSLASH then GetVal(t[1..], WaitEscIn, word, escaped, ignoreEq)
      else if !IsSpace(t[0]) then GetVal(t[1..], InVal, word + [t[0]], escaped, ignoreEq)
      else GetVal(t[1..], WaitVal, word, escaped, ignoreEq)
    case InVal =>
      if t == [] then Word(word, escaped, t)
      else if t[0] == BACKSLASH then GetVal(t[1..], WaitEscIn, word, escaped, ignoreEq)
      else if (t[0] == EQUALS && !ignoreEq) || (t[0] == COMMA && ignoreEq) then Word(word, escaped, t)
      else if IsSpace(t[0]) then Word(word, escaped, t[1..])
      else if |word| >= WORD_MAX then Bad(NoMemory)
      else GetVal(t[1..], InVal, word + [t[0]], escaped, ignoreEq)
    case InEscVal =>
      if t == [] then Bad(UnexpectedEnd)
      else if t[0] == BACKSLASH then GetVal(t[1..], WaitEscEscIn, word, escaped, ignoreEq)
      else if t[0] == QUOTE then Word(word, escaped, t[1..])
      else if |word| >= WORD_MAX then Bad(NoMemory)
      else GetVal(t[1..], InEscVal, word + [t[0]], escaped, ignoreEq)
    case WaitEscIn =>
      if t == [] then Bad(UnexpectedEnd)
      else if |word| >= WORD_MAX then Bad(NoMemory)
      else GetVal(t[1..], InVal, word + [t[0]], escaped, ignoreEq)
    case WaitEscEscIn =>
      if t == [] then Bad(UnexpectedEnd)
      else if |word| >= WORD_MAX then Bad(NoMemory)
      else GetVal(t[1..], InEscVal, word + [t[0]], escaped, ignoreEq)
  }

  // ----- scanner for the list of pairs -----

  datatype Phase = WKey | WEq | WGt | WVal | WDel

  datatype Parsed = Ok(pairs: seq<KeyValue>) | Failed(failure: Failure)

  function Lower(c: byte): byte { if 65 <= c <= 90 then c + 32 else c }

  /** pg_strcasecmp with "null" */
  predicate IsNullWord(w: Bytes) {
    |w| == 4 && Lower(w[0]) == 110 && Lower(w[1]) == 117 && Lower(w[2]) == 108 && Lower(w[3]) == 108
  }

  function ValueOf(w: Bytes, escaped: bool): Option<Bytes> {
    if !escaped && IsNullWord(w) then None else Some(w)
  }

  /** parse_hstore from phase st; `key` is the key read last. */
  function Parse(t: Bytes, st: Phase, key: Bytes, pairs: seq<KeyValue>): Parsed
    decreases |t|
  {
    match st
    case WKey =>
      var g := GetVal(t, WaitVal, [], false, false);
      if g.NoVal? then Ok(pairs) else if g.Bad? then Failed(g.failure)
      else if |pairs| >= PAIRS_MAX then Failed(NoMemory)
      else Parse(g.rest, WEq, g.word, pairs)
    case WEq =>
      if t == [] then Failed(UnexpectedEnd)
      else if t[0] == EQUALS then Parse(t[1..], WGt, key, pairs)
      else if IsSpace(t[0]) then Parse(t[1..], WEq, key, pairs)
      else Failed(SyntaxError(|t|))
    case WGt =>
      if t == [] then Failed(UnexpectedEnd)
      else if t[0] == GREATER then Parse(t[1..], WVal, key, pairs)
      else Failed(SyntaxError(|t|))
    case WVal =>
      var g := GetVal(t, WaitVal, [], false, true);
      if g.NoVal? then Failed(UnexpectedEnd) else if g.Bad? then Failed(g.failure)
      else Parse(g.rest, WDel, [], pairs + [Pair(key, ValueOf(g.word, g.escaped))])
    case WDel =>
      if t == [] then Ok(pairs)
      else if t[0] == COMMA then Parse(t[1..], WKey, [], pairs)
      else if IsSpace(t[0]) then Parse(t[1..], WDel, [], pairs)
      else Failed(SyntaxError(|t|))
  }

  // ----- printer -----

  /** cpw: a backslash before every quote and backslash. */
  function Esc(w: Bytes): Bytes {
    if w == [] then [] else (if w[0] == QUOTE || w[0] == BACKSLASH then [BACKSLASH, w[0]] else [w[0]]) + Esc(w[1..])
  }

  function Quoted(w: Bytes): Bytes { [QUOTE] + (Esc(w) + [QUOTE]) }

  const NULL_TEXT: Bytes := [78, 85, 76, 76]

  function ValText(v: Option<Bytes>): Bytes { if v.None? then NULL_TEXT else Quoted(v.value) }

  function PairText(p: KeyValue): Bytes { Quoted(p.key) + ([EQUALS, GREATER] + ValText(p.val)) }

  /** Pair k, with its separator unless it is the last. */
  function Piece(ps: seq<KeyValue>, k: nat): Bytes
    requires k < |ps|
  {
    PairText(ps[k]) + if k + 1 == |ps| then [] else [COMMA, BLANK]
  }

  function Pieces(ps: seq<KeyValue>): (r: seq<Bytes>)
    ensures |r| == |ps| && forall k :: 0 <= k < |ps| ==> r[k] == Piece(ps, k)
  {
    seq(|ps|, k requires 0 <= k < |ps| => Piece(ps, k))
  }

  function From(pieces: seq<Bytes>, i: nat): Bytes
    requires i <= |pieces|
    decreases |pieces| - i
  {
    if i == |pieces| then [] else pieces[i] + From(pieces, i + 1)
  }

  /** The text of all pairs from i on. */
  function TextFrom(ps: seq<KeyValue>, i: nat): Bytes
    requires i <= |ps|
  {
    From(Pieces(ps), i)
  }

  // ----- reading back what was printed -----

  lemma Cons(c: byte, t: Bytes)
    ensures ([c] + t)[0] == c && ([c] + t)[1..] == t
  {
  }

  lemma Cat(a: Bytes, b: Bytes, c: Bytes)
    ensures a + (b + c) == (a + b) + c
  {
  }

  /** One printed byte, escaped or not, is read as that byte. */
  lemma ReadsOne(c: byte, t: Bytes, word: Bytes, ig: bool)
    requires |word| < WORD_MAX
    ensures GetVal((if c == QUOTE || c == BACKSLASH then [BACKSLASH, c] else [c]) + t, InEscVal, word, true, ig)
      == GetVal(t, InEscVal, word + [c], true, ig)
  {
    Cons(c, t);
    if c == QUOTE || c == BACKSLASH {
      assert [BACKSLASH, c] + t == [BACKSLASH] + ([c] + t);
      Cons(BACKSLASH, [c] + t);
    }
  }

  lemma {:induction false} ReadsEscaped(w: Bytes, r: Bytes, word: Bytes, ig: bool)
    requires |word| + |w| <= WORD_MAX
    ensures GetVal(Esc(w) + ([QUOTE] + r), InEscVal, word, true, ig) == Word(word + w, true, r)
    decreases |w|
  {
    if w == [] {
      assert Esc(w) + ([QUOTE] + r) == [QUOTE] + r && word + w == word;
      Cons(QUOTE, r);
    } else {
      var one := if w[0] == QUOTE || w[0] == BACKSLASH then [BACKSLASH, w[0]] else [w[0]];
      Cat(one, Esc(w[1..]), [QUOTE] + r);
      ReadsOne(w[0], Esc(w[1..]) + ([QUOTE] + r), word, ig);
      ReadsEscaped(w[1..], r, word + [w[0]], ig);
      assert (word + [w[0]]) + w[1..] == word + w;
    }
  }

  lemma ReadsQuoted(w: Bytes, r: Bytes, ig: bool)
    requires |w| <= WORD_MAX
    ensures GetVal(Quoted(w) + r, WaitVal, [], false, ig) == Word(w, true, r)
  {
    Cat(Esc(w), [QUOTE], r);
    Cat([QUOTE], Esc(w) + [QUOTE], r);
    Cons(QUOTE, Esc(w) + ([QUOTE] + r));
    ReadsEscaped(w, r, [], ig);
    assert [] + w == w;
  }

  /** What may follow a printed pair. */
  predicate Ends(r: Bytes) { r == [] || r[0] == COMMA }

  lemma ReadsNull(r: Bytes)
    requires Ends(r)
    ensures GetVal(NULL_TEXT + r, WaitVal, [], false, true) == Word(NULL_TEXT, false, r)
  {
    assert NULL_TEXT + r == [78] + ([85] + ([76] + ([76] + r)));
    Cons(78, [85] + ([76] + ([76] + r)));
    InValStep(85, [76] + ([76] + r), [78]);
    InValStep(76, [76] + r, [78, 85]);
    InValStep(76, r, [78, 85, 76]);
    assert [] + [78 as byte] == [78] && [78 as byte] + [85] == [78, 85] && [78 as byte, 85] + [76] == [78, 85, 76];
    assert [78, 85, 76] + [76] == NULL_TEXT;
  }

  lemma InValStep(c: byte, t: Bytes, word: Bytes)
    requires (c == 85 || c == 76) && |word| < 4
    ensures GetVal([c] + t, InVal, word, false, true) == GetVal(t, InVal, word + [c], false, true)
  {
    Cons(c, t);
  }

  lemma ReadsValue(v: Option<Bytes>, r: Bytes)
    requires Ends(r) && (v.Some? ==> |v.value| <= WORD_MAX)
    ensures GetVal(ValText(v) + r, WaitVal, [], false, true).Word?
    ensures var g := GetVal(ValText(v) + r, WaitVal, [], false, true); g.rest == r && ValueOf(g.word, g.escaped) == v
  {
    if v.None? { ReadsNull(r); } else { ReadsQuoted(v.value, r, true); }
  }

  ghost predicate Short(p: KeyValue) { |p.key| <= WORD_MAX && (p.val.Some? ==> |p.val.value| <= WORD_MAX) }

  lemma ParsesPair(p: KeyValue, r: Bytes, done: seq<KeyValue>)
    requires Ends(r) && Short(p) && |done| < PAIRS_MAX
    ensures Parse(PairText(p) + r, WKey, [], done) == Parse(r, WDel, [], done + [p])
  {
    var rest := [EQUALS, GREATER] + (ValText(p.val) + r);
    Cat(Quoted(p.key), [EQUALS, GREATER] + ValText(p.val), r);
    Cat([EQUALS, GREATER], ValText(p.val), r);
    ReadsQuoted(p.key, rest, false);
    assert Parse(PairText(p) + r, WKey, [], done) == Parse(rest, WEq, p.key, done);
    assert rest == [EQUALS] + ([GREATER] + (ValText(p.val) + r));
    Cons(EQUALS, [GREATER] + (ValText(p.val) + r));
    Cons(GREATER, ValText(p.val) + r);
    assert Parse(rest, WEq, p.key, done) == Parse([GREATER] + (ValText(p.val) + r), WGt, p.key, done);
    ParsesValue(p, r, done);
  }

  lemma ParsesValue(p: KeyValue, r: Bytes, done: seq<KeyValue>)
    requires Ends(r) && Short(p)
    ensures Parse([GREATER] + (ValText(p.val) + r), WGt, p.key, done) == Parse(r, WDel, [], done + [p])
  {
    Cons(GREATER, ValText(p.val) + r);
    ReadsValue(p.val, r);
  }

  lemma SkipsBlank(t: Bytes, done: seq<KeyValue>)
    ensures Parse([BLANK] + t, WKey, [], done) == Parse(t, WKey, [], done)
  {
    Cons(BLANK, t);
  }

  lemma SkipsSeparator(t: Bytes, done: seq<KeyValue>)
    ensures Parse([COMMA, BLANK] + t, WDel, [], done) == Parse(t, WKey, [], done)
  {
    assert [COMMA, BLANK] + t == [COMMA] + ([BLANK] + t);
    Cons(COMMA, [BLANK] + t);
    SkipsBlank(t, done);
  }

  lemma PrefixGrows(ps: seq<KeyValue>, i: nat)
    requires i < |ps|
    ensures ps[..i + 1] == ps[..i] + [ps[i]] && ps[..|ps|] == ps
  {
  }

  lemma TextSplits(ps: seq<KeyValue>, i: nat)
    requires i < |ps|
    ensures TextFrom(ps, i) == PairText(ps[i]) + if i + 1 == |ps| then [] else [COMMA, BLANK] + TextFrom(ps, i + 1)
  {
    var x := PairText(ps[i]);
    assert TextFrom(ps, i) == Piece(ps, i) + TextFrom(ps, i + 1);
    if i + 1 < |ps| { Cat(x, [COMMA, BLANK], TextFrom(ps, i + 1)); } else { assert (x + []) + [] == x + []; }
  }

  lemma ParsesLast(p: KeyValue, done: seq<KeyValue>)
    requires Short(p) && |done| < PAIRS_MAX
    ensures Parse(PairText(p) + [], WKey, [], done) == Ok(done + [p])
  {
    ParsesPair(p, [], done);
  }

  lemma ParsesNoMore(p: KeyValue, r: Bytes, done: seq<KeyValue>)
    requires Short(p) && |done| >= PAIRS_MAX
    ensures Parse(PairText(p) + r, WKey, [], done) == Failed(NoMemory)
  {
    Cat(Quoted(p.key), [EQUALS, GREATER] + ValText(p.val), r);
    ReadsQuoted(p.key, [EQUALS, GREATER] + ValText(p.val) + r, false);
  }

  /** What parse_hstore does with pair i of a printed list. */
  lemma ParsesNext(ps: seq<KeyValue>, i: nat)
    requires i < |ps| && Short(ps[i])
    ensures Parse(TextFrom(ps, i), WKey, [], ps[..i]) ==
      if i >= PAIRS_MAX then Failed(NoMemory)
      else if i + 1 == |ps| then Ok(ps) else Parse(TextFrom(ps, i + 1), WKey, [], ps[..i + 1])
  {
    var rest := if i + 1 == |ps| then [] else [COMMA, BLANK] + TextFrom(ps, i + 1);
    PrefixGrows(ps, i);
    TextSplits(ps, i);
    if i >= PAIRS_MAX {
      ParsesNoMore(ps[i], rest, ps[..i]);
    } else if i + 1 == |ps| {
      ParsesLast(ps[i], ps[..i]);
    } else {
      ParsesPair(ps[i], rest, ps[..i]);
      SkipsSeparator(TextFrom(ps, i + 1), ps[..i + 1]);
    }
  }

  /** parse_hstore reads back the printed pairs, in order, if and only if it can hold them. */
  lemma {:induction false} ParsesText(ps: seq<KeyValue>, i: nat)
    requires i < |ps| && forall k :: 0 <= k < |ps| ==> Short(ps[k])
    ensures Parse(TextFrom(ps, i), WKey, [], ps[..i]) == if |ps| <= PAIRS_MAX then Ok(ps) else Failed(NoMemory)
    decreases |ps| - i
  {
    ParsesNext(ps, i);
    if i < PAIRS_MAX && i + 1 < |ps| { ParsesText(ps, i + 1); }
  }
}
