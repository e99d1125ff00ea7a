/** An hstore value that can be stored and printed, and whose text cannot be read back. */
module HstoreLimits {
  import opened Machine
  import opened Wrappers
  import opened ByteStrings
  import opened SortedMaps
  import opened HstoreLayout
  import opened HstoreOps
  import opened HstoreText
  import opened HstoreIo

  /** The last k digits of i to the base 100, as bytes from 1 to 100. */
  function Digits(i: nat, k: nat): (d: Bytes)
    ensures |d| == k && CString(d)
  {
    if k == 0 then [] else Digits(i / 100, k - 1) + [1 + i % 100]
  }

  function Power(k: nat): nat { if k == 0 then 1 else 100 * Power(k - 1) }

  /** The first digit in which two numbers differ is smaller in the smaller one. */
  lemma {:induction false} DigitsLess(i: nat, j: nat, k: nat) returns (c: nat)
    requires i < j < Power(k)
    ensures c < k && Digits(i, k)[c] < Digits(j, k)[c] && Digits(i, k)[..c] == Digits(j, k)[..c]
    decreases k
  {
    if i / 100 == j / 100 {
      c := k - 1;
      assert Digits(i, k)[..c] == Digits(i / 100, k - 1) && Digits(j, k)[..c] == Digits(j / 100, k - 1);
    } else {
      c := DigitsLess(i / 100, j / 100, k - 1);
      assert Digits(i, k)[..c] == Digits(i / 100, k - 1)[..c] && Digits(j, k)[..c] == Digits(j / 100, k - 1)[..c];
    }
  }

  lemma CmpAt(a: Bytes, b: Bytes, c: nat)
    requires |a| == |b| && c < |a| && a[..c] == b[..c] && a[c] < b[c]
    ensures Cmp(a, b) < 0
  {
    forall i | 0 <= i < c ensures b[i] == a[i] { assert a[..c][i] == b[..c][i]; }
    CommonPrefixUnique(b, a, c);
  }

  /** n pairs with distinct keys of k bytes and null values. */
  function Many(n: nat, k: nat): (ps: seq<KeyValue>)
    ensures |ps| == n && forall i :: 0 <= i < n ==> ps[i] == Pair(Digits(i, k), None)
  {
    seq(n, i requires 0 <= i < n => Pair(Digits(i, k), None))
  }

  lemma ManySorted(n: nat, k: nat)
    requires n <= Power(k)
    ensures Sorted(Cmp, Many(n, k)) && NoNul(Many(n, k))
  {
    forall i, j | 0 <= i < j < n ensures Cmp(Digits(i, k), Digits(j, k)) < 0 {
      var c := DigitsLess(i, j, k);
      CmpAt(Digits(i, k), Digits(j, k), c);
    }
  }

  /** All keys have k bytes and all values are null. */
  predicate Uniform(ps: seq<KeyValue>, k: nat) {
    forall i :: 0 <= i < |ps| ==> |ps[i].key| == k && ps[i].val.None?
  }

  lemma {:induction false} FlatSize(ps: seq<KeyValue>, k: nat)
    requires Uniform(ps, k)
    ensures |Flat(ps)| == |ps| * k
    decreases |ps|
  {
    if ps != [] {
      FlatSize(ps[..|ps| - 1], k);
      Times(|ps|, k);
    }
  }

  lemma {:induction false} ReservedSize(ps: seq<KeyValue>, k: nat, i: nat)
    requires Uniform(ps, k) && i <= |ps|
    ensures Reserved(ps, i) == i * (10 + 2 * k)
    decreases i
  {
    if i > 0 {
      ReservedSize(ps, k, i - 1);
      Times(i, 10 + 2 * k);
    }
  }

  lemma Times(n: nat, k: nat)
    requires n > 0
    ensures n * k == (n - 1) * k + k
  {
  }

  /** One pair more than the parser can hold, with keys of four bytes, takes 200 megabytes packed and
      300 printed. `HstoreIo.PrintAndRead` says that its text is refused. */
  lemma PrintedNotRead() returns (h: HStore)
    ensures WellFormed(h) && Exact(h) && VarSize(h) <= MAX_ALLOC && NoNul(PairsOf(h))
    ensures Reserved(PairsOf(h), |PairsOf(h)|) <= MAX_ALLOC && |PairsOf(h)| > PAIRS_MAX
  {
    var n, k := PAIRS_MAX + 1, 4;
    h := Packed(n, k);
  }

  lemma Packed(n: nat, k: nat) returns (h: HStore)
    requires n <= Power(k) && HEADER + 8 * n + n * k <= MAX_ALLOC
    ensures WellFormed(h) && Exact(h) && VarSize(h) == HEADER + 8 * n + n * k
    ensures PairsOf(h) == Many(n, k) && NoNul(Many(n, k)) && Reserved(Many(n, k), n) == n * (10 + 2 * k)
  {
    var ps := Many(n, k);
    ManySorted(n, k);
    FlatSize(ps, k);
    ReservedSize(ps, k, n);
    h := HStore(Entries(ps, true), Flat(ps));
    AbsOf(h, ps);
  }
}
