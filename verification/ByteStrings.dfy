/** Byte strings and their order: memcmp on the common length, then the shorter one first. */
module ByteStrings {
  type byte = x: int | 0 <= x < 256
  type Bytes = seq<byte>

  /** Length of the longest common prefix. */
  function CommonPrefix(a: Bytes, b: Bytes): (c: nat)
    ensures c <= |a| && c <= |b|
    ensures forall i :: 0 <= i < c ==> a[i] == b[i]
    ensures c < |a| && c < |b| ==> a[c] != b[c]
  {
    if a == [] || b == [] || a[0] != b[0] then 0 else 1 + CommonPrefix(a[1..], b[1..])
  }

  lemma CommonPrefixUnique(a: Bytes, b: Bytes, c: nat)
    requires c <= |a| && c <= |b|
    requires forall i :: 0 <= i < c ==> a[i] == b[i]
    requires c < |a| && c < |b| ==> a[c] != b[c]
    ensures CommonPrefix(a, b) == c
  {
  }

  /** byteacmp(a, b) <= 0 */
  predicate Leq(a: Bytes, b: Bytes) {
    var c := CommonPrefix(a, b);
    c == |a| || (c < |b| && a[c] < b[c])
  }

  predicate Lt(a: Bytes, b: Bytes) { !Leq(b, a) }

  lemma LeqTotal(a: Bytes, b: Bytes)
    ensures Leq(a, b) || Leq(b, a)
    ensures Leq(a, b) && Leq(b, a) ==> a == b
    ensures Leq(a, a)
  {
    var c := CommonPrefix(a, b);
    CommonPrefixUnique(b, a, c);
    CommonPrefixUnique(a, a, |a|);
  }

  /** The strings agree up to k, where the first is smaller. */
  predicate SmallerAt(a: Bytes, b: Bytes, k: nat) { k < |a| && k < |b| && a[..k] == b[..k] && a[k] < b[k] }

  /** A string is at most another if it is a prefix of it, or smaller where they first differ. */
  lemma LeqIff(a: Bytes, b: Bytes)
    ensures Leq(a, b) <==> a <= b || exists k :: 0 <= k && SmallerAt(a, b, k)
  {
    var c := CommonPrefix(a, b);
    if Leq(a, b) && c < |a| { assert SmallerAt(a, b, c); }
    if a <= b { CommonPrefixUnique(a, b, |a|); }
    if k :| 0 <= k && SmallerAt(a, b, k) {
      forall i | 0 <= i < k ensures a[i] == b[i] { assert a[..k][i] == b[..k][i]; }
      CommonPrefixUnique(a, b, k);
    }
  }

  lemma LeqTrans(a: Bytes, b: Bytes, d: Bytes)
    requires Leq(a, b) && Leq(b, d)
    ensures Leq(a, d)
  {
    var c1, c2 := CommonPrefix(a, b), CommonPrefix(b, d);
    CommonPrefixUnique(a, d, if c1 <= c2 then c1 else c2);
  }

  /** Whatever lies between two strings shares their common prefix. */
  lemma Between(a: Bytes, z: Bytes, b: Bytes)
    requires Leq(a, z) && Leq(z, b)
    ensures CommonPrefix(a, b) <= |z|
    ensures forall i :: 0 <= i < CommonPrefix(a, b) ==> z[i] == a[i]
  {
    var w, c := CommonPrefix(a, b), CommonPrefix(a, z);
    if c < w {
      CommonPrefixUnique(z, b, c);
    }
  }
}
