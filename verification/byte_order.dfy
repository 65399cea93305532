/**
 * Byte strings and the order the ordered index keeps its keys in: plain
 * lexicographic order on unsigned bytes, in which a proper prefix sorts first.
 */
module ByteOrder {

  /** One unsigned byte, the unit `memcmp` compares. */
  type Byte = b: int | 0 <= b < 256

  type Bytes = seq<Byte>

  function Min(x: nat, y: nat): nat
  {
    if x <= y then x else y
  }

  /**
   * Three-way lexicographic comparison: -1, 0 or 1 as `a` sorts before,
   * equal to, or after `b`.
   */
  function Compare(a: Bytes, b: Bytes): (c: int)
    ensures -1 <= c <= 1
    ensures c == 0 <==> a == b
    decreases |a|
  {
    if a == [] then (if b == [] then 0 else -1)
    else if b == [] then 1
    else if a[0] < b[0] then -1
    else if a[0] > b[0] then 1
    else
      assert a == [a[0]] + a[1..] && b == [b[0]] + b[1..];
      Compare(a[1..], b[1..])
  }

  /** Strict lexicographic order. */
  predicate Less(a: Bytes, b: Bytes)
  {
    Compare(a, b) < 0
  }

  /**
   * `memcmp(a, b, n)`: compares the first `n` bytes only; the model gives
   * the sign of the C result as -1, 0 or 1.
   */
  function MemCmp(a: Bytes, b: Bytes, n: nat): (c: int)
    requires n <= |a| && n <= |b|
    ensures c == 0 <==> a[..n] == b[..n]
  {
    Compare(a[..n], b[..n])
  }

  /** The first byte in which two strings differ decides their order. */
  lemma {:induction false} CompareFirstDifference(a: Bytes, b: Bytes, i: nat)
    requires i < |a| && i < |b| && a[..i] == b[..i] && a[i] != b[i]
    ensures Compare(a, b) == if a[i] < b[i] then -1 else 1
    decreases i
  {
    if i > 0 {
      assert a[0] == a[..i][0] == b[..i][0] == b[0];
      assert a[1..][..i - 1] == a[..i][1..] && b[1..][..i - 1] == b[..i][1..];
      CompareFirstDifference(a[1..], b[1..], i - 1);
    }
  }

  /**
   * `memcmp` signs its result by the first of the `n` bytes in which the
   * two strings differ: negative when `a` holds the smaller byte there.
   */
  lemma MemCmpFirstDifference(a: Bytes, b: Bytes, n: nat, i: nat)
    requires n <= |a| && n <= |b| && i < n
    requires a[..i] == b[..i] && a[i] != b[i]
    ensures MemCmp(a, b, n) == if a[i] < b[i] then -1 else 1
  {
    assert a[..n][..i] == a[..i] && b[..n][..i] == b[..i];
    CompareFirstDifference(a[..n], b[..n], i);
  }

  /** Swapping the arguments negates the comparison. */
  lemma {:induction false} CompareAntisymmetric(a: Bytes, b: Bytes)
    ensures Compare(a, b) == -Compare(b, a)
    decreases |a|
  {
    if a != [] && b != [] && a[0] == b[0] {
      CompareAntisymmetric(a[1..], b[1..]);
    }
  }

  lemma {:induction false} LessTransitive(a: Bytes, b: Bytes, c: Bytes)
    requires Less(a, b) && Less(b, c)
    ensures Less(a, c)
    decreases |a|
  {
    if a != [] && b != [] && c != [] && a[0] == b[0] == c[0] {
      LessTransitive(a[1..], b[1..], c[1..]);
    }
  }

  /** Any two distinct byte strings are ordered one way or the other. */
  lemma LessTotal(a: Bytes, b: Bytes)
    ensures Less(a, b) || a == b || Less(b, a)
    ensures !(Less(a, b) && Less(b, a))
  {
    CompareAntisymmetric(a, b);
  }

  /**
   * When the first `m` bytes already differ, the whole strings compare the
   * same way as those prefixes.
   */
  lemma {:induction false} CompareDecidedOnPrefix(a: Bytes, b: Bytes, m: nat)
    requires m <= |a| && m <= |b|
    requires Compare(a[..m], b[..m]) != 0
    ensures Compare(a, b) == Compare(a[..m], b[..m])
    decreases m
  {
    assert a[..m][0] == a[0] && b[..m][0] == b[0];
    if a[0] == b[0] {
      assert a[..m][1..] == a[1..][..m - 1];
      assert b[..m][1..] == b[1..][..m - 1];
      CompareDecidedOnPrefix(a[1..], b[1..], m - 1);
    }
  }

  /** A proper prefix sorts strictly before the string it is a prefix of. */
  lemma {:induction false} PrefixSortsFirst(a: Bytes, b: Bytes)
    requires |a| < |b| && a == b[..|a|]
    ensures Compare(a, b) == -1
    decreases |a|
  {
    if a != [] {
      assert a[0] == b[0];
      assert a[1..] == b[1..][..|a| - 1];
      PrefixSortsFirst(a[1..], b[1..]);
    }
  }
}
