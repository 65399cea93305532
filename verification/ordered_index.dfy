/**
 * The ordered index the client talks to, seen from outside: a finite set of
 * byte-string keys walked in ascending byte order. This module holds the
 * vocabulary for that walk and the specification of what a bounded range
 * scan over it returns.
 */
module OrderedIndex {
  import opened ByteOrder

  /**
   * Where `table_->scan(start, emit_firstkey, ...)` begins: every key after
   * `start`, and `start` itself when the first key is emitted.
   */
  predicate AtOrAfter(key: Bytes, start: Bytes, emitFirst: bool)
  {
    Less(start, key) || (emitFirst && key == start)
  }

  /** `k` is the smallest member of `s`. */
  predicate IsLeast(k: Bytes, s: set<Bytes>)
  {
    k in s && forall j | j in s :: k == j || Less(k, j)
  }

  lemma {:induction false} LeastExists(s: set<Bytes>)
    requires s != {}
    ensures exists k :: IsLeast(k, s)
    decreases |s|
  {
    var x :| x in s;
    if s == {x} {
      assert IsLeast(x, s);
    } else {
      LeastExists(s - {x});
      var y :| IsLeast(y, s - {x});
      LessTotal(x, y);
      if Less(x, y) {
        forall j | j in s && j != x
          ensures Less(x, j)
        {
          if j != y {
            LessTransitive(x, y, j);
          }
        }
        assert IsLeast(x, s);
      } else {
        assert IsLeast(y, s);
      }
    }
  }

  predicate StrictlyAscending(s: seq<Bytes>)
  {
    forall i, j | 0 <= i < j < |s| :: Less(s[i], s[j])
  }

  function Elements(s: seq<Bytes>): set<Bytes>
  {
    set x | x in s
  }

  /** A strictly ascending sequence repeats nothing. */
  lemma {:induction false} AscendingCard(s: seq<Bytes>)
    requires StrictlyAscending(s)
    ensures |Elements(s)| == |s|
  {
    if s != [] {
      var t, last := s[..|s| - 1], s[|s| - 1];
      assert StrictlyAscending(t);
      AscendingCard(t);
      assert forall i | 0 <= i < |t| :: Less(t[i], last);
      assert last !in Elements(t);
      assert Elements(s) == Elements(t) + {last};
    }
  }

  /** How many entries a scan capped at `cap` (negative: uncapped) yields from `matches` candidates. */
  function ResultBound(cap: int, matches: nat): nat
  {
    if 0 <= cap < matches then cap else matches
  }

  /**
   * `out` lists members of `matches` in strictly ascending order, at most
   * `cap` of them when `cap` is not negative, and leaves a member out only
   * when the cap is reached and that member is above every listed one.
   */
  ghost predicate IsAscendingPrefix(out: seq<Bytes>, matches: set<Bytes>, cap: int)
  {
    && StrictlyAscending(out)
    && (forall i | 0 <= i < |out| :: out[i] in matches)
    && (cap >= 0 ==> |out| <= cap)
    && (forall k | k in matches && k !in out ::
          |out| == cap && forall i | 0 <= i < |out| :: Less(out[i], k))
  }

  lemma AscendingPrefixNotBelow(o1: seq<Bytes>, o2: seq<Bytes>, matches: set<Bytes>, cap: int, i: nat)
    requires IsAscendingPrefix(o1, matches, cap) && IsAscendingPrefix(o2, matches, cap)
    requires i < |o1| && i < |o2|
    requires forall j | 0 <= j < i :: o1[j] == o2[j]
    ensures !Less(o1[i], o2[i])
  {
    LessTotal(o1[i], o2[i]);
  }

  /** The specification fixes the scan result: at most one sequence meets it. */
  lemma AscendingPrefixUnique(o1: seq<Bytes>, o2: seq<Bytes>, matches: set<Bytes>, cap: int)
    requires IsAscendingPrefix(o1, matches, cap) && IsAscendingPrefix(o2, matches, cap)
    ensures o1 == o2
  {
    AscendingPrefixSize(o1, matches, cap);
    AscendingPrefixSize(o2, matches, cap);
    var i := 0;
    while i < |o1|
      invariant i <= |o1|
      invariant forall j | 0 <= j < i :: o1[j] == o2[j]
    {
      AscendingPrefixNotBelow(o1, o2, matches, cap, i);
      AscendingPrefixNotBelow(o2, o1, matches, cap, i);
      LessTotal(o1[i], o2[i]);
      i := i + 1;
    }
  }

  /** A scan capped at `cap` yields `min(cap, |matches|)` entries. */
  lemma AscendingPrefixSize(out: seq<Bytes>, matches: set<Bytes>, cap: int)
    requires IsAscendingPrefix(out, matches, cap)
    ensures |out| == ResultBound(cap, |matches|)
  {
    AscendingCard(out);
    assert Elements(out) <= matches;
    if |out| != cap {
      assert forall k | k in matches :: k in out;
      assert Elements(out) == matches;
    } else {
      SubsetCard(Elements(out), matches);
    }
  }

  lemma SubsetCard(a: set<Bytes>, b: set<Bytes>)
    requires a <= b
    ensures |a| <= |b|
  {
    assert b == a + (b - a);
  }
}
