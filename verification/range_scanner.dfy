/**
 * The scan engine's per-key visitor (`SearchRangeScanner`): a right-bound
 * test on raw key bytes and a small state machine that caps how many keys
 * are visited and lets a callback stop the traversal.
 */
module RangeScanner {
  import opened Optional
  import opened ByteOrder

  /** `int64_t` */
  type I64 = x: int | -0x8000_0000_0000_0000 <= x < 0x8000_0000_0000_0000

  /**
   * The right-bound test of `visit_value`: `memcmp` of the bound against the
   * candidate over the shorter length, then the three accepting cases.
   */
  predicate RightBoundAccepts(rkey: Bytes, rExclusive: bool, key: Bytes)
  {
    var res := MemCmp(rkey, key, Min(|rkey|, |key|));
    var smallerThanEndKey := res > 0;
    var sameAsEndKeyButShorter := res == 0 && |rkey| > |key|;
    var sameAsEndKeyInclusive := res == 0 && |rkey| == |key| && !rExclusive;
    smallerThanEndKey || sameAsEndKeyButShorter || sameAsEndKeyInclusive
  }

  /**
   * The test accepts exactly the keys below the bound in byte order, and the
   * bound itself when the bound is inclusive.
   */
  lemma RightBoundMeaning(rkey: Bytes, rExclusive: bool, key: Bytes)
    ensures RightBoundAccepts(rkey, rExclusive, key)
            <==> Less(key, rkey) || (key == rkey && !rExclusive)
  {
    var m := Min(|rkey|, |key|);
    CompareAntisymmetric(rkey, key);
    if Compare(rkey[..m], key[..m]) != 0 {
      CompareDecidedOnPrefix(rkey, key, m);
    } else if |rkey| > |key| {
      assert key == rkey[..|key|];
      PrefixSortsFirst(key, rkey);
    } else if |rkey| < |key| {
      assert rkey == key[..|rkey|];
      PrefixSortsFirst(rkey, key);
    } else {
      assert rkey == rkey[..m] && key == key[..m];
    }
  }

  /** Acceptance is downward closed: a key below an accepted key is accepted. */
  lemma RightBoundDownwardClosed(rkey: Bytes, rExclusive: bool, lower: Bytes, key: Bytes)
    requires RightBoundAccepts(rkey, rExclusive, key)
    requires Less(lower, key)
    ensures RightBoundAccepts(rkey, rExclusive, lower)
  {
    RightBoundMeaning(rkey, rExclusive, key);
    RightBoundMeaning(rkey, rExclusive, lower);
    if Less(key, rkey) {
      LessTransitive(lower, key, rkey);
    }
  }

  class SearchRangeScanner {
    /** `rkey_`/`len_rkey_`; `None` is the null bound, which accepts every key. */
    const rkey: Option<Bytes>
    const rExclusive: bool
    /** A negative cap means the scan is unbounded. */
    const maxScanNum: I64
    var scanNumCnt: int
    var continueFlag: bool
    /** How many times the per-key callback has been run for this scanner. */
    ghost var kvCalls: nat

    ghost predicate Valid()
      reads this
    {
      kvCalls <= scanNumCnt && (maxScanNum >= 0 ==> scanNumCnt <= maxScanNum)
    }

    constructor (rkey: Option<Bytes>, rExclusive: bool, maxScanNum: I64)
      ensures Valid()
      ensures this.rkey == rkey && this.rExclusive == rExclusive && this.maxScanNum == maxScanNum
      ensures scanNumCnt == 0 && continueFlag && kvCalls == 0
    {
      this.rkey := rkey;
      this.rExclusive := rExclusive;
      this.maxScanNum := maxScanNum;
      scanNumCnt := 0;
      continueFlag := true;
      kvCalls := 0;
    }

    /**
     * `visit_value`: once the flag is down or the cap is reached, refuse
     * without counting; otherwise count the visit and accept the key iff the
     * right bound admits it. An accepted key is the one handed to the
     * per-key callback, so `kvCalls` never exceeds the cap.
     */
    method VisitValue(key: Bytes) returns (accepted: bool)
      requires Valid()
      modifies this`scanNumCnt, this`kvCalls
      ensures Valid()
      ensures var open := continueFlag && (maxScanNum < 0 || old(scanNumCnt) < maxScanNum);
              && scanNumCnt == old(scanNumCnt) + (if open then 1 else 0)
              && accepted == (open && (rkey.None? || RightBoundAccepts(rkey.value, rExclusive, key)))
      ensures kvCalls == old(kvCalls) + (if accepted then 1 else 0)
    {
      if !continueFlag || (maxScanNum >= 0 && scanNumCnt >= maxScanNum) {
        return false;
      }
      scanNumCnt := scanNumCnt + 1;
      if rkey.None? {
        kvCalls := kvCalls + 1;
        return true;
      }
      if RightBoundAccepts(rkey.value, rExclusive, key) {
        kvCalls := kvCalls + 1;
        return true;
      }
      return false;
    }

    /**
     * A callback writing `false` through the `bool &continue_flag` it is
     * given: every later visit is refused.
     */
    method StopTraversal()
      requires Valid()
      modifies this`continueFlag
      ensures Valid() && !continueFlag
    {
      continueFlag := false;
    }
  }
}
