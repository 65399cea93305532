/**
 * What a range scan over the index reports, and the bookkeeping of the
 * ascending walk `__scan` performs to report it.
 */
module ScanSpec {
  import opened Optional
  import opened ByteOrder
  import opened KeyCodec
  import opened RangeScanner
  import opened OrderedIndex

  /**
   * The bounds of a scan: from `start` on (inclusive unless `lExclusive`),
   * up to `rkey` (inclusive unless `rExclusive`; `None` is no bound).
   */
  datatype Bounds = Bounds(start: Bytes, lExclusive: bool, rkey: Option<Bytes>, rExclusive: bool)

  predicate WithinBounds(key: Bytes, b: Bounds)
  {
    && AtOrAfter(key, b.start, !b.lExclusive)
    && (b.rkey.None? || Less(key, b.rkey.value) || (key == b.rkey.value && !b.rExclusive))
  }

  /** The keys of the index a scan is meant to report. */
  function Matches(table: map<Bytes, U64>, b: Bounds): set<Bytes>
  {
    set k | k in table && WithinBounds(k, b)
  }

  /** The keys the ordered index walks, in ascending order, from the scan's start. */
  function Walked(table: map<Bytes, U64>, b: Bounds): set<Bytes>
  {
    set k | k in table && AtOrAfter(k, b.start, !b.lExclusive)
  }

  /** The scanner's verdict on one key is the right half of `WithinBounds`. */
  lemma ScannerBoundMeaning(b: Bounds, key: Bytes)
    ensures (b.rkey.None? || RightBoundAccepts(b.rkey.value, b.rExclusive, key))
            <==> (b.rkey.None? || Less(key, b.rkey.value) || (key == b.rkey.value && !b.rExclusive))
  {
    if b.rkey.Some? {
      RightBoundMeaning(b.rkey.value, b.rExclusive, key);
    }
  }

  /**
   * With both bounds the encodings of 64-bit keys and both inclusive, an
   * encoded key lies within the bounds exactly when the key lies numerically
   * between them.
   */
  lemma EncodedBounds(lKey: U64, rKey: U64, key: U64)
    ensures WithinBounds(Encode(key), Bounds(Encode(lKey), false, Some(Encode(rKey)), false))
            <==> lKey <= key <= rKey
  {
    EncodeOrder(lKey, key);
    EncodeOrder(key, rKey);
    EncodeDecode(lKey);
    EncodeDecode(key);
    EncodeDecode(rKey);
  }

  /**
   * The state of the walk: `scanned` holds the keys reported so far, in
   * ascending order and all within bounds; `pending` holds the walked keys
   * not yet visited, all above the reported ones.
   */
  ghost predicate Walk(table: map<Bytes, U64>, b: Bounds, cap: int, scanned: seq<Bytes>, pending: set<Bytes>)
  {
    && StrictlyAscending(scanned)
    && (forall j | 0 <= j < |scanned| :: scanned[j] in Matches(table, b))
    && (cap >= 0 ==> |scanned| <= cap)
    && pending <= Walked(table, b)
    && (forall k | k in Walked(table, b) :: k in pending || k in scanned)
    && (forall k, j | k in pending && 0 <= j < |scanned| :: Less(scanned[j], k))
  }

  lemma WalkStart(table: map<Bytes, U64>, b: Bounds, cap: int)
    ensures Walk(table, b, cap, [], Walked(table, b))
  {
  }

  /**
   * Reporting the least pending key, when it is within bounds and the cap
   * allows, keeps the walk's invariant, and the report still fits in
   * `min(cap, |matches|)` entries.
   */
  lemma WalkAdvance(table: map<Bytes, U64>, b: Bounds, cap: int, scanned: seq<Bytes>, pending: set<Bytes>, next: Bytes)
    requires Walk(table, b, cap, scanned, pending)
    requires IsLeast(next, pending)
    requires cap < 0 || |scanned| < cap
    requires b.rkey.None? || RightBoundAccepts(b.rkey.value, b.rExclusive, next)
    ensures next in Matches(table, b)
    ensures Walk(table, b, cap, scanned + [next], pending - {next})
    ensures |scanned| + 1 <= ResultBound(cap, |Matches(table, b)|)
  {
    ScannerBoundMeaning(b, next);
    var matches := Matches(table, b);
    var more := scanned + [next];
    assert StrictlyAscending(more);
    AscendingCard(more);
    assert Elements(more) <= matches;
    SubsetCard(Elements(more), matches);
    assert forall k | k in Walked(table, b) :: k in pending - {next} || k in more;
  }

  /**
   * When the scanner refuses the least pending key, every match still
   * pending was left out because the cap was reached.
   */
  lemma WalkRefused(table: map<Bytes, U64>, b: Bounds, cap: int, scanned: seq<Bytes>, pending: set<Bytes>, next: Bytes)
    requires Walk(table, b, cap, scanned, pending)
    requires IsLeast(next, pending)
    requires !((cap < 0 || |scanned| < cap) && (b.rkey.None? || RightBoundAccepts(b.rkey.value, b.rExclusive, next)))
    ensures forall k | k in Matches(table, b) && k in pending :: |scanned| == cap
  {
    forall k | k in Matches(table, b) && k in pending
      ensures |scanned| == cap
    {
      if cap < 0 || |scanned| < cap {
        ScannerBoundMeaning(b, k);
        if next != k {
          RightBoundDownwardClosed(b.rkey.value, b.rExclusive, next, k);
        }
      }
    }
  }

  /** A finished walk has reported what the specification asks for. */
  lemma WalkDone(table: map<Bytes, U64>, b: Bounds, cap: int, scanned: seq<Bytes>, pending: set<Bytes>)
    requires Walk(table, b, cap, scanned, pending)
    requires forall k | k in Matches(table, b) && k in pending :: |scanned| == cap
    ensures IsAscendingPrefix(scanned, Matches(table, b), cap)
  {
  }

  /** The keys the scan callback decodes from the index keys `scanned`. */
  function DecodedKeys(scanned: seq<Bytes>): (r: seq<U64>)
    requires forall j | 0 <= j < |scanned| :: |scanned[j]| >= KeyLength
    ensures |r| == |scanned|
  {
    if scanned == [] then []
    else DecodedKeys(scanned[..|scanned| - 1]) + [Decode(scanned[|scanned| - 1][..KeyLength])]
  }

  /** The values the index holds for the keys `scanned`. */
  function ValuesOf(table: map<Bytes, U64>, scanned: seq<Bytes>): (r: seq<U64>)
    requires forall j | 0 <= j < |scanned| :: scanned[j] in table
    ensures |r| == |scanned|
  {
    if scanned == [] then []
    else ValuesOf(table, scanned[..|scanned| - 1]) + [table[scanned[|scanned| - 1]]]
  }

  lemma {:induction false} ScannedEntriesAt(table: map<Bytes, U64>, scanned: seq<Bytes>, j: nat)
    requires forall i | 0 <= i < |scanned| :: scanned[i] in table && |scanned[i]| >= KeyLength
    requires j < |scanned|
    ensures DecodedKeys(scanned)[j] == Decode(scanned[j][..KeyLength])
    ensures ValuesOf(table, scanned)[j] == table[scanned[j]]
  {
    var n := |scanned| - 1;
    if j < n {
      ScannedEntriesAt(table, scanned[..n], j);
    }
  }

  /** The bounds `scan(l_key, r_key, ...)` hands to `__scan`: both encoded, both inclusive. */
  function ClosedRange(lKey: U64, rKey: U64): Bounds
  {
    Bounds(Encode(lKey), false, Some(Encode(rKey)), false)
  }

  /**
   * The 64-bit view of a scan: `ks` and `vs` are the keys and values `scan`
   * reports for `[lKey, rKey]` with result cap `count` (negative: no cap).
   * Every reported key is in range and in the index with its value, the keys
   * strictly ascend, and a key in range that is left out means the cap was
   * reached below it.
   */
  ghost predicate NumericScan(table: map<Bytes, U64>, lKey: U64, rKey: U64, count: int, ks: seq<U64>, vs: seq<U64>)
  {
    && |ks| == |vs|
    && (count >= 0 ==> |ks| <= count)
    && (forall i | 0 <= i < |ks| :: lKey <= ks[i] <= rKey && Encode(ks[i]) in table && vs[i] == table[Encode(ks[i])])
    && (forall i, j | 0 <= i < j < |ks| :: ks[i] < ks[j])
    && (forall k: U64 | lKey <= k <= rKey && Encode(k) in table && k !in ks ::
          |ks| == count && forall i | 0 <= i < |ks| :: ks[i] < k)
  }

  /** Every key a closed 64-bit range matches is an encoded key. */
  ghost predicate EncodedMatches(table: map<Bytes, U64>, lKey: U64, rKey: U64)
  {
    forall k | k in Matches(table, ClosedRange(lKey, rKey)) :: |k| == KeyLength
  }

  /**
   * Decoding the index keys of a byte-level scan result over the encoded
   * range gives the 64-bit scan result.
   */
  lemma DecodedScan(table: map<Bytes, U64>, lKey: U64, rKey: U64, count: int, scanned: seq<Bytes>)
    requires EncodedMatches(table, lKey, rKey)
    requires IsAscendingPrefix(scanned, Matches(table, ClosedRange(lKey, rKey)), count)
    ensures forall j | 0 <= j < |scanned| :: scanned[j] in table && |scanned[j]| >= KeyLength
    ensures NumericScan(table, lKey, rKey, count, DecodedKeys(scanned), ValuesOf(table, scanned))
  {
    var b := ClosedRange(lKey, rKey);
    var ks, vs := DecodedKeys(scanned), ValuesOf(table, scanned);
    forall i | 0 <= i < |scanned|
      ensures ks[i] == Decode(scanned[i]) && Encode(ks[i]) == scanned[i]
      ensures vs[i] == table[scanned[i]] && lKey <= ks[i] <= rKey
    {
      DecodedEntry(table, lKey, rKey, count, scanned, i);
    }
    forall i, j | 0 <= i < j < |ks|
      ensures ks[i] < ks[j]
    {
      DecodeOrder(scanned[i], scanned[j]);
    }
    forall k: U64 | lKey <= k <= rKey && Encode(k) in table && k !in ks
      ensures |ks| == count && forall i | 0 <= i < |ks| :: ks[i] < k
    {
      EncodedBounds(lKey, rKey, k);
      EncodeDecode(k);
      assert Encode(k) in Matches(table, b);
      assert Encode(k) !in scanned;
      forall i | 0 <= i < |ks|
        ensures ks[i] < k
      {
        DecodeOrder(scanned[i], Encode(k));
      }
    }
  }

  /** One entry of a decoded byte-level scan result. */
  lemma DecodedEntry(table: map<Bytes, U64>, lKey: U64, rKey: U64, count: int, scanned: seq<Bytes>, i: nat)
    requires EncodedMatches(table, lKey, rKey)
    requires IsAscendingPrefix(scanned, Matches(table, ClosedRange(lKey, rKey)), count)
    requires i < |scanned|
    ensures forall j | 0 <= j < |scanned| :: scanned[j] in table && |scanned[j]| >= KeyLength
    ensures DecodedKeys(scanned)[i] == Decode(scanned[i]) && Encode(DecodedKeys(scanned)[i]) == scanned[i]
    ensures ValuesOf(table, scanned)[i] == table[scanned[i]] && lKey <= DecodedKeys(scanned)[i] <= rKey
  {
    ScannedEntriesAt(table, scanned, i);
    assert scanned[i][..KeyLength] == scanned[i];
    DecodeEncode(scanned[i]);
    EncodedBounds(lKey, rKey, Decode(scanned[i]));
  }

  /** The 64-bit keys `ks`, encoded in order. */
  function EncodeAll(ks: seq<U64>): (s: seq<Bytes>)
    ensures |s| == |ks| && forall i | 0 <= i < |ks| :: s[i] == Encode(ks[i])
  {
    seq(|ks|, i requires 0 <= i < |ks| => Encode(ks[i]))
  }

  /** Read back at byte level, a 64-bit scan result is the ascending prefix of the encoded range. */
  lemma EncodedScan(table: map<Bytes, U64>, lKey: U64, rKey: U64, count: int, ks: seq<U64>, vs: seq<U64>)
    requires EncodedMatches(table, lKey, rKey)
    requires NumericScan(table, lKey, rKey, count, ks, vs)
    ensures IsAscendingPrefix(EncodeAll(ks), Matches(table, ClosedRange(lKey, rKey)), count)
  {
    var b := ClosedRange(lKey, rKey);
    var e := EncodeAll(ks);
    forall i | 0 <= i < |e|
      ensures e[i] in Matches(table, b)
    {
      EncodedBounds(lKey, rKey, ks[i]);
    }
    forall i, j | 0 <= i < j < |e|
      ensures Less(e[i], e[j])
    {
      EncodeOrder(ks[i], ks[j]);
    }
    forall k | k in Matches(table, b) && k !in e
      ensures |e| == count && forall i | 0 <= i < |e| :: Less(e[i], k)
    {
      var key := Decode(k);
      DecodeEncode(k);
      EncodedBounds(lKey, rKey, key);
      assert key !in ks by {
        forall i | 0 <= i < |ks|
          ensures ks[i] != key
        {
          assert e[i] != k;
        }
      }
      forall i | 0 <= i < |e|
        ensures Less(e[i], k)
      {
        EncodeOrder(ks[i], key);
      }
    }
  }

  /**
   * The 64-bit view pins the result down: two results that both satisfy it
   * are the same keys and values.
   */
  lemma NumericScanUnique(table: map<Bytes, U64>, lKey: U64, rKey: U64, count: int,
                          ks1: seq<U64>, vs1: seq<U64>, ks2: seq<U64>, vs2: seq<U64>)
    requires EncodedMatches(table, lKey, rKey)
    requires NumericScan(table, lKey, rKey, count, ks1, vs1)
    requires NumericScan(table, lKey, rKey, count, ks2, vs2)
    ensures ks1 == ks2 && vs1 == vs2
  {
    EncodedScan(table, lKey, rKey, count, ks1, vs1);
    EncodedScan(table, lKey, rKey, count, ks2, vs2);
    AscendingPrefixUnique(EncodeAll(ks1), EncodeAll(ks2), Matches(table, ClosedRange(lKey, rKey)), count);
    forall i | 0 <= i < |ks1|
      ensures ks1[i] == ks2[i]
    {
      EncodeDecode(ks1[i]);
      EncodeDecode(ks2[i]);
    }
  }
}
