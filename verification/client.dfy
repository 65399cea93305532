/**
 * `Masstree_client`: point operations and range scans over the shared
 * ordered index. Each operation is atomic on the index, which is a map from
 * encoded keys to values; a cursor's find-then-finish becomes one lookup or
 * one map update.
 */
module Client {
  import opened Optional
  import opened ByteOrder
  import opened KeyCodec
  import opened RangeScanner
  import opened OrderedIndex
  import opened ScanSpec

  /** `index_scan`: the caller's output arrays and how many entries they hold. */
  class IndexScan {
    var keys: array<U64>
    var values: array<U64>
    var num: nat

    constructor (keys: array<U64>, values: array<U64>, num: nat)
      ensures this.keys == keys && this.values == values && this.num == num
    {
      this.keys := keys;
      this.values := values;
      this.num := num;
    }

    /**
     * The per-key callback `scan` hands to `__scan`: decode the first eight
     * bytes of the index key, store key and value at position `num`, and
     * advance `num`. Nothing checks the capacity: the caller must provide it.
     */
    method Record(key: Bytes, val: U64)
      requires |key| >= KeyLength
      requires num < keys.Length && num < values.Length && keys != values
      modifies this`num, keys, values
      ensures num == old(num) + 1
      ensures keys[..] == old(keys[..])[old(num) := Decode(key[..KeyLength])]
      ensures values[..] == old(values[..])[old(num) := val]
    {
      var actualKey := Decode(key[..KeyLength]);
      keys[num] := actualKey;
      values[num] := val;
      num := num + 1;
    }
  }

  /** `__scan` with a null left key starts from the empty string. */
  function ScanStart(lkey: Option<Bytes>): Bytes
  {
    if lkey.None? then [] else lkey.value
  }

  /** `a` with the block starting at `at` overwritten by `s`. */
  function Overwrite(a: seq<U64>, at: nat, s: seq<U64>): seq<U64>
    requires at + |s| <= |a|
  {
    a[..at] + s + a[at + |s|..]
  }

  lemma OverwriteExtend(a: seq<U64>, at: nat, s: seq<U64>, x: U64)
    requires at + |s| < |a|
    ensures Overwrite(a, at, s + [x]) == Overwrite(a, at, s)[at + |s| := x]
  {
  }

  /**
   * One call of the scan callback, seen from the whole scan: the blocks of
   * decoded keys and values written from `n0` on grow by one entry.
   */
  method RecordNext(res: IndexScan, next: Bytes, value: U64, ghost keys0: seq<U64>, ghost values0: seq<U64>,
                    ghost n0: nat, ghost ks: seq<U64>, ghost vs: seq<U64>)
    requires |next| >= KeyLength && res.keys != res.values
    requires res.num == n0 + |ks| == n0 + |vs|
    requires res.num < res.keys.Length && res.num < res.values.Length
    requires |keys0| == res.keys.Length && |values0| == res.values.Length
    requires res.keys[..] == Overwrite(keys0, n0, ks)
    requires res.values[..] == Overwrite(values0, n0, vs)
    modifies res`num, res.keys, res.values
    ensures res.num == old(res.num) + 1
    ensures res.keys[..] == Overwrite(keys0, n0, ks + [Decode(next[..KeyLength])])
    ensures res.values[..] == Overwrite(values0, n0, vs + [value])
  {
    OverwriteExtend(keys0, n0, ks, Decode(next[..KeyLength]));
    OverwriteExtend(values0, n0, vs, value);
    res.Record(next, value);
  }

  /**
   * What a scan has achieved after recording `scanned`: the traversal is a
   * valid walk, and the caller's arrays (`keysNow`, `valuesNow`, holding
   * `num` entries) equal the originals with the decoded keys and values of
   * `scanned` written from `n0` on.
   */
  ghost predicate Progress(t: map<Bytes, U64>, b: Bounds, cap: int, scanned: seq<Bytes>, pending: set<Bytes>,
                           n0: nat, keys0: seq<U64>, values0: seq<U64>,
                           num: nat, keysNow: seq<U64>, valuesNow: seq<U64>)
  {
    && Walk(t, b, cap, scanned, pending)
    && (forall j | 0 <= j < |scanned| :: scanned[j] in t && |scanned[j]| >= KeyLength)
    && num == n0 + |scanned| && num <= |keys0| && num <= |values0|
    && |keysNow| == |keys0| && |valuesNow| == |values0|
    && keysNow == Overwrite(keys0, n0, DecodedKeys(scanned))
    && valuesNow == Overwrite(values0, n0, ValuesOf(t, scanned))
  }

  /** Before the first visit: nothing reported, every key from the start pending, the arrays as given. */
  lemma ProgressStart(t: map<Bytes, U64>, b: Bounds, cap: int, n0: nat, keys0: seq<U64>, values0: seq<U64>)
    requires n0 <= |keys0| && n0 <= |values0|
    ensures Progress(t, b, cap, [], Walked(t, b), n0, keys0, values0, n0, keys0, values0)
  {
    WalkStart(t, b, cap);
    assert Overwrite(keys0, n0, []) == keys0 && Overwrite(values0, n0, []) == values0;
  }

  /**
   * One key of the traversal: the scanner's verdict on `next`, the least
   * key not yet visited, and when it accepts, the callback's write into
   * `res`.
   */
  method VisitAndRecord(t: map<Bytes, U64>, ghost b: Bounds, cap: I64, ghost scanned: seq<Bytes>, ghost pending: set<Bytes>,
                        next: Bytes, scanner: SearchRangeScanner, res: IndexScan,
                        ghost keys0: seq<U64>, ghost values0: seq<U64>, ghost n0: nat)
      returns (accepted: bool)
    requires scanner.Valid() && scanner.rkey == b.rkey && scanner.rExclusive == b.rExclusive
    requires scanner.maxScanNum == cap && scanner.continueFlag && scanner.scanNumCnt == |scanned|
    requires IsLeast(next, pending)
    requires forall k | k in Matches(t, b) :: |k| >= KeyLength
    requires res.keys != res.values
    requires n0 + ResultBound(cap, |Matches(t, b)|) <= res.keys.Length
    requires n0 + ResultBound(cap, |Matches(t, b)|) <= res.values.Length
    requires Progress(t, b, cap, scanned, pending, n0, keys0, values0, res.num, res.keys[..], res.values[..])
    modifies scanner`scanNumCnt, scanner`kvCalls, res`num, res.keys, res.values
    ensures scanner.Valid() && (accepted ==> scanner.scanNumCnt == |scanned| + 1)
    ensures !accepted ==> forall k | k in Matches(t, b) && k in pending :: |scanned| == cap
    ensures !accepted ==> Progress(t, b, cap, scanned, pending, n0, keys0, values0, res.num, res.keys[..], res.values[..])
    ensures accepted ==>
      Progress(t, b, cap, scanned + [next], pending - {next}, n0, keys0, values0, res.num, res.keys[..], res.values[..])
  {
    accepted := scanner.VisitValue(next);
    if !accepted {
      WalkRefused(t, b, cap, scanned, pending, next);
      return;
    }
    RecordAccepted(t, b, cap, scanned, pending, next, res, keys0, values0, n0);
  }

  /** The callback's write for a key the scanner accepted, seen from the whole scan. */
  method RecordAccepted(t: map<Bytes, U64>, ghost b: Bounds, cap: I64, ghost scanned: seq<Bytes>, ghost pending: set<Bytes>,
                        next: Bytes, res: IndexScan, ghost keys0: seq<U64>, ghost values0: seq<U64>, ghost n0: nat)
    requires IsLeast(next, pending)
    requires cap < 0 || |scanned| < cap
    requires b.rkey.None? || RightBoundAccepts(b.rkey.value, b.rExclusive, next)
    requires forall k | k in Matches(t, b) :: |k| >= KeyLength
    requires res.keys != res.values
    requires n0 + ResultBound(cap, |Matches(t, b)|) <= res.keys.Length
    requires n0 + ResultBound(cap, |Matches(t, b)|) <= res.values.Length
    requires Progress(t, b, cap, scanned, pending, n0, keys0, values0, res.num, res.keys[..], res.values[..])
    modifies res`num, res.keys, res.values
    ensures Progress(t, b, cap, scanned + [next], pending - {next}, n0, keys0, values0, res.num, res.keys[..], res.values[..])
  {
    WalkAdvance(t, b, cap, scanned, pending, next);
    ghost var more := scanned + [next];
    assert more[..|scanned|] == scanned;
    var value := t[next];
    assert DecodedKeys(more) == DecodedKeys(scanned) + [Decode(next[..KeyLength])];
    assert ValuesOf(t, more) == ValuesOf(t, scanned) + [value];
    RecordNext(res, next, value, keys0, values0, n0, DecodedKeys(scanned), ValuesOf(t, scanned));
  }

  /**
   * `table_->scan`: visit the index keys from the scan's start in ascending
   * order, handing each to the scanner and recording the ones it accepts,
   * until the scanner refuses one or the keys run out. `pending` names the
   * keys not yet visited.
   */
  method Traverse(t: map<Bytes, U64>, b: Bounds, cap: I64, scanner: SearchRangeScanner, res: IndexScan,
                  ghost n0: nat, ghost keys0: seq<U64>, ghost values0: seq<U64>)
      returns (ghost scanned: seq<Bytes>, ghost pending: set<Bytes>)
    requires scanner.Valid() && scanner.rkey == b.rkey && scanner.rExclusive == b.rExclusive
    requires scanner.maxScanNum == cap && scanner.continueFlag && scanner.scanNumCnt == 0
    requires forall k | k in Matches(t, b) :: |k| >= KeyLength
    requires res.keys != res.values
    requires n0 + ResultBound(cap, |Matches(t, b)|) <= res.keys.Length
    requires n0 + ResultBound(cap, |Matches(t, b)|) <= res.values.Length
    requires Progress(t, b, cap, [], Walked(t, b), n0, keys0, values0, res.num, res.keys[..], res.values[..])
    modifies scanner`scanNumCnt, scanner`kvCalls, res`num, res.keys, res.values
    ensures Progress(t, b, cap, scanned, pending, n0, keys0, values0, res.num, res.keys[..], res.values[..])
    ensures forall k | k in Matches(t, b) && k in pending :: |scanned| == cap
  {
    var unvisited := Walked(t, b);
    scanned, pending := [], unvisited;
    while unvisited != {}
      invariant pending == unvisited
      invariant scanner.Valid() && scanner.continueFlag && scanner.scanNumCnt == |scanned|
      invariant Progress(t, b, cap, scanned, pending, n0, keys0, values0, res.num, res.keys[..], res.values[..])
      decreases unvisited
    {
      LeastExists(unvisited);
      var next :| IsLeast(next, unvisited);
      var accepted := VisitAndRecord(t, b, cap, scanned, pending, next, scanner, res, keys0, values0, n0);
      if !accepted {
        return;
      }
      scanned := scanned + [next];
      unvisited := unvisited - {next};
      pending := unvisited;
    }
  }

  class MasstreeClient {
    /** The shared index: encoded key to value. */
    var table: map<Bytes, U64>

    /** `set_table`: the client works on an existing index. */
    constructor (table: map<Bytes, U64>)
      ensures this.table == table
    {
      this.table := table;
    }

    /** Every key is the encoding of a 64-bit key, as when only the 64-bit entry points are used. */
    ghost predicate EncodedKeysOnly()
      reads this
    {
      forall k | k in table :: |k| == KeyLength
    }

    /** `__put`: insert-only; a present key is left as it is. */
    method PutBytes(key: Bytes, value: U64) returns (inserted: bool)
      modifies this
      ensures inserted <==> key !in old(table)
      ensures table == if inserted then old(table)[key := value] else old(table)
    {
      var found := key in table;
      if found {
        return false;
      }
      table := table[key := value];
      return true;
    }

    method Put(key: U64, value: U64) returns (inserted: bool)
      modifies this
      ensures inserted <==> Encode(key) !in old(table)
      ensures table == if inserted then old(table)[Encode(key) := value] else old(table)
      ensures old(EncodedKeysOnly()) ==> EncodedKeysOnly()
    {
      inserted := PutBytes(Encode(key), value);
    }

    /**
     * `__get`: `prior` is what the caller's `*value_p` holds before the call;
     * a miss leaves it as it was.
     */
    method GetBytes(key: Bytes, prior: U64) returns (found: bool, value: U64)
      ensures found <==> key in table
      ensures found ==> value == table[key]
      ensures !found ==> value == prior
    {
      found := key in table;
      if found {
        value := table[key];
      } else {
        value := prior;
      }
    }

    method Get(key: U64, prior: U64) returns (found: bool, value: U64)
      ensures found <==> Encode(key) in table
      ensures found ==> value == table[Encode(key)]
      ensures !found ==> value == prior
    {
      found, value := GetBytes(Encode(key), prior);
    }

    /** `__update`: overwrites a present key's value and never inserts. */
    method UpdateBytes(key: Bytes, value: U64) returns (updated: bool)
      modifies this
      ensures updated <==> key in old(table)
      ensures table == if updated then old(table)[key := value] else old(table)
    {
      var found := key in table;
      if found {
        table := table[key := value];
        return true;
      }
      return false;
    }

    method Update(key: U64, value: U64) returns (updated: bool)
      modifies this
      ensures updated <==> Encode(key) in old(table)
      ensures table == if updated then old(table)[Encode(key) := value] else old(table)
      ensures old(EncodedKeysOnly()) ==> EncodedKeysOnly()
    {
      updated := UpdateBytes(Encode(key), value);
    }

    /** `__remove`: deletes the key when present. */
    method RemoveBytes(key: Bytes) returns (removed: bool)
      modifies this
      ensures removed <==> key in old(table)
      ensures key !in table
      ensures table == old(table) - {key}
    {
      var found := key in table;
      if found {
        table := table - {key};
        return true;
      }
      return false;
    }

    method Remove(key: U64) returns (removed: bool)
      modifies this
      ensures removed <==> Encode(key) in old(table)
      ensures Encode(key) !in table
      ensures table == old(table) - {Encode(key)}
      ensures old(EncodedKeysOnly()) ==> EncodedKeysOnly()
    {
      removed := RemoveBytes(Encode(key));
    }

    /**
     * `__scan` driven by `scan`'s per-key callback: walk the index in
     * ascending byte order from the left key, ask the scanner about each
     * key, record every accepted one in `res`, and stop at the first key the
     * scanner refuses. `scanned` names the index keys recorded, in order.
     */
    method ScanBytes(lkey: Option<Bytes>, lExclusive: bool, rkey: Option<Bytes>, rExclusive: bool,
                     res: IndexScan, maxScanNum: I64) returns (ghost scanned: seq<Bytes>)
      requires res.keys != res.values
      requires forall k | k in Matches(table, Bounds(ScanStart(lkey), lExclusive, rkey, rExclusive)) :: |k| >= KeyLength
      requires res.num + ResultBound(maxScanNum, |Matches(table, Bounds(ScanStart(lkey), lExclusive, rkey, rExclusive))|) <= res.keys.Length
      requires res.num + ResultBound(maxScanNum, |Matches(table, Bounds(ScanStart(lkey), lExclusive, rkey, rExclusive))|) <= res.values.Length
      modifies res`num, res.keys, res.values
      ensures IsAscendingPrefix(scanned, Matches(table, Bounds(ScanStart(lkey), lExclusive, rkey, rExclusive)), maxScanNum)
      ensures res.num == old(res.num) + |scanned|
      ensures res.num <= res.keys.Length && res.num <= res.values.Length
      ensures forall j | 0 <= j < |scanned| :: scanned[j] in table && |scanned[j]| >= KeyLength
      ensures res.keys[..] == Overwrite(old(res.keys[..]), old(res.num), DecodedKeys(scanned))
      ensures res.values[..] == Overwrite(old(res.values[..]), old(res.num), ValuesOf(table, scanned))
    {
      var t := table;
      var b := Bounds(ScanStart(lkey), lExclusive, rkey, rExclusive);
      var scanner := new SearchRangeScanner(rkey, rExclusive, maxScanNum);
      ghost var n0, keys0, values0 := res.num, res.keys[..], res.values[..];
      ProgressStart(t, b, maxScanNum, n0, keys0, values0);
      ghost var pending: set<Bytes>;
      scanned, pending := Traverse(t, b, maxScanNum, scanner, res, n0, keys0, values0);
      WalkDone(t, b, maxScanNum, scanned, pending);
    }

    /**
     * `scan`: report the 64-bit keys in `[lKey, rKey]` and their values in
     * ascending order into `res` from `res.num` on, at most `count` of them
     * when `count` is not negative. The index keys must be 8-byte encoded
     * keys within the range, and the arrays must have room for the result.
     */
    method Scan(lKey: U64, rKey: U64, count: I64, res: IndexScan) returns (ghost ks: seq<U64>, ghost vs: seq<U64>)
      requires res.keys != res.values
      requires EncodedMatches(table, lKey, rKey)
      requires res.num + ResultBound(count, |Matches(table, ClosedRange(lKey, rKey))|) <= res.keys.Length
      requires res.num + ResultBound(count, |Matches(table, ClosedRange(lKey, rKey))|) <= res.values.Length
      modifies res`num, res.keys, res.values
      ensures NumericScan(table, lKey, rKey, count, ks, vs)
      ensures res.num == old(res.num) + |ks|
      ensures res.num <= res.keys.Length && res.num <= res.values.Length
      ensures res.keys[..] == Overwrite(old(res.keys[..]), old(res.num), ks)
      ensures res.values[..] == Overwrite(old(res.values[..]), old(res.num), vs)
    {
      var scanned := ScanBytes(Some(Encode(lKey)), false, Some(Encode(rKey)), false, res, count);
      DecodedScan(table, lKey, rKey, count, scanned);
      ks, vs := DecodedKeys(scanned), ValuesOf(table, scanned);
    }
  }
}
