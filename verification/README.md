# Masstree client wrapper, modelled in Dafny

`wrapper.hh` puts a small client in front of a Masstree index. The index
maps byte-string keys to 64-bit values. The client offers:

- point operations `put`, `get`, `update` and `remove`, over raw byte keys
  (`__put`, ...) and over `uint64_t` keys, which are byte-swapped so that
  their bytes sort like the numbers;
- a range scan. `__scan` walks the index in ascending byte order from a left
  key. For each key it asks a `SearchRangeScanner`, which applies a result
  cap and a `memcmp`-based right-bound test. `scan` adds the 64-bit view: it
  decodes each accepted key and appends the key and its value to the
  caller's `index_scan` arrays.

The model is sequential. The shared index is a `map<Bytes, U64>` field of
`Client.MasstreeClient`, and each cursor find/finish pair is one map lookup
or one map update.

How the files are laid out:

- `byte_order.dfy` (`ByteOrder`): bytes; the lexicographic three-way compare
  in which a proper prefix sorts first; `memcmp` over a length; the ordering
  facts.
- `key_codec.dfy` (`KeyCodec`): the 8-byte big-endian key encoding and its
  inverse, with round trips and order preservation.
- `range_scanner.dfy` (`RangeScanner`): the right-bound test and the
  `SearchRangeScanner` class. Its state is `scanNumCnt` and `continueFlag`.
  `visit_value` updates that state in place.
- `ordered_index.dfy` (`OrderedIndex`): ascending iteration over a finite set
  of keys. `IsAscendingPrefix` states what a capped ascending scan reports,
  and is proved to determine that report uniquely.
- `scan_spec.dfy` (`ScanSpec`): scan bounds, the keys a scan matches, the
  invariant of the ascending walk, and the 64-bit view of a scan result
  (`NumericScan`).
- `client.dfy` (`Client`): the caller's output arrays (`IndexScan`), the
  traversal that stands in for `table_->scan`, and the client class with
  every operation.

The index's own `scan` is modelled as a loop. It repeatedly takes the least
key not yet visited, starting at the left key (inclusive unless
`l_exclusive`), and stops at the first key the scanner refuses. `scan`'s
per-key lambda is `IndexScan.Record`.

Two modelling choices need stating:

- The scanner's right-bound test is modelled as the code writes it. A
  candidate that is a proper prefix of the bound is accepted. An inclusive
  exact match is accepted and the walk continues. A candidate that extends
  the bound is refused. `RangeScanner.RightBoundMeaning` proves what the
  code does.
- The capacity precondition of `scan` is stated exactly: from `res.num`, the
  arrays need room for `min(count, number of matching keys)` entries, or for
  all matching keys when `count` is negative. Nothing in the code checks it.

## Model

| member | source | states |
|---|---|---|
| KeyCodec.Encode | wrapper.hh:79 | `bswap64` of a key, read as bytes, is a string of exactly eight bytes |
| KeyCodec.Decode | wrapper.hh:237-238 | reads eight bytes back as the big-endian 64-bit key, as the callback's `bswap64` does; its meaning is given by `EncodeDecode` and `DecodeEncode` (the inverse of `Encode`) and by `DecodeOrder` (byte order becomes numeric order) |
| KeyCodec.EncodeDecode | wrapper.hh:237-238 | decoding the eight bytes of an encoded key gives the key back, for every `uint64_t` |
| KeyCodec.DecodeEncode | wrapper.hh:216-217 | every eight-byte string is the encoding of the key it decodes to |
| KeyCodec.EncodeOrder | wrapper.hh:215-217 | `a < b` exactly when `Encode(a)` sorts byte-lexicographically before `Encode(b)` |
| KeyCodec.DecodeOrder | wrapper.hh:237-238 | on eight-byte strings, byte order is the numeric order of the decoded keys |
| ByteOrder.MemCmp | wrapper.hh:171-172 | `memcmp` over `n` bytes is zero exactly when the first `n` bytes agree |
| ByteOrder.MemCmpFirstDifference | wrapper.hh:171-173 | otherwise the first of the `n` bytes in which the strings differ decides the sign: negative when the first string holds the smaller byte there, positive when it holds the larger |
| ByteOrder.CompareFirstDifference | wrapper.hh:171-173 | in the index's byte order, the first differing byte decides which of two strings sorts first |
| ByteOrder.PrefixSortsFirst | wrapper.hh:174-175 | a proper prefix sorts before the longer string |
| RangeScanner.RightBoundMeaning | wrapper.hh:163-187 | the three accepting cases of the right-bound test (greater prefix, equal prefix with a longer bound, equal and inclusive) together accept exactly the keys below the bound, plus the bound itself when it is inclusive |
| RangeScanner.RightBoundAccepts | wrapper.hh:171-181 | computes `memcmp` of the bound against the key over the shorter length and accepts when the result is positive, or zero with a longer bound, or zero with equal lengths and an inclusive bound; `RightBoundMeaning` proves this is "below the bound, or the bound itself when inclusive" |
| RangeScanner.RightBoundDownwardClosed | wrapper.hh:171-187 | a key below an accepted key is accepted, so the first refusal ends the matching keys of an ascending walk |
| RangeScanner.SearchRangeScanner.constructor | wrapper.hh:144-148 | a new scanner has bound, exclusivity and cap as given, a zero count and the flag up |
| RangeScanner.SearchRangeScanner.VisitValue | wrapper.hh:157-188 | with the flag down or the cap reached, the visit is refused and nothing is counted; otherwise the count grows by one and the key is accepted (handed to the per-key callback) exactly when there is no bound or the bound test admits it; the callback runs at most `max_scan_num_` times |
| RangeScanner.SearchRangeScanner.StopTraversal | wrapper.hh:158-160 | a callback that lowers `continue_flag` leaves the scanner valid, and every later visit is refused |
| OrderedIndex.LeastExists | wrapper.hh:212 | a non-empty set of keys has a least key in byte order, so the ascending walk can always proceed |
| OrderedIndex.AscendingPrefixSize | wrapper.hh:158-161 | a capped ascending report holds `min(cap, matches)` keys, or all matches when the cap is negative |
| OrderedIndex.AscendingPrefixUnique | wrapper.hh:203-213 | the ascending, capped report of a scan is uniquely determined by the matching keys and the cap |
| ScanSpec.ScannerBoundMeaning | wrapper.hh:163-187 | the scanner's verdict on a key is the right-bound half of the scan's bounds |
| ScanSpec.EncodedBounds | wrapper.hh:215-220 | with both bounds encoded and inclusive, an encoded key is within the bounds exactly when `l_key <= key <= r_key` |
| ScanSpec.ClosedRange | wrapper.hh:216-227 | the bounds `scan` hands to `__scan`: the encoded `l_key` as an inclusive start and the encoded `r_key` as an inclusive right bound; `EncodedBounds` proves that a key lies within them exactly when `l_key <= key <= r_key` |
| ScanSpec.WalkStart | wrapper.hh:208-212 | before any visit, the walk has reported nothing and every key from the left key on is still pending |
| ScanSpec.WalkAdvance | wrapper.hh:158-187 | reporting the least pending key that the scanner accepts keeps the walk ascending and within bounds, and the report still fits in `min(cap, matches)` |
| ScanSpec.WalkRefused | wrapper.hh:158-187 | when the scanner refuses the least pending key, every pending matching key lies beyond the cap |
| ScanSpec.WalkDone | wrapper.hh:212 | a walk that has ended reported exactly the ascending capped prefix of the matching keys |
| ScanSpec.ScannedEntriesAt | wrapper.hh:237-241 | entry `j` of the recorded keys decodes index key `j`, and entry `j` of the recorded values is that key's value |
| ScanSpec.DecodedScan | wrapper.hh:215-249 | decoding a byte-level scan over the encoded closed range gives the 64-bit scan result: in range, present with their values, strictly ascending, and leaving out an in-range key only when the cap was reached below it |
| ScanSpec.EncodedScan | wrapper.hh:215-249 | conversely, a 64-bit scan result, encoded, is the ascending capped prefix of the encoded range's matching keys |
| ScanSpec.NumericScanUnique | wrapper.hh:215-249 | the 64-bit description of a scan result determines its keys and values uniquely |
| Client.IndexScan.Record | wrapper.hh:236-246 | the per-key lambda writes the decoded key and the value at index `num` and advances `num` by one; nothing else in the arrays changes |
| Client.RecordNext | wrapper.hh:236-246 | one lambda call grows by one entry the block of decoded keys and values written since the scan began |
| Client.RecordAccepted | wrapper.hh:181-184 | recording a key the scanner accepted keeps the walk invariant and the arrays in step with it |
| Client.VisitAndRecord | wrapper.hh:157-188 | one visit: a refusal leaves the arrays as they were and shows that the pending matching keys lie beyond the cap; an acceptance records the key and advances the walk |
| Client.Traverse | wrapper.hh:212 | walking the index keys in ascending order from the left key ends with the walk invariant and with the arrays recording what was reported |
| Client.MasstreeClient.constructor | wrapper.hh:58-61 | the client works on the given index |
| Client.MasstreeClient.PutBytes | wrapper.hh:63-76 | insert-only: a present key leaves the index unchanged and returns false; an absent key is added with the value and returns true; no other key changes |
| Client.MasstreeClient.Put | wrapper.hh:78-81 | the same for the encoded 64-bit key; an index of encoded keys stays one |
| Client.MasstreeClient.GetBytes | wrapper.hh:83-93 | a hit returns true and the stored value; a miss returns false and leaves the caller's value as it was; the index is not modified |
| Client.MasstreeClient.Get | wrapper.hh:95-98 | the same for the encoded 64-bit key |
| Client.MasstreeClient.UpdateBytes | wrapper.hh:100-112 | never inserts: an absent key leaves the index unchanged and returns false; a present key gets the new value and returns true; no other key changes |
| Client.MasstreeClient.Update | wrapper.hh:114-117 | the same for the encoded 64-bit key |
| Client.MasstreeClient.RemoveBytes | wrapper.hh:119-130 | a present key is deleted and true returned; an absent key leaves the index unchanged and false returned; the key is absent afterwards and no other key changes |
| Client.MasstreeClient.Remove | wrapper.hh:132-135 | the same for the encoded 64-bit key |
| Client.MasstreeClient.ScanBytes | wrapper.hh:203-213 | `__scan` reports the ascending capped prefix of the index keys within the bounds; `res.num` grows by the number reported; the decoded keys and their values are written at the old `res.num` onwards, and nothing else in the arrays changes |
| Client.ScanStart | wrapper.hh:208 | the start key of the walk: the empty string for a null left key, and the left key otherwise; the empty string sorts before every non-empty key (`PrefixSortsFirst`), so a null left key starts the walk at the beginning of the index |
| Client.MasstreeClient.Scan | wrapper.hh:215-253 | `scan` appends at `res.num` the keys in `[l_key, r_key]` that the index holds, with their values, in strictly ascending order; at most `count` of them when `count >= 0`; a key in range is left out only when the cap was reached below it; nothing else in the arrays changes |

## Left out

- Locking, `fence()` and the locked versus unlocked cursors (wrapper.hh:64-74, 84-85, 101-110). They matter only under concurrency, and each operation is modelled as atomic on the map.
- The epoch and RCU globals and `rcu_start`/`rcu_stop` (wrapper.hh:24-30, 266-272). These are reclamation bookkeeping with no sequential behaviour.
- Masstree's own nodes and its `scan` traversal. They live in headers that are not part of this model, and are replaced by a map and an ascending loop over its keys.
- `visit_leaf`, `per_node_func` and the `n_cnt` counter in `scan` (wrapper.hh:150-155, 228-235). They count nodes using opaque leaf handles and version stamps, and do not affect the result.
- The `v_cnt` counter in `scan`, which is never read. The ghost `kvCalls` of the scanner counts the same callback calls.
- `printf` in the scan lambda and `key_unparse_unsigned` (wrapper.hh:32-37, 239, 242). These are output and formatting.
- `Masstree_manager` and its `setup` (wrapper.hh:264-287). They only create and delete the index object and hold it in a static singleton.
- thread_test.cc is not part of this model. It is a threaded harness with random keys and printing.
- Host endianness: `bswap64` of the native representation is taken to be the big-endian byte encoding, as it is on little-endian hosts.
- Values are fixed to 64-bit integers, the `ValueType` that `index_scan` stores.
- RangeScanner.SearchRangeScanner.VisitValue: `scan_num_cnt_` is an unbounded integer, so wrap-around of the `int64_t` counter after 2^63 visits is not modelled.
- Client.MasstreeClient.Scan: requires every index key in the encoded range to be exactly eight bytes. The lambda reads eight bytes of every key, and a longer key in range decodes to its first eight bytes, which may repeat another reported key or name a key whose encoding the index does not hold; keys stored through the byte-level entry points are otherwise unrestricted.
- Client.MasstreeClient.ScanBytes: requires every matching key to have at least eight bytes (the lambda reads eight), and `res.keys` and `res.values` to be distinct arrays. The aliased case is not modelled.
- `size_t` overflow of `res->num` is not modelled, because the capacity precondition keeps it below the array lengths.
