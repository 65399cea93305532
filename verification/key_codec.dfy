/**
 * The key encoding of the client layer. Every 64-bit key is byte-swapped with
 * `__builtin_bswap64` and its in-memory bytes are handed to the index; on the
 * little-endian hosts the wrapper targets, those bytes are the key's
 * big-endian encoding, which is what this module defines. The scan callback
 * swaps the bytes back to recover the key.
 */
module KeyCodec {
  import opened ByteOrder

  /** `sizeof(uint64_t)`: every encoded key is this long. */
  const KeyLength: nat := 8

  /** `uint64_t` */
  type U64 = x: int | 0 <= x < 0x1_0000_0000_0000_0000

  function Pow256(n: nat): (p: nat)
    ensures 0 < p
  {
    if n == 0 then 1 else 256 * Pow256(n - 1)
  }

  lemma Pow256Key()
    ensures Pow256(KeyLength) == 0x1_0000_0000_0000_0000
  {
  }

  /** The `n` low-order base-256 digits of `x`, most significant first. */
  function BigEndian(x: nat, n: nat): (s: Bytes)
    requires x < Pow256(n)
    ensures |s| == n
  {
    if n == 0 then [] else BigEndian(x / 256, n - 1) + [x % 256]
  }

  /** The number whose base-256 digits, most significant first, are `s`. */
  function FromBigEndian(s: Bytes): (x: nat)
    ensures x < Pow256(|s|)
  {
    if s == [] then 0 else FromBigEndian(s[..|s| - 1]) * 256 + s[|s| - 1]
  }

  lemma {:induction false} FromBigEndianOfBigEndian(x: nat, n: nat)
    requires x < Pow256(n)
    ensures FromBigEndian(BigEndian(x, n)) == x
  {
    if n > 0 {
      var s := BigEndian(x, n);
      assert s[..n - 1] == BigEndian(x / 256, n - 1);
      FromBigEndianOfBigEndian(x / 256, n - 1);
    }
  }

  lemma {:induction false} BigEndianOfFromBigEndian(s: Bytes)
    ensures BigEndian(FromBigEndian(s), |s|) == s
  {
    if s != [] {
      var init := s[..|s| - 1];
      BigEndianOfFromBigEndian(init);
      assert s == init + [s[|s| - 1]];
    }
  }

  /**
   * Comparing two strings of one length extended by one byte each: the
   * prefixes decide, and the last bytes decide only between equal prefixes.
   */
  lemma {:induction false} CompareAppend(s: Bytes, t: Bytes, a: Byte, b: Byte)
    requires |s| == |t|
    ensures Compare(s + [a], t + [b])
            == if s != t then Compare(s, t) else Compare([a], [b])
    decreases |s|
  {
    if s != [] {
      assert (s + [a])[1..] == s[1..] + [a];
      assert (t + [b])[1..] == t[1..] + [b];
      if s[0] == t[0] {
        assert s != t <==> s[1..] != t[1..] by {
          assert s == [s[0]] + s[1..] && t == [t[0]] + t[1..];
        }
        CompareAppend(s[1..], t[1..], a, b);
      }
    } else {
      assert [a][1..] == [] && [b][1..] == [];
    }
  }

  /**
   * For strings of one length, lexicographic order is numeric order of the
   * big-endian values.
   */
  lemma {:induction false} BigEndianOrder(s: Bytes, t: Bytes)
    requires |s| == |t|
    ensures Less(s, t) <==> FromBigEndian(s) < FromBigEndian(t)
    ensures s == t <==> FromBigEndian(s) == FromBigEndian(t)
  {
    if s != [] {
      var n := |s| - 1;
      var s', t' := s[..n], t[..n];
      BigEndianOrder(s', t');
      LessTotal(s', t');
      CompareAppend(s', t', s[n], t[n]);
      assert s == s' + [s[n]] && t == t' + [t[n]];
      assert [s[n]][1..] == [] && [t[n]][1..] == [];
    }
  }

  /** The bytes `put`, `get`, `update`, `remove` and `scan` hand to the index for `key`. */
  function Encode(key: U64): (s: Bytes)
    ensures |s| == KeyLength
  {
    Pow256Key();
    BigEndian(key, KeyLength)
  }

  /** The key the scan callback reads back from eight bytes of an index key. */
  function Decode(s: Bytes): (key: U64)
    requires |s| == KeyLength
  {
    Pow256Key();
    FromBigEndian(s)
  }

  lemma EncodeDecode(key: U64)
    ensures Decode(Encode(key)) == key
  {
    Pow256Key();
    FromBigEndianOfBigEndian(key, KeyLength);
  }

  lemma DecodeEncode(s: Bytes)
    requires |s| == KeyLength
    ensures Encode(Decode(s)) == s
  {
    BigEndianOfFromBigEndian(s);
  }

  /** Byte order on eight-byte strings is the numeric order of the keys they decode to. */
  lemma DecodeOrder(s: Bytes, t: Bytes)
    requires |s| == KeyLength && |t| == KeyLength
    ensures Less(s, t) <==> Decode(s) < Decode(t)
  {
    BigEndianOrder(s, t);
  }

  /** Numeric order of keys is byte order of their encodings. */
  lemma EncodeOrder(a: U64, b: U64)
    ensures a < b <==> Less(Encode(a), Encode(b))
  {
    EncodeDecode(a);
    EncodeDecode(b);
    DecodeOrder(Encode(a), Encode(b));
  }
}
