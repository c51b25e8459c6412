/**
 * Row-key encoding as a fold over the key columns in declared key order.
 *
 * The per-type byte format is a parameter: `encode(d, isLast)` is the
 * encoding of one key component, told whether it is the last component
 * (a string that is not last must be encoded so that the boundary to the
 * next component stays unambiguous; the last one need not be).
 */
module KeyEncoding {
  import opened Types

  type ComponentEncoder = (Datum, bool) -> seq<byte>

  /** The encoding of the first `n` components of the key `parts`. */
  function EncodePrefix(encode: ComponentEncoder, parts: seq<Datum>, n: nat): seq<byte>
    requires n <= |parts|
  {
    if n == 0 then []
    else EncodePrefix(encode, parts, n - 1) + encode(parts[n - 1], n == |parts|)
  }

  /** The encoded key: every component, in order, the last one flagged as last. */
  function EncodeKey(encode: ComponentEncoder, parts: seq<Datum>): seq<byte> {
    EncodePrefix(encode, parts, |parts|)
  }

  /** The components' encodings, in key order, each told whether it is the last. */
  function Components(encode: ComponentEncoder, parts: seq<Datum>): (r: seq<seq<byte>>)
    ensures |r| == |parts|
    ensures forall k :: 0 <= k < |parts| ==> r[k] == encode(parts[k], k == |parts| - 1)
  {
    seq(|parts|, k requires 0 <= k < |parts| => encode(parts[k], k == |parts| - 1))
  }

  function Concat(chunks: seq<seq<byte>>): seq<byte> {
    if chunks == [] then [] else Concat(chunks[..|chunks| - 1]) + chunks[|chunks| - 1]
  }

  /** The key is the concatenation of the component encodings, in declared key order. */
  lemma {:induction false} EncodeKeyIsConcat(encode: ComponentEncoder, parts: seq<Datum>)
    ensures EncodeKey(encode, parts) == Concat(Components(encode, parts))
  {
    PrefixIsConcat(encode, parts, |parts|);
    assert Components(encode, parts)[..|parts|] == Components(encode, parts);
  }

  lemma {:induction false} PrefixIsConcat(encode: ComponentEncoder, parts: seq<Datum>, n: nat)
    requires n <= |parts|
    ensures EncodePrefix(encode, parts, n) == Concat(Components(encode, parts)[..n])
  {
    var c := Components(encode, parts);
    if n > 0 {
      PrefixIsConcat(encode, parts, n - 1);
      assert c[..n][..n - 1] == c[..n - 1];
    }
  }

  /** A key of one column is that column's encoding as the last component. */
  lemma SingleColumnKey(encode: ComponentEncoder, d: Datum)
    ensures EncodeKey(encode, [d]) == encode(d, true)
  {
    assert EncodePrefix(encode, [d], 0) == [];
  }

  /** The encoding of the first `n` key components is a prefix of the whole key. */
  lemma {:induction false} PrefixOfKey(encode: ComponentEncoder, parts: seq<Datum>, n: nat)
    requires n <= |parts|
    ensures EncodePrefix(encode, parts, n) <= EncodeKey(encode, parts)
    decreases |parts| - n
  {
    if n < |parts| {
      PrefixOfKey(encode, parts, n + 1);
      assert EncodePrefix(encode, parts, n + 1)
          == EncodePrefix(encode, parts, n) + encode(parts[n], n + 1 == |parts|);
    }
  }
}
