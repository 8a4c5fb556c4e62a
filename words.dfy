/** size_t words as the index file stores them: eight bytes, least significant
    first (the native layout of the 64-bit little-endian platforms the format
    is written on). */
module Words {
  import opened Bytes

  /** 256^k, the number of values k bytes can hold. */
  function Pow256(k: nat): (p: nat)
    ensures p > 0
  {
    if k == 0 then 1 else 256 * Pow256(k - 1)
  }

  /** The k low-order bytes of n, least significant first. */
  function EncodeLE(n: nat, k: nat): (bs: seq<byte>)
    ensures |bs| == k
  {
    if k == 0 then [] else [n % 256] + EncodeLE(n / 256, k - 1)
  }

  /** The number a little-endian byte string denotes. */
  function DecodeLE(bs: seq<byte>): (n: nat)
    ensures n < Pow256(|bs|)
  {
    if bs == [] then 0 else bs[0] + 256 * DecodeLE(bs[1..])
  }

  /** Decoding the k low-order bytes of a number that fits in k bytes gives it back. */
  lemma {:induction false} DecodeEncode(n: nat, k: nat)
    requires n < Pow256(k)
    ensures DecodeLE(EncodeLE(n, k)) == n
  {
    if k > 0 {
      DecodeEncode(n / 256, k - 1);
      assert EncodeLE(n, k)[1..] == EncodeLE(n / 256, k - 1);
    }
  }

  /** Eight bytes hold exactly the size_t values. */
  lemma WordBound()
    ensures Pow256(8) == WORD_LIMIT
  {
  }

  /** fwrite of one size_t: the eight bytes of n's low 64 bits, so a count that
      outgrows size_t wraps as it would in the source. */
  function WordBytes(n: nat): (bs: seq<byte>)
    ensures |bs| == 8
  {
    EncodeLE(n % WORD_LIMIT, 8)
  }

  /** fread of one size_t at position p. */
  function WordAt(bs: seq<byte>, p: nat): (w: Word)
    requires p + 8 <= |bs|
  {
    WordBound();
    DecodeLE(bs[p..p + 8])
  }

  /** A size_t written by WordBytes reads back unchanged wherever it lands. */
  lemma WordRoundTrip(pre: seq<byte>, w: Word, post: seq<byte>)
    ensures WordAt(pre + WordBytes(w) + post, |pre|) == w
  {
    WordBound();
    var bs := WordBytes(w);
    assert w % WORD_LIMIT == w;
    DecodeEncode(w, 8);
    assert DecodeLE(bs) == w;
    var all := pre + bs + post;
    assert all[|pre|..|pre| + 8] == bs;
  }
}
