/**
 * PackedBloomFilter as an object: the header fields and the word array that
 * follows them in memory.  Each operation is proved against the value-level
 * definitions of module BloomWords.
 */
module PackedFilter {
  import opened Bits
  import opened HashFamily
  import opened Sizing
  import opened BloomWords

  class PackedBloomFilter {
    /** word_count_mask: the number of words minus one. */
    var wordCountMask: u64
    /** hash_count: the number of hash functions used. */
    var hashCount: u16
    /** The words that follow the header; their storage is fixed once placed. */
    const words: array<bv64>

    /** The word count is a power of two and the array holds exactly that many words. */
    ghost predicate Valid()
      reads this
    {
      words.Length == wordCountMask + 1 && IsPowerOfTwo(wordCountMask + 1)
    }

    /** The header fields as a value. */
    function HeaderValue(): (h: Header)
      reads this
      ensures h.wordCountMask == wordCountMask && h.hashCount == hashCount
    {
      Header(wordCountMask, hashCount)
    }

    /**
     * A filter placed over a buffer of words, with its header fields written,
     * as parallel_build_bloom_filter does for each scratch filter.
     */
    constructor Place(buffer: array<bv64>, hdr: Header)
      requires buffer.Length == hdr.WordCount() && IsPowerOfTwo(hdr.WordCount())
      ensures Valid() && HeaderValue() == hdr && words == buffer
    {
      wordCountMask := hdr.wordCountMask;
      hashCount := hdr.hashCount;
      words := buffer;
    }

    /**
     * initialize: write the header that from_params computes.  The buffer was
     * allocated with packed_sizeof_bloom_filter for the same parameters, so it
     * holds exactly the resulting number of words.  The words are not touched.
     */
    method Initialize(params: BloomFilterParams, itemCount: u64, estimate: HashCountEstimate)
      requires 1 <= params.bitsPerItem * itemCount <= MaxFilterBits
      requires words.Length == FromParams(params, itemCount, estimate).WordCount()
      modifies this
      ensures Valid()
      ensures HeaderValue() == FromParams(params, itemCount, estimate)
    {
      var numWords := WordCountFromBitCount(params.bitsPerItem * itemCount);
      var filterBitCount := numWords * 64;
      wordCountMask := numWords - 1;
      hashCount := TruncateToU16(OptimalHashCount(estimate, filterBitCount, itemCount));
    }

    /** word_count(): the number of words, a power of two. */
    function WordCount(): (n: nat)
      requires Valid()
      reads this
      ensures n == words.Length && IsPowerOfTwo(n)
    {
      wordCountMask + 1
    }

    /** get_words(): a view of all the filter's words. */
    function GetWords(): (s: seq<bv64>)
      requires Valid()
      reads this, words
      ensures |s| == WordCount() && |s| == HeaderValue().WordCount()
      ensures forall i :: 0 <= i < |s| ==> s[i] == words[i]
    {
      words[..wordCountMask + 1]
    }

    /** insert: set the bit of each of the item's hashCount hashes. */
    method Insert<T>(xxh: Hasher<T>, item: T)
      requires Valid()
      modifies words
      ensures words[..] == InsertItem(old(words[..]), HeaderValue(), xxh, item)
    {
      var n: u64 := 0;
      while n < hashCount
        invariant n <= hashCount
        invariant words[..] == SetBits(old(words[..]), wordCountMask, Hashes(xxh, item, n))
      {
        var h := NthHash(xxh, item, n);
        var i := IndexFromHash(wordCountMask, h);
        ghost var before := words[..];
        words[i] := words[i] | BitMaskFromHash(h);
        assert words[..] == SetBit(before, wordCountMask, h);
        HashesSnoc(xxh, item, n);
        assert (Hashes(xxh, item, n) + [h])[..n] == Hashes(xxh, item, n);
        n := n + 1;
      }
    }

    /** might_contain: whether every one of the item's hashCount bits is set. */
    method MightContain<T>(xxh: Hasher<T>, item: T) returns (r: bool)
      requires Valid()
      ensures r == MayContain(GetWords(), HeaderValue(), xxh, item)
    {
      var ws, mask := words[..], wordCountMask;
      var c, _ := HashForBloom(xxh, item, hashCount, (h: u64) => Probe(ws, mask, h));
      r := c == Continue;
      assert GetWords() == ws;
    }

    /** clear: zero every word. */
    method Clear()
      requires Valid()
      modifies words
      ensures words[..] == Zeros(WordCount())
    {
      forall i | 0 <= i < words.Length {
        words[i] := 0;
      }
    }
  }

  /** Inserting an item into a placed filter and then asking for it answers true. */
  method InsertThenQuery<T>(filter: PackedBloomFilter, xxh: Hasher<T>, item: T) returns (r: bool)
    requires filter.Valid()
    modifies filter.words
    ensures r
  {
    filter.Insert(xxh, item);
    r := filter.MightContain(xxh, item);
    ghost var before := old(filter.words[..]);
    assert filter.GetWords() == InsertItems(before, filter.HeaderValue(), xxh, [item]) by {
      assert [item][..0] == [];
    }
    NoFalseNegatives(before, filter.HeaderValue(), xxh, [item], item);
  }
}
