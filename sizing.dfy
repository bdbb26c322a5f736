/**
 * Sizing a packed Bloom filter: from bits-per-item and an item count to a
 * power-of-two word count and a hash count, and the filter's byte footprint.
 */
module Sizing {
  import opened Bits

  /** BloomFilterParams: the sizing input. */
  datatype BloomFilterParams = BloomFilterParams(bitsPerItem: u64)

  /**
   * The fixed header of a PackedBloomFilter.  The word array that follows it
   * holds wordCountMask + 1 words, a power of two; hashCount is stored in 16 bits.
   */
  datatype Header = Header(wordCountMask: u64, hashCount: u16)
  {
    /** word_count(): the number of 64-bit words of the bit array. */
    function WordCount(): nat
    {
      wordCountMask + 1
    }
  }

  /**
   * The floating-point part of optimal_hash_count,
   * usize(double(filter_bits) / double(item_count) * ln 2 - 0.5),
   * as a function of (filter_bits, item_count).
   */
  type HashCountEstimate = (u64, u64) -> u64

  /** sizeof(PackedBloomFilter): mask (8), hash_count (2), reserved (6) and the first word (8). */
  const StructSize: nat := 24

  /** Byte offset of words[0] within the packed filter. */
  const WordsOffset: nat := 16

  /** sizeof(little_u64). */
  const WordSize: nat := 8

  /**
   * The largest bits_per_item * item_count for which neither the product, nor
   * the word count, nor word_count * 64 leaves the range of u64.
   */
  const MaxFilterBits: nat := 0x8000_0000_0000_0000

  /**
   * word_count_from_bit_count: the smallest power of two whose words hold
   * `bits` bits, computed as 1 << log2_ceil((bits + 63) / 64).
   */
  function WordCountFromBitCount(bits: u64): (wc: u64)
    requires 1 <= bits <= 0x1_0000_0000_0000_0000 - 64
    ensures IsPowerOfTwo(wc)
    ensures wc * 64 >= bits
    ensures wc == 1 || (wc / 2) * 64 < bits
  {
    var k := Log2Ceil((bits + 63) / 64);
    Pow2IsPowerOfTwo(k);
    Pow2(k)
  }

  /** optimal_hash_count: the estimate, but never below one hash. */
  function OptimalHashCount(estimate: HashCountEstimate, filterBits: u64, itemCount: u64): (k: u64)
    requires itemCount > 0
    ensures k >= 1
    ensures k >= estimate(filterBits, itemCount)
    ensures k == estimate(filterBits, itemCount) || k == 1
  {
    var e := estimate(filterBits, itemCount);
    if e < 1 then 1 else e
  }

  /** Storing a u64 into the little_u16 hash_count field keeps its low 16 bits. */
  function TruncateToU16(x: u64): u16
  {
    x % 0x1_0000
  }

  /**
   * from_params / initialize: the header written for `itemCount` items at
   * `params.bitsPerItem` bits each.
   */
  function FromParams(params: BloomFilterParams, itemCount: u64, estimate: HashCountEstimate): (h: Header)
    requires 1 <= params.bitsPerItem * itemCount <= MaxFilterBits
    ensures h.WordCount() == WordCountFromBitCount(params.bitsPerItem * itemCount)
    ensures IsPowerOfTwo(h.WordCount())
    ensures h.WordCount() * 64 < 0x1_0000_0000_0000_0000
    ensures h.hashCount == OptimalHashCount(estimate, h.WordCount() * 64, itemCount) % 0x1_0000
    ensures OptimalHashCount(estimate, h.WordCount() * 64, itemCount) < 0x1_0000 ==> h.hashCount >= 1
  {
    var bits := params.bitsPerItem * itemCount;
    var numWords := WordCountFromBitCount(bits);
    WordCountBitsFit(bits, numWords);
    var filterBitCount := numWords * 64;
    var k := OptimalHashCount(estimate, filterBitCount, itemCount);
    var h := Header(numWords - 1, TruncateToU16(k));
    assert h.WordCount() == numWords;
    h
  }

  /** The minimal power-of-two word count for at most MaxFilterBits bits still has a u64 bit count. */
  lemma WordCountBitsFit(bits: nat, numWords: nat)
    requires bits <= MaxFilterBits
    requires IsPowerOfTwo(numWords)
    requires numWords == 1 || (numWords / 2) * 64 < bits
    ensures numWords * 64 < 0x1_0000_0000_0000_0000
  {
    if numWords > 1 {
      assert numWords == 2 * (numWords / 2);
    }
  }

  /**
   * packed_sizeof: the header struct (which already holds one word) plus the
   * remaining wordCountMask words.
   */
  function PackedSizeof(h: Header): (n: nat)
    ensures n == WordsOffset + WordSize * h.WordCount()
    ensures n >= StructSize
  {
    StructSize + WordSize * h.wordCountMask
  }

  /** packed_sizeof_bloom_filter: the bytes a caller allocates before initializing. */
  function PackedSizeofBloomFilter(params: BloomFilterParams, itemCount: u64, estimate: HashCountEstimate): (n: nat)
    requires 1 <= params.bitsPerItem * itemCount <= MaxFilterBits
    ensures n == WordsOffset + WordSize * WordCountFromBitCount(params.bitsPerItem * itemCount)
  {
    PackedSizeof(FromParams(params, itemCount, estimate))
  }

  /** 10 bits for each of 1000 items: 10000 bits round up to 157 words, then to 256. */
  lemma WorkedExample(estimate: HashCountEstimate)
    ensures WordCountFromBitCount(10 * 1000) == 256
    ensures FromParams(BloomFilterParams(10), 1000, estimate).wordCountMask == 255
    ensures PackedSizeofBloomFilter(BloomFilterParams(10), 1000, estimate) == 2064
  {
    WordCountOf10000Bits();
  }

  /** 10000 bits need 157 words, rounded up to a power of two: 256. */
  lemma WordCountOf10000Bits()
    ensures WordCountFromBitCount(10000) == 256
  {
    assert Log2Ceil(2) == 1;
    assert Log2Ceil(3) == 2;
    assert Log2Ceil(5) == 3;
    assert Log2Ceil(10) == 4;
    assert Log2Ceil(20) == 5;
    assert Log2Ceil(40) == 6;
    assert Log2Ceil(79) == 7;
    assert Log2Ceil(157) == 8;
  }
}
