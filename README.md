# Packed Bloom filter (LLFS) in Dafny

This project models the packed Bloom filter of LLFS (`src/llfs/bloom_filter.hpp`)
and proves what its operations promise.

A `PackedBloomFilter` is a 16-byte header followed by its bit array of `word_count_mask + 1`
64-bit words. The header holds `word_count_mask` (8 bytes), `hash_count` (2 bytes) and 6
reserved bytes, so the words start at byte offset 16. `sizeof(PackedBloomFilter)` is 24 because
it includes the first word, and a filter occupies 16 + 8 * word_count bytes. The word count is a
power of two, so `(h >> 6) & word_count_mask` always selects a valid word.

The n-th hash of an item is XXH64 of the item, seeded with entry `n & 63` of a fixed table of
64 seeds. Bit `h & 63` of the selected word represents hash `h`. `insert` sets the bits of the
item's `hash_count` hashes. `might_contain` stops at the first hash whose bit is clear.
`parallel_build_bloom_filter` builds one scratch filter per contiguous shard of the input, then
ORs them word by word into the target.

Modules, one per file:

- `Bits` (`bits.dfy`): u64/u16 ranges, powers of two, `log2_ceil`, `&` on naturals (`BitAnd`),
  and bit facts about 64-bit words.
- `HashFamily` (`hash_family.dfy`): the seed table, `get_nth_hash_for_bloom` and
  `hash_for_bloom`.
- `Sizing` (`sizing.dfy`): `word_count_from_bit_count`, `optimal_hash_count`, `from_params`,
  `packed_sizeof` and `packed_sizeof_bloom_filter`.
- `BloomWords` (`bloom_words.dfy`): the bit array as a sequence of `bv64` words. It holds
  `index_from_hash`, `bit_mask_from_hash`, and what `insert`, `might_contain` and `clear`
  compute. It also holds the lemmas about them: no false negatives, order independence,
  idempotence, monotonicity, and the shard-merge theorem.
- `PackedFilter` (`packed_filter.dfy`): the class `PackedBloomFilter` over an `array<bv64>`.
  Its method `Initialize` is proved against `Sizing.FromParams`, and `Insert`, `MightContain`
  and `Clear` are proved against `BloomWords`.
- `ParallelBuild` (`parallel_build.dfy`): the two stages of `parallel_build_bloom_filter` as
  methods over scratch filters. The result is proved equal to inserting every item, in order,
  into a cleared filter.

Hash values, masks and counts are naturals bounded to the u64 range, and `&` on them is
`Bits.BitAnd`. Filter words are `bv64`, and `|`, `&` and `<<` on them are native. A bit position is a `bv6`;
bit j of a word w is set when `w & (1 << j) != 0`, and hash h selects bit h mod 64 of word
`index_from_hash(h)`.

XXH64 is a foreign library, so it is a parameter: `xxh: (T, u64) -> u64`, a deterministic
function of the item and the seed. The floating-point part of `optimal_hash_count`,
`usize(double(bits) / double(items) * ln 2 - 0.5)`, is also a parameter:
`estimate(filterBits, itemCount)`. The model keeps everything around those two parameters:
`max(1, ·)`, and the implicit conversion of the result to the 16-bit `hash_count` field.

`optimal_hash_count` never returns 0: it takes `max(1, ·)` (bloom_filter.hpp:170). But
`initialize` stores its result into the 16-bit `hash_count` field (bloom_filter.hpp:188), which
keeps it modulo 65536, so a count that is a multiple of 65536 is stored as 0. The model follows
the code: `Sizing.FromParams` promises `hash_count >= 1` only when the computed count is below
65536.

## Model

| member | source | states |
|---|---|---|
| Bits.Log2Ceil | src/llfs/bloom_filter.hpp:161 | `log2_ceil(x)` for x >= 1 is the least k with 2^k >= x: 2^k covers x, and k = 0 or 2^(k-1) < x |
| Bits.BitAndLowMask | src/llfs/bloom_filter.hpp:79 | `a & (2^k - 1)` equals `a mod 2^k`, the fact behind seed selection and word indexing |
| HashFamily.SeedCountIsPowerOfTwo | src/llfs/bloom_filter.hpp:50-72 | the seed table has 64 entries, `1 << log2_ceil(64) == 64`, and 64 is a power of two |
| HashFamily.SeedIndex | src/llfs/bloom_filter.hpp:76-80 | `n & (64 - 1)` is a valid table index and equals n mod 64 |
| HashFamily.NthHashSeed | src/llfs/bloom_filter.hpp:76-101 | the n-th hash of an item is XXH64 of the item seeded with entry n mod 64 of the seed table |
| HashFamily.HashFamilyRepeatsEvery64 | src/llfs/bloom_filter.hpp:76-80 | hashes n and n + 64 of an item coincide, since they use the same seed |
| HashFamily.HashForBloom | src/llfs/bloom_filter.hpp:116-125 | the visitor sees hashes 0, 1, ... of the item in order, and every one except the last visited answered Continue; the result is Continue exactly when all `count` hashes were visited and answered Continue; on Break, the last visited answered Break |
| Sizing.WordCountFromBitCount | src/llfs/bloom_filter.hpp:159-162 | the word count is a power of two, holds the requested bits, and is the smallest such power (1, or half of it holds fewer bits) |
| Sizing.OptimalHashCount | src/llfs/bloom_filter.hpp:164-171 | the hash count is at least 1 and at least the estimate, and is either the estimate or 1 |
| Sizing.FromParams | src/llfs/bloom_filter.hpp:173-189 | the header's word count is `word_count_from_bit_count(bits_per_item * item_count)`, a power of two whose bit count fits in a u64; `hash_count` is `optimal_hash_count(word_count * 64, item_count)` mod 2^16, and is at least 1 when that count is below 2^16 |
| Sizing.PackedSizeof | src/llfs/bloom_filter.hpp:237-242 | the footprint is 16 + 8 * word_count bytes, never less than `sizeof(PackedBloomFilter)`, 24 bytes |
| Sizing.PackedSizeofBloomFilter | src/llfs/bloom_filter.hpp:244-247 | the bytes to allocate are 16 + 8 * `word_count_from_bit_count(bits_per_item * item_count)` |
| Sizing.WorkedExample | src/llfs/bloom_filter.hpp:159-189 | 10 bits per item for 1000 items: 256 words, mask 255, 2064 bytes |
| BloomWords.IndexFromHash | src/llfs/bloom_filter.hpp:191-194 | the word index is at most `word_count_mask` |
| BloomWords.IndexFromHashIsModulo | src/llfs/bloom_filter.hpp:191-194 | with a power-of-two word count, the index is (h / 64) mod word_count |
| Bits.SingleBitExactlyOne | src/llfs/bloom_filter.hpp:198 | `1 << b` has bit b set and no other |
| BloomWords.BitMaskFromHashBits | src/llfs/bloom_filter.hpp:196-199 | `1 << (h & 63)` has exactly bit h mod 64 set |
| BloomWords.Probe | src/llfs/bloom_filter.hpp:204-209 | the might_contain visitor answers Continue exactly when bit h mod 64 of word `index_from_hash(h)` is set |
| BloomWords.SetBit | src/llfs/bloom_filter.hpp:216-218 | the insert visitor ORs the hash's mask into its own word and leaves every other word as it was |
| BloomWords.SetBitSetsProbedBit | src/llfs/bloom_filter.hpp:204-218 | after the insert visitor, the hash's probe succeeds and no word lost a bit |
| BloomWords.SetBitsWord | src/llfs/bloom_filter.hpp:213-219 | after setting a sequence of hashes, word i is its old value ORed with the masks of exactly the hashes that land in word i |
| BloomWords.MaskAtCovered | src/llfs/bloom_filter.hpp:213-219 | a word contains the OR of the hashes' masks for word i exactly when it contains each of those masks |
| BloomWords.InsertItemsWord | src/llfs/bloom_filter.hpp:213-219 | after inserting items in order, word i is its old value ORed with the masks of all of their hashes that land in word i |
| BloomWords.InsertOrderIrrelevant | src/llfs/bloom_filter.hpp:213-219 | inserting two item sequences with the same members gives the same words, whatever the order or repetition |
| BloomWords.InsertIdempotent | src/llfs/bloom_filter.hpp:213-219 | inserting an item twice gives the same words as inserting it once |
| BloomWords.InsertCommutes | src/llfs/bloom_filter.hpp:213-219 | two inserts give the same words in either order |
| BloomWords.InsertOnlySetsBits | src/llfs/bloom_filter.hpp:213-219 | inserting never clears a bit: every word afterwards contains its old value |
| BloomWords.MayContainMonotone | src/llfs/bloom_filter.hpp:201-211 | if every word gains bits only, an item reported before is still reported |
| BloomWords.NoFalseNegatives | src/llfs/bloom_filter.hpp:201-219 | every inserted item is reported as possibly present |
| BloomWords.StillContainedAfterInserts | src/llfs/bloom_filter.hpp:201-219 | an item reported before is still reported after any further inserts |
| BloomWords.ClearedContainsNothing | src/llfs/bloom_filter.hpp:201-224 | on cleared words with at least one hash, no item is reported |
| BloomWords.MergePrefix | src/llfs/bloom_filter.hpp:288-322 | ORing word i over the scratch filters of the first s shards gives word i's bits for all items before shard s |
| BloomWords.ShardsMergeToSequential | src/llfs/bloom_filter.hpp:249-327 | for any contiguous partition into shards, each filled from cleared words, the word-by-word OR equals sequential insertion of all items into cleared words |
| PackedFilter.PackedBloomFilter.Place | src/llfs/bloom_filter.hpp:274-278 | a filter placed over a buffer of words with a copied header is valid and carries that header |
| PackedFilter.PackedBloomFilter.Initialize | src/llfs/bloom_filter.hpp:182-189 | the header becomes `from_params(params, item_count)` and the filter is valid |
| PackedFilter.PackedBloomFilter.WordCount | src/llfs/bloom_filter.hpp:226-229 | `word_count()` is the length of the word array and a power of two |
| PackedFilter.PackedBloomFilter.GetWords | src/llfs/bloom_filter.hpp:231-234 | `get_words()` has `word_count()` elements, equal to the words of the array |
| PackedFilter.PackedBloomFilter.Insert | src/llfs/bloom_filter.hpp:213-219 | the words become the insert of the item into the old words |
| PackedFilter.PackedBloomFilter.MightContain | src/llfs/bloom_filter.hpp:201-211 | the answer is true exactly when all `hash_count` bits of the item are set |
| PackedFilter.PackedBloomFilter.Clear | src/llfs/bloom_filter.hpp:221-224 | every word becomes zero |
| PackedFilter.InsertThenQuery | src/llfs/bloom_filter.hpp:201-219 | after `insert(x)`, `might_contain(x)` answers true |
| ParallelBuild.MakeScratchFilters | src/llfs/bloom_filter.hpp:269-280 | one fresh scratch filter per shard, each with the target's header and its own word array |
| ParallelBuild.BuildShard | src/llfs/bloom_filter.hpp:290-296 | a stage-1 task leaves its scratch filter equal to cleared words after inserting `hash_fn` of each item of its shard |
| ParallelBuild.BuildShards | src/llfs/bloom_filter.hpp:286-300 | after stage 1, scratch filter j holds exactly the filter of shard j |
| ParallelBuild.MergeWordInto | src/llfs/bloom_filter.hpp:316-322 | target word i becomes the OR of word i of every scratch filter, and no other word changes |
| ParallelBuild.MergeShards | src/llfs/bloom_filter.hpp:302-325 | after stage 2, every target word is the OR of that word over the scratch filters |
| ParallelBuild.ParallelBuildBloomFilter | src/llfs/bloom_filter.hpp:249-327 | the target's words equal those of a cleared filter with the same header after inserting `hash_fn` of every item, in order |

## Left out

- XXH64 and `std::hash` are foreign code. They are the parameter `xxh`. The three
  `get_nth_hash_for_bloom` overloads (integer, string, and generic through `std::hash`) become
  one function of the item type.
- The floating-point estimate inside `optimal_hash_count` is the parameter `estimate`.
  `optimal_bloom_filter_bit_rate` is floating point only and is not modelled.
- `kLn2Fixed16` is declared but never used.
- Sizing.FromParams: requires `1 <= bits_per_item * item_count <= 2^63`. The code multiplies
  in `usize`, where the product, the word count or `word_count * 64` can wrap; this model does
  not cover those cases. A product of 0 would make `log2_ceil(0)` undefined.
- Sizing.OptimalHashCount: requires `item_count > 0`, because the code divides by it in
  floating point.
- Sizing.PackedSizeof: the `usize` result is not reduced modulo 2^64. For any header
  `from_params` produces, the footprint is far below 2^64.
- PackedFilter.PackedBloomFilter.Initialize: requires the word array to already hold the
  resulting word count. In the code the caller sized the buffer with
  `packed_sizeof_bloom_filter` for the same parameters. The words are left untouched, as in
  the code.
- PackedFilter.PackedBloomFilter.Insert: runs the hash loop itself rather than through
  `HashFamily.HashForBloom` with a visitor. The visitor modifies the words, and a Dafny
  function value cannot modify an array. The loop, the hashes and the visit order are those
  of `hash_for_bloom` with a visitor that always continues.
- PackedFilter.PackedBloomFilter.MightContain: the visitor reads a snapshot of the words,
  taken when the call starts. Nothing writes the words during the call.
- The worker pool, `WorkSlicePlan` and the task-size heuristics are not modelled. That
  includes the division by `hash_count` in the stage-1 minimum task size. The input shards
  are a parameter `bounds`, any contiguous partition of the items, including zero shards.
  Stage 2 visits every word, so its word ranges do not affect the result; it is a loop over
  all words.
- ParallelBuild.ParallelBuildBloomFilter: the stage-2 minimum task size divides by the number
  of input shards (bloom_filter.hpp:305). The model accepts an empty input split into zero
  shards and then yields all-zero words, which is what the merge loop computes. Whether
  `WorkSlicePlan` plans zero tasks for an empty input is decided outside this model; if it
  does, the code divides by zero there.
- The two stages run as sequential loops. They are not run concurrently.
- Raw memory is not modelled: the 16-byte header layout, `reserved_`, the little-endian
  wrappers, `reinterpret_cast` over one temporary allocation, and `from_params` returning a
  struct with a one-word array. Scratch filters are fresh word arrays, and the header is the
  value `Sizing.Header`.
- `BATT_CHECK_GE(item_count, 0)` always holds for an unsigned count.
- `src/llfs/ioring_log_device.cpp` contains only an empty namespace; there is nothing to model.
