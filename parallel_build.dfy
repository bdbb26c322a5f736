/**
 * parallel_build_bloom_filter: fill a filter's words from a sequence of items
 * in two stages.  Stage 1 builds one scratch filter per input shard, from
 * cleared words; stage 2 sets every word of the target to the OR of that word
 * across the scratch filters.  The worker pool only decides which task runs
 * where; each stage's tasks touch disjoint memory, so the stages are modelled
 * as loops over the shards and over the words.
 */
module ParallelBuild {
  import opened Bits
  import opened HashFamily
  import opened Sizing
  import opened BloomWords
  import opened PackedFilter

  /** The key inserted for each item: hash_fn applied to it. */
  function Keys<T, U>(items: seq<T>, hashFn: T -> U): (keys: seq<U>)
    ensures |keys| == |items|
    ensures forall t :: 0 <= t < |items| ==> keys[t] == hashFn(items[t])
  {
    seq(|items|, t requires 0 <= t < |items| => hashFn(items[t]))
  }

  /**
   * The scratch filters of stage 1: one per shard, each with the target's
   * header over its own fresh words.
   */
  method MakeScratchFilters(hdr: Header, shards: nat) returns (partials: seq<PackedBloomFilter>)
    requires IsPowerOfTwo(hdr.WordCount())
    ensures |partials| == shards
    ensures forall j :: 0 <= j < shards ==> fresh(partials[j]) && fresh(partials[j].words)
    ensures forall j :: 0 <= j < shards ==> partials[j].Valid() && partials[j].HeaderValue() == hdr
    ensures forall j, j' :: 0 <= j < j' < shards ==> partials[j].words != partials[j'].words
  {
    partials := [];
    while |partials| < shards
      invariant |partials| <= shards
      invariant forall j :: 0 <= j < |partials| ==> fresh(partials[j]) && fresh(partials[j].words)
      invariant forall j :: 0 <= j < |partials| ==> partials[j].Valid() && partials[j].HeaderValue() == hdr
      invariant forall j, j' :: 0 <= j < j' < |partials| ==> partials[j].words != partials[j'].words
    {
      var buffer := new bv64[hdr.WordCount()];
      var partial := new PackedBloomFilter.Place(buffer, hdr);
      partials := partials + [partial];
    }
  }

  /** Inserting key t after the keys lo..t gives the filter of keys lo..t + 1. */
  lemma ShardGrows<U>(zeros: seq<bv64>, hdr: Header, xxh: Hasher<U>, keys: seq<U>, lo: nat, t: nat,
                      before: seq<bv64>, after: seq<bv64>)
    requires |zeros| == hdr.WordCount() && lo <= t < |keys|
    requires before == InsertItems(zeros, hdr, xxh, keys[lo..t])
    requires after == InsertItem(before, hdr, xxh, keys[t])
    ensures after == InsertItems(zeros, hdr, xxh, keys[lo..t + 1])
  {
    assert keys[lo..t + 1] == keys[lo..t] + [keys[t]];
    InsertItemsSnoc(zeros, hdr, xxh, keys[lo..t], keys[t]);
  }

  /** One stage-1 task: clear a scratch filter and insert the keys of one shard. */
  method BuildShard<T, U>(items: seq<T>, lo: nat, hi: nat, hashFn: T -> U, xxh: Hasher<U>, dst: PackedBloomFilter)
    requires lo <= hi <= |items|
    requires dst.Valid()
    modifies dst.words
    ensures dst.words[..] == InsertItems(Zeros(dst.WordCount()), dst.HeaderValue(), xxh, Keys(items, hashFn)[lo..hi])
  {
    ghost var keys, hdr := Keys(items, hashFn), dst.HeaderValue();
    ghost var zeros := Zeros(hdr.WordCount());
    dst.Clear();
    var t := lo;
    while t < hi
      invariant lo <= t <= hi
      invariant dst.words[..] == InsertItems(zeros, hdr, xxh, keys[lo..t])
    {
      ghost var before := dst.words[..];
      dst.Insert(xxh, hashFn(items[t]));
      ShardGrows(zeros, hdr, xxh, keys, lo, t, before, dst.words[..]);
      t := t + 1;
    }
  }

  /** The filter of each shard before s, followed by that of shard s, gives the filter of each shard up to s. */
  lemma PartsGrow<U>(hdr: Header, xxh: Hasher<U>, keys: seq<U>, bounds: seq<nat>,
                     parts: seq<seq<bv64>>, s: nat, shard: seq<bv64>)
    requires IsPartition(bounds, |keys|) && s < |bounds| - 1 && |parts| == s
    requires forall j :: 0 <= j < s ==> parts[j] == InsertItems(Zeros(hdr.WordCount()), hdr, xxh, Shard(keys, bounds, j))
    requires shard == InsertItems(Zeros(hdr.WordCount()), hdr, xxh, keys[bounds[s]..bounds[s + 1]])
    ensures forall j :: 0 <= j <= s ==>
              (parts + [shard])[j] == InsertItems(Zeros(hdr.WordCount()), hdr, xxh, Shard(keys, bounds, j))
  {
  }

  /**
   * Stage 1: scratch filter j is cleared and gets the keys of shard j.  The
   * scratch filters have distinct word arrays, so each task leaves the others alone.
   */
  method BuildShards<T, U>(items: seq<T>, bounds: seq<nat>, hashFn: T -> U, xxh: Hasher<U>,
                           hdr: Header, partials: seq<PackedBloomFilter>)
    returns (ghost parts: seq<seq<bv64>>)
    requires IsPartition(bounds, |items|) && |partials| == |bounds| - 1
    requires forall j :: 0 <= j < |partials| ==> partials[j].Valid() && partials[j].HeaderValue() == hdr
    requires forall j, j' :: 0 <= j < j' < |partials| ==> partials[j].words != partials[j'].words
    modifies set j | 0 <= j < |partials| :: partials[j].words
    ensures |parts| == |partials|
    ensures forall j :: 0 <= j < |partials| ==> partials[j].words[..] == parts[j]
    ensures forall j :: 0 <= j < |partials| ==>
              parts[j] == InsertItems(Zeros(hdr.WordCount()), hdr, xxh, Shard(Keys(items, hashFn), bounds, j))
  {
    var keys := Keys(items, hashFn);
    parts := [];
    var s := 0;
    while s < |partials|
      invariant s <= |partials| && |parts| == s
      invariant forall j :: 0 <= j < s ==> partials[j].words[..] == parts[j]
      invariant forall j :: 0 <= j < s ==> parts[j] == InsertItems(Zeros(hdr.WordCount()), hdr, xxh, Shard(keys, bounds, j))
    {
      var dst := partials[s];
      assert dst.HeaderValue() == hdr && dst.WordCount() == hdr.WordCount();
      BuildShard(items, bounds[s], bounds[s + 1], hashFn, xxh, dst);
      PartsGrow(hdr, xxh, keys, bounds, parts, s, dst.words[..]);
      parts := parts + [dst.words[..]];
      s := s + 1;
    }
  }

  /** One stage-2 step: word i of the target becomes the OR of word i of every scratch filter. */
  method MergeWordInto(filter: PackedBloomFilter, partials: seq<PackedBloomFilter>, ghost parts: seq<seq<bv64>>, i: nat)
    requires filter.Valid() && i < filter.WordCount()
    requires |parts| == |partials|
    requires forall j :: 0 <= j < |partials| ==> partials[j].words != filter.words
    requires forall j :: 0 <= j < |partials| ==> partials[j].words[..] == parts[j] && i < |parts[j]|
    modifies filter.words
    ensures filter.words[..] == old(filter.words[..])[i := MergeWord(parts, |parts|, i)]
  {
    filter.words[i] := 0;
    var j := 0;
    while j < |partials|
      invariant j <= |partials|
      invariant filter.words[i] == MergeWord(parts, j, i)
      invariant forall k :: 0 <= k < filter.words.Length && k != i ==> filter.words[k] == old(filter.words[k])
    {
      filter.words[i] := filter.words[i] | partials[j].words[i];
      j := j + 1;
    }
  }

  /** Stage 2: every target word is the OR of that word across the scratch filters. */
  method MergeShards(filter: PackedBloomFilter, partials: seq<PackedBloomFilter>, ghost parts: seq<seq<bv64>>)
    requires filter.Valid()
    requires |parts| == |partials|
    requires forall j :: 0 <= j < |partials| ==> partials[j].words != filter.words
    requires forall j :: 0 <= j < |partials| ==> partials[j].words[..] == parts[j] && |parts[j]| == filter.WordCount()
    modifies filter.words
    ensures forall i :: 0 <= i < filter.WordCount() ==> filter.words[i] == MergeWord(parts, |parts|, i)
  {
    var i := 0;
    while i < filter.WordCount()
      invariant i <= filter.WordCount()
      invariant forall i' :: 0 <= i' < i ==> filter.words[i'] == MergeWord(parts, |parts|, i')
    {
      MergeWordInto(filter, partials, parts, i);
      i := i + 1;
    }
  }

  /**
   * parallel_build_bloom_filter over the shards items[bounds[j]..bounds[j + 1]]:
   * the target's words become those of a cleared filter with the same header
   * after inserting hash_fn of every item, in order.
   */
  method ParallelBuildBloomFilter<T, U>(items: seq<T>, bounds: seq<nat>, hashFn: T -> U, xxh: Hasher<U>,
                                        filter: PackedBloomFilter)
    requires filter.Valid()
    requires IsPartition(bounds, |items|)
    modifies filter.words
    ensures filter.GetWords() == InsertItems(Zeros(filter.WordCount()), filter.HeaderValue(), xxh, Keys(items, hashFn))
  {
    var hdr := filter.HeaderValue();
    var partials := MakeScratchFilters(hdr, |bounds| - 1);
    ghost var parts := BuildShards(items, bounds, hashFn, xxh, hdr, partials);
    MergeShards(filter, partials, parts);
    ShardsMergeToSequential(hdr, xxh, Keys(items, hashFn), bounds, parts);
  }
}
