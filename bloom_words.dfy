/**
 * The Bloom filter's bit array as a value: what index_from_hash,
 * bit_mask_from_hash, insert, might_contain and clear compute, over a
 * sequence of wordCountMask + 1 words.  The class in packed_filter.dfy and the
 * builder in parallel_build.dfy are proved against these functions.
 */
module BloomWords {
  import opened Bits
  import opened HashFamily
  import opened Sizing

  /** index_from_hash: (h >> 6) & word_count_mask, always a valid word index. */
  function IndexFromHash(mask: u64, h: u64): (i: nat)
    ensures i <= mask
  {
    BitAnd(h / 64, mask)
  }

  /** When the word count is a power of two the mask reduces the word number modulo the word count. */
  lemma IndexFromHashIsModulo(mask: u64, h: u64)
    requires IsPowerOfTwo(mask + 1)
    ensures IndexFromHash(mask, h) == (h / 64) % (mask + 1)
  {
    var k := PowerOfTwoExponent(mask + 1);
    BitAndLowMask(h / 64, k);
  }

  /** The bit of its word that hash h selects: h mod 64. */
  function HashBit(h: u64): bv6
  {
    (h % 64) as bv6
  }

  /** h & 63 keeps the low six bits of h: it is h mod 64. */
  lemma LowSixBits(h: u64)
    ensures BitAnd(h, 63) == h % 64
  {
    BitAndLowMask(h, 6);
  }

  /** bit_mask_from_hash: 1 << (h & 63). */
  function BitMaskFromHash(h: u64): bv64
  {
    LowSixBits(h);
    SingleBit(BitAnd(h, 63) as bv6)
  }

  /** The mask of hash h has exactly the bit h mod 64 set. */
  lemma BitMaskFromHashBits(h: u64)
    ensures forall j: bv6 :: TestBit(BitMaskFromHash(h), j) <==> j == HashBit(h)
  {
    LowSixBits(h);
    SingleBitExactlyOne(HashBit(h));
  }

  /** Hash h's bit is set in `ws`: bit h mod 64 of word index_from_hash(h). */
  predicate HasBit(ws: seq<bv64>, mask: u64, h: u64)
    requires |ws| == mask + 1
  {
    TestBit(ws[IndexFromHash(mask, h)], HashBit(h))
  }

  /** The visitor might_contain hands to hash_for_bloom: stop at the first unset bit. */
  function Probe(ws: seq<bv64>, mask: u64, h: u64): (c: LoopControl)
    requires |ws| == mask + 1
    ensures c == Continue <==> HasBit(ws, mask, h)
  {
    LowSixBits(h);
    if ws[IndexFromHash(mask, h)] & BitMaskFromHash(h) == 0 then Break else Continue
  }

  /** might_contain: every one of the item's hashCount bits is set. */
  predicate MayContain<T>(ws: seq<bv64>, hdr: Header, xxh: Hasher<T>, item: T)
    requires |ws| == hdr.WordCount()
  {
    forall n: u64 :: n < hdr.hashCount ==> HasBit(ws, hdr.wordCountMask, NthHash(xxh, item, n))
  }

  /** The bit hash h contributes to word i: its mask if it lands there, else nothing. */
  function HashMaskAt(mask: u64, i: nat, h: u64): bv64
  {
    if IndexFromHash(mask, h) == i then BitMaskFromHash(h) else 0
  }

  /** The visitor insert hands to hash_for_bloom: OR the hash's bit into its word. */
  function SetBit(ws: seq<bv64>, mask: u64, h: u64): (ws': seq<bv64>)
    requires |ws| == mask + 1
    ensures |ws'| == |ws|
    ensures forall i :: 0 <= i < |ws| ==> ws'[i] == ws[i] | HashMaskAt(mask, i, h)
  {
    var i, m := IndexFromHash(mask, h), BitMaskFromHash(h);
    var ws' := ws[i := ws[i] | m];
    assert forall k :: 0 <= k < |ws| && k != i ==> ws'[k] == ws[k] | 0 == ws[k] | HashMaskAt(mask, k, h);
    ws'
  }

  /** Setting a hash's bit makes its probe succeed and clears nothing. */
  lemma SetBitSetsProbedBit(ws: seq<bv64>, mask: u64, h: u64)
    requires |ws| == mask + 1
    ensures HasBit(SetBit(ws, mask, h), mask, h)
    ensures forall i :: 0 <= i < |ws| ==> Covers(SetBit(ws, mask, h)[i], ws[i])
  {
    var i, m := IndexFromHash(mask, h), BitMaskFromHash(h);
    BitMaskFromHashBits(h);
    OrBit(ws[i], m, HashBit(h));
  }

  /** Setting the bits of hashes hs, in order. */
  function SetBits(ws: seq<bv64>, mask: u64, hs: seq<u64>): (ws': seq<bv64>)
    requires |ws| == mask + 1
    ensures |ws'| == |ws|
  {
    if hs == [] then ws else SetBit(SetBits(ws, mask, hs[..|hs| - 1]), mask, hs[|hs| - 1])
  }

  /** The OR of the bits that hashes hs contribute to word i. */
  function MaskAt(mask: u64, i: nat, hs: seq<u64>): bv64
  {
    if hs == [] then 0 else MaskAt(mask, i, hs[..|hs| - 1]) | HashMaskAt(mask, i, hs[|hs| - 1])
  }

  /** Setting bits one by one ORs into word i exactly the bits that land there. */
  lemma {:induction false} SetBitsWord(ws: seq<bv64>, mask: u64, hs: seq<u64>, i: nat)
    requires |ws| == mask + 1 && i < |ws|
    ensures SetBits(ws, mask, hs)[i] == ws[i] | MaskAt(mask, i, hs)
  {
    if hs != [] {
      var hs' := hs[..|hs| - 1];
      SetBitsWord(ws, mask, hs', i);
      var w, m, b := ws[i], MaskAt(mask, i, hs'), HashMaskAt(mask, i, hs[|hs| - 1]);
      assert (w | m) | b == w | (m | b);
    }
  }

  lemma {:induction false} MaskAtAppend(mask: u64, i: nat, a: seq<u64>, b: seq<u64>)
    ensures MaskAt(mask, i, a + b) == MaskAt(mask, i, a) | MaskAt(mask, i, b)
  {
    if b == [] {
      assert a + b == a;
    } else {
      var b' := b[..|b| - 1];
      assert (a + b)[..|a + b| - 1] == a + b';
      MaskAtAppend(mask, i, a, b');
    }
  }

  /** A word covers the OR of the hashes' bits exactly when it covers each hash's bit. */
  lemma {:induction false} MaskAtCovered(mask: u64, i: nat, hs: seq<u64>, z: bv64)
    ensures Covers(z, MaskAt(mask, i, hs)) <==> forall j :: 0 <= j < |hs| ==> Covers(z, HashMaskAt(mask, i, hs[j]))
  {
    if hs != [] {
      var hs' := hs[..|hs| - 1];
      MaskAtCovered(mask, i, hs', z);
      var m, b := MaskAt(mask, i, hs'), HashMaskAt(mask, i, hs[|hs| - 1]);
      CoversOr(z, m, b);
      assert MaskAt(mask, i, hs) == m | b;
      if Covers(z, m | b) {
        forall j | 0 <= j < |hs| ensures Covers(z, HashMaskAt(mask, i, hs[j])) {
          if j < |hs'| {
            assert hs[j] == hs'[j];
          }
        }
      } else if !Covers(z, b) {
        assert !Covers(z, HashMaskAt(mask, i, hs[|hs| - 1]));
      } else {
        var j :| 0 <= j < |hs'| && !Covers(z, HashMaskAt(mask, i, hs'[j]));
        assert hs[j] == hs'[j];
      }
    }
  }

  /** The OR of the hashes' bits depends only on which hashes occur, not on order or repetition. */
  lemma MaskAtSameElements(mask: u64, i: nat, hs: seq<u64>, gs: seq<u64>)
    requires forall h :: h in hs <==> h in gs
    ensures MaskAt(mask, i, hs) == MaskAt(mask, i, gs)
  {
    var a, b := MaskAt(mask, i, hs), MaskAt(mask, i, gs);
    MaskAtCovered(mask, i, hs, a);
    MaskAtCovered(mask, i, gs, b);
    MaskAtCovered(mask, i, hs, b);
    MaskAtCovered(mask, i, gs, a);
    assert Covers(a, b) by {
      forall j | 0 <= j < |gs| ensures Covers(a, HashMaskAt(mask, i, gs[j])) {
        assert gs[j] in hs;
        var j' :| 0 <= j' < |hs| && hs[j'] == gs[j];
      }
    }
    assert Covers(b, a) by {
      forall j | 0 <= j < |hs| ensures Covers(b, HashMaskAt(mask, i, hs[j])) {
        assert hs[j] in gs;
        var j' :| 0 <= j' < |gs| && gs[j'] == hs[j];
      }
    }
  }

  /** insert: set the bits of the item's hashCount hashes. */
  function InsertItem<T>(ws: seq<bv64>, hdr: Header, xxh: Hasher<T>, item: T): (ws': seq<bv64>)
    requires |ws| == hdr.WordCount()
    ensures |ws'| == |ws|
  {
    SetBits(ws, hdr.wordCountMask, Hashes(xxh, item, hdr.hashCount))
  }

  /** Inserting the items one after another, first to last. */
  function InsertItems<T>(ws: seq<bv64>, hdr: Header, xxh: Hasher<T>, items: seq<T>): (ws': seq<bv64>)
    requires |ws| == hdr.WordCount()
    ensures |ws'| == |ws|
  {
    if items == [] then ws
    else InsertItem(InsertItems(ws, hdr, xxh, items[..|items| - 1]), hdr, xxh, items[|items| - 1])
  }

  /** Inserting one more item after a sequence of items is inserting the longer sequence. */
  lemma InsertItemsSnoc<T>(ws: seq<bv64>, hdr: Header, xxh: Hasher<T>, items: seq<T>, x: T)
    requires |ws| == hdr.WordCount()
    ensures InsertItems(ws, hdr, xxh, items + [x]) == InsertItem(InsertItems(ws, hdr, xxh, items), hdr, xxh, x)
  {
    assert (items + [x])[..|items|] == items;
  }

  /** Every hash that inserting the items sets a bit for, item after item. */
  function ItemsHashes<T>(xxh: Hasher<T>, count: u64, items: seq<T>): seq<u64>
  {
    if items == [] then []
    else ItemsHashes(xxh, count, items[..|items| - 1]) + Hashes(xxh, items[|items| - 1], count)
  }

  lemma {:induction false} ItemsHashesAppend<T>(xxh: Hasher<T>, count: u64, a: seq<T>, b: seq<T>)
    ensures ItemsHashes(xxh, count, a + b) == ItemsHashes(xxh, count, a) + ItemsHashes(xxh, count, b)
  {
    if b == [] {
      assert a + b == a;
    } else {
      var b' := b[..|b| - 1];
      assert (a + b)[..|a + b| - 1] == a + b';
      assert (a + b)[|a + b| - 1] == b[|b| - 1];
      ItemsHashesAppend(xxh, count, a, b');
      var ha, hb', hl := ItemsHashes(xxh, count, a), ItemsHashes(xxh, count, b'), Hashes(xxh, b[|b| - 1], count);
      assert (ha + hb') + hl == ha + (hb' + hl);
    }
  }

  /** After inserting the items, word i is its old value ORed with the bits their hashes put there. */
  lemma {:induction false} InsertItemsWord<T>(ws: seq<bv64>, hdr: Header, xxh: Hasher<T>, items: seq<T>, i: nat)
    requires |ws| == hdr.WordCount() && i < |ws|
    ensures InsertItems(ws, hdr, xxh, items)[i] == ws[i] | MaskAt(hdr.wordCountMask, i, ItemsHashes(xxh, hdr.hashCount, items))
  {
    if items != [] {
      var mask, k := hdr.wordCountMask, hdr.hashCount;
      var items' := items[..|items| - 1];
      var hs := Hashes(xxh, items[|items| - 1], k);
      InsertItemsWord(ws, hdr, xxh, items', i);
      SetBitsWord(InsertItems(ws, hdr, xxh, items'), mask, hs, i);
      MaskAtAppend(mask, i, ItemsHashes(xxh, k, items'), hs);
      var w, a, b := ws[i], MaskAt(mask, i, ItemsHashes(xxh, k, items')), MaskAt(mask, i, hs);
      assert (w | a) | b == w | (a | b);
    }
  }

  /** Each of the hashCount hashes of an inserted item is among the hashes whose bits are set. */
  lemma {:induction false} MemberHashesIncluded<T>(xxh: Hasher<T>, count: u64, items: seq<T>, x: T, n: u64)
    requires x in items && n < count
    ensures NthHash(xxh, x, n) in ItemsHashes(xxh, count, items)
  {
    var items' := items[..|items| - 1];
    var last := items[|items| - 1];
    if x == last {
      assert Hashes(xxh, last, count)[n] == NthHash(xxh, x, n);
    } else {
      assert x in items' by {
        var j :| 0 <= j < |items| && items[j] == x;
        assert j < |items| - 1 && items'[j] == x;
      }
      MemberHashesIncluded(xxh, count, items', x, n);
    }
  }

  /** Only the items' own hashes are among the hashes whose bits are set. */
  lemma {:induction false} IncludedHashesFromMembers<T>(xxh: Hasher<T>, count: u64, items: seq<T>, h: u64)
    returns (j: nat, n: u64)
    requires h in ItemsHashes(xxh, count, items)
    ensures j < |items| && n < count && h == NthHash(xxh, items[j], n)
  {
    var items' := items[..|items| - 1];
    var last := items[|items| - 1];
    if h in Hashes(xxh, last, count) {
      var k :| 0 <= k < count && Hashes(xxh, last, count)[k] == h;
      j, n := |items| - 1, k;
    } else {
      j, n := IncludedHashesFromMembers(xxh, count, items', h);
    }
  }

  /** The words after inserting a sequence of items depend only on which items occur: neither order nor repetition matters. */
  lemma InsertOrderIrrelevant<T>(ws: seq<bv64>, hdr: Header, xxh: Hasher<T>, xs: seq<T>, ys: seq<T>)
    requires |ws| == hdr.WordCount()
    requires forall x :: x in xs <==> x in ys
    ensures InsertItems(ws, hdr, xxh, xs) == InsertItems(ws, hdr, xxh, ys)
  {
    var k := hdr.hashCount;
    var hx, hy := ItemsHashes(xxh, k, xs), ItemsHashes(xxh, k, ys);
    forall h ensures h in hx <==> h in hy {
      if h in hx {
        var j, n := IncludedHashesFromMembers(xxh, k, xs, h);
        MemberHashesIncluded(xxh, k, ys, xs[j], n);
      }
      if h in hy {
        var j, n := IncludedHashesFromMembers(xxh, k, ys, h);
        MemberHashesIncluded(xxh, k, xs, ys[j], n);
      }
    }
    forall i | 0 <= i < |ws| ensures InsertItems(ws, hdr, xxh, xs)[i] == InsertItems(ws, hdr, xxh, ys)[i] {
      InsertItemsWord(ws, hdr, xxh, xs, i);
      InsertItemsWord(ws, hdr, xxh, ys, i);
      MaskAtSameElements(hdr.wordCountMask, i, hx, hy);
    }
  }

  /** Inserting an item a second time changes nothing. */
  lemma InsertIdempotent<T>(ws: seq<bv64>, hdr: Header, xxh: Hasher<T>, x: T)
    requires |ws| == hdr.WordCount()
    ensures InsertItem(InsertItem(ws, hdr, xxh, x), hdr, xxh, x) == InsertItem(ws, hdr, xxh, x)
  {
    var hs := Hashes(xxh, x, hdr.hashCount);
    var once := InsertItem(ws, hdr, xxh, x);
    forall i | 0 <= i < |ws| ensures InsertItem(once, hdr, xxh, x)[i] == once[i] {
      SetBitsWord(ws, hdr.wordCountMask, hs, i);
      SetBitsWord(once, hdr.wordCountMask, hs, i);
      var w, m := ws[i], MaskAt(hdr.wordCountMask, i, hs);
      assert (w | m) | m == w | m;
    }
  }

  /** Two inserts give the same words in either order. */
  lemma InsertCommutes<T>(ws: seq<bv64>, hdr: Header, xxh: Hasher<T>, x: T, y: T)
    requires |ws| == hdr.WordCount()
    ensures InsertItem(InsertItem(ws, hdr, xxh, x), hdr, xxh, y) == InsertItem(InsertItem(ws, hdr, xxh, y), hdr, xxh, x)
  {
    var hx, hy := Hashes(xxh, x, hdr.hashCount), Hashes(xxh, y, hdr.hashCount);
    var mask := hdr.wordCountMask;
    var wx, wy := InsertItem(ws, hdr, xxh, x), InsertItem(ws, hdr, xxh, y);
    forall i | 0 <= i < |ws| ensures InsertItem(wx, hdr, xxh, y)[i] == InsertItem(wy, hdr, xxh, x)[i] {
      SetBitsWord(ws, mask, hx, i);
      SetBitsWord(ws, mask, hy, i);
      SetBitsWord(wx, mask, hy, i);
      SetBitsWord(wy, mask, hx, i);
      var w, a, b := ws[i], MaskAt(mask, i, hx), MaskAt(mask, i, hy);
      assert (w | a) | b == (w | b) | a;
    }
  }

  /** Inserting only sets bits: every word afterwards is a bit-superset of what it was. */
  lemma InsertOnlySetsBits<T>(ws: seq<bv64>, hdr: Header, xxh: Hasher<T>, items: seq<T>)
    requires |ws| == hdr.WordCount()
    ensures forall i :: 0 <= i < |ws| ==> Covers(InsertItems(ws, hdr, xxh, items)[i], ws[i])
  {
    forall i | 0 <= i < |ws| ensures Covers(InsertItems(ws, hdr, xxh, items)[i], ws[i]) {
      InsertItemsWord(ws, hdr, xxh, items, i);
    }
  }

  /** might_contain can only turn from false to true as bits are added. */
  lemma MayContainMonotone<T>(ws: seq<bv64>, ws': seq<bv64>, hdr: Header, xxh: Hasher<T>, x: T)
    requires |ws| == |ws'| == hdr.WordCount()
    requires forall i :: 0 <= i < |ws| ==> Covers(ws'[i], ws[i])
    requires MayContain(ws, hdr, xxh, x)
    ensures MayContain(ws', hdr, xxh, x)
  {
    forall n: u64 | n < hdr.hashCount ensures HasBit(ws', hdr.wordCountMask, NthHash(xxh, x, n)) {
      var h := NthHash(xxh, x, n);
      var i := IndexFromHash(hdr.wordCountMask, h);
      assert HasBit(ws, hdr.wordCountMask, h);
      CoversBit(ws'[i], ws[i], HashBit(h));
    }
  }

  /** No false negatives: every inserted item is reported as possibly present. */
  lemma NoFalseNegatives<T>(ws: seq<bv64>, hdr: Header, xxh: Hasher<T>, items: seq<T>, x: T)
    requires |ws| == hdr.WordCount()
    requires x in items
    ensures MayContain(InsertItems(ws, hdr, xxh, items), hdr, xxh, x)
  {
    var mask, k := hdr.wordCountMask, hdr.hashCount;
    var hs := ItemsHashes(xxh, k, items);
    forall n: u64 | n < k ensures HasBit(InsertItems(ws, hdr, xxh, items), mask, NthHash(xxh, x, n)) {
      var h := NthHash(xxh, x, n);
      var i := IndexFromHash(mask, h);
      InsertItemsWord(ws, hdr, xxh, items, i);
      MemberHashesIncluded(xxh, k, items, x, n);
      MaskAtHasBit(mask, i, hs, h);
      OrBit(ws[i], MaskAt(mask, i, hs), HashBit(h));
    }
  }

  /** The OR of the masks landing in word i has the bit of every hash among them that lands there. */
  lemma MaskAtHasBit(mask: u64, i: nat, hs: seq<u64>, h: u64)
    requires h in hs && IndexFromHash(mask, h) == i
    ensures TestBit(MaskAt(mask, i, hs), HashBit(h))
  {
    var j :| 0 <= j < |hs| && hs[j] == h;
    MaskAtCovered(mask, i, hs, MaskAt(mask, i, hs));
    assert Covers(MaskAt(mask, i, hs), HashMaskAt(mask, i, hs[j]));
    BitMaskFromHashBits(h);
    CoversBit(MaskAt(mask, i, hs), BitMaskFromHash(h), HashBit(h));
  }

  /** An item inserted earlier is still reported after any later inserts. */
  lemma StillContainedAfterInserts<T>(ws: seq<bv64>, hdr: Header, xxh: Hasher<T>, later: seq<T>, x: T)
    requires |ws| == hdr.WordCount()
    requires MayContain(ws, hdr, xxh, x)
    ensures MayContain(InsertItems(ws, hdr, xxh, later), hdr, xxh, x)
  {
    InsertOnlySetsBits(ws, hdr, xxh, later);
    MayContainMonotone(ws, InsertItems(ws, hdr, xxh, later), hdr, xxh, x);
  }

  /** The words of a cleared filter. */
  function Zeros(n: nat): (ws: seq<bv64>)
    ensures |ws| == n
    ensures forall i :: 0 <= i < n ==> ws[i] == 0
  {
    seq(n, _ => 0)
  }

  /** After clear, with at least one hash, the first probe of every item fails. */
  lemma ClearedContainsNothing<T>(hdr: Header, xxh: Hasher<T>, x: T)
    requires hdr.hashCount >= 1
    ensures !MayContain(Zeros(hdr.WordCount()), hdr, xxh, x)
  {
    assert !HasBit(Zeros(hdr.WordCount()), hdr.wordCountMask, NthHash(xxh, x, 0));
  }

  /** Shard boundaries: a contiguous partition of [0, n) into |bounds| - 1 ranges. */
  predicate IsPartition(bounds: seq<nat>, n: nat)
  {
    && |bounds| >= 1
    && bounds[0] == 0
    && bounds[|bounds| - 1] == n
    && forall j, j' :: 0 <= j <= j' < |bounds| ==> bounds[j] <= bounds[j']
  }

  /** The j-th shard of the items. */
  function Shard<T>(items: seq<T>, bounds: seq<nat>, j: nat): seq<T>
    requires IsPartition(bounds, |items|) && j < |bounds| - 1
  {
    items[bounds[j]..bounds[j + 1]]
  }

  /** Word i of the merge of the first s partial filters: the OR of their words i. */
  function MergeWord(parts: seq<seq<bv64>>, s: nat, i: nat): bv64
    requires s <= |parts|
    requires forall j :: 0 <= j < s ==> i < |parts[j]|
  {
    if s == 0 then 0 else MergeWord(parts, s - 1, i) | parts[s - 1][i]
  }

  /**
   * OR-ing the filters built from the first s shards, each from cleared words,
   * gives the bits of all items before shard s.
   */
  lemma {:induction false} MergePrefix<T>(hdr: Header, xxh: Hasher<T>, items: seq<T>, bounds: seq<nat>,
                                          parts: seq<seq<bv64>>, s: nat, i: nat)
    requires IsPartition(bounds, |items|) && |parts| == |bounds| - 1
    requires forall j :: 0 <= j < |parts| ==> |parts[j]| == hdr.WordCount()
    requires forall j :: 0 <= j < |parts| ==> parts[j] == InsertItems(Zeros(hdr.WordCount()), hdr, xxh, Shard(items, bounds, j))
    requires s <= |parts| && i < hdr.WordCount()
    ensures MergeWord(parts, s, i) == MaskAt(hdr.wordCountMask, i, ItemsHashes(xxh, hdr.hashCount, items[..bounds[s]]))
  {
    var mask, k := hdr.wordCountMask, hdr.hashCount;
    if s == 0 {
      assert items[..bounds[0]] == [];
    } else {
      MergePrefix(hdr, xxh, items, bounds, parts, s - 1, i);
      var shard := Shard(items, bounds, s - 1);
      InsertItemsWord(Zeros(hdr.WordCount()), hdr, xxh, shard, i);
      assert items[..bounds[s]] == items[..bounds[s - 1]] + shard;
      ItemsHashesAppend(xxh, k, items[..bounds[s - 1]], shard);
      MaskAtAppend(mask, i, ItemsHashes(xxh, k, items[..bounds[s - 1]]), ItemsHashes(xxh, k, shard));
    }
  }

  /**
   * The two-stage build is sequential insertion: OR-ing, word by word, the
   * filters built from cleared words for each shard of a contiguous partition
   * gives the words of a cleared filter after inserting every item.
   */
  lemma {:induction false} ShardsMergeToSequential<T>(hdr: Header, xxh: Hasher<T>, items: seq<T>, bounds: seq<nat>, parts: seq<seq<bv64>>)
    requires IsPartition(bounds, |items|) && |parts| == |bounds| - 1
    requires forall j :: 0 <= j < |parts| ==> |parts[j]| == hdr.WordCount()
    requires forall j :: 0 <= j < |parts| ==> parts[j] == InsertItems(Zeros(hdr.WordCount()), hdr, xxh, Shard(items, bounds, j))
    ensures forall i :: 0 <= i < hdr.WordCount() ==> MergeWord(parts, |parts|, i) == InsertItems(Zeros(hdr.WordCount()), hdr, xxh, items)[i]
  {
    forall i | 0 <= i < hdr.WordCount()
      ensures MergeWord(parts, |parts|, i) == InsertItems(Zeros(hdr.WordCount()), hdr, xxh, items)[i]
    {
      var zs := Zeros(hdr.WordCount());
      InsertItemsWord(zs, hdr, xxh, items, i);
      MergePrefix(hdr, xxh, items, bounds, parts, |parts|, i);
      assert items[..bounds[|parts|]] == items;
      assert zs[i] == 0;
    }
  }
}
