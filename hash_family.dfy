/**
 * The hash family: the n-th hash of an item is XXH64 of the item's bytes,
 * seeded with entry n & 63 of a fixed table of 64 seeds (src/llfs/bloom_filter.hpp).
 *
 * XXH64 itself is a foreign library call; it is the parameter `xxh`, a
 * deterministic function of (item, seed).  The item type T stands for the
 * bytes the source hashes: the 8 bytes of a `usize`, or a string's bytes.
 */
module HashFamily {
  import opened Bits

  /** XXH64 applied to an item's canonical bytes with the given seed. */
  type Hasher<!T> = (T, u64) -> u64

  /** What a visitor tells hash_for_bloom: go on with the next hash, or stop. */
  datatype LoopControl = Continue | Break

  /** The 64 process-independent seeds, one per member of the hash family. */
  const Seeds: seq<u64> := [
      0xce3a9eb8b885d5af, 0x33d9975b8a739ac6, 0xe65d0fff49425f03, 0x10bb3a132ec4fabc,
      0x88d476f6e7f2c53c, 0xcb4905c588217f44, 0x54eb7b8b55ac05d6, 0xac0de731d7f3f97c,
      0x998963e5d908c156, 0x0bdf939d3b7c1cd6, 0x2cf7007c36b2c966, 0xb53c35171f25ccce,
      0x7d6d2ad5e3ef7ae3, 0xe3aaa3bf1dbffd08, 0xa81f70b4f8dc0f80, 0x1f4887ce81cdf25a,
      0x6433a69ba9e9d9b1, 0xf859167265201651, 0xe48c6589be0ff660, 0xadd5250ba0e7ac09,
      0x833f55b86dee015f, 0xae3b000feb85dcea, 0x0110cfeb4fe23291, 0xf3a5d699ab2ce23c,
      0x7c3a2b8a1c43942c, 0x8cb3fb6783724d25, 0xe3619c66bf3aa139, 0x3fdf358be099c7d9,
      0x0c38ccabc94a487f, 0x43e19e80ee4fe6ed, 0x22699c9fc26f20ee, 0xa559cbafff2cea37,
      0xfbed4777b17fb16d, 0x7197788291858011, 0xa9325a240f0d996e, 0x6782b2e3766f2f76,
      0xbc3aca45c9d9dc36, 0x7b687762afe92061, 0x7b2a7cb985790bcf, 0xf244ed1bc2b06f7d,
      0x29acd54ff9cb3809, 0xe1926523e6f67949, 0x98f964fbc223bb91, 0xaab5ee47827c5506,
      0x0dab726106a4c8dd, 0xa88bb10b8e57cdd9, 0xbef7ede281a687af, 0x0e2a6b9bc5b7d6e3,
      0x5b6f250b605200c8, 0xafe46bbd0e81722f, 0xb5d978e72ac594da, 0x8c4362498b85fff9,
      0xce8cd0d29a933471, 0x9c2a28aabd1e71cb, 0x572c8c1d4ea24d86, 0x8fc7dff3afb5fbf7,
      0xf378bc6c41606bf9, 0xa4c36401cf7a557f, 0x0b0a5bdd27f682af, 0x3fbe0f66ef4777c1,
      0x0ed678ccbd246356, 0xc2d3489afc4edcd6, 0xc482a884240966c6, 0x19b952db37267518
    ]

  /**
   * The static assertion on the seed table: 1 << log2_ceil(64) == 64, so the
   * length is a power of two and `n & (64 - 1)` selects an entry.
   */
  lemma SeedCountIsPowerOfTwo()
    ensures |Seeds| == 64
    ensures Pow2(Log2Ceil(|Seeds|)) == |Seeds| && IsPowerOfTwo(|Seeds|)
  {
    assert Log2Ceil(2) == 1;
    assert Log2Ceil(4) == 2;
    assert Log2Ceil(8) == 3;
    assert Log2Ceil(16) == 4;
    assert Log2Ceil(32) == 5;
    assert Log2Ceil(64) == 6;
    Pow2IsPowerOfTwo(6);
  }

  /** Index of the seed used for the n-th hash: `n & (64 - 1)`. */
  function SeedIndex(n: u64): (k: nat)
    ensures k < |Seeds|
    ensures k == n % |Seeds|
  {
    BitAndLowMask(n, 6);
    BitAnd(n, |Seeds| - 1)
  }

  /** get_nth_hash_for_bloom: the n-th hash of `item`. */
  function NthHash<T>(xxh: Hasher<T>, item: T, n: u64): u64
  {
    xxh(item, Seeds[SeedIndex(n)])
  }

  /** The n-th hash is XXH64 of the item seeded with entry n mod 64 of the table. */
  lemma NthHashSeed<T>(xxh: Hasher<T>, item: T, n: u64)
    ensures NthHash(xxh, item, n) == xxh(item, Seeds[n % 64])
  {
  }

  /** The first `count` hashes of `item`, in order: hashes 0 to count - 1. */
  function Hashes<T>(xxh: Hasher<T>, item: T, count: u64): (hs: seq<u64>)
    ensures |hs| == count
    ensures forall n :: 0 <= n < count ==> hs[n] == NthHash(xxh, item, n)
  {
    seq(count, n requires 0 <= n < count => NthHash(xxh, item, n))
  }

  /** One more hash extends the sequence by exactly hash number `count`. */
  lemma HashesSnoc<T>(xxh: Hasher<T>, item: T, count: u64)
    requires count + 1 < 0x1_0000_0000_0000_0000
    ensures Hashes(xxh, item, count + 1) == Hashes(xxh, item, count) + [NthHash(xxh, item, count)]
  {
    var longer, shorter := Hashes(xxh, item, count + 1), Hashes(xxh, item, count);
    assert forall n :: 0 <= n < count ==> longer[n] == shorter[n];
  }

  /** Hashes n and n + 64 share a seed, so they are the same function of the item. */
  lemma {:induction false} HashFamilyRepeatsEvery64<T>(xxh: Hasher<T>, item: T, n: u64)
    requires n + 64 < 0x1_0000_0000_0000_0000
    ensures NthHash(xxh, item, n + 64) == NthHash(xxh, item, n)
  {
    var q, r := n / 64, n % 64;
    assert n + 64 == 64 * (q + 1) + r;
    ModOfDecomposition(n + 64, 64, q + 1, r);
  }

  /**
   * hash_for_bloom: feeds hashes 0, 1, ... of `item` to `visit` until it
   * answers Break or `count` hashes have been fed.  `visited` records the
   * arguments of the visitor's calls.
   */
  method HashForBloom<T>(xxh: Hasher<T>, item: T, count: u64, visit: u64 -> LoopControl)
    returns (r: LoopControl, ghost visited: seq<u64>)
    ensures |visited| <= count && visited == Hashes(xxh, item, |visited|)
    ensures forall i :: 0 <= i < |visited| - 1 ==> visit(visited[i]) == Continue
    ensures r == Continue ==> |visited| == count && (count == 0 || visit(visited[count - 1]) == Continue)
    ensures r == Break ==> |visited| >= 1 && visit(visited[|visited| - 1]) == Break
    ensures r == Continue <==> forall n :: 0 <= n < count ==> visit(NthHash(xxh, item, n)) == Continue
  {
    visited := [];
    var i: u64 := 0;
    while i < count
      invariant i <= count && |visited| == i && visited == Hashes(xxh, item, i)
      invariant forall j :: 0 <= j < i ==> visit(visited[j]) == Continue
    {
      var h := NthHash(xxh, item, i);
      HashesSnoc(xxh, item, i);
      visited := visited + [h];
      if visit(h) == Break {
        return Break, visited;
      }
      i := i + 1;
    }
    r := Continue;
  }
}
