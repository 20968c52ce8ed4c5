/**
  Key hashing and bucket selection of the streaming cache (`fnv1a64`,
  `bucket_of` and the bucket-count test of `cache_init` in 3/cache.c).

  Hash values are `uint64_t` in the source: here they are naturals below 2^64,
  with the wrap-around of `h *= prime` written as `% TWO64`.
 */
module Hashing {
  import opened Bits

  /** The 64-bit FNV prime. */
  const FNV_PRIME: nat := 1099511628211

  /** The 64-bit FNV offset basis, as the FNV algorithm defines it. */
  const FNV_OFFSET_BASIS: nat := 14695981039346656037

  /** The starting value the source writes in `fnv1a64`. */
  const SOURCE_OFFSET_BASIS: nat := 1469598103934665603

  /** One FNV-1a round: xor the byte into the low bits, then multiply modulo 2^64. */
  function FnvRound(h: nat, c: byte): (r: nat)
    ensures r < TWO64
  {
    (Xor(h, c) * FNV_PRIME) % TWO64
  }

  /** FNV-1a over `s`, starting from `basis`. */
  function FnvFrom(basis: nat, s: seq<byte>): (h: nat)
    requires basis < TWO64
    ensures h < TWO64
  {
    if s == [] then basis else FnvRound(FnvFrom(basis, s[..|s| - 1]), s[|s| - 1])
  }

  /** The FNV-1a 64-bit hash of a key. */
  function Fnv1a64(s: seq<byte>): nat
  {
    FnvFrom(FNV_OFFSET_BASIS, s)
  }

  /** The hash `fnv1a64` computes as written, from the shortened starting value. */
  function Fnv1a64AsWritten(s: seq<byte>): nat
  {
    FnvFrom(SOURCE_OFFSET_BASIS, s)
  }

  /** The loop of `fnv1a64`: `h` starts at the offset basis and takes one round per byte. */
  method HashKey(key: seq<byte>) returns (h: nat)
    ensures h == Fnv1a64(key)
    ensures h < TWO64
  {
    h := FNV_OFFSET_BASIS;
    for i := 0 to |key|
      invariant h == Fnv1a64(key[..i])
    {
      assert key[..i + 1][..i] == key[..i];
      h := Xor(h, key[i]);
      h := (h * FNV_PRIME) % TWO64;
    }
    assert key[..|key|] == key;
  }

  /** One round on a concrete state, reduced to an xor on the low byte. */
  lemma RoundOnLowByte(h: nat, c: byte)
    ensures FnvRound(h, c) == (((h / 256) * 256 + Xor(h % 256, c)) * FNV_PRIME) % TWO64
  {
    XorByte(h, c);
  }

  /** The published FNV-1a 64-bit test vector: the one-byte key "a" hashes to 0xaf63dc4c8601ec8c. */
  lemma Fnv1a64TestVector()
    ensures Fnv1a64([97]) == 0xaf63dc4c8601ec8c
  {
    var s: seq<byte> := [97];
    assert s[..0] == [];
    RoundOnLowByte(FNV_OFFSET_BASIS, 97);
    LowBytesOfBases();
    XorOfLowBytes();
    RoundValues();
  }

  /** With the starting value as written, the key "a" does not hash to the FNV-1a test vector. */
  lemma AsWrittenMissesTestVector()
    ensures Fnv1a64AsWritten([97]) == 0x44bd8ad473cd9906
    ensures Fnv1a64AsWritten([97]) != Fnv1a64([97])
  {
    var s: seq<byte> := [97];
    assert s[..0] == [];
    RoundOnLowByte(SOURCE_OFFSET_BASIS, 97);
    LowBytesOfBases();
    XorOfLowBytes();
    RoundValues();
    Fnv1a64TestVector();
  }

  lemma LowBytesOfBases()
    ensures FNV_OFFSET_BASIS / 256 == 57406175934947875 && FNV_OFFSET_BASIS % 256 == 0x25
    ensures SOURCE_OFFSET_BASIS / 256 == 5740617593494787 && SOURCE_OFFSET_BASIS % 256 == 0x83
  {
  }

  /** The two low-byte xors the test vectors need. */
  lemma XorOfLowBytes()
    ensures Xor(0x25, 0x61) == 0x44
    ensures Xor(0x83, 0x61) == 0xe2
  {
    assert Xor(1, 3) == 2;
    assert Xor(2, 6) == 4;
    assert Xor(4, 12) == 8;
    assert Xor(9, 24) == 17;
    assert Xor(18, 48) == 34;
    assert Xor(37, 97) == 68;
    assert Xor(2, 1) == 3;
    assert Xor(4, 3) == 7;
    assert Xor(8, 6) == 14;
    assert Xor(16, 12) == 28;
    assert Xor(32, 24) == 56;
    assert Xor(65, 48) == 113;
    assert Xor(131, 97) == 226;
  }

  lemma RoundValues()
    ensures (57406175934947875 * 256 + 0x44) * FNV_PRIME % TWO64 == 0xaf63dc4c8601ec8c
    ensures (5740617593494787 * 256 + 0xe2) * FNV_PRIME % TWO64 == 0x44bd8ad473cd9906
  {
    assert 57406175934947875 * 256 + 0x44 == 14695981039346656068;
    assert 14695981039346656068 * 1099511628211 % 0x1_0000_0000_0000_0000 == 0xaf63dc4c8601ec8c;
    assert 5740617593494787 * 256 + 0xe2 == 1469598103934665698;
    assert 1469598103934665698 * 1099511628211 % 0x1_0000_0000_0000_0000 == 0x44bd8ad473cd9906;
  }

  /** `bucket_of`: the hash masked with `nbuckets - 1` (a `size_t` subtraction). */
  function BucketOf(h: nat, nbuckets: nat): nat
    requires nbuckets < TWO64
  {
    And(h, Dec64(nbuckets))
  }

  /** Any non-zero bucket count keeps the index inside the table. */
  lemma BucketInRange(h: nat, nbuckets: nat)
    requires 0 < nbuckets < TWO64
    ensures BucketOf(h, nbuckets) < nbuckets
  {
    AndAtMost(h, nbuckets - 1);
  }

  /** For a power-of-two bucket count the mask is the remainder modulo the count. */
  lemma BucketIsRemainder(h: nat, nbuckets: nat)
    requires 0 < nbuckets < TWO64 && IsPow2(nbuckets)
    ensures BucketOf(h, nbuckets) == h % nbuckets
  {
    var k := Pow2Exponent(nbuckets);
    AndLowMask(h, k);
  }

  /** The test at the top of `cache_init`, as written: `(nbuckets & (nbuckets-1)) == 0`. */
  predicate InitGuardAsWritten(nbuckets: nat)
    requires nbuckets < TWO64
  {
    And(nbuckets, Dec64(nbuckets)) == 0
  }

  /**
    The as-written test accepts zero buckets, which the intended test
    refuses. The mask `0 - 1` is then all ones, so `bucket_of` keeps the
    whole hash: an index into a table that has no bucket at all.
   */
  lemma ZeroBucketsAcceptedAsWritten(h: nat)
    ensures InitGuardAsWritten(0) && !InitGuard(0)
    ensures h < TWO64 ==> BucketOf(h, 0) == h
  {
    if h < TWO64 {
      Pow2Of64();
      AndLowMask(h, 64);
    }
  }

  /** The bucket-count test as intended: a non-zero power of two. */
  predicate InitGuard(nbuckets: nat)
  {
    0 < nbuckets < TWO64 && And(nbuckets, nbuckets - 1) == 0
  }

  /** The intended test accepts exactly the powers of two, and then every hash has a bucket. */
  lemma InitGuardMeansPow2(nbuckets: nat, h: nat)
    requires 0 < nbuckets < TWO64
    ensures InitGuard(nbuckets) <==> IsPow2(nbuckets)
    ensures InitGuard(nbuckets) <==> InitGuardAsWritten(nbuckets)
    ensures InitGuard(nbuckets) ==> BucketOf(h, nbuckets) < nbuckets && BucketOf(h, nbuckets) == h % nbuckets
  {
    PowerOfTwoTest(nbuckets);
    BucketInRange(h, nbuckets);
    if InitGuard(nbuckets) {
      BucketIsRemainder(h, nbuckets);
    }
  }
}
