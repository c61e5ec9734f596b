/** The recursive base-sector extension: an oversized payload is compressed into fanouts of
    Merkle roots, level by level, until the last fanout fits the base sector. One routine builds
    the tree, one predicts its shape, and one turns a byte range into chunk spans. */
module BaseSectorExtension {
  import opened Arith
  import opened Bytes

  const HASH_SIZE := 32

  type Hash = h: seq<byte> | |h| == 32 witness Zeros(32)

  ghost predicate ValidSector(S: nat) {
    S >= 64 && S % 32 == 0
  }

  /** Hashes per sector, the branching factor of the tree. */
  function HashesPerSector(S: nat): (h: nat)
    requires ValidSector(S)
    ensures h >= 2 && h * 32 == S
  {
    S / 32
  }

  // ----- The shape of the tree -------------------------------------------------------------

  /** The size of the payload after k compressions. */
  function LevelBytes(S: nat, n: nat, k: nat): nat
    requires ValidSector(S)
  {
    if k == 0 then n else HASH_SIZE * NumChunks(LevelBytes(S, n, k - 1), S)
  }

  lemma CompressionShrinks(S: nat, n: nat)
    requires ValidSector(S) && n > HASH_SIZE
    ensures HASH_SIZE * NumChunks(n, S) < n
  {
    var q := NumChunks(n, S);
    if q >= 2 {
      MulMono(64, S, q - 1);
    }
  }

  /** How many compressions the builder performs. */
  function ExtensionDepth(S: nat, n: nat, maxSize: nat): nat
    requires ValidSector(S) && maxSize >= HASH_SIZE
    decreases n
  {
    if n <= maxSize then 0
    else CompressionShrinks(S, n); 1 + ExtensionDepth(S, HASH_SIZE * NumChunks(n, S), maxSize)
  }

  lemma {:induction false} LevelBytesShift(S: nat, n: nat, k: nat)
    requires ValidSector(S)
    ensures LevelBytes(S, HASH_SIZE * NumChunks(n, S), k) == LevelBytes(S, n, k + 1)
  {
    if k > 0 {
      LevelBytesShift(S, n, k - 1);
    }
  }

  /** The depth is the first level that fits. */
  lemma {:induction false} DepthIsFirstFit(S: nat, n: nat, maxSize: nat)
    requires ValidSector(S) && maxSize >= HASH_SIZE
    ensures var d := ExtensionDepth(S, n, maxSize);
            && LevelBytes(S, n, d) <= maxSize
            && forall k :: 0 <= k < d ==> LevelBytes(S, n, k) > maxSize
    decreases n
  {
    if n > maxSize {
      CompressionShrinks(S, n);
      var n' := HASH_SIZE * NumChunks(n, S);
      DepthIsFirstFit(S, n', maxSize);
      var d := ExtensionDepth(S, n', maxSize);
      LevelBytesShift(S, n, d);
      forall k | 0 <= k < d + 1 ensures LevelBytes(S, n, k) > maxSize {
        if k > 0 {
          LevelBytesShift(S, n, k - 1);
        }
      }
    }
  }

  lemma DepthUnique(S: nat, n: nat, maxSize: nat, d: nat)
    requires ValidSector(S) && maxSize >= HASH_SIZE
    requires LevelBytes(S, n, d) <= maxSize
    requires forall k :: 0 <= k < d ==> LevelBytes(S, n, k) > maxSize
    ensures ExtensionDepth(S, n, maxSize) == d
  {
    DepthIsFirstFit(S, n, maxSize);
  }

  /** Bytes of payload below one hash of level k + 1, that is below one chunk of level k. */
  function Reach(S: nat, k: nat): (r: nat)
    requires ValidSector(S)
    ensures r >= S
  {
    MulMono(1, Pow(HashesPerSector(S), k), S);
    Pow(HashesPerSector(S), k) * S
  }

  lemma ReachNext(S: nat, k: nat)
    requires ValidSector(S)
    ensures Reach(S, k + 1) == Reach(S, k) * HashesPerSector(S)
  {
    var H := HashesPerSector(S);
    assert (H * Pow(H, k)) * S == Pow(H, k) * S * H;
  }

  /** Every level is one hash per chunk of reach S * H^k: nested rounding collapses. */
  lemma {:induction false} LevelBytesClosed(S: nat, n: nat, k: nat)
    requires ValidSector(S)
    ensures LevelBytes(S, n, k + 1) == HASH_SIZE * NumChunks(n, Reach(S, k))
  {
    var H := HashesPerSector(S);
    if k == 0 {
      assert Pow(H, 0) * S == S;
    } else {
      LevelBytesClosed(S, n, k - 1);
      var c := NumChunks(n, Reach(S, k - 1));
      NumChunksScale(c, H, HASH_SIZE);
      NumChunksNested(n, Reach(S, k - 1), H);
      ReachNext(S, k - 1);
    }
  }

  /** The number of hashes in the last fanout. */
  function UsedHashes(S: nat, n: nat, maxSize: nat): nat
    requires ValidSector(S) && maxSize >= HASH_SIZE
  {
    var d := ExtensionDepth(S, n, maxSize);
    if d == 0 then 0 else NumChunks(n, Reach(S, d - 1))
  }

  /** The search stops at `used` hashes of depth `depth`: this is the builder's result. */
  lemma SearchHit(S: nat, n: nat, maxSize: nat, depth: nat, used: nat)
    requires ValidSector(S) && maxSize >= HASH_SIZE && depth >= 1
    requires forall k :: 0 <= k < depth ==> LevelBytes(S, n, k) > maxSize
    requires 1 <= used <= maxSize / HASH_SIZE
    requires (used - 1) * Reach(S, depth - 1) < n <= used * Reach(S, depth - 1)
    ensures ExtensionDepth(S, n, maxSize) == depth && UsedHashes(S, n, maxSize) == used
  {
    LevelBytesClosed(S, n, depth - 1);
    NumChunksUnique(n, Reach(S, depth - 1), used);
    DepthUnique(S, n, maxSize, depth);
  }

  /** No hash count fits at this depth, so the builder goes deeper. */
  lemma SearchMiss(S: nat, n: nat, maxSize: nat, depth: nat)
    requires ValidSector(S) && maxSize >= HASH_SIZE && depth >= 1
    requires forall k :: 0 <= k < depth ==> LevelBytes(S, n, k) > maxSize
    requires (maxSize / HASH_SIZE) * Reach(S, depth - 1) < n
    ensures LevelBytes(S, n, depth) > maxSize
    ensures depth < ExtensionDepth(S, n, maxSize)
  {
    hide NumChunks, LevelBytes, ExtensionDepth, Reach;
    LevelBytesClosed(S, n, depth - 1);
    NumChunksLeast(n, Reach(S, depth - 1), maxSize / HASH_SIZE);
    MoreHashes(NumChunks(n, Reach(S, depth - 1)), maxSize);
    DeeperThan(S, n, maxSize, depth);
  }

  lemma MoreHashes(hashes: nat, maxSize: nat)
    requires hashes > maxSize / HASH_SIZE
    ensures HASH_SIZE * hashes > maxSize
  {
  }

  lemma DeeperThan(S: nat, n: nat, maxSize: nat, depth: nat)
    requires ValidSector(S) && maxSize >= HASH_SIZE
    requires forall k :: 0 <= k <= depth ==> LevelBytes(S, n, k) > maxSize
    ensures depth < ExtensionDepth(S, n, maxSize)
  {
    hide LevelBytes, ExtensionDepth;
    DepthIsFirstFit(S, n, maxSize);
  }

  /** BaseSectorExtensionSize: the search over used * H^(depth-1) * S finds exactly the depth of
      the builder's recursion and the hash count of its last fanout. */
  method BaseSectorExtensionSize(S: nat, dataSize: nat, maxSize: nat) returns (usedHashes: nat, depth: nat)
    requires ValidSector(S)
    requires dataSize <= maxSize || maxSize >= HASH_SIZE
    ensures dataSize <= maxSize ==> usedHashes == 0 && depth == 0
    ensures maxSize >= HASH_SIZE ==> depth == ExtensionDepth(S, dataSize, maxSize)
    ensures maxSize >= HASH_SIZE ==> usedHashes == UsedHashes(S, dataSize, maxSize)
  {
    if dataSize <= maxSize {
      return 0, 0;
    }
    var maxHashesInBaseSector := maxSize / HASH_SIZE;
    var hashesPerSector := HashesPerSector(S);
    var numHashes := 1;
    depth := 1;
    ghost var reach := S;
    while true
      invariant 1 <= depth <= ExtensionDepth(S, dataSize, maxSize)
      invariant reach == Reach(S, depth - 1) == numHashes * S
      invariant forall k :: 0 <= k < depth ==> LevelBytes(S, dataSize, k) > maxSize
      decreases ExtensionDepth(S, dataSize, maxSize) - depth
    {
      usedHashes := 1;
      while usedHashes <= maxHashesInBaseSector
        invariant 1 <= usedHashes <= maxHashesInBaseSector + 1
        invariant (usedHashes - 1) * reach < dataSize
      {
        MulAssoc(usedHashes, numHashes, S);
        if usedHashes * numHashes * S >= dataSize {
          SearchHit(S, dataSize, maxSize, depth, usedHashes);
          return;
        }
        usedHashes := usedHashes + 1;
      }
      SearchMiss(S, dataSize, maxSize, depth);
      ReachNext(S, depth - 1);
      MulSwap(numHashes, S, hashesPerSector);
      reach := reach * hashesPerSector;
      numHashes := numHashes * hashesPerSector;
      depth := depth + 1;
    }
  }
}
