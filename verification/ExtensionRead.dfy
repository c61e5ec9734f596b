/** Reading a byte range back through the extension tree: translating the range into one span of
    chunks per level, and following the spans from the base-sector hashes through a
    content-addressed store. */
module ExtensionRead {
  import opened Arith
  import opened Bytes
  import opened BaseSectorExtension
  import opened ExtensionTree

  datatype ChunkSpan = ChunkSpan(minIndex: int, maxIndex: int)

  // ----- Translating a range ---------------------------------------------------------------

  /** The root hashes at the top reach over the whole padded payload. */
  lemma HashesAtMostBytes(S: nat, n: nat, maxSize: nat)
    requires ValidSector(S) && maxSize >= HASH_SIZE && n > maxSize
    ensures var d := ExtensionDepth(S, n, maxSize);
            d >= 1 && 1 <= UsedHashes(S, n, maxSize) * Pow(HashesPerSector(S), d - 1) <= NumChunks(n, S) * S
  {
    var H, d, used := HashesPerSector(S), ExtensionDepth(S, n, maxSize), UsedHashes(S, n, maxSize);
    var p := Pow(H, d - 1);
    MulMono(1, used, p);
    if used >= 2 {
      FewHashes(used, p, S, NumChunks(n, S) * S);
    } else if d >= 2 {
      DepthIsFirstFit(S, n, maxSize);
      LevelBytesClosed(S, n, d - 2);
      NumChunksLeast(n, Reach(S, d - 2), 1);
      MulMono(H, S, Pow(H, d - 2));
    }
  }

  lemma DivisorPositive(S: nat, n: nat, maxSize: nat, j: nat)
    requires ValidSector(S) && maxSize >= HASH_SIZE && j < ExtensionDepth(S, n, maxSize)
    ensures UsedHashes(S, n, maxSize) * Pow(HashesPerSector(S), j) > 0
    ensures NumChunks(n, S) * S / (UsedHashes(S, n, maxSize) * Pow(HashesPerSector(S), j)) > 0
  {
    var H, d, used := HashesPerSector(S), ExtensionDepth(S, n, maxSize), UsedHashes(S, n, maxSize);
    HashesAtMostBytes(S, n, maxSize);
    PowAdd(H, j, d - 1 - j);
    var p, total := Pow(H, j), NumChunks(n, S) * S;
    assert used > 0;
    FactorAtMost(used, p, Pow(H, d - 1 - j), total);
    DivPositive(total, used * p);
  }

  /** Bytes of padded payload that the code attributes to one chunk at span j. */
  function Divisor(S: nat, n: nat, maxSize: nat, j: nat): (d: nat)
    requires ValidSector(S) && maxSize >= HASH_SIZE && j < ExtensionDepth(S, n, maxSize)
    ensures d > 0
  {
    DivisorPositive(S, n, maxSize, j);
    NumChunks(n, S) * S / (UsedHashes(S, n, maxSize) * Pow(HashesPerSector(S), j))
  }

  /** The chunk of `size` bytes in which a range that ends before `end` ends. */
  function LastChunk(end: nat, size: nat): nat
    requires size > 0
  {
    if end / size > 0 && end % size == 0 then end / size - 1 else end / size
  }

  lemma LastChunkIsLastByte(end: nat, size: nat)
    requires size > 0 && end > 0
    ensures LastChunk(end, size) == (end - 1) / size
  {
    var q := end / size;
    DivBounds(end, size);
    if end % size == 0 {
      assert (q - 1) * size == q * size - size;
      DivUnique(end - 1, size, q - 1);
    } else {
      DivUnique(end - 1, size, q);
    }
  }

  /** The number of the first hash in chunk a of a fanout. */
  function FirstHash(S: nat, a: nat): nat
    requires ValidSector(S)
  {
    a * HashesPerSector(S)
  }

  function Shift(S: nat, n: nat, maxSize: nat, offset: nat, j: nat): nat
    requires ValidSector(S) && maxSize >= HASH_SIZE && j <= ExtensionDepth(S, n, maxSize)
  {
    if j == 0 then 0 else FirstHash(S, offset / Divisor(S, n, maxSize, j - 1))
  }

  function SpanAt(S: nat, n: nat, maxSize: nat, offset: nat, length: nat, j: nat): ChunkSpan
    requires ValidSector(S) && maxSize >= HASH_SIZE && j < ExtensionDepth(S, n, maxSize)
  {
    var size, shift := Divisor(S, n, maxSize, j), Shift(S, n, maxSize, offset, j);
    ChunkSpan(offset / size - shift, LastChunk(offset + length, size) - shift)
  }

  function Spans(S: nat, n: nat, maxSize: nat, offset: nat, length: nat): (s: seq<ChunkSpan>)
    requires ValidSector(S) && maxSize >= HASH_SIZE
    ensures |s| == ExtensionDepth(S, n, maxSize)
  {
    seq(ExtensionDepth(S, n, maxSize), j requires 0 <= j < ExtensionDepth(S, n, maxSize) =>
      SpanAt(S, n, maxSize, offset, length, j))
  }

  lemma DivisorIsQuotient(S: nat, n: nat, maxSize: nat, j: nat, padded: nat, hashes: nat)
    requires ValidSector(S) && maxSize >= HASH_SIZE && j < ExtensionDepth(S, n, maxSize)
    requires padded == NumChunks(n, S) * S && hashes == UsedHashes(S, n, maxSize) * Pow(HashesPerSector(S), j)
    ensures hashes > 0 && padded / hashes == Divisor(S, n, maxSize, j)
    ensures 0 < hashes * HashesPerSector(S) == UsedHashes(S, n, maxSize) * Pow(HashesPerSector(S), j + 1)
  {
    DivisorPositive(S, n, maxSize, j);
    PowNext(HashesPerSector(S), j);
    MulMono(1, HashesPerSector(S), hashes);
    MulAssoc(UsedHashes(S, n, maxSize), Pow(HashesPerSector(S), j), HashesPerSector(S));
  }

  /** TranslateBaseSectorExtensionOffset. */
  method TranslateBaseSectorExtensionOffset(S: nat, offset: nat, length: nat, dataSize: nat, maxSize: nat)
    returns (translated: nat, offsets: seq<ChunkSpan>)
    requires ValidSector(S)
    requires dataSize <= maxSize || maxSize >= HASH_SIZE
    ensures translated == offset % S
    ensures dataSize <= maxSize ==> offsets == []
    ensures maxSize >= HASH_SIZE ==> offsets == Spans(S, dataSize, maxSize, offset, length)
  {
    hide Divisor, UsedHashes, ExtensionDepth, LastChunk;
    var usedHashes, maxDepth := BaseSectorExtensionSize(S, dataSize, maxSize);
    var paddedDataSize := NumChunks(dataSize, S) * S;
    var hashesPerSector := HashesPerSector(S);
    offsets := [];
    var numHashes := usedHashes;
    var shift: int := 0;
    var depth := 0;
    assert usedHashes * Pow(hashesPerSector, 0) == usedHashes;
    hide Pow;
    while depth < maxDepth
      invariant depth <= maxDepth && |offsets| == depth
      invariant depth < maxDepth ==> maxSize >= HASH_SIZE
      invariant numHashes == usedHashes * Pow(hashesPerSector, depth)
      invariant maxSize >= HASH_SIZE ==> shift == Shift(S, dataSize, maxSize, offset, depth)
      invariant forall j :: 0 <= j < depth ==> offsets[j] == SpanAt(S, dataSize, maxSize, offset, length, j)
    {
      DivisorIsQuotient(S, dataSize, maxSize, depth, paddedDataSize, numHashes);
      var minChunk := offset / (paddedDataSize / numHashes);
      var maxChunk := LastChunk(offset + length, paddedDataSize / numHashes);
      numHashes := numHashes * hashesPerSector;
      var newShift := FirstHash(S, minChunk);
      offsets := offsets + [ChunkSpan(minChunk - shift, maxChunk - shift)];
      shift := newShift;
      depth := depth + 1;
    }
    translated := offset % S;
  }

  lemma ShiftAtMost(x: nat, big: nat, small: nat, H: nat)
    requires big > 0 && small > 0 && small * H <= big
    ensures x / big * H <= x / small
  {
    var q := x / big;
    DivBounds(x, big);
    MulMono(small * H, big, q);
    ShiftProduct(q, H, small, x);
  }

  lemma ShiftProduct(q: nat, H: nat, small: nat, x: nat)
    requires small > 0 && small * H * q <= x
    ensures q * H <= x / small
  {
    MulAssoc(small, H, q);
    DivExact(small, H * q);
    DivMono(small * (H * q), x, small);
  }

  lemma DivisorOfNext(S: nat, n: nat, maxSize: nat, j: nat, offset: nat)
    requires ValidSector(S) && maxSize >= HASH_SIZE && 1 <= j < ExtensionDepth(S, n, maxSize)
    ensures Shift(S, n, maxSize, offset, j) <= offset / Divisor(S, n, maxSize, j)
  {
    hide UsedHashes, ExtensionDepth, Pow, NumChunks;
    var H, total := HashesPerSector(S), NumChunks(n, S) * S;
    var m := UsedHashes(S, n, maxSize) * Pow(H, j - 1);
    DivisorIsQuotient(S, n, maxSize, j - 1, total, m);
    DivisorIsQuotient(S, n, maxSize, j, total, m * H);
    hide Divisor;
    DivNested(total, m, H);
    DivBounds(Divisor(S, n, maxSize, j - 1), H);
    ShiftAtMost(offset, Divisor(S, n, maxSize, j - 1), Divisor(S, n, maxSize, j), H);
  }

  lemma ShiftAtMostFirst(S: nat, n: nat, maxSize: nat, offset: nat, j: nat)
    requires ValidSector(S) && maxSize >= HASH_SIZE && j < ExtensionDepth(S, n, maxSize)
    ensures Shift(S, n, maxSize, offset, j) <= offset / Divisor(S, n, maxSize, j)
  {
    hide Divisor, FirstHash, ExtensionDepth;
    if j > 0 {
      DivisorOfNext(S, n, maxSize, j, offset);
    } else {
      DivNonNegative(offset, Divisor(S, n, maxSize, j));
    }
  }

  lemma LastChunkAtLeast(offset: nat, length: nat, size: nat)
    requires size > 0 && length >= 1
    ensures offset / size <= LastChunk(offset + length, size)
  {
    hide LastChunk;
    LastChunkIsLastByte(offset + length, size);
    DivMono(offset, offset + length - 1, size);
  }

  /** The unsigned subtractions never wrap: every span is a nonempty range of hash numbers. */
  lemma SpansAreRanges(S: nat, n: nat, maxSize: nat, offset: nat, length: nat, j: nat)
    requires ValidSector(S) && maxSize >= HASH_SIZE && j < ExtensionDepth(S, n, maxSize) && length >= 1
    ensures 0 <= SpanAt(S, n, maxSize, offset, length, j).minIndex <= SpanAt(S, n, maxSize, offset, length, j).maxIndex
  {
    hide Divisor, LastChunk, Shift, ExtensionDepth;
    ShiftAtMostFirst(S, n, maxSize, offset, j);
    LastChunkAtLeast(offset, length, Divisor(S, n, maxSize, j));
  }

  // ----- Following the spans ---------------------------------------------------------------

  /** Fetching the sectors whose roots are the hashes lo..hi. A zero root ends the fanout; a hash
      outside the list or a root the store does not have is a failure. */
  function Download(store: map<Hash, seq<byte>>, hashes: seq<byte>, lo: int, hi: int): Option<seq<byte>>
    decreases hi - lo
  {
    if lo > hi then Some([])
    else if lo < 0 || HASH_SIZE * lo + HASH_SIZE > |hashes| then None
    else
      var root := hashes[HASH_SIZE * lo..HASH_SIZE * lo + HASH_SIZE];
      if root == Zeros(HASH_SIZE) then Some([])
      else if root !in store then None
      else
        match Download(store, hashes, lo + 1, hi)
        case None => None
        case Some(rest) => Some(store[root] + rest)
  }

  /** The downloaded sectors of one span become the hashes of the next. */
  function Follow(store: map<Hash, seq<byte>>, hashes: seq<byte>, spans: seq<ChunkSpan>): Option<seq<byte>>
    decreases |spans|
  {
    if spans == [] then Some(hashes)
    else
      match Download(store, hashes, spans[0].minIndex, spans[0].maxIndex)
      case None => None
      case Some(sectors) => Follow(store, sectors, spans[1..])
  }

  /** Reading a range: translate it, follow the spans, cut at the translated offset. */
  function ReadRange(S: nat, store: map<Hash, seq<byte>>, baseSectorPart: seq<byte>, n: nat, maxSize: nat,
                     offset: nat, length: nat): Option<seq<byte>>
    requires ValidSector(S) && maxSize >= HASH_SIZE
  {
    match Follow(store, baseSectorPart, Spans(S, n, maxSize, offset, length))
    case None => None
    case Some(bytes) =>
      var o := offset % S;
      if o + length <= |bytes| then Some(bytes[o..o + length]) else None
  }

  /** Every chunk of every level below the base sector was uploaded: its root is not the empty
      root, and the store returns exactly that chunk for it. */
  ghost predicate Uploaded(S: nat, root: MerkleRoot, store: map<Hash, seq<byte>>, payload: seq<byte>, depth: nat)
    requires ValidSector(S)
  {
    forall k, i :: 0 <= k < depth && 0 <= i < NumChunks(|Level(S, root, payload, k)|, S) ==>
      IsStored(root, store, ChunkOf(S, Level(S, root, payload, k), i))
  }

  ghost predicate IsStored(root: MerkleRoot, store: map<Hash, seq<byte>>, chunk: seq<byte>) {
    root(chunk) != Zeros(HASH_SIZE) && root(chunk) in store && store[root(chunk)] == chunk
  }

  ghost predicate HashIs(hashes: seq<byte>, i: int, h: Hash) {
    i >= 0 && HASH_SIZE * i + HASH_SIZE <= |hashes| && hashes[HASH_SIZE * i..HASH_SIZE * i + HASH_SIZE] == h
  }

  /** Chunk i can be fetched: hash i - shift is its root, and the store has it. */
  ghost predicate Fetchable(S: nat, root: MerkleRoot, store: map<Hash, seq<byte>>, data: seq<byte>,
                            hashes: seq<byte>, shift: nat, i: nat)
    requires S > 0 && i < NumChunks(|data|, S)
  {
    && HashIs(hashes, i - shift, root(ChunkOf(S, data, i)))
    && IsStored(root, store, ChunkOf(S, data, i))
  }

  lemma {:induction false} DownloadChunks(S: nat, root: MerkleRoot, store: map<Hash, seq<byte>>, data: seq<byte>,
                                          hashes: seq<byte>, shift: nat, lo: nat, hi: int)
    requires S > 0 && lo <= hi + 1 <= NumChunks(|data|, S)
    requires forall i :: lo <= i <= hi ==> Fetchable(S, root, store, data, hashes, shift, i)
    ensures lo * S <= (hi + 1) * S <= |Padded(S, data)|
    ensures Download(store, hashes, lo - shift, hi - shift) == Some(Padded(S, data)[lo * S..(hi + 1) * S])
    decreases hi + 1 - lo
  {
    hide Padded, Fetchable, NumChunks, Zeros;
    PaddedSize(S, data);
    MulMono(lo, hi + 1, S);
    MulMono(hi + 1, NumChunks(|data|, S), S);
    var p := Padded(S, data);
    if lo <= hi {
      DownloadChunks(S, root, store, data, hashes, shift, lo + 1, hi);
      FetchedChunk(S, root, store, data, hashes, shift, lo);
      MulMono(lo, lo + 1, S);
      SplitAt(p, lo * S, (lo + 1) * S, (hi + 1) * S);
    } else {
      assert p[lo * S..(hi + 1) * S] == [];
    }
  }

  lemma PaddedSize(S: nat, data: seq<byte>)
    requires S > 0
    ensures |Padded(S, data)| == NumChunks(|data|, S) * S
  {
  }

  lemma FetchedChunk(S: nat, root: MerkleRoot, store: map<Hash, seq<byte>>, data: seq<byte>, hashes: seq<byte>,
                     shift: nat, i: nat)
    requires S > 0 && i < NumChunks(|data|, S) && Fetchable(S, root, store, data, hashes, shift, i)
    ensures 0 <= i * S <= (i + 1) * S <= |Padded(S, data)|
    ensures i - shift >= 0 && HASH_SIZE * (i - shift) + HASH_SIZE <= |hashes|
    ensures var h := hashes[HASH_SIZE * (i - shift)..HASH_SIZE * (i - shift) + HASH_SIZE];
            h != Zeros(HASH_SIZE) && h in store && store[h] == Padded(S, data)[i * S..(i + 1) * S]
  {
    hide NumChunks, Zeros;
    ChunkBounds(i, NumChunks(|data|, S), S);
    MulMono(0, i, S);
  }
}
