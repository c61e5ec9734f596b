/** Reading the whole payload back through the extension tree. The spans of the whole range may run
    past the hashes of a level; they must then meet a zero hash, which ends the level. */
module ExtensionWhole {
  import opened Arith
  import opened Bytes
  import opened BaseSectorExtension
  import opened ExtensionTree
  import opened ExtensionRead
  import opened ExtensionCorrect

  /** The number of hashes that span j has to fetch. */
  function HashesAt(S: nat, n: nat, maxSize: nat, j: nat): nat
    requires ValidSector(S) && maxSize >= HASH_SIZE && j < ExtensionDepth(S, n, maxSize)
  {
    NumChunks(n, Reach(S, ExtensionDepth(S, n, maxSize) - 1 - j))
  }

  /** Span j of the whole range ends with the last hash, or a zero hash follows: in the base sector
      there must be room for one, and in a sector of hashes the last sector must not be full. */
  predicate SpanFits(S: nat, n: nat, maxSize: nat, room: nat, j: nat)
    requires ValidSector(S) && maxSize >= HASH_SIZE && j < ExtensionDepth(S, n, maxSize)
  {
    || n <= HashesAt(S, n, maxSize, j) * Divisor(S, n, maxSize, j)
    || if j == 0 then HASH_SIZE * HashesAt(S, n, maxSize, 0) + HASH_SIZE <= room
       else HashesAt(S, n, maxSize, j) % HashesPerSector(S) != 0
  }

  predicate SpansFit(S: nat, n: nat, maxSize: nat, room: nat, j: nat)
    requires ValidSector(S) && maxSize >= HASH_SIZE
  {
    forall i :: j <= i < ExtensionDepth(S, n, maxSize) ==> SpanFits(S, n, maxSize, room, i)
  }

  lemma QuotientAtMost(chunks: nat, S: nat, used: nat, p: nat, q: nat)
    requires used * p > 0 && chunks <= used * (p * q)
    ensures chunks * S / (used * p) <= q * S
  {
    MulMono(chunks, used * (p * q), S);
    MulAssoc(used, p, q);
    MulAssoc(used * p, q, S);
    DivMono(chunks * S, used * p * (q * S), used * p);
    DivExact(used * p, q * S);
  }

  /** The code's divisor is never larger than the true reach of a hash. */
  lemma DivisorAtMostReach(S: nat, n: nat, maxSize: nat, j: nat)
    requires ValidSector(S) && maxSize >= HASH_SIZE && j < ExtensionDepth(S, n, maxSize)
    ensures Divisor(S, n, maxSize, j) <= Reach(S, ExtensionDepth(S, n, maxSize) - 1 - j)
  {
    hide NumChunks;
    var H, d, used := HashesPerSector(S), ExtensionDepth(S, n, maxSize), UsedHashes(S, n, maxSize);
    DivisorPositive(S, n, maxSize, j);
    PowAdd(H, j, d - 1 - j);
    assert Pow(H, d - 1) * S == S * Pow(H, d - 1);
    NumChunksNested(n, S, Pow(H, d - 1));
    assert NumChunks(n, S) <= used * Pow(H, d - 1);
    QuotientAtMost(NumChunks(n, S), S, used, Pow(H, j), Pow(H, d - 1 - j));
  }

  lemma CeilingByLastByte(n: nat, chunk: nat)
    requires chunk > 0 && n > 0
    ensures NumChunks(n, chunk) == (n - 1) / chunk + 1
  {
    var q := (n - 1) / chunk;
    DivBounds(n - 1, chunk);
    NumChunksUnique(n, chunk, q + 1);
  }

  lemma DivSmallerDivisor(a: nat, b: nat, c: nat)
    requires 0 < c <= b
    ensures a / b <= a / c
  {
    DivBounds(a, b);
    DivBounds(a, c);
    if a / c < a / b {
      MulMono(a / c + 1, a / b, c);
      MulMono(c, b, a / b);
    }
  }

  lemma EndsBelow(n: nat, size: nat, q: nat)
    requires size > 0 && n > 0
    ensures n <= q * size <==> (n - 1) / size < q
  {
    DivBounds(n - 1, size);
    var p := (n - 1) / size;
    if p < q {
      MulMono(p + 1, q, size);
    } else {
      MulMono(q, p, size);
    }
  }

  /** Span j of the whole range starts at the first hash and covers all of them. */
  lemma WholeSpan(S: nat, n: nat, maxSize: nat, j: nat)
    requires ValidSector(S) && maxSize >= HASH_SIZE && n > maxSize && j < ExtensionDepth(S, n, maxSize)
    ensures var span := SpanAt(S, n, maxSize, 0, n, j);
            && span.minIndex == 0
            && span.maxIndex >= HashesAt(S, n, maxSize, j) - 1 >= 0
            && (span.maxIndex == HashesAt(S, n, maxSize, j) - 1
                <==> n <= HashesAt(S, n, maxSize, j) * Divisor(S, n, maxSize, j))
  {
    DivisorAtMostReach(S, n, maxSize, j);
    var reach := Reach(S, ExtensionDepth(S, n, maxSize) - 1 - j);
    hide Divisor, ExtensionDepth, Reach, LastChunk, NumChunks, HashesPerSector;
    var size := Divisor(S, n, maxSize, j);
    LastChunkIsLastByte(n, size);
    CeilingByLastByte(n, reach);
    DivSmallerDivisor(n - 1, reach, size);
    EndsBelow(n, size, HashesAt(S, n, maxSize, j));
    DivUnique(0, size, 0);
    NoShift(S, n, maxSize, j);
  }

  lemma NoShift(S: nat, n: nat, maxSize: nat, j: nat)
    requires ValidSector(S) && maxSize >= HASH_SIZE && j <= ExtensionDepth(S, n, maxSize)
    ensures Shift(S, n, maxSize, 0, j) == 0
  {
    hide Divisor, ExtensionDepth;
    if j > 0 {
      DivUnique(0, Divisor(S, n, maxSize, j - 1), 0);
    }
  }

  /** All chunks of some data are in the store. */
  ghost predicate AllStored(S: nat, root: MerkleRoot, store: map<Hash, seq<byte>>, data: seq<byte>)
    requires S > 0
  {
    forall i :: 0 <= i < NumChunks(|data|, S) ==> IsStored(root, store, ChunkOf(S, data, i))
  }

  lemma HashBeforeTail(S: nat, root: MerkleRoot, data: seq<byte>, tail: nat, i: nat)
    requires S > 0 && i < NumChunks(|data|, S)
    ensures var hashes := Fanout(S, root, data) + Zeros(tail);
            HASH_SIZE * i + HASH_SIZE <= |hashes|
            && hashes[HASH_SIZE * i..HASH_SIZE * i + HASH_SIZE] == root(ChunkOf(S, data, i))
  {
    RootAt(S, root, data, NumChunks(|data|, S), i);
    hide Roots, ChunkOf, NumChunks;
    var fanout, hashes := Fanout(S, root, data), Fanout(S, root, data) + Zeros(tail);
    SliceOfSlice(hashes, fanout, 0, |hashes|, HASH_SIZE * i, HASH_SIZE);
    assert hashes[0..|hashes|] == hashes;
  }

  lemma HashInTail(fanout: seq<byte>, tail: nat)
    requires tail >= HASH_SIZE
    ensures (fanout + Zeros(tail))[|fanout|..|fanout| + HASH_SIZE] == Zeros(HASH_SIZE)
  {
    var found := (fanout + Zeros(tail))[|fanout|..|fanout| + HASH_SIZE];
    assert |found| == |Zeros(HASH_SIZE)|;
    forall k | 0 <= k < HASH_SIZE ensures found[k] == Zeros(HASH_SIZE)[k] {
      assert found[k] == (fanout + Zeros(tail))[|fanout| + k] == Zeros(tail)[k];
    }
  }

  /** Downloading from hash lo on, up to or past the last hash of a fanout followed by zeros. */
  lemma {:induction false} DownloadAll(S: nat, root: MerkleRoot, store: map<Hash, seq<byte>>, data: seq<byte>,
                                       tail: nat, lo: nat, hi: int)
    requires S > 0 && lo <= NumChunks(|data|, S) && hi >= NumChunks(|data|, S) - 1
    requires AllStored(S, root, store, data)
    ensures lo * S <= |Padded(S, data)|
    ensures Download(store, Fanout(S, root, data) + Zeros(tail), lo, hi) ==
            if hi == NumChunks(|data|, S) - 1 || tail >= HASH_SIZE then Some(Padded(S, data)[lo * S..]) else None
    decreases NumChunks(|data|, S) - lo
  {
    hide Padded, Fanout, Zeros, NumChunks, IsStored;
    var n, fanout := NumChunks(|data|, S), Fanout(S, root, data);
    MulMono(lo, n, S);
    PaddedSize(S, data);
    if lo < n {
      DownloadAll(S, root, store, data, tail, lo + 1, hi);
      HashBeforeTail(S, root, data, tail, lo);
      StoredChunk(S, root, store, data, lo);
    } else if hi >= n && tail >= HASH_SIZE {
      HashInTail(fanout, tail);
    }
    assert lo == n ==> Padded(S, data)[lo * S..] == [];
  }

  lemma StoredChunk(S: nat, root: MerkleRoot, store: map<Hash, seq<byte>>, data: seq<byte>, i: nat)
    requires S > 0 && i < NumChunks(|data|, S) && AllStored(S, root, store, data)
    ensures (i + 1) * S <= |Padded(S, data)|
    ensures var r := root(ChunkOf(S, data, i));
            && r != Zeros(HASH_SIZE) && r in store
            && store[r] + Padded(S, data)[(i + 1) * S..] == Padded(S, data)[i * S..]
  {
    ChunkBounds(i, NumChunks(|data|, S), S);
    assert IsStored(root, store, ChunkOf(S, data, i));
    hide NumChunks, Zeros;
    var p := Padded(S, data);
    assert p[i * S..i * S + S] + p[(i + 1) * S..] == p[i * S..];
  }

  /** The padding of c hashes has room for one more hash unless they fill whole sectors. */
  lemma TailRoom(S: nat, c: nat)
    requires ValidSector(S)
    ensures var size := HASH_SIZE * c;
            NumChunks(size, S) * S - size >= HASH_SIZE <==> c % HashesPerSector(S) != 0
  {
    var H := HashesPerSector(S);
    NumChunksScale(c, H, HASH_SIZE);
    var q := NumChunks(c, H);
    DivBounds(c, H);
    MulSwap(q, H, HASH_SIZE);
    assert q * S == HASH_SIZE * (q * H);
    if q * H == c {
      ModIs(c, H, q);
    }
    if c % H == 0 {
      NumChunksUnique(c, H, c / H);
    }
  }

  /** Before span j: the base sector behind its layout, or the padded level just downloaded. */
  ghost predicate Holds(S: nat, root: MerkleRoot, payload: seq<byte>, d: nat, room: nat, j: nat, hashes: seq<byte>)
    requires ValidSector(S) && j <= d
  {
    var level := Level(S, root, payload, d - j);
    if j == 0 then |level| <= room && hashes == level + Zeros(room - |level|) else hashes == Padded(S, level)
  }

  lemma HashesOfLevel(S: nat, root: MerkleRoot, payload: seq<byte>, maxSize: nat, j: nat)
    requires ValidSector(S) && maxSize >= HASH_SIZE && j < ExtensionDepth(S, |payload|, maxSize)
    ensures var d := ExtensionDepth(S, |payload|, maxSize);
            && NumChunks(|Level(S, root, payload, d - 1 - j)|, S) == HashesAt(S, |payload|, maxSize, j)
            && |Level(S, root, payload, d - j)| == HASH_SIZE * HashesAt(S, |payload|, maxSize, j)
            && Level(S, root, payload, d - j) == Fanout(S, root, Level(S, root, payload, d - 1 - j))
  {
    LevelBytesClosed(S, |payload|, ExtensionDepth(S, |payload|, maxSize) - 1 - j);
  }

  /** One span of the whole range. */
  lemma DownloadLevel(S: nat, root: MerkleRoot, store: map<Hash, seq<byte>>, payload: seq<byte>, maxSize: nat,
                      room: nat, j: nat, hashes: seq<byte>)
    requires ValidSector(S) && maxSize >= HASH_SIZE && |payload| > maxSize
    requires j < ExtensionDepth(S, |payload|, maxSize)
    requires Uploaded(S, root, store, payload, ExtensionDepth(S, |payload|, maxSize))
    requires Holds(S, root, payload, ExtensionDepth(S, |payload|, maxSize), room, j, hashes)
    ensures var n, d := |payload|, ExtensionDepth(S, |payload|, maxSize);
            var span := SpanAt(S, n, maxSize, 0, n, j);
            Download(store, hashes, span.minIndex, span.maxIndex) ==
            if SpanFits(S, n, maxSize, room, j) then Some(Padded(S, Level(S, root, payload, d - 1 - j))) else None
  {
    hide ExtensionDepth, Divisor, HashesAt, Download, SpanAt, Fanout, Level, LevelBytes, HashesPerSector, NumChunks,
      ChunkOf;
    var n, d := |payload|, ExtensionDepth(S, |payload|, maxSize);
    var data, level := Level(S, root, payload, d - 1 - j), Level(S, root, payload, d - j);
    HashesOfLevel(S, root, payload, maxSize, j);
    WholeSpan(S, n, maxSize, j);
    TailRoom(S, HashesAt(S, n, maxSize, j));
    var tail := if j == 0 then room - |level| else NumChunks(|level|, S) * S - |level|;
    assert hashes == Fanout(S, root, data) + Zeros(tail);
    forall i | 0 <= i < NumChunks(|data|, S) ensures IsStored(root, store, ChunkOf(S, data, i)) {
    }
    DownloadAll(S, root, store, data, tail, 0, SpanAt(S, n, maxSize, 0, n, j).maxIndex);
    assert Padded(S, data)[0 * S..] == Padded(S, data);
  }

  lemma Ends(S: nat, root: MerkleRoot, payload: seq<byte>, maxSize: nat)
    requires ValidSector(S) && maxSize >= HASH_SIZE && |payload| > maxSize
    ensures ExtensionDepth(S, |payload|, maxSize) >= 1 && Level(S, root, payload, 0) == payload
  {
  }

  lemma NextSpan(S: nat, n: nat, maxSize: nat, room: nat, j: nat)
    requires ValidSector(S) && maxSize >= HASH_SIZE && j < ExtensionDepth(S, n, maxSize)
    ensures var spans := Spans(S, n, maxSize, 0, n);
            spans[j..] != [] && spans[j..][0] == SpanAt(S, n, maxSize, 0, n, j) && spans[j..][1..] == spans[j + 1..]
    ensures SpansFit(S, n, maxSize, room, j)
            <==> SpanFits(S, n, maxSize, room, j) && SpansFit(S, n, maxSize, room, j + 1)
  {
    hide SpanAt, SpanFits, ExtensionDepth;
  }

  lemma FollowNext(store: map<Hash, seq<byte>>, hashes: seq<byte>, spans: seq<ChunkSpan>)
    requires spans != []
    ensures Follow(store, hashes, spans) ==
            match Download(store, hashes, spans[0].minIndex, spans[0].maxIndex)
            case None => None
            case Some(sectors) => Follow(store, sectors, spans[1..])
  {
  }

  /** Following the spans from level j on. */
  lemma {:induction false} FollowWhole(S: nat, root: MerkleRoot, store: map<Hash, seq<byte>>, payload: seq<byte>,
                                       maxSize: nat, room: nat, j: nat, hashes: seq<byte>)
    requires ValidSector(S) && maxSize >= HASH_SIZE && |payload| > maxSize
    requires j <= ExtensionDepth(S, |payload|, maxSize)
    requires Uploaded(S, root, store, payload, ExtensionDepth(S, |payload|, maxSize))
    requires Holds(S, root, payload, ExtensionDepth(S, |payload|, maxSize), room, j, hashes)
    ensures ExtensionDepth(S, |payload|, maxSize) >= 1
    ensures Follow(store, hashes, Spans(S, |payload|, maxSize, 0, |payload|)[j..]) ==
            if SpansFit(S, |payload|, maxSize, room, j) then Some(Padded(S, payload)) else None
    decreases ExtensionDepth(S, |payload|, maxSize) - j
  {
    hide Download, Spans, SpanAt, Uploaded, SpansFit, SpanFits, Padded, Zeros, ExtensionDepth, Level, LevelBytes,
      Follow;
    Ends(S, root, payload, maxSize);
    var n, d := |payload|, ExtensionDepth(S, |payload|, maxSize);
    var spans := Spans(S, n, maxSize, 0, n);
    if j < d {
      DownloadLevel(S, root, store, payload, maxSize, room, j, hashes);
      NextSpan(S, n, maxSize, room, j);
      FollowNext(store, hashes, spans[j..]);
      if SpanFits(S, n, maxSize, room, j) {
        FollowWhole(S, root, store, payload, maxSize, room, j + 1, Padded(S, Level(S, root, payload, d - 1 - j)));
      }
    } else {
      assert spans[j..] == [];
      NoSpans(S, n, maxSize, room, store, hashes);
    }
  }

  lemma NoSpans(S: nat, n: nat, maxSize: nat, room: nat, store: map<Hash, seq<byte>>, hashes: seq<byte>)
    requires ValidSector(S) && maxSize >= HASH_SIZE
    ensures SpansFit(S, n, maxSize, room, ExtensionDepth(S, n, maxSize)) && Follow(store, hashes, []) == Some(hashes)
  {
  }

  /** The whole payload reads back exactly if and only if every span stays on the hashes of its
      level or meets a zero hash behind them; otherwise the download fails. */
  lemma WholePayloadReads(S: nat, root: MerkleRoot, store: map<Hash, seq<byte>>, payload: seq<byte>, maxSize: nat,
                          room: nat)
    requires ValidSector(S) && maxSize >= HASH_SIZE && |payload| > maxSize
    requires room >= |Level(S, root, payload, ExtensionDepth(S, |payload|, maxSize))|
    requires Uploaded(S, root, store, payload, ExtensionDepth(S, |payload|, maxSize))
    ensures var part := Level(S, root, payload, ExtensionDepth(S, |payload|, maxSize));
            Follow(store, part + Zeros(room - |part|), Spans(S, |payload|, maxSize, 0, |payload|)) ==
            if SpansFit(S, |payload|, maxSize, room, 0) then Some(Padded(S, payload)) else None
  {
    hide Download, Spans, Follow, SpansFit, Level, Uploaded;
    var part := Level(S, root, payload, ExtensionDepth(S, |payload|, maxSize));
    FollowWhole(S, root, store, payload, maxSize, room, 0, part + Zeros(room - |part|));
    assert Spans(S, |payload|, maxSize, 0, |payload|)[0..] == Spans(S, |payload|, maxSize, 0, |payload|);
  }

  // ----- Which payloads read back ----------------------------------------------------------

  /** Full trees read back, and with them every tree of depth one. */
  lemma FullTreeFits(S: nat, n: nat, maxSize: nat, room: nat)
    requires ValidSector(S) && maxSize >= HASH_SIZE && FullTree(S, n, maxSize)
    ensures SpansFit(S, n, maxSize, room, 0)
  {
    forall j | 0 <= j < ExtensionDepth(S, n, maxSize) ensures SpanFits(S, n, maxSize, room, j) {
      FullTreeDivisor(S, n, maxSize, j);
    }
  }

  lemma PowOne(H: nat)
    requires H > 0
    ensures Pow(H, 1) == H && Pow(H, 0) == 1
  {
  }

  /** A tree of depth two whose chunks fill whole sectors of hashes is full. */
  lemma WholeSectorsAreFull(S: nat, n: nat, maxSize: nat)
    requires ValidSector(S) && maxSize >= HASH_SIZE && ExtensionDepth(S, n, maxSize) == 2
    requires NumChunks(n, S) % HashesPerSector(S) == 0
    ensures FullTree(S, n, maxSize)
  {
    hide NumChunks, Pow, HashesPerSector;
    var H, chunks := HashesPerSector(S), NumChunks(n, S);
    PowOne(H);
    NumChunksNested(n, S, H);
    DivBounds(chunks, H);
    NumChunksUnique(chunks, H, chunks / H);
    assert UsedHashes(S, n, maxSize) == NumChunks(n, H * S) == chunks / H;
  }

  /** Trees of depth two read back unless the last fanout leaves no room for a zero hash. */
  lemma DepthTwoFits(S: nat, n: nat, maxSize: nat, room: nat)
    requires ValidSector(S) && maxSize >= HASH_SIZE && ExtensionDepth(S, n, maxSize) == 2
    requires HASH_SIZE * UsedHashes(S, n, maxSize) + HASH_SIZE <= room
    ensures SpansFit(S, n, maxSize, room, 0)
  {
    hide NumChunks, Divisor, ExtensionDepth, Pow, FullTree;
    PowOne(HashesPerSector(S));
    assert Reach(S, 0) == S;
    assert HashesAt(S, n, maxSize, 1) == NumChunks(n, S);
    if NumChunks(n, S) % HashesPerSector(S) == 0 {
      WholeSectorsAreFull(S, n, maxSize);
      FullTreeFits(S, n, maxSize, room);
    } else {
      assert SpanFits(S, n, maxSize, room, 1) && SpanFits(S, n, maxSize, room, 0);
    }
  }

  /** A payload of 64 MB above sectors of 4096 bytes, the size that tests use: 124 hashes fill the room
      behind a layout of 99 bytes up to 29 bytes, and the first span asks for one hash more. */
  lemma SomeSpansDoNotFit()
    ensures var S, n := 4096, (123 * 128 + 1) * 4096;
            && ExtensionDepth(S, n, S - 99) == 2
            && UsedHashes(S, n, S - 99) == 124
            && !SpansFit(S, n, S - 99, S - 99, 0)
  {
    var S, chunks := 4096, 123 * 128 + 1;
    var n := chunks * S;
    NumChunksUnique(n, S, chunks);
    assert LevelBytes(S, n, 1) == HASH_SIZE * chunks;
    NumChunksUnique(HASH_SIZE * chunks, S, 124);
    assert LevelBytes(S, n, 2) == HASH_SIZE * 124;
    DepthUnique(S, n, S - 99, 2);
    LevelBytesClosed(S, n, 1);
    assert UsedHashes(S, n, S - 99) == 124 == HashesAt(S, n, S - 99, 0);
    assert Divisor(S, n, S - 99, 0) == 520092;
    assert !SpanFits(S, n, S - 99, S - 99, 0);
  }
}
