/** Range reads through the extension tree deliver exactly the requested bytes, for every range,
    if and only if the tree is full. */
module ExtensionCorrect {
  import opened Arith
  import opened Bytes
  import opened BaseSectorExtension
  import opened ExtensionTree
  import opened ExtensionRead

  /** The chunks of the payload fill the tree below the hashes of the base sector. A tree of
      depth one is always full. */
  predicate FullTree(S: nat, n: nat, maxSize: nat)
    requires ValidSector(S) && maxSize >= HASH_SIZE
  {
    n > maxSize &&
    NumChunks(n, S) == UsedHashes(S, n, maxSize) * Pow(HashesPerSector(S), ExtensionDepth(S, n, maxSize) - 1)
  }

  lemma DepthOneIsFull(S: nat, n: nat, maxSize: nat)
    requires ValidSector(S) && maxSize >= HASH_SIZE && ExtensionDepth(S, n, maxSize) == 1
    ensures FullTree(S, n, maxSize)
  {
    assert Pow(HashesPerSector(S), 0) * S == S;
  }

  /** In a full tree the code's divisor is the true reach of a chunk. */
  lemma FullTreeDivisor(S: nat, n: nat, maxSize: nat, j: nat)
    requires ValidSector(S) && maxSize >= HASH_SIZE && FullTree(S, n, maxSize)
    requires j < ExtensionDepth(S, n, maxSize)
    ensures Divisor(S, n, maxSize, j) == Reach(S, ExtensionDepth(S, n, maxSize) - 1 - j)
  {
    var H, d, used := HashesPerSector(S), ExtensionDepth(S, n, maxSize), UsedHashes(S, n, maxSize);
    DivisorPositive(S, n, maxSize, j);
    PowAdd(H, j, d - 1 - j);
    FullTreeProduct(used, Pow(H, j), Pow(H, d - 1 - j), S);
  }

  lemma FullTreeProduct(used: nat, p: nat, q: nat, S: nat)
    requires used * p > 0
    ensures used * (p * q) * S / (used * p) == q * S
  {
    MulAssoc(used, p, q);
    MulAssoc(used * p, q, S);
    DivExact(used * p, q * S);
  }

  /** The chunk of level k below which byte x of the payload lies. */
  function ChunkAt(S: nat, k: nat, x: nat): nat
    requires ValidSector(S)
  {
    x / Reach(S, k)
  }

  lemma ChunkAtMono(S: nat, k: nat, x: nat, y: nat)
    requires ValidSector(S) && x <= y
    ensures ChunkAt(S, k, x) <= ChunkAt(S, k, y)
  {
    DivMono(x, y, Reach(S, k));
  }

  lemma ChunkAtInLevel(S: nat, n: nat, k: nat, x: nat)
    requires ValidSector(S) && x < n
    ensures ChunkAt(S, k, x) < NumChunks(LevelBytes(S, n, k), S)
  {
    LevelBytesClosed(S, n, k);
    IndexBelowNumChunks(x, n, Reach(S, k));
  }

  lemma ChunkAtBottom(S: nat, x: nat)
    requires ValidSector(S)
    ensures ChunkAt(S, 0, x) == x / S
  {
    assert Pow(HashesPerSector(S), 0) * S == S;
  }

  /** The chunk holding byte x at level k has its hash in the chunk holding x at level k + 1. */
  lemma ParentChunk(S: nat, k: nat, x: nat)
    requires ValidSector(S)
    ensures FirstHash(S, ChunkAt(S, k + 1, x)) <= ChunkAt(S, k, x) < FirstHash(S, ChunkAt(S, k + 1, x) + 1)
  {
    hide Reach;
    ReachNext(S, k);
    DivNestedBounds(x, Reach(S, k), HashesPerSector(S));
  }

  /** The whole chunks a..b of padded data. */
  ghost predicate Window(S: nat, padded: seq<byte>, a: nat, b: nat, bytes: seq<byte>) {
    a * S <= (b + 1) * S <= |padded| && bytes == padded[a * S..(b + 1) * S]
  }

  /** A window of whole chunks of a fanout keeps its hashes at the shifted places. */
  lemma HashInWindow(S: nat, fanout: seq<byte>, padded: seq<byte>, a: nat, b: nat, hashes: seq<byte>, i: nat)
    requires ValidSector(S) && fanout <= padded && HASH_SIZE * i + HASH_SIZE <= |fanout|
    requires FirstHash(S, a) <= i < FirstHash(S, b + 1)
    requires Window(S, padded, a, b, hashes)
    ensures HashIs(hashes, i - FirstHash(S, a), fanout[HASH_SIZE * i..HASH_SIZE * i + HASH_SIZE])
  {
    var H := HashesPerSector(S);
    MulAssoc(a, H, HASH_SIZE);
    MulAssoc(b + 1, H, HASH_SIZE);
    SliceOfSlice(padded, fanout, a * S, (b + 1) * S, HASH_SIZE * i, HASH_SIZE);
  }

  lemma SliceOfSlice(padded: seq<byte>, prefix: seq<byte>, lo: nat, hi: nat, i: nat, width: nat)
    requires lo <= i && i + width <= hi <= |padded| && prefix <= padded && i + width <= |prefix|
    ensures padded[lo..hi][i - lo..i - lo + width] == prefix[i..i + width]
  {
    var window, s := padded[lo..hi], i - lo;
    var x, y := window[s..s + width], prefix[i..i + width];
    forall k | 0 <= k < width ensures x[k] == y[k] {
      assert x[k] == window[s + k] == padded[lo + (s + k)];
    }
  }

  /** What has been downloaded before span j: the base-sector part, or the whole chunks of the
      level above that cover the range from byte `first` to byte `last`. */
  ghost predicate Downloaded(S: nat, root: MerkleRoot, payload: seq<byte>, d: nat, first: nat, last: nat, j: nat,
                             hashes: seq<byte>)
    requires ValidSector(S) && j <= d
  {
    var level := Level(S, root, payload, d - j);
    if j == 0 then hashes == level
    else Window(S, Padded(S, level), ChunkAt(S, d - j, first), ChunkAt(S, d - j, last), hashes)
  }

  function TrueShift(S: nat, d: nat, first: nat, j: nat): nat
    requires ValidSector(S) && j <= d
  {
    if j == 0 then 0 else FirstHash(S, ChunkAt(S, d - j, first))
  }

  lemma ChunkFetchable(S: nat, root: MerkleRoot, store: map<Hash, seq<byte>>, payload: seq<byte>, d: nat,
                       first: nat, last: nat, j: nat, hashes: seq<byte>, i: nat)
    requires ValidSector(S) && j < d && first <= last < |payload|
    requires Uploaded(S, root, store, payload, d)
    requires Downloaded(S, root, payload, d, first, last, j, hashes)
    requires ChunkAt(S, d - 1 - j, first) <= i <= ChunkAt(S, d - 1 - j, last)
    ensures i < NumChunks(|Level(S, root, payload, d - 1 - j)|, S)
    ensures Fetchable(S, root, store, Level(S, root, payload, d - 1 - j), hashes, TrueShift(S, d, first, j), i)
  {
    hide ChunkAt, FirstHash, Window, Reach;
    var k := d - 1 - j;
    var level, fanout := Level(S, root, payload, k), Level(S, root, payload, k + 1);
    ChunkAtInLevel(S, |payload|, k, last);
    RootAt(S, root, level, NumChunks(|level|, S), i);
    assert fanout == Fanout(S, root, level);
    if j > 0 {
      ParentChunk(S, k, first);
      ParentChunk(S, k, last);
      assert ChunkAt(S, k, last) < FirstHash(S, ChunkAt(S, k + 1, last) + 1);
      HashInWindow(S, fanout, Padded(S, fanout), ChunkAt(S, k + 1, first), ChunkAt(S, k + 1, last), hashes, i);
    }
  }

  /** The span every level needs, for a range from byte `first` to byte `last`. */
  function TrueSpan(S: nat, d: nat, first: nat, last: nat, j: nat): ChunkSpan
    requires ValidSector(S) && j < d
  {
    var shift := TrueShift(S, d, first, j);
    ChunkSpan(ChunkAt(S, d - 1 - j, first) - shift, ChunkAt(S, d - 1 - j, last) - shift)
  }

  /** Following a true span turns the window of one level into the window of the next. */
  lemma FollowOneSpan(S: nat, root: MerkleRoot, store: map<Hash, seq<byte>>, payload: seq<byte>, d: nat,
                      first: nat, last: nat, j: nat, hashes: seq<byte>) returns (sectors: seq<byte>)
    requires ValidSector(S) && j < d && first <= last < |payload|
    requires Uploaded(S, root, store, payload, d)
    requires Downloaded(S, root, payload, d, first, last, j, hashes)
    ensures Downloaded(S, root, payload, d, first, last, j + 1, sectors)
    ensures var span := TrueSpan(S, d, first, last, j);
            Download(store, hashes, span.minIndex, span.maxIndex) == Some(sectors)
  {
    hide ChunkAt, FirstHash, Reach, Level, LevelBytes;
    var k := d - 1 - j;
    var level := Level(S, root, payload, k);
    var lo, hi, shift := ChunkAt(S, k, first), ChunkAt(S, k, last), TrueShift(S, d, first, j);
    ChunkAtMono(S, k, first, last);
    ChunkAtInLevel(S, |payload|, k, last);
    forall i | lo <= i <= hi ensures Fetchable(S, root, store, level, hashes, shift, i) {
      ChunkFetchable(S, root, store, payload, d, first, last, j, hashes, i);
    }
    DownloadChunks(S, root, store, level, hashes, shift, lo, hi);
    sectors := Padded(S, level)[lo * S..(hi + 1) * S];
  }

  /** Following true spans from level j on yields the chunks of the payload that cover the range. */
  lemma {:induction false} FollowTrueSpans(S: nat, root: MerkleRoot, store: map<Hash, seq<byte>>, payload: seq<byte>,
                                           d: nat, first: nat, last: nat, j: nat, hashes: seq<byte>,
                                           spans: seq<ChunkSpan>) returns (sectors: seq<byte>)
    requires ValidSector(S) && j <= d && d >= 1 && first <= last < |payload|
    requires Uploaded(S, root, store, payload, d)
    requires Downloaded(S, root, payload, d, first, last, j, hashes)
    requires |spans| == d - j && forall i :: 0 <= i < |spans| ==> spans[i] == TrueSpan(S, d, first, last, j + i)
    ensures Downloaded(S, root, payload, d, first, last, d, sectors)
    ensures Follow(store, hashes, spans) == Some(sectors)
    decreases d - j
  {
    hide ChunkAt, FirstHash, Reach, Level, LevelBytes, Window, Uploaded, Download, TrueSpan, Downloaded;
    if j == d {
      sectors := hashes;
    } else {
      var next := FollowOneSpan(S, root, store, payload, d, first, last, j, hashes);
      assert spans[0] == TrueSpan(S, d, first, last, j + 0);
      forall i | 0 <= i < |spans[1..]| ensures spans[1..][i] == TrueSpan(S, d, first, last, j + 1 + i) {
        assert spans[1..][i] == spans[i + 1];
        assert spans[i + 1] == TrueSpan(S, d, first, last, j + (i + 1));
      }
      sectors := FollowTrueSpans(S, root, store, payload, d, first, last, j + 1, next, spans[1..]);
    }
  }

  /** In a full tree the translated spans are the true ones. */
  lemma FullTreeSpans(S: nat, n: nat, maxSize: nat, offset: nat, length: nat, j: nat)
    requires ValidSector(S) && maxSize >= HASH_SIZE && FullTree(S, n, maxSize)
    requires length >= 1 && j < ExtensionDepth(S, n, maxSize)
    ensures Spans(S, n, maxSize, offset, length)[j]
            == TrueSpan(S, ExtensionDepth(S, n, maxSize), offset, offset + length - 1, j)
  {
    FullTreeDivisor(S, n, maxSize, j);
    LastChunkIsLastByte(offset + length, Divisor(S, n, maxSize, j));
    if j > 0 {
      FullTreeDivisor(S, n, maxSize, j - 1);
    }
  }

  /** Reading through the tree is correct: for every payload of a full tree and every nonempty
      range inside it, the spans deliver exactly those bytes at the translated offset. */
  lemma FullTreeRead(S: nat, root: MerkleRoot, store: map<Hash, seq<byte>>, payload: seq<byte>, maxSize: nat,
                     offset: nat, length: nat)
    requires ValidSector(S) && maxSize >= HASH_SIZE && FullTree(S, |payload|, maxSize)
    requires Uploaded(S, root, store, payload, ExtensionDepth(S, |payload|, maxSize))
    requires length >= 1 && offset + length <= |payload|
    ensures var top := Level(S, root, payload, ExtensionDepth(S, |payload|, maxSize));
            ReadRange(S, store, top, |payload|, maxSize, offset, length) == Some(payload[offset..offset + length])
  {
    var n, d := |payload|, ExtensionDepth(S, |payload|, maxSize);
    var last := offset + length - 1;
    var spans := Spans(S, n, maxSize, offset, length);
    forall j | 0 <= j < d ensures spans[j] == TrueSpan(S, d, offset, last, 0 + j) {
      FullTreeSpans(S, n, maxSize, offset, length, j);
    }
    var sectors := FollowTrueSpans(S, root, store, payload, d, offset, last, 0, Level(S, root, payload, d), spans);
    ChunkAtBottom(S, offset);
    ChunkAtBottom(S, last);
    CutRange(S, payload, sectors, offset, length);
  }

  /** Cutting the covering chunks at offset % S gives the range. */
  lemma CutRange(S: nat, payload: seq<byte>, sectors: seq<byte>, offset: nat, length: nat)
    requires S > 0 && length >= 1 && offset + length <= |payload|
    requires Window(S, Padded(S, payload), offset / S, (offset + length - 1) / S, sectors)
    ensures offset % S + length <= |sectors|
    ensures sectors[offset % S..offset % S + length] == payload[offset..offset + length]
  {
    hide NumChunks, Padded;
    DivBounds(offset, S);
    DivNonNegative(offset, S);
    DivNonNegative(offset + length - 1, S);
    var a, b, o := offset / S, (offset + length - 1) / S, offset % S;
    RoundRange(offset, length, S, a, b, o);
    SliceOfSlice(Padded(S, payload), payload, a * S, (b + 1) * S, offset, length);
  }

  lemma RoundRange(offset: nat, length: nat, S: nat, a: nat, b: nat, o: nat)
    requires S > 0 && length >= 1
    requires a == offset / S && b == (offset + length - 1) / S && o == offset % S
    ensures a * S + o == offset && offset + length <= (b + 1) * S
  {
    DivBounds(offset, S);
    DivBounds(offset + length - 1, S);
  }

  // ----- Trees that are not full -----------------------------------------------------------

  /** A payload whose only nonzero byte is the last one of its first chunk. */
  function Witness(S: nat, n: nat): (p: seq<byte>)
    ensures |p| == n
  {
    if S == 0 || n < S then Zeros(n) else Zeros(n)[S - 1 := 1]
  }

  /** Above the last span, the first chunk of the payload lies below the first hash. */
  lemma UpperDivisors(S: nat, n: nat, maxSize: nat, j: nat)
    requires ValidSector(S) && maxSize >= HASH_SIZE && j + 1 < ExtensionDepth(S, n, maxSize)
    ensures Divisor(S, n, maxSize, j) >= S
  {
    var H, d, used := HashesPerSector(S), ExtensionDepth(S, n, maxSize), UsedHashes(S, n, maxSize);
    DepthIsFirstFit(S, n, maxSize);
    LevelBytesClosed(S, n, d - 1);
    LevelBytesClosed(S, n, d - 2);
    NumChunksLeast(n, Reach(S, d - 2), used);
    assert used * (Pow(H, d - 2) * S) < n <= NumChunks(n, S) * S;
    PowAdd(H, j, d - 2 - j);
    DivisorPositive(S, n, maxSize, j);
    SmallFactor(used, Pow(H, j), Pow(H, d - 2 - j), S, NumChunks(n, S));
  }

  lemma SmallFactor(used: nat, p: nat, q: nat, S: nat, chunks: nat)
    requires used * p > 0 && q > 0 && used * (p * q * S) < chunks * S
    ensures chunks * S / (used * p) >= S
  {
    var m := used * p;
    MulAssoc(p, q, S);
    MulAssoc(used, p, q * S);
    MulAssoc(m, q, S);
    MulMono(1, q, m);
    MulMono(m, m * q, S);
    DivExact(m, S);
    DivMono(m * S, chunks * S, m);
  }

  /** At the last span of a tree that is not full, the divisor is smaller than a chunk. */
  lemma LastDivisor(S: nat, n: nat, maxSize: nat)
    requires ValidSector(S) && maxSize >= HASH_SIZE && n > maxSize && !FullTree(S, n, maxSize)
    ensures Divisor(S, n, maxSize, ExtensionDepth(S, n, maxSize) - 1) < S
  {
    var d, used := ExtensionDepth(S, n, maxSize), UsedHashes(S, n, maxSize);
    var m := used * Pow(HashesPerSector(S), d - 1);
    DivisorPositive(S, n, maxSize, d - 1);
    MulAssoc(used, Pow(HashesPerSector(S), d - 1), S);
    NumChunksLeast(n, S, m);
    SmallQuotient(NumChunks(n, S), m, S);
  }

  lemma SmallQuotient(chunks: nat, m: nat, S: nat)
    requires chunks < m && S > 0
    ensures chunks * S / m < S
  {
    var q := chunks * S / m;
    DivBounds(chunks * S, m);
    MulMono(chunks + 1, m, S);
    if q >= S {
      MulMono(S, q, m);
    }
  }

  lemma FirstChunkSpan(S: nat, size: nat)
    requires S > 0 && size >= S
    ensures (S - 1) / size == 0 && LastChunk(S, size) == 0
  {
    DivUnique(S - 1, size, 0);
    LastChunkIsLastByte(S, size);
  }

  lemma UpperSpan(S: nat, n: nat, maxSize: nat, j: nat)
    requires ValidSector(S) && maxSize >= HASH_SIZE && j < ExtensionDepth(S, n, maxSize)
    ensures Shift(S, n, maxSize, S - 1, j) == 0
    ensures j + 1 < ExtensionDepth(S, n, maxSize) ==> SpanAt(S, n, maxSize, S - 1, 1, j) == ChunkSpan(0, 0)
  {
    hide Divisor;
    if j > 0 {
      UpperDivisors(S, n, maxSize, j - 1);
      FirstChunkSpan(S, Divisor(S, n, maxSize, j - 1));
    }
    if j + 1 < ExtensionDepth(S, n, maxSize) {
      UpperDivisors(S, n, maxSize, j);
      FirstChunkSpan(S, Divisor(S, n, maxSize, j));
    }
  }

  /** The spans for the last byte of the first chunk: correct down to the last one, which points
      past the first chunk. */
  lemma WitnessSpans(S: nat, n: nat, maxSize: nat)
    requires ValidSector(S) && maxSize >= HASH_SIZE && n > maxSize && !FullTree(S, n, maxSize)
    ensures var d := ExtensionDepth(S, n, maxSize);
            var spans := Spans(S, n, maxSize, S - 1, 1);
            && d >= 2
            && (forall j :: 0 <= j < d - 1 ==> spans[j] == ChunkSpan(0, 0))
            && spans[d - 1].minIndex == spans[d - 1].maxIndex >= 1
  {
    hide Divisor, FullTree, Shift;
    var d := ExtensionDepth(S, n, maxSize);
    if d == 1 {
      DepthOneIsFull(S, n, maxSize);
    }
    var spans := Spans(S, n, maxSize, S - 1, 1);
    forall j | 0 <= j < d - 1 ensures spans[j] == ChunkSpan(0, 0) {
      UpperSpan(S, n, maxSize, j);
    }
    UpperSpan(S, n, maxSize, d - 1);
    LastDivisor(S, n, maxSize);
    var q := Divisor(S, n, maxSize, d - 1);
    LastChunkIsLastByte(S, q);
    DivPositive(S - 1, q);
  }

  lemma {:induction false} FollowAppend(store: map<Hash, seq<byte>>, hashes: seq<byte>, spans: seq<ChunkSpan>,
                                        last: ChunkSpan)
    ensures Follow(store, hashes, spans + [last]) ==
            match Follow(store, hashes, spans)
            case None => None
            case Some(sectors) => Download(store, sectors, last.minIndex, last.maxIndex)
    decreases |spans|
  {
    if spans == [] {
      assert spans + [last] == [last];
    } else {
      assert (spans + [last])[1..] == spans[1..] + [last];
      var next := Download(store, hashes, spans[0].minIndex, spans[0].maxIndex);
      if next.Some? {
        FollowAppend(store, next.value, spans[1..], last);
      }
    }
  }

  /** Down the left edge of the tree the spans [0, 0] are the true ones. */
  lemma {:induction false} FollowLeftEdge(S: nat, root: MerkleRoot, store: map<Hash, seq<byte>>, payload: seq<byte>,
                                          d: nat, j: nat, hashes: seq<byte>, spans: seq<ChunkSpan>)
    returns (sectors: seq<byte>)
    requires ValidSector(S) && j < d && |payload| > 0 && Uploaded(S, root, store, payload, d)
    requires Downloaded(S, root, payload, d, 0, 0, j, hashes)
    requires |spans| == d - 1 - j && forall i :: 0 <= i < |spans| ==> spans[i] == ChunkSpan(0, 0)
    ensures Downloaded(S, root, payload, d, 0, 0, d - 1, sectors)
    ensures Follow(store, hashes, spans) == Some(sectors)
    decreases d - j
  {
    hide FirstHash, Level, LevelBytes, Window, Uploaded, Download, Downloaded;
    if j == d - 1 {
      sectors := hashes;
    } else {
      LeftEdgeSpan(S, d, j);
      var next := FollowOneSpan(S, root, store, payload, d, 0, 0, j, hashes);
      sectors := FollowLeftEdge(S, root, store, payload, d, j + 1, next, spans[1..]);
    }
  }

  lemma LeftEdgeSpan(S: nat, d: nat, j: nat)
    requires ValidSector(S) && j < d
    ensures TrueSpan(S, d, 0, 0, j) == ChunkSpan(0, 0)
  {
    DivUnique(0, Reach(S, d - 1 - j), 0);
    if j > 0 {
      DivUnique(0, Reach(S, d - j), 0);
    }
  }

  /** The first sector of the lowest fanout: roots of the payload's chunks, then zeros. */
  lemma LowestHashes(S: nat, root: MerkleRoot, payload: seq<byte>, hashes: seq<byte>, c: nat)
    requires ValidSector(S) && |payload| > 0 && HASH_SIZE * c + HASH_SIZE <= S
    requires Window(S, Padded(S, Fanout(S, root, payload)), 0, 0, hashes)
    ensures |hashes| == S
    ensures HashIs(hashes, c, if c < NumChunks(|payload|, S) then root(ChunkOf(S, payload, c)) else Zeros(HASH_SIZE))
  {
    hide ChunkOf, Roots, HashesPerSector;
    var fanout, n := Fanout(S, root, payload), NumChunks(|payload|, S);
    var padded := Padded(S, fanout);
    SliceOfSlice(padded, padded, 0, S, HASH_SIZE * c, HASH_SIZE);
    if c < n {
      RootAt(S, root, payload, n, c);
      SliceOfSlice(padded, fanout, 0, S, HASH_SIZE * c, HASH_SIZE);
    } else {
      assert padded[HASH_SIZE * c..HASH_SIZE * c + HASH_SIZE] == Zeros(HASH_SIZE);
    }
  }

  lemma WitnessChunk(S: nat, n: nat, c: nat)
    requires S > 0 && n >= S && 1 <= c < NumChunks(n, S)
    ensures ChunkOf(S, Witness(S, n), c)[S - 1] == 0
  {
    MulMono(1, c, S);
    ChunkBounds(c, NumChunks(n, S), S);
    assert ChunkOf(S, Witness(S, n), c)[S - 1] == Padded(S, Witness(S, n))[c * S + (S - 1)];
  }

  /** Whatever is downloaded for hash c >= 1 of the lowest fanout of the witness, its byte S - 1
      is not the witness byte. */
  lemma WrongChunk(S: nat, root: MerkleRoot, store: map<Hash, seq<byte>>, n: nat, d: nat, hashes: seq<byte>, c: nat)
    requires ValidSector(S) && n >= S && d >= 2 && c >= 1
    requires Uploaded(S, root, store, Witness(S, n), d)
    requires Downloaded(S, root, Witness(S, n), d, 0, 0, d - 1, hashes)
    ensures match Download(store, hashes, c, c)
            case None => true
            case Some(sectors) => |sectors| < S || sectors[S - 1] == 0
  {
    var w := Witness(S, n);
    LeftEdgeWindow(S, root, w, d, hashes);
    hide ChunkOf, Roots, Fanout, Witness, Window, Padded, Downloaded, NumChunks;
    if HASH_SIZE * c + HASH_SIZE <= |hashes| {
      LowestHashes(S, root, w, hashes, c);
      if c < NumChunks(n, S) {
        assert IsStored(root, store, ChunkOf(S, Level(S, root, w, 0), c));
        WitnessChunk(S, n, c);
      }
    }
  }

  lemma LeftEdgeWindow(S: nat, root: MerkleRoot, payload: seq<byte>, d: nat, hashes: seq<byte>)
    requires ValidSector(S) && d >= 2 && |payload| > 0
    requires Downloaded(S, root, payload, d, 0, 0, d - 1, hashes)
    ensures Window(S, Padded(S, Fanout(S, root, payload)), 0, 0, hashes) && |hashes| == S
  {
    DivUnique(0, Reach(S, 1), 0);
    assert Level(S, root, payload, 1) == Fanout(S, root, Level(S, root, payload, 0));
  }

  ghost predicate ReadsBack(S: nat, root: MerkleRoot, store: map<Hash, seq<byte>>, maxSize: nat, payload: seq<byte>,
                            offset: nat, length: nat)
    requires ValidSector(S) && maxSize >= HASH_SIZE && offset + length <= |payload|
  {
    var top := Level(S, root, payload, ExtensionDepth(S, |payload|, maxSize));
    ReadRange(S, store, top, |payload|, maxSize, offset, length)
    == Some(payload[offset..offset + length])
  }

  lemma DeepTreeIsLarge(S: nat, n: nat, maxSize: nat)
    requires ValidSector(S) && maxSize >= HASH_SIZE && ExtensionDepth(S, n, maxSize) >= 2
    ensures n > S
  {
    DepthIsFirstFit(S, n, maxSize);
    NumChunksLeast(n, S, 1);
    assert LevelBytes(S, n, 0) == n;
    assert LevelBytes(S, n, 1) > maxSize;
  }

  lemma ReadOneByte(S: nat, store: map<Hash, seq<byte>>, top: seq<byte>, n: nat, maxSize: nat)
    requires ValidSector(S) && maxSize >= HASH_SIZE
    ensures ReadRange(S, store, top, n, maxSize, S - 1, 1)
            == match Follow(store, top, Spans(S, n, maxSize, S - 1, 1))
               case None => None
               case Some(bytes) => if S <= |bytes| then Some([bytes[S - 1]]) else None
  {
    hide Follow, Spans;
    var r := Follow(store, top, Spans(S, n, maxSize, S - 1, 1));
    SmallRemainder(S - 1, S);
    if r.Some? && S <= |r.value| {
      assert r.value[S - 1..(S - 1) + 1] == [r.value[S - 1]];
    }
  }

  lemma SmallRemainder(x: nat, m: nat)
    requires x < m
    ensures x % m == x
  {
  }

  lemma WitnessByte(S: nat, n: nat)
    requires 0 < S <= n
    ensures Witness(S, n)[S - 1..S] == [1]
  {
  }

  /** If the tree is not full, reading one byte of the witness goes wrong. */
  lemma PartialTreeMisreads(S: nat, root: MerkleRoot, store: map<Hash, seq<byte>>, n: nat, maxSize: nat)
    requires ValidSector(S) && maxSize >= HASH_SIZE && n > maxSize && !FullTree(S, n, maxSize)
    requires Uploaded(S, root, store, Witness(S, n), ExtensionDepth(S, n, maxSize))
    ensures n > S && !ReadsBack(S, root, store, maxSize, Witness(S, n), S - 1, 1)
  {
    hide Level, Spans, FullTree, Download, Follow, ExtensionDepth, Uploaded, Witness, ReadRange;
    var w, d := Witness(S, n), ExtensionDepth(S, n, maxSize);
    var top, spans := Level(S, root, w, d), Spans(S, n, maxSize, S - 1, 1);
    WitnessSpans(S, n, maxSize);
    DeepTreeIsLarge(S, n, maxSize);
    var sectors := FollowLeftEdge(S, root, store, w, d, 0, top, spans[..d - 1]);
    assert spans == spans[..d - 1] + [spans[d - 1]];
    FollowAppend(store, top, spans[..d - 1], spans[d - 1]);
    WrongChunk(S, root, store, n, d, sectors, spans[d - 1].minIndex);
    ReadOneByte(S, store, top, n, maxSize);
    WitnessByte(S, n);
  }

  /** Range reads work for all payloads of a size and all ranges exactly when the tree of that
      size is full. */
  lemma RangeReadsIffFullTree(S: nat, root: MerkleRoot, store: map<Hash, seq<byte>>, n: nat, maxSize: nat)
    requires ValidSector(S) && maxSize >= HASH_SIZE && n > maxSize
    requires Uploaded(S, root, store, Witness(S, n), ExtensionDepth(S, n, maxSize))
    ensures FullTree(S, n, maxSize) <==>
            forall payload: seq<byte>, offset: nat, length: nat ::
              |payload| == n && Uploaded(S, root, store, payload, ExtensionDepth(S, n, maxSize))
              && length >= 1 && offset + length <= n
              ==> ReadsBack(S, root, store, maxSize, payload, offset, length)
  {
    if FullTree(S, n, maxSize) {
      forall payload: seq<byte>, offset: nat, length: nat |
        |payload| == n && Uploaded(S, root, store, payload, ExtensionDepth(S, n, maxSize))
        && length >= 1 && offset + length <= n
        ensures ReadsBack(S, root, store, maxSize, payload, offset, length)
      {
        FullTreeRead(S, root, store, payload, maxSize, offset, length);
      }
    } else {
      PartialTreeMisreads(S, root, store, n, maxSize);
    }
  }

  /** A concrete tree that is not full: 129 sectors of 4096 bytes above room for 64 hashes. */
  lemma SomeTreeIsNotFull()
    ensures ExtensionDepth(4096, 129 * 4096, 2048) == 2
    ensures !FullTree(4096, 129 * 4096, 2048)
  {
    var n := 129 * 4096;
    assert NumChunks(n, 4096) == 129 && NumChunks(129 * HASH_SIZE, 4096) == 2;
    assert LevelBytes(4096, n, 1) == 129 * HASH_SIZE && LevelBytes(4096, n, 2) == 2 * HASH_SIZE;
    DepthUnique(4096, n, 2048, 2);
    LevelBytesClosed(4096, n, 1);
    assert Pow(128, 1) == 128 * Pow(128, 0) == 128;
  }
}
