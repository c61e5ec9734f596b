/** Which compressed base sectors are parsed back: those whose prefix holds the last fanout and whose
    spans fit the tree. With less than the last fanout the parser goes one level too deep and takes the
    payload for hashes. */
module CompressedParse {
  import opened Arith
  import opened Bytes
  import opened BaseSector
  import opened BaseSectorExtension
  import opened ExtensionCorrect
  import opened ExtensionRead
  import opened ExtensionTree
  import opened ExtensionWhole
  import opened RecursiveBaseSector
  import opened SkyfileLayout

  // ----- Too deep --------------------------------------------------------------------------

  /** A prefix that ends inside the last fanout makes the parser go exactly one level deeper than the
      builder: the last fanout fits one sector, so one hash is left of it. */
  lemma OneLevelTooDeep(S: nat, n: nat, size: nat, maxSize: nat)
    requires ValidSector(S) && HASH_SIZE <= maxSize <= size <= S && n > size
    requires LevelBytes(S, n, ExtensionDepth(S, n, size)) > maxSize
    ensures ExtensionDepth(S, n, maxSize) == ExtensionDepth(S, n, size) + 1
  {
    hide ExtensionDepth;
    DepthIsFirstFit(S, n, size);
    var d := ExtensionDepth(S, n, size);
    NumChunksUnique(LevelBytes(S, n, d), S, 1);
    assert LevelBytes(S, n, d + 1) == HASH_SIZE;
    hide LevelBytes;
    DepthUnique(S, n, maxSize, d + 1);
  }

  lemma {:induction false} LevelHoldsHash(S: nat, n: nat, k: nat)
    requires ValidSector(S) && n >= HASH_SIZE
    ensures LevelBytes(S, n, k) >= HASH_SIZE
  {
    hide NumChunks;
    if k > 0 {
      LevelHoldsHash(S, n, k - 1);
      NumChunksLeast(LevelBytes(S, n, k - 1), S, 0);
    }
  }

  /** Two byte strings begin with the same hash. */
  predicate SameFirstHash(a: seq<byte>, b: seq<byte>) {
    |a| >= HASH_SIZE && |b| >= HASH_SIZE && a[..HASH_SIZE] == b[..HASH_SIZE]
  }

  /** A span of the whole payload starts with the first hash. */
  predicate StartsFirst(span: ChunkSpan) {
    span.minIndex == 0 && span.maxIndex >= 0
  }

  lemma FirstRoot(S: nat, root: MerkleRoot, data: seq<byte>, hashes: seq<byte>)
    requires S > 0 && |data| > 0 && SameFirstHash(hashes, Fanout(S, root, data))
    ensures NumChunks(|data|, S) > 0 && hashes[..HASH_SIZE] == root(ChunkOf(S, data, 0))
  {
    hide NumChunks, Roots, ChunkOf;
    NumChunksLeast(|data|, S, 0);
    RootAt(S, root, data, NumChunks(|data|, S), 0);
    var fanout := Fanout(S, root, data);
    assert fanout[HASH_SIZE * 0..HASH_SIZE * 0 + HASH_SIZE] == fanout[..HASH_SIZE];
  }

  lemma FirstOfChunk(S: nat, data: seq<byte>)
    requires S >= HASH_SIZE && |data| >= HASH_SIZE && NumChunks(|data|, S) > 0
    ensures SameFirstHash(ChunkOf(S, data, 0), data)
  {
    hide NumChunks;
    var p := Padded(S, data);
    ChunkBounds(0, NumChunks(|data|, S), S);
    assert ChunkOf(S, data, 0) == p[..S];
    hide Padded, ChunkOf;
    FirstOfPadded(data, p, S);
  }

  /** The first hash of a fanout leads to the first chunk of the level below. */
  lemma FirstChunk(S: nat, root: MerkleRoot, store: Store, payload: seq<byte>, d: nat, k: nat, hashes: seq<byte>)
    requires ValidSector(S) && k < d && |payload| >= HASH_SIZE && Uploaded(S, root, store, payload, d)
    requires SameFirstHash(hashes, Level(S, root, payload, k + 1))
    ensures var h := hashes[..HASH_SIZE];
            h != Zeros(HASH_SIZE) && h in store && SameFirstHash(store[h], Level(S, root, payload, k))
  {
    hide LevelBytes, NumChunks, ChunkOf, Fanout, SameFirstHash, Zeros;
    var data := Level(S, root, payload, k);
    LevelHoldsHash(S, |payload|, k);
    FirstRoot(S, root, data, hashes);
    FirstOfChunk(S, data);
    assert IsStored(root, store, ChunkOf(S, data, 0));
  }

  lemma FirstOfPadded(data: seq<byte>, padded: seq<byte>, S: nat)
    requires data <= padded && |data| >= HASH_SIZE && HASH_SIZE <= S <= |padded|
    ensures SameFirstHash(padded[..S], data)
  {
    assert padded[..S][..HASH_SIZE] == padded[..HASH_SIZE] == data[..HASH_SIZE];
  }

  /** What is fetched for a span that starts with the first hash. */
  lemma DownloadFirst(store: Store, hashes: seq<byte>, span: ChunkSpan)
    requires StartsFirst(span)
    ensures var r := Download(store, hashes, span.minIndex, span.maxIndex);
            if |hashes| < HASH_SIZE then r == None
            else if hashes[..HASH_SIZE] == Zeros(HASH_SIZE) then r == Some([])
            else if hashes[..HASH_SIZE] !in store then r == None
            else r.Some? && |store[hashes[..HASH_SIZE]]| >= HASH_SIZE ==>
              SameFirstHash(r.value, store[hashes[..HASH_SIZE]])
  {
    hide Download, Zeros;
    DownloadNext(store, hashes, 0, span.maxIndex);
    assert |hashes| >= HASH_SIZE ==> hashes[HASH_SIZE * 0..HASH_SIZE * 0 + HASH_SIZE] == hashes[..HASH_SIZE];
  }

  lemma FollowOne(store: Store, hashes: seq<byte>, spans: seq<ChunkSpan>)
    requires |spans| == 1
    ensures Follow(store, hashes, spans) == Download(store, hashes, spans[0].minIndex, spans[0].maxIndex)
  {
    hide Download;
  }

  /** What reading one level too deep can end with: nothing, if the payload begins with a zero hash, or else
      bytes that begin with those of the sector that the first hash of the payload stands for. */
  predicate TooDeep(store: Store, payload: seq<byte>, bytes: seq<byte>)
    requires |payload| >= HASH_SIZE
  {
    var h := payload[..HASH_SIZE];
    if h == Zeros(HASH_SIZE) then bytes == []
    else h in store && (|store[h]| >= HASH_SIZE ==> SameFirstHash(bytes, store[h]))
  }

  lemma OneTooMany(store: Store, payload: seq<byte>, hashes: seq<byte>, span: ChunkSpan)
    requires |payload| >= HASH_SIZE && SameFirstHash(hashes, payload) && StartsFirst(span)
    ensures var r := Download(store, hashes, span.minIndex, span.maxIndex); r.Some? ==> TooDeep(store, payload, r.value)
  {
    hide Download, Zeros;
    DownloadFirst(store, hashes, span);
  }

  lemma OneDeeper(S: nat, root: MerkleRoot, store: Store, payload: seq<byte>, d: nat, k: nat, hashes: seq<byte>,
                  span: ChunkSpan)
    requires ValidSector(S) && k < d && |payload| >= HASH_SIZE && Uploaded(S, root, store, payload, d)
    requires SameFirstHash(hashes, Level(S, root, payload, k + 1)) && StartsFirst(span)
    ensures var r := Download(store, hashes, span.minIndex, span.maxIndex);
            r.Some? ==> SameFirstHash(r.value, Level(S, root, payload, k))
  {
    hide Download, Uploaded, Level, LevelBytes, Zeros;
    FirstChunk(S, root, store, payload, d, k, hashes);
    DownloadFirst(store, hashes, span);
  }

  /** Following one span too many below level d - j. */
  lemma {:induction false} FollowTooDeep(S: nat, root: MerkleRoot, store: Store, payload: seq<byte>, d: nat, j: nat,
                                         hashes: seq<byte>, spans: seq<ChunkSpan>)
    requires ValidSector(S) && j <= d && Uploaded(S, root, store, payload, d) && |payload| >= HASH_SIZE
    requires SameFirstHash(hashes, Level(S, root, payload, d - j))
    requires |spans| == d - j + 1 && forall i :: 0 <= i < |spans| ==> StartsFirst(spans[i])
    ensures var r := Follow(store, hashes, spans); r.Some? ==> TooDeep(store, payload, r.value)
    decreases d - j
  {
    hide Download, Uploaded, Follow, LevelBytes, TooDeep, SameFirstHash, StartsFirst;
    if j == d {
      OneTooMany(store, payload, hashes, spans[0]);
      FollowOne(store, hashes, spans);
    } else {
      FollowNext(store, hashes, spans);
      OneDeeper(S, root, store, payload, d, d - j - 1, hashes, spans[0]);
      var r := Download(store, hashes, spans[0].minIndex, spans[0].maxIndex);
      if r.Some? {
        FollowTooDeep(S, root, store, payload, d, j + 1, r.value, spans[1..]);
      }
    }
  }

  lemma WholeSpansStartFirst(S: nat, n: nat, maxSize: nat)
    requires ValidSector(S) && maxSize >= HASH_SIZE && n > maxSize
    ensures forall i :: 0 <= i < ExtensionDepth(S, n, maxSize) ==> StartsFirst(Spans(S, n, maxSize, 0, n)[i])
  {
    hide SpanAt, ExtensionDepth;
    forall i | 0 <= i < ExtensionDepth(S, n, maxSize) ensures StartsFirst(Spans(S, n, maxSize, 0, n)[i]) {
      WholeSpan(S, n, maxSize, i);
    }
  }

  lemma ShortPrefix(layout: seq<byte>, part: seq<byte>, rest: seq<byte>, f: nat)
    requires |layout| <= f <= |layout| + |part|
    ensures (layout + part + rest)[..f] == layout + part[..f - |layout|]
    ensures (layout + part[..f - |layout|])[|layout|..] == part[..f - |layout|]
  {
  }

  lemma SplitTooDeep<M>(json: Metadata<M>, l: Layout, store: Store, payload: seq<byte>, bytes: seq<byte>)
    requires WellTyped(l) && |payload| >= HASH_SIZE && TooDeep(store, payload, bytes)
    ensures var r := Split(json, l, |payload|, bytes);
            r.Ok? ==>
              && payload[..HASH_SIZE] in store
              && payload[..HASH_SIZE] != Zeros(HASH_SIZE)
              && r.value.fanout + r.value.raw == bytes[..|payload|]
              && (|store[payload[..HASH_SIZE]]| >= HASH_SIZE ==>
                    SameFirstHash(r.value.fanout + r.value.raw, store[payload[..HASH_SIZE]]))
  {
    hide Zeros;
    var r := Split(json, l, |payload|, bytes);
    if r.Ok? {
      assert r.value.fanout + r.value.raw == bytes[..|payload|];
      assert bytes[..|payload|][..HASH_SIZE] == bytes[..HASH_SIZE];
    }
  }

  /** What is parsed from a prefix that ends inside the last fanout does not begin like the payload but like
      the sector that the payload's first hash stands for, if there is one. */
  lemma ShortPrefixParse<M(!new)>(S: nat, json: Metadata<M>, root: MerkleRoot, store: Store, l: Layout,
                                  fanout: seq<byte>, meta: seq<byte>, f: nat)
    requires ProperSector(S) && LAYOUT_SIZE + HASH_SIZE <= f <= S
    requires IsCompressed(S, json, root, store, l, fanout, meta)
    requires f < LAYOUT_SIZE + |LastFanout(S, root, fanout + meta)|
    ensures var h := (fanout + meta)[..HASH_SIZE];
            var r := ParseThrough(S, json, store, CompressedSector(S, root, l, fanout + meta)[..f]);
            r.Ok? ==>
              && h in store && h != Zeros(HASH_SIZE)
              && (|store[h]| >= HASH_SIZE ==> SameFirstHash(r.value.fanout + r.value.raw, store[h]))
  {
    hide Encoding, Decoded, Zeros, Level, LevelBytes, ExtensionDepth, Follow, Spans, Split, Uploaded, Parse,
      ParseThrough;
    var payload := fanout + meta;
    var n, room := |payload|, f - LAYOUT_SIZE;
    var d := ExtensionDepth(S, n, S - LAYOUT_SIZE);
    var part := LastFanout(S, root, payload);
    var b := CompressedSector(S, root, l, payload)[..f];
    ShortPrefix(Encoding(l), part, Zeros(S - LAYOUT_SIZE - |part|), f);
    DecodeEncoded(l, part[..room]);
    OneLevelTooDeep(S, n, S - LAYOUT_SIZE, room);
    DoesNotFit(S, json, b);
    ParseThroughIs(S, json, store, b, l, n);
    WholeSpansStartFirst(S, n, room);
    assert part[..room][..HASH_SIZE] == part[..HASH_SIZE];
    FollowTooDeep(S, root, store, payload, d, 0, part[..room], Spans(S, n, room, 0, n));
    var bytes := Follow(store, part[..room], Spans(S, n, room, 0, n));
    if bytes.Some? {
      SplitTooDeep(json, l, store, payload, bytes.value);
    }
  }

  // ----- Exactly when ----------------------------------------------------------------------

  ghost predicate ParsesBack<M(!new)>(S: nat, json: Metadata<M>, root: MerkleRoot, store: Store, l: Layout,
                                      fanout: seq<byte>, meta: seq<byte>, f: nat)
    requires ProperSector(S) && LAYOUT_SIZE + HASH_SIZE <= f <= S && WellTyped(l)
  {
    var b := CompressedSector(S, root, l, fanout + meta)[..f];
    json.unmarshal(meta).Some? &&
    ParseThrough(S, json, store, b) == Ok(Parsed(l, fanout, json.unmarshal(meta).value, meta, None))
  }

  /** The last fanout has its predicted size. */
  lemma LastFanoutSize(S: nat, root: MerkleRoot, payload: seq<byte>)
    requires ValidSector(S) && LAYOUT_SIZE + HASH_SIZE <= S < LAYOUT_SIZE + |payload|
    ensures |LastFanout(S, root, payload)| == HASH_SIZE * UsedHashes(S, |payload|, S - LAYOUT_SIZE)
  {
    Ends(S, root, payload, S - LAYOUT_SIZE);
    hide Level, ExtensionDepth;
    LevelBytesClosed(S, |payload|, ExtensionDepth(S, |payload|, S - LAYOUT_SIZE) - 1);
  }

  /** The prefix holds the last fanout, and the spans of the whole payload fit the tree. */
  predicate Readable(S: nat, n: nat, f: nat)
    requires ValidSector(S) && LAYOUT_SIZE + HASH_SIZE <= f <= S
  {
    && LAYOUT_SIZE + HASH_SIZE * UsedHashes(S, n, S - LAYOUT_SIZE) <= f
    && SpansFit(S, n, f - LAYOUT_SIZE, f - LAYOUT_SIZE, 0)
  }

  /** If the sizes are readable, the payload is parsed back. */
  lemma ReadableParses<M(!new)>(S: nat, json: Metadata<M>, root: MerkleRoot, store: Store, l: Layout,
                                fanout: seq<byte>, meta: seq<byte>, f: nat)
    requires ProperSector(S) && LAYOUT_SIZE + HASH_SIZE <= f <= S
    requires IsCompressed(S, json, root, store, l, fanout, meta) && Readable(S, |fanout + meta|, f)
    ensures ParsesBack(S, json, root, store, l, fanout, meta, f)
  {
    hide Uploaded, SpansFit, CompressedSector, LastFanout, UsedHashes, ParseThrough;
    LastFanoutSize(S, root, fanout + meta);
    CompressedRoundTrip(S, json, root, store, l, fanout, meta, f);
  }

  /** If the payload's first hash stands for a sector, the sector does not begin with that hash, its own
      root. */
  predicate NoFixedRoot(store: Store, payload: seq<byte>)
    requires |payload| >= HASH_SIZE
  {
    var h := payload[..HASH_SIZE];
    h != Zeros(HASH_SIZE) && h in store ==> |store[h]| >= HASH_SIZE && store[h][..HASH_SIZE] != h
  }

  /** If the prefix does not hold the last fanout, the payload is not parsed back. */
  lemma ShortPrefixFails<M(!new)>(S: nat, json: Metadata<M>, root: MerkleRoot, store: Store, l: Layout,
                                  fanout: seq<byte>, meta: seq<byte>, f: nat)
    requires ProperSector(S) && LAYOUT_SIZE + HASH_SIZE <= f <= S
    requires IsCompressed(S, json, root, store, l, fanout, meta) && NoFixedRoot(store, fanout + meta)
    requires f < LAYOUT_SIZE + |LastFanout(S, root, fanout + meta)|
    ensures !ParsesBack(S, json, root, store, l, fanout, meta, f)
  {
    hide Uploaded, CompressedSector, LastFanout, ParseThrough, Zeros;
    ShortPrefixParse(S, json, root, store, l, fanout, meta, f);
  }

  /** If the prefix holds the last fanout but the spans do not fit, the download fails for every payload. */
  lemma OverrunFails<M(!new)>(S: nat, json: Metadata<M>, root: MerkleRoot, store: Store, l: Layout,
                              fanout: seq<byte>, meta: seq<byte>, f: nat)
    requires ProperSector(S) && LAYOUT_SIZE + HASH_SIZE <= f <= S
    requires IsCompressed(S, json, root, store, l, fanout, meta) && !Readable(S, |fanout + meta|, f)
    requires LAYOUT_SIZE + HASH_SIZE * UsedHashes(S, |fanout + meta|, S - LAYOUT_SIZE) <= f
    ensures ParseThrough(S, json, store, CompressedSector(S, root, l, fanout + meta)[..f]) == Err(DownloadFailed)
  {
    hide Uploaded, SpansFit, CompressedSector, LastFanout, UsedHashes, ParseThrough;
    LastFanoutSize(S, root, fanout + meta);
    CompressedRoundTrip(S, json, root, store, l, fanout, meta, f);
  }

  /** A compressed base sector is parsed back from its first f bytes if and only if those hold the last fanout
      and the spans of the whole payload fit the tree. */
  lemma ParsesBackIff<M(!new)>(S: nat, json: Metadata<M>, root: MerkleRoot, store: Store, l: Layout,
                               fanout: seq<byte>, meta: seq<byte>, f: nat)
    requires ProperSector(S) && LAYOUT_SIZE + HASH_SIZE <= f <= S
    requires IsCompressed(S, json, root, store, l, fanout, meta) && NoFixedRoot(store, fanout + meta)
    ensures ParsesBack(S, json, root, store, l, fanout, meta, f) <==> Readable(S, |fanout + meta|, f)
  {
    hide Uploaded, SpansFit, CompressedSector, LastFanout, UsedHashes, ParseThrough, NoFixedRoot;
    LastFanoutSize(S, root, fanout + meta);
    if Readable(S, |fanout + meta|, f) {
      ReadableParses(S, json, root, store, l, fanout, meta, f);
    } else if f < LAYOUT_SIZE + |LastFanout(S, root, fanout + meta)| {
      ShortPrefixFails(S, json, root, store, l, fanout, meta, f);
    } else {
      OverrunFails(S, json, root, store, l, fanout, meta, f);
    }
  }

  /** Unlike the metadata of a sector that holds everything, the metadata of a compressed base sector is not
      checked: whatever can be unmarshalled is returned, and it is valid if and only if it was. */
  lemma MetadataValidIff<M(!new)>(S: nat, json: Metadata<M>, root: MerkleRoot, store: Store, l: Layout,
                                  fanout: seq<byte>, meta: seq<byte>, f: nat)
    requires ProperSector(S) && LAYOUT_SIZE + HASH_SIZE <= f <= S
    requires IsCompressed(S, json, root, store, l, fanout, meta) && Readable(S, |fanout + meta|, f)
    ensures var r := ParseThrough(S, json, store, CompressedSector(S, root, l, fanout + meta)[..f]);
            r.Ok? && (json.valid(r.value.metadata) <==> json.valid(json.unmarshal(meta).value))
  {
    hide Uploaded, Readable, CompressedSector, ParseThrough;
    ReadableParses(S, json, root, store, l, fanout, meta, f);
  }

  lemma OneChunkReadable(n: nat)
    requires 4096 - LAYOUT_SIZE < n && NumChunks(n, 4096) == 1
    ensures ExtensionDepth(4096, n, 4096 - LAYOUT_SIZE) == 1
    ensures Readable(4096, n, 4096)
  {
    hide NumChunks, ExtensionDepth, SpansFit;
    var room := 4096 - LAYOUT_SIZE;
    assert LevelBytes(4096, n, 1) == HASH_SIZE;
    DepthUnique(4096, n, room, 1);
    DepthOneIsFull(4096, n, room);
    FullTreeFits(4096, n, room, room);
    hide LevelBytes;
    assert Pow(HashesPerSector(4096), 0) == 1;
  }

  lemma OneChunkUploaded(S: nat, root: MerkleRoot, store: Store, payload: seq<byte>)
    requires ValidSector(S) && NumChunks(|payload|, S) == 1 && IsStored(root, store, ChunkOf(S, payload, 0))
    ensures Uploaded(S, root, store, payload, 1)
  {
    hide NumChunks, ChunkOf, IsStored;
    assert Level(S, root, payload, 0) == payload;
  }

  /** An upload of 4000 bytes of metadata that comes back although its metadata is not valid. */
  lemma SomeInvalidMetadataIsParsed()
    returns (json: Metadata<bool>, root: MerkleRoot, store: Store, l: Layout, meta: seq<byte>)
    ensures IsCompressed(4096, json, root, store, l, [], meta)
    ensures var r := ParseThrough(4096, json, store, CompressedSector(4096, root, l, meta));
            r.Ok? && r.value.raw == meta && !json.valid(r.value.metadata)
  {
    hide NumChunks, ExtensionDepth, ChunkOf, ParseThrough, Readable, CompressedSector, Uploaded;
    var one: Hash := seq(HASH_SIZE, _ => 1);
    json, root, meta := Metadata(_ => Some(false), ok => ok), _ => one, Zeros(4000);
    l := Layout(1, 0, 4000, 0, 0, 0, Zeros(CIPHER_TYPE_SIZE), Zeros(KEY_DATA_SIZE));
    NumChunksUnique(4000, 4096, 1);
    store := map[one := ChunkOf(4096, meta, 0)];
    assert one[0] != Zeros(HASH_SIZE)[0];
    OneChunkUploaded(4096, root, store, meta);
    OneChunkReadable(4000);
    assert [] + meta == meta;
    ReadableParses(4096, json, root, store, l, [], meta, 4096);
    var b := CompressedSector(4096, root, l, meta);
    assert b[..4096] == b;
  }

  /** A payload of 64 MB above sectors of 4096 bytes: no upload of this size can be parsed back, although
      the whole base sector is at hand. */
  lemma SomeUploadIsLost<M(!new)>(json: Metadata<M>, root: MerkleRoot, store: Store, l: Layout, fanout: seq<byte>,
                                  meta: seq<byte>)
    requires IsCompressed(4096, json, root, store, l, fanout, meta)
    requires |fanout + meta| == (123 * 128 + 1) * 4096
    ensures ParseThrough(4096, json, store, CompressedSector(4096, root, l, fanout + meta)) == Err(DownloadFailed)
  {
    hide Uploaded, SpansFit, CompressedSector, LastFanout, UsedHashes, ParseThrough, ExtensionDepth;
    SomeSpansDoNotFit();
    LastFanoutSize(4096, root, fanout + meta);
    CompressedRoundTrip(4096, json, root, store, l, fanout, meta, 4096);
    var b := CompressedSector(4096, root, l, fanout + meta);
    assert b[..4096] == b;
  }
}
