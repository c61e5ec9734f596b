/** A base sector, the skylink made for it, and the prefix that a download of that skylink sees. */
module BaseSectorLink {
  import opened Arith
  import opened Bytes
  import opened BaseSector
  import opened BaseSectorExtension
  import opened CompressedParse
  import opened ExtensionCorrect
  import opened ExtensionRead
  import opened ExtensionTree
  import opened ExtensionWhole
  import opened RecursiveBaseSector
  import opened SkyfileLayout
  import Link = SkylinkBitfield

  /** A production sector, which is also the largest fetch size. */
  const SECTOR_SIZE := Link.MAX_FETCH_SIZE

  /** The room behind the layout for hashes. */
  const ROOM := SECTOR_SIZE - LAYOUT_SIZE

  lemma SmallestFetchSize(len: nat)
    ensures Link.RoundUp(len) >= 4096
  {
    hide Link.ModeOf, Link.FetchIndex;
    var m := Link.ModeOf(len, 0);
    var f := Link.FetchIndex(len, m);
    MulMono(1, f + 1, Link.FetchAlign(m));
    assert Link.FetchAlign(m) * (f + 1) == (f + 1) * Link.FetchAlign(m);
    if m > 0 {
      MulMono(1, Pow2(m - 1), 4096);
    }
  }

  /** A skylink to the first `size` bytes of a sector gives a window from its start that holds them. */
  lemma WindowHolds(size: nat)
    requires 1 <= size <= SECTOR_SIZE
    ensures Link.EncodeBitfield(0, size).Some?
    ensures Link.ParseV1(Link.EncodeBitfield(0, size).value) == (Link.Window(0, Link.RoundUp(size)), None)
    ensures size <= Link.RoundUp(size) <= SECTOR_SIZE && Link.RoundUp(size) >= 4096
  {
    hide Link.EncodeBitfield, Link.ParseV1, Link.RoundUp, Link.ModeOf;
    SmallestFetchSize(size);
    var a := Link.OffsetAlign(Link.ModeOf(size, 0));
    DivUnique(0, a, 0);
    DivBounds(0, a);
    Link.EncodeThenParse(0, size);
    Link.RoundUpIsLeast(size, 0);
  }

  /** The bytes that are fetched for the skylink of a base sector with a compressed payload of n bytes. */
  function Fetched(n: nat): (f: nat)
    requires n > ROOM
    ensures LAYOUT_SIZE + ExtensionDepth(SECTOR_SIZE, n, ROOM) <= SECTOR_SIZE ==>
              LAYOUT_SIZE + HASH_SIZE <= f <= SECTOR_SIZE
  {
    var size := LAYOUT_SIZE + ExtensionDepth(SECTOR_SIZE, n, ROOM);
    if size <= SECTOR_SIZE then WindowHolds(size); Link.RoundUp(size) else 0
  }

  predicate HoldsLastFanout(n: nat)
    requires n > ROOM
  {
    LAYOUT_SIZE + HASH_SIZE * UsedHashes(SECTOR_SIZE, n, ROOM) <= Fetched(n)
  }

  /** The first hash of the payload is zero or not that of a stored sector. */
  predicate LeadsNowhere(store: Store, payload: seq<byte>)
    requires |payload| >= HASH_SIZE
  {
    payload[..HASH_SIZE] == Zeros(HASH_SIZE) || payload[..HASH_SIZE] !in store
  }

  /** Build the base sector, make a version 1 skylink for the returned size, fetch what the skylink
      covers, and parse it. */
  method UploadThenParse<M(!new)>(json: Metadata<M>, root: MerkleRoot, store: Store, l: Layout,
                                  fanout: seq<byte>, meta: seq<byte>, file: Option<seq<byte>>)
    returns (r: Option<Result<Parsed<M>>>)
    requires Consistent(json, l, fanout, meta, file) && LAYOUT_SIZE + |fanout + meta| < U64
    requires Uploaded(SECTOR_SIZE, root, store, fanout + meta, ExtensionDepth(SECTOR_SIZE, |fanout + meta|, ROOM))
    ensures TotalSize(Encoding(l), fanout, meta, file) <= SECTOR_SIZE ==>
              r == Some(PartsParsed(json, l, fanout, meta, file))
    ensures TotalSize(Encoding(l), fanout, meta, file) > SECTOR_SIZE && file.Some? ==> r == None
    ensures TotalSize(Encoding(l), fanout, meta, file) > SECTOR_SIZE && file.None?
            && LAYOUT_SIZE + ExtensionDepth(SECTOR_SIZE, |fanout + meta|, ROOM) <= SECTOR_SIZE ==>
              var n := |fanout + meta|;
              && r.Some?
              && (Readable(SECTOR_SIZE, n, Fetched(n)) ==>
                    r.value == Ok(Parsed(l, fanout, json.unmarshal(meta).value, meta, None)))
              && (!Readable(SECTOR_SIZE, n, Fetched(n)) && HoldsLastFanout(n) ==> r.value == Err(DownloadFailed))
              && (!HoldsLastFanout(n) && LeadsNowhere(store, fanout + meta) ==> r.value.Err?)
              && (!Readable(SECTOR_SIZE, n, Fetched(n)) && NoFixedRoot(store, fanout + meta) ==>
                    r.value != Ok(Parsed(l, fanout, json.unmarshal(meta).value, meta, None)))
  {
    hide Encoding, Zeros, Level, ExtensionDepth, UsedHashes, Uploaded, SpansFit, Parse, ParseThrough, Readable,
      LastFanout, Link.EncodeBitfield, Link.ParseV1, Link.RoundUp;
    var layout := Encode(l);
    var baseSector, size, uploadPart := BuildBaseSector(SECTOR_SIZE, root, layout[..], fanout, meta, file);
    if baseSector == None || size > SECTOR_SIZE {
      return None;
    }
    WindowHolds(size);
    var bitfield := Link.EncodeBitfield(0, size);
    var window := Link.ParseV1(bitfield.value).0;
    var fetched := baseSector.value[window.offset..window.offset + window.fetchSize];
    assert fetched == baseSector.value[..][..window.fetchSize];
    if TotalSize(Encoding(l), fanout, meta, file) <= SECTOR_SIZE {
      FittingRoundTrip(SECTOR_SIZE, json, l, fanout, meta, file, window.fetchSize);
      ParsedDirectly(SECTOR_SIZE, json, store, fetched);
    } else {
      LastFanoutIs(root, fanout + meta);
      assert fetched == CompressedSector(SECTOR_SIZE, root, l, fanout + meta)[..window.fetchSize];
      FetchedParse(json, root, store, l, fanout, meta);
    }
    var parsed, _ := ParseSkyfileMetadata(SECTOR_SIZE, json, store, fetched);
    r := Some(parsed);
  }

  lemma LastFanoutIs(root: MerkleRoot, payload: seq<byte>)
    ensures LastFanout(SECTOR_SIZE, root, payload)
            == Level(SECTOR_SIZE, root, payload, ExtensionDepth(SECTOR_SIZE, |payload|, ROOM))
  {
    hide Level, ExtensionDepth;
  }

  /** What comes of the fetched bytes. */
  lemma FetchedParse<M(!new)>(json: Metadata<M>, root: MerkleRoot, store: Store, l: Layout, fanout: seq<byte>,
                              meta: seq<byte>)
    requires IsCompressed(SECTOR_SIZE, json, root, store, l, fanout, meta)
    requires LAYOUT_SIZE + ExtensionDepth(SECTOR_SIZE, |fanout + meta|, ROOM) <= SECTOR_SIZE
    ensures var n := |fanout + meta|;
            var r := ParseThrough(SECTOR_SIZE, json, store,
                                  CompressedSector(SECTOR_SIZE, root, l, fanout + meta)[..Fetched(n)]);
            && (Readable(SECTOR_SIZE, n, Fetched(n)) ==>
                  r == Ok(Parsed(l, fanout, json.unmarshal(meta).value, meta, None)))
            && (!Readable(SECTOR_SIZE, n, Fetched(n)) && HoldsLastFanout(n) ==> r == Err(DownloadFailed))
            && (!HoldsLastFanout(n) && LeadsNowhere(store, fanout + meta) ==> r.Err?)
            && (!Readable(SECTOR_SIZE, n, Fetched(n)) && NoFixedRoot(store, fanout + meta) ==>
                  r != Ok(Parsed(l, fanout, json.unmarshal(meta).value, meta, None)))
  {
    hide Uploaded, SpansFit, CompressedSector, ParseThrough, Fetched, ExtensionDepth, Zeros, UsedHashes, NoFixedRoot,
      LastFanout;
    var n := |fanout + meta|;
    LastFanoutSize(SECTOR_SIZE, root, fanout + meta);
    if Readable(SECTOR_SIZE, n, Fetched(n)) {
      ReadableParses(SECTOR_SIZE, json, root, store, l, fanout, meta, Fetched(n));
    } else {
      if HoldsLastFanout(n) {
        OverrunFails(SECTOR_SIZE, json, root, store, l, fanout, meta, Fetched(n));
      } else {
        ShortPrefixParse(SECTOR_SIZE, json, root, store, l, fanout, meta, Fetched(n));
      }
      if NoFixedRoot(store, fanout + meta) {
        ParsesBackIff(SECTOR_SIZE, json, root, store, l, fanout, meta, Fetched(n));
      }
    }
  }

  /** A compressed upload comes back through its skylink if and only if the fetched bytes hold the last fanout
      and the spans of the whole payload fit the tree. */
  lemma LinkedParsesBackIff<M(!new)>(json: Metadata<M>, root: MerkleRoot, store: Store, l: Layout, fanout: seq<byte>,
                                     meta: seq<byte>)
    requires IsCompressed(SECTOR_SIZE, json, root, store, l, fanout, meta) && NoFixedRoot(store, fanout + meta)
    requires LAYOUT_SIZE + ExtensionDepth(SECTOR_SIZE, |fanout + meta|, ROOM) <= SECTOR_SIZE
    ensures var n := |fanout + meta|;
            ParsesBack(SECTOR_SIZE, json, root, store, l, fanout, meta, Fetched(n))
            <==> Readable(SECTOR_SIZE, n, Fetched(n))
  {
    hide Uploaded, Readable, ParsesBack, Fetched, ExtensionDepth, NoFixedRoot;
    ParsesBackIff(SECTOR_SIZE, json, root, store, l, fanout, meta, Fetched(|fanout + meta|));
  }

  // ----- Trees of one level ----------------------------------------------------------------

  /** The roots of the payload's sectors fit behind the layout: up to 131068 sectors, about 512 GiB. */
  predicate OneLevel(n: nat) {
    ROOM < n && HASH_SIZE * NumChunks(n, SECTOR_SIZE) <= ROOM
  }

  lemma DepthOfOneLevel(n: nat, room: nat)
    requires OneLevel(n) && HASH_SIZE * NumChunks(n, SECTOR_SIZE) <= room <= ROOM
    requires room >= HASH_SIZE
    ensures ExtensionDepth(SECTOR_SIZE, n, room) == 1 && UsedHashes(SECTOR_SIZE, n, room) == NumChunks(n, SECTOR_SIZE)
  {
    hide NumChunks, ExtensionDepth;
    assert LevelBytes(SECTOR_SIZE, n, 1) == HASH_SIZE * NumChunks(n, SECTOR_SIZE);
    DepthUnique(SECTOR_SIZE, n, room, 1);
    ReachOfChunk();
  }

  lemma ReachOfChunk()
    ensures Reach(SECTOR_SIZE, 0) == SECTOR_SIZE
  {
    assert Pow(HashesPerSector(SECTOR_SIZE), 0) == 1;
  }

  /** For a tree of one level the skylink always covers 4096 bytes, and these are enough for 124 sectors. */
  lemma OneLevelReadable(n: nat)
    requires OneLevel(n)
    ensures ExtensionDepth(SECTOR_SIZE, n, ROOM) == 1 && Fetched(n) == 4096
    ensures Readable(SECTOR_SIZE, n, 4096) <==> n <= 124 * SECTOR_SIZE
  {
    hide NumChunks, ExtensionDepth, UsedHashes, SpansFit;
    DepthOfOneLevel(n, ROOM);
    FetchedForOne();
    NumChunksLeast(n, SECTOR_SIZE, 124);
    if n <= 124 * SECTOR_SIZE {
      DepthOfOneLevel(n, 4096 - LAYOUT_SIZE);
      DepthOneIsFull(SECTOR_SIZE, n, 4096 - LAYOUT_SIZE);
      FullTreeFits(SECTOR_SIZE, n, 4096 - LAYOUT_SIZE, 4096 - LAYOUT_SIZE);
    }
  }

  lemma FetchedForOne()
    ensures Link.RoundUp(LAYOUT_SIZE + 1) == 4096
  {
    assert Pow2(0) == 1;
    Link.FetchIndexBounds(LAYOUT_SIZE + 1, 0);
  }

  /** Uploads whose tree has one level come back through their skylinks if and only if
      fanout and metadata have at most 124 sectors. */
  lemma ComesBackIffSmall<M(!new)>(json: Metadata<M>, root: MerkleRoot, store: Store, l: Layout, fanout: seq<byte>,
                                   meta: seq<byte>)
    requires IsCompressed(SECTOR_SIZE, json, root, store, l, fanout, meta) && NoFixedRoot(store, fanout + meta)
    requires OneLevel(|fanout + meta|)
    ensures ParsesBack(SECTOR_SIZE, json, root, store, l, fanout, meta, 4096)
            <==> |fanout + meta| <= 124 * SECTOR_SIZE
  {
    hide Uploaded, Readable, ParsesBack, Fetched, ExtensionDepth, NoFixedRoot, OneLevel;
    OneLevelReadable(|fanout + meta|);
    LinkedParsesBackIff(json, root, store, l, fanout, meta);
  }

  /** The size returned for a compressed base sector counts sectors to upload, so the skylink can cover too
      little: no upload of 125 sectors comes back through its skylink. */
  lemma SomeWindowIsTooShort<M(!new)>(json: Metadata<M>, root: MerkleRoot, store: Store, l: Layout,
                                      fanout: seq<byte>, meta: seq<byte>)
    requires IsCompressed(SECTOR_SIZE, json, root, store, l, fanout, meta) && NoFixedRoot(store, fanout + meta)
    requires |fanout + meta| == 125 * SECTOR_SIZE
    ensures Fetched(125 * SECTOR_SIZE) == 4096
    ensures !ParsesBack(SECTOR_SIZE, json, root, store, l, fanout, meta, 4096)
  {
    hide Uploaded, Readable, ParsesBack, Fetched, ExtensionDepth, NoFixedRoot;
    NumChunksUnique(125 * SECTOR_SIZE, SECTOR_SIZE, 125);
    OneLevelReadable(125 * SECTOR_SIZE);
    ComesBackIffSmall(json, root, store, l, fanout, meta);
  }
}
