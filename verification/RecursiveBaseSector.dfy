/** Parsing a base sector whose fanout and metadata were compressed: the payload is downloaded level
    by level from the hashes behind the layout. */
module RecursiveBaseSector {
  import opened Bytes
  import opened BaseSector
  import opened BaseSectorExtension
  import opened ExtensionRead
  import opened ExtensionTree
  import opened ExtensionWhole
  import opened SkyfileLayout

  type Store = map<Hash, seq<byte>>

  // ----- Downloading the levels ------------------------------------------------------------

  lemma DownloadNext(store: Store, hashes: seq<byte>, lo: int, hi: int)
    requires lo <= hi
    ensures Download(store, hashes, lo, hi) ==
            if lo < 0 || HASH_SIZE * lo + HASH_SIZE > |hashes| then None
            else
              var root := hashes[HASH_SIZE * lo..HASH_SIZE * lo + HASH_SIZE];
              if root == Zeros(HASH_SIZE) then Some([])
              else if root !in store then None
              else
                match Download(store, hashes, lo + 1, hi)
                case None => None
                case Some(rest) => Some(store[root] + rest)
  {
  }

  /** What is missing of a span after the sectors already fetched. */
  function Prepend(done: seq<byte>, rest: Option<seq<byte>>): Option<seq<byte>> {
    match rest
    case None => None
    case Some(bytes) => Some(done + bytes)
  }

  /** The loop over one span. */
  method DownloadSpan(store: Store, hashes: seq<byte>, span: ChunkSpan) returns (sectors: Option<seq<byte>>)
    ensures sectors == Download(store, hashes, span.minIndex, span.maxIndex)
  {
    hide Download, Zeros;
    var joined: seq<byte> := [];
    var chunkIndex := span.minIndex;
    DownloadNothing(store, hashes, span.minIndex, span.maxIndex);
    while chunkIndex <= span.maxIndex
      invariant span.minIndex <= chunkIndex
      invariant span.minIndex <= span.maxIndex ==> chunkIndex <= span.maxIndex + 1
      invariant Download(store, hashes, span.minIndex, span.maxIndex) ==
                Prepend(joined, Download(store, hashes, chunkIndex, span.maxIndex))
      decreases span.maxIndex + 1 - chunkIndex
    {
      DownloadNext(store, hashes, chunkIndex, span.maxIndex);
      if chunkIndex < 0 || HASH_SIZE * chunkIndex + HASH_SIZE > |hashes| {
        return None;
      }
      var root := hashes[HASH_SIZE * chunkIndex..HASH_SIZE * chunkIndex + HASH_SIZE];
      if root == Zeros(HASH_SIZE) {
        assert joined + [] == joined;
        return Some(joined);
      }
      if root !in store {
        return None;
      }
      PrependTwice(joined, store[root], Download(store, hashes, chunkIndex + 1, span.maxIndex));
      joined := joined + store[root];
      chunkIndex := chunkIndex + 1;
    }
    DownloadNothing(store, hashes, chunkIndex, span.maxIndex);
    assert joined + [] == joined;
    return Some(joined);
  }

  lemma PrependTwice(a: seq<byte>, b: seq<byte>, rest: Option<seq<byte>>)
    ensures Prepend(a, Prepend(b, rest)) == Prepend(a + b, rest)
  {
    if rest.Some? {
      PlusAssoc(a, b, rest.value);
    }
  }

  lemma DownloadNothing(store: Store, hashes: seq<byte>, lo: int, hi: int)
    ensures lo > hi ==> Download(store, hashes, lo, hi) == Some([])
    ensures Prepend([], Download(store, hashes, lo, hi)) == Download(store, hashes, lo, hi)
  {
    hide Download;
    var d := Download(store, hashes, lo, hi);
    assert d.Some? ==> [] + d.value == d.value;
    if lo > hi {
      Empty(store, hashes, lo, hi);
    }
  }

  lemma Empty(store: Store, hashes: seq<byte>, lo: int, hi: int)
    requires lo > hi
    ensures Download(store, hashes, lo, hi) == Some([])
  {
  }

  /** The hashes fetched on the way, which are kept for uploading the sector again. */
  function Intermediate(store: Store, hashes: seq<byte>, spans: seq<ChunkSpan>): seq<byte>
    decreases |spans|
  {
    if |spans| <= 1 then []
    else
      match Download(store, hashes, spans[0].minIndex, spans[0].maxIndex)
      case None => []
      case Some(sectors) => sectors + Intermediate(store, sectors, spans[1..])
  }

  lemma IntermediateNext(store: Store, hashes: seq<byte>, spans: seq<ChunkSpan>)
    requires spans != []
    ensures match Download(store, hashes, spans[0].minIndex, spans[0].maxIndex)
            case None => true
            case Some(sectors) =>
              Intermediate(store, hashes, spans) ==
              (if |spans| > 1 then sectors else []) + Intermediate(store, sectors, spans[1..])
  {
    if |spans| == 1 {
      assert Intermediate(store, hashes, spans[1..]) == [];
    }
  }

  /** The loop over the spans. */
  method FollowSpans(store: Store, start: seq<byte>, spans: seq<ChunkSpan>)
    returns (bytes: Option<seq<byte>>, extension: seq<byte>)
    ensures bytes == Follow(store, start, spans)
    ensures bytes.Some? ==> extension == Intermediate(store, start, spans)
  {
    hide Download, Follow, Intermediate;
    var hashes := start;
    extension := [];
    assert spans[0..] == spans;
    assert [] + Intermediate(store, start, spans) == Intermediate(store, start, spans);
    for i := 0 to |spans|
      invariant Follow(store, start, spans) == Follow(store, hashes, spans[i..])
      invariant Intermediate(store, start, spans) == extension + Intermediate(store, hashes, spans[i..])
    {
      FollowNext(store, hashes, spans[i..]);
      IntermediateNext(store, hashes, spans[i..]);
      assert spans[i..][0] == spans[i] && spans[i..][1..] == spans[i + 1..];
      var sectors := DownloadSpan(store, hashes, spans[i]);
      if sectors == None {
        return None, extension;
      }
      var kept := if i < |spans| - 1 then sectors.value else [];
      PlusAssoc(extension, kept, Intermediate(store, sectors.value, spans[i + 1..]));
      hashes := sectors.value;
      extension := extension + kept;
    }
    assert spans[|spans|..] == [];
    NoSpansLeft(store, hashes);
    assert extension + [] == extension;
    bytes := Some(hashes);
  }

  lemma NoSpansLeft(store: Store, hashes: seq<byte>)
    ensures Follow(store, hashes, []) == Some(hashes) && Intermediate(store, hashes, []) == []
  {
  }

  // ----- Parsing ---------------------------------------------------------------------------

  /** The payload's bytes, split into fanout and metadata. */
  function Split<M>(json: Metadata<M>, sl: Layout, n: nat, bytes: seq<byte>): Result<Parsed<M>>
    requires WellTyped(sl)
  {
    if n > |bytes| || sl.fanoutSize > n then Err(SliceOutOfRange)
    else
      match json.unmarshal(bytes[sl.fanoutSize..n])
      case None => Err(BadMetadata)
      case Some(sm) => Ok(Parsed(sl, bytes[..sl.fanoutSize], sm, bytes[sl.fanoutSize..n], None))
  }

  /** Fanout and metadata as one payload, with the wrap-around of the sum. */
  function PayloadSize(l: Layout): nat
    requires WellTyped(l)
  {
    (l.fanoutSize + l.metadataSize) % U64
  }

  /** The search for the size of an extension does not end if there is no room for a hash. */
  predicate SearchEnds<M>(S: nat, json: Metadata<M>, b: seq<byte>)
    requires ProperSector(S) && |b| >= LAYOUT_SIZE
  {
    Parse(S, json, b).Err? && Parse(S, json, b).error == Recursive && PayloadSize(Decoded(b)) > |b| - LAYOUT_SIZE ==>
      |b| >= LAYOUT_SIZE + HASH_SIZE
  }

  /** Parsing through the extension. The slice of hashes may be extended to the end of the base
      sector it was cut from. If the sizes wrap around to something that fits, slicing panics. */
  function ParseThrough<M>(S: nat, json: Metadata<M>, store: Store, b: seq<byte>): Result<Parsed<M>>
    requires ProperSector(S) && |b| >= LAYOUT_SIZE && SearchEnds(S, json, b)
  {
    match Parse(S, json, b)
    case Ok(p) => Ok(p)
    case Err(e) =>
      var sl, maxSize := Decoded(b), |b| - LAYOUT_SIZE;
      var n := PayloadSize(sl);
      if e != Recursive then Err(e)
      else if n <= maxSize then Err(SliceOutOfRange)
      else
        match Follow(store, b[LAYOUT_SIZE..], Spans(S, n, maxSize, 0, n))
        case None => Err(DownloadFailed)
        case Some(bytes) => Split(json, sl, n, bytes)
  }

  /** Renter.ParseSkyfileMetadata. */
  method ParseSkyfileMetadata<M>(S: nat, json: Metadata<M>, store: Store, b: seq<byte>)
    returns (r: Result<Parsed<M>>, extension: seq<byte>)
    requires ProperSector(S) && |b| >= LAYOUT_SIZE && SearchEnds(S, json, b)
    ensures r == ParseThrough(S, json, store, b)
    ensures r.Ok? && Parse(S, json, b).Err? ==>
              var n := PayloadSize(Decoded(b));
              && r.value.layout == Decoded(b)
              && n > |b| - LAYOUT_SIZE
              && extension == Intermediate(store, b[LAYOUT_SIZE..], Spans(S, n, |b| - LAYOUT_SIZE, 0, n))
                           + r.value.fanout + r.value.raw
  {
    hide Parse, Decoded, Spans, Follow, Intermediate;
    var regular := Parse(S, json, b);
    if regular.Ok? || regular.error != Recursive {
      return regular, [];
    }
    var sl := Decode(b);
    var payloadSize := PayloadSize(sl);
    var maxSize := |b| - LAYOUT_SIZE;
    var translatedOffset, chunkSpans := TranslateBaseSectorExtensionOffset(S, 0, payloadSize, payloadSize, maxSize);
    if payloadSize <= maxSize {
      return Err(SliceOutOfRange), [];
    }
    var bytes;
    bytes, extension := FollowSpans(store, b[LAYOUT_SIZE..], chunkSpans);
    if bytes == None {
      return Err(DownloadFailed), [];
    }
    if translatedOffset + payloadSize > |bytes.value| || sl.fanoutSize > payloadSize {
      return Err(SliceOutOfRange), [];
    }
    var hashes := bytes.value[translatedOffset..][..payloadSize];
    PayloadParts(bytes.value, sl.fanoutSize, payloadSize);
    PlusAssoc(extension, hashes[..sl.fanoutSize], hashes[sl.fanoutSize..]);
    extension := extension + hashes;
    var sm := json.unmarshal(hashes[sl.fanoutSize..]);
    if sm == None {
      return Err(BadMetadata), [];
    }
    r := Ok(Parsed(sl, hashes[..sl.fanoutSize], sm.value, hashes[sl.fanoutSize..], None));
  }

  lemma PayloadParts(bytes: seq<byte>, fanoutSize: nat, n: nat)
    requires fanoutSize <= n <= |bytes|
    ensures var hashes := bytes[0..][..n];
            && hashes[..fanoutSize] == bytes[..fanoutSize] && hashes[fanoutSize..] == bytes[fanoutSize..n]
            && hashes == hashes[..fanoutSize] + hashes[fanoutSize..]
  {
  }

  // ----- Round trip ------------------------------------------------------------------------

  /** A prefix that holds the last fanout gives the parser the builder's depth. */
  lemma DepthOfPrefix(S: nat, n: nat, size: nat, maxSize: nat)
    requires ValidSector(S) && HASH_SIZE <= maxSize <= size && n > size
    requires LevelBytes(S, n, ExtensionDepth(S, n, size)) <= maxSize
    ensures ExtensionDepth(S, n, maxSize) == ExtensionDepth(S, n, size)
  {
    hide LevelBytes, ExtensionDepth;
    DepthIsFirstFit(S, n, size);
    DepthUnique(S, n, maxSize, ExtensionDepth(S, n, size));
  }

  /** The compressed base sector up to byte f. */
  lemma CompressedPrefix(layout: seq<byte>, part: seq<byte>, S: nat, f: nat)
    requires |layout| + |part| <= f <= S
    ensures var b := (layout + part + Zeros(S - |layout| - |part|))[..f];
            b == layout + (part + Zeros(f - |layout| - |part|))
            && b[|layout|..] == part + Zeros(f - |layout| - |part|)
  {
    var b, c := (layout + part + Zeros(S - |layout| - |part|))[..f], layout + (part + Zeros(f - |layout| - |part|));
    assert |b| == |c| && forall k :: 0 <= k < f ==> b[k] == c[k];
  }

  lemma SplitPadded<M>(json: Metadata<M>, sl: Layout, S: nat, fanout: seq<byte>, meta: seq<byte>)
    requires S > 0 && WellTyped(sl) && sl.fanoutSize == |fanout| && json.unmarshal(meta).Some?
    ensures Split(json, sl, |fanout + meta|, Padded(S, fanout + meta))
            == Ok(Parsed(sl, fanout, json.unmarshal(meta).value, meta, None))
  {
    var p := Padded(S, fanout + meta);
    assert p[..|fanout + meta|] == fanout + meta;
    assert p[..|fanout|] == fanout && p[|fanout|..|fanout + meta|] == meta;
  }

  lemma DoesNotFit<M>(S: nat, json: Metadata<M>, b: seq<byte>)
    requires ProperSector(S) && |b| >= LAYOUT_SIZE
    requires var l := Decoded(b); l.version == 1 && |b| < LAYOUT_SIZE + l.fanoutSize + l.metadataSize < U64
    ensures Parse(S, json, b) == Err(Recursive)
  {
    hide Decoded;
  }

  /** What is parsed without the extension has valid metadata. */
  lemma ParsedDirectly<M>(S: nat, json: Metadata<M>, store: Store, b: seq<byte>)
    requires ProperSector(S) && |b| >= LAYOUT_SIZE
    ensures Parse(S, json, b).Ok? ==> json.valid(Parse(S, json, b).value.metadata)
    ensures Parse(S, json, b).Ok? || Parse(S, json, b).error != Recursive ==>
              SearchEnds(S, json, b) && ParseThrough(S, json, store, b) == Parse(S, json, b)
  {
    hide Decoded, Follow, Spans, Split;
  }

  /** The last part of parsing through the extension. */
  lemma ParseThroughIs<M>(S: nat, json: Metadata<M>, store: Store, b: seq<byte>, l: Layout, n: nat)
    requires ProperSector(S) && |b| >= LAYOUT_SIZE + HASH_SIZE && Decoded(b) == l && Parse(S, json, b) == Err(Recursive)
    requires |b| - LAYOUT_SIZE < n == l.fanoutSize + l.metadataSize < U64
    ensures ParseThrough(S, json, store, b) ==
            match Follow(store, b[LAYOUT_SIZE..], Spans(S, n, |b| - LAYOUT_SIZE, 0, n))
            case None => Err(DownloadFailed)
            case Some(bytes) => Split(json, l, n, bytes)
  {
    hide Parse, Decoded, Follow, Spans, Split;
  }

  /** A layout with its fanout and metadata that do not fit one sector, and a store with the chunks of all
      levels of their compression. */
  ghost predicate IsCompressed<M(!new)>(S: nat, json: Metadata<M>, root: MerkleRoot, store: Store, l: Layout,
                                        fanout: seq<byte>, meta: seq<byte>)
    requires ProperSector(S) && LAYOUT_SIZE + HASH_SIZE <= S
  {
    && WellTyped(l) && l.version == 1
    && l.fanoutSize == |fanout| && l.metadataSize == |meta| && json.unmarshal(meta).Some?
    && S < LAYOUT_SIZE + |fanout + meta| < U64
    && Uploaded(S, root, store, fanout + meta, ExtensionDepth(S, |fanout + meta|, S - LAYOUT_SIZE))
  }

  /** The last fanout of a payload. */
  function LastFanout(S: nat, root: MerkleRoot, payload: seq<byte>): (part: seq<byte>)
    requires ValidSector(S) && LAYOUT_SIZE + HASH_SIZE <= S
    ensures LAYOUT_SIZE + |part| <= S
  {
    DepthIsFirstFit(S, |payload|, S - LAYOUT_SIZE);
    Level(S, root, payload, ExtensionDepth(S, |payload|, S - LAYOUT_SIZE))
  }

  /** The base sector that is built for a compressed payload. */
  function CompressedSector(S: nat, root: MerkleRoot, l: Layout, payload: seq<byte>): (b: seq<byte>)
    requires ValidSector(S) && LAYOUT_SIZE + HASH_SIZE <= S && WellTyped(l)
    ensures |b| == S
  {
    var part := LastFanout(S, root, payload);
    Encoding(l) + part + Zeros(S - LAYOUT_SIZE - |part|)
  }

  /** A base sector that was too small for fanout and metadata is parsed back from any prefix with
      its last fanout if and only if the spans of the whole payload fit the tree. */
  lemma CompressedRoundTrip<M(!new)>(S: nat, json: Metadata<M>, root: MerkleRoot, store: Store, l: Layout,
                                     fanout: seq<byte>, meta: seq<byte>, f: nat)
    requires ProperSector(S) && LAYOUT_SIZE + HASH_SIZE <= f <= S
    requires IsCompressed(S, json, root, store, l, fanout, meta)
    requires LAYOUT_SIZE + |LastFanout(S, root, fanout + meta)| <= f
    ensures ParseThrough(S, json, store, CompressedSector(S, root, l, fanout + meta)[..f]) ==
            if SpansFit(S, |fanout + meta|, f - LAYOUT_SIZE, f - LAYOUT_SIZE, 0)
            then Ok(Parsed(l, fanout, json.unmarshal(meta).value, meta, None)) else Err(DownloadFailed)
  {
    hide Encoding, Decoded, Zeros, Level, LevelBytes, ExtensionDepth, Follow, Spans, SpansFit, Padded, Split, Uploaded,
      Parse, ParseThrough;
    var payload := fanout + meta;
    var n, room := |payload|, f - LAYOUT_SIZE;
    var part := LastFanout(S, root, payload);
    var b := CompressedSector(S, root, l, payload)[..f];
    CompressedPrefix(Encoding(l), part, S, f);
    DecodeEncoded(l, part + Zeros(room - |part|));
    DepthOfPrefix(S, n, S - LAYOUT_SIZE, room);
    DoesNotFit(S, json, b);
    ParseThroughIs(S, json, store, b, l, n);
    WholePayloadReads(S, root, store, payload, room, room);
    SplitPadded(json, l, S, fanout, meta);
  }

  /** The padded fanouts from level k down to level 1. */
  ghost function Fanouts(S: nat, root: MerkleRoot, payload: seq<byte>, k: nat): seq<byte>
    requires ValidSector(S)
  {
    if k == 0 then [] else Padded(S, Level(S, root, payload, k)) + Fanouts(S, root, payload, k - 1)
  }

  /** On the way the parser fetches exactly the padded fanouts that were uploaded. */
  lemma {:induction false} IntermediateFanouts(S: nat, root: MerkleRoot, store: Store, payload: seq<byte>, maxSize: nat,
                                               room: nat, j: nat, hashes: seq<byte>)
    requires ValidSector(S) && maxSize >= HASH_SIZE && |payload| > maxSize
    requires j < ExtensionDepth(S, |payload|, maxSize)
    requires Uploaded(S, root, store, payload, ExtensionDepth(S, |payload|, maxSize))
    requires Holds(S, root, payload, ExtensionDepth(S, |payload|, maxSize), room, j, hashes)
    requires SpansFit(S, |payload|, maxSize, room, j)
    ensures Intermediate(store, hashes, Spans(S, |payload|, maxSize, 0, |payload|)[j..])
            == Fanouts(S, root, payload, ExtensionDepth(S, |payload|, maxSize) - 1 - j)
    decreases ExtensionDepth(S, |payload|, maxSize) - j
  {
    hide Download, Spans, SpanAt, Uploaded, SpansFit, SpanFits, Padded, Zeros, ExtensionDepth, Level, LevelBytes,
      Intermediate;
    var n, d := |payload|, ExtensionDepth(S, |payload|, maxSize);
    var spans := Spans(S, n, maxSize, 0, n);
    DownloadLevel(S, root, store, payload, maxSize, room, j, hashes);
    NextSpan(S, n, maxSize, room, j);
    IntermediateNext(store, hashes, spans[j..]);
    var sectors := Padded(S, Level(S, root, payload, d - 1 - j));
    if j + 1 < d {
      IntermediateFanouts(S, root, store, payload, maxSize, room, j + 1, sectors);
    } else {
      NoSpansLeft(store, sectors);
      assert spans[j + 1..] == [];
    }
  }

  lemma FetchedFanouts(S: nat, root: MerkleRoot, store: Store, payload: seq<byte>, maxSize: nat, room: nat)
    requires ValidSector(S) && maxSize >= HASH_SIZE && |payload| > maxSize && SpansFit(S, |payload|, maxSize, room, 0)
    requires room >= |Level(S, root, payload, ExtensionDepth(S, |payload|, maxSize))|
    requires Uploaded(S, root, store, payload, ExtensionDepth(S, |payload|, maxSize))
    ensures ExtensionDepth(S, |payload|, maxSize) >= 1
    ensures var part := Level(S, root, payload, ExtensionDepth(S, |payload|, maxSize));
            Intermediate(store, part + Zeros(room - |part|), Spans(S, |payload|, maxSize, 0, |payload|))
            == Fanouts(S, root, payload, ExtensionDepth(S, |payload|, maxSize) - 1)
  {
    hide Spans, Intermediate, SpansFit, Level, Uploaded, Zeros, ExtensionDepth, Fanouts;
    Ends(S, root, payload, maxSize);
    var part := Level(S, root, payload, ExtensionDepth(S, |payload|, maxSize));
    IntermediateFanouts(S, root, store, payload, maxSize, room, 0, part + Zeros(room - |part|));
    assert Spans(S, |payload|, maxSize, 0, |payload|)[0..] == Spans(S, |payload|, maxSize, 0, |payload|);
  }
}
