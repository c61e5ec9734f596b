/** The base sector of a skyfile: built from its parts, and parsed back from any prefix that holds
    them. */
module BaseSector {
  import opened Arith
  import opened Bytes
  import opened BaseSectorExtension
  import opened ExtensionTree
  import opened SkyfileLayout

  /** A sector is far smaller than the 64-bit range. */
  ghost predicate ProperSector(S: nat) {
    ValidSector(S) && LAYOUT_SIZE + 2 * S < U64
  }

  /** SkyfileMetadata is JSON; what can be unmarshalled and what is valid are parameters. */
  datatype Metadata<!M> = Metadata(unmarshal: seq<byte> -> Option<M>, valid: M -> bool)

  datatype ParseError = UnsupportedVersion | Recursive | BadMetadata | Malformed | InvalidMetadata | DownloadFailed
                      | SliceOutOfRange

  datatype Result<+T> = Ok(value: T) | Err(error: ParseError)

  datatype Parsed<+M> = Parsed(layout: Layout, fanout: seq<byte>, metadata: M, raw: seq<byte>,
                               payload: Option<seq<byte>>)

  // ----- Building --------------------------------------------------------------------------

  /** The padded fanouts that are uploaded with the base sector, lowest first. */
  ghost predicate ArePadded(S: nat, root: MerkleRoot, payload: seq<byte>, sectors: seq<seq<byte>>)
    requires ValidSector(S)
  {
    forall k :: 0 <= k < |sectors| ==> sectors[k] == Padded(S, Level(S, root, payload, k + 1))
  }

  /** Pad the fanouts of an extension to whole sectors. */
  method PadFanouts(S: nat, root: MerkleRoot, payload: seq<byte>, fanouts: seq<seq<byte>>)
    returns (padded: seq<seq<byte>>)
    requires ValidSector(S) && forall k :: 0 <= k < |fanouts| ==> fanouts[k] == Level(S, root, payload, k + 1)
    ensures |padded| == |fanouts| && ArePadded(S, root, payload, padded)
  {
    hide Level;
    padded := fanouts;
    for i := 0 to |fanouts|
      invariant |padded| == |fanouts|
      invariant forall k :: 0 <= k < i ==> padded[k] == Padded(S, Level(S, root, payload, k + 1))
      invariant forall k :: i <= k < |fanouts| ==> padded[k] == fanouts[k]
    {
      PaddedByRemainder(S, fanouts[i]);
      var mod := |padded[i]| % S;
      if mod != 0 {
        padded := padded[i := padded[i] + Zeros(S - mod)];
      }
    }
  }

  lemma PaddedByRemainder(S: nat, data: seq<byte>)
    requires S > 0
    ensures |data| % S < S
    ensures Padded(S, data) == if |data| % S != 0 then data + Zeros(S - |data| % S) else data
  {
    RoundedUp(|data|, S);
    hide NumChunks;
    assert data + Zeros(0) == data;
  }

  lemma RoundedUp(n: nat, S: nat)
    requires S > 0
    ensures n % S < S
    ensures NumChunks(n, S) * S - n == if n % S != 0 then S - n % S else 0
  {
    var q := n / S;
    DivBounds(n, S);
    MulNext(q, S);
    hide NumChunks;
    NumChunksUnique(n, S, if n % S == 0 then q else q + 1);
  }

  function TotalSize(layout: seq<byte>, fanout: seq<byte>, meta: seq<byte>, file: Option<seq<byte>>): nat {
    |layout| + |fanout| + |meta| + |Contents(file)|
  }

  function Contents(file: Option<seq<byte>>): seq<byte> {
    if file.Some? then file.value else []
  }

  /** BuildBaseSector. If everything fits, the parts follow one another. If not, and it is not a small
      upload, fanout and metadata are compressed and the last fanout takes their place; the returned
      size then counts the parts to upload instead of the bytes in use. */
  method BuildBaseSector(S: nat, root: MerkleRoot, layout: seq<byte>, fanout: seq<byte>, meta: seq<byte>,
                         file: Option<seq<byte>>)
    returns (baseSector: Option<array<byte>>, size: nat, uploadPart: seq<seq<byte>>)
    requires ValidSector(S) && |layout| + HASH_SIZE <= S
    ensures baseSector == None <==> TotalSize(layout, fanout, meta, file) > S && file.Some?
    ensures baseSector.Some? && TotalSize(layout, fanout, meta, file) <= S ==>
              && size == TotalSize(layout, fanout, meta, file) && uploadPart == []
              && baseSector.value[..] == layout + fanout + meta + Contents(file) + Zeros(S - size)
    ensures baseSector.Some? && TotalSize(layout, fanout, meta, file) > S ==>
              var payload := fanout + meta;
              var d := ExtensionDepth(S, |payload|, S - |layout|);
              var part := Level(S, root, payload, d);
              && d >= 1 && |part| == HASH_SIZE * UsedHashes(S, |payload|, S - |layout|) <= S - |layout|
              && baseSector.value[..] == layout + part + Zeros(S - |layout| - |part|)
              && |uploadPart| == d && uploadPart[d - 1] == payload
              && ArePadded(S, root, payload, uploadPart[..d - 1])
              && size == |layout| + |uploadPart|
  {
    hide Level, ExtensionDepth, UsedHashes, Zeros;
    var totalSize := TotalSize(layout, fanout, meta, file);
    if totalSize > S && file.Some? {
      return None, 0, [];
    }
    var sector := NewBuffer(S);
    baseSector := Some(sector);
    assert [] + layout == layout;
    var offset := Put(sector, 0, layout, []);
    if totalSize > S {
      var payload := fanout + meta;
      var baseSectorPart, upload := BuildBaseSectorExtension(S, root, payload, S - offset);
      SplitLevels(S, root, payload, upload, baseSectorPart);
      upload := PadFanouts(S, root, payload, upload);
      ghost var padded := upload;
      upload := upload + [payload];
      assert upload[..|upload| - 1] == padded;
      var _ := Put(sector, offset, baseSectorPart, layout);
      return baseSector, offset + |upload|, upload;
    }
    offset := Put(sector, offset, fanout, layout);
    offset := Put(sector, offset, meta, layout + fanout);
    offset := Put(sector, offset, Contents(file), layout + fanout + meta);
    size, uploadPart := offset, [];
  }

  lemma SplitLevels(S: nat, root: MerkleRoot, payload: seq<byte>, upload: seq<seq<byte>>, last: seq<byte>)
    requires ValidSector(S) && AreLevels(S, root, payload, upload + [last])
    ensures forall k :: 0 <= k < |upload| ==> upload[k] == Level(S, root, payload, k + 1)
    ensures last == Level(S, root, payload, |upload| + 1)
  {
    hide Level;
    var fanouts := upload + [last];
    assert fanouts[|upload|] == last;
    forall k | 0 <= k < |upload| ensures upload[k] == Level(S, root, payload, k + 1) {
      assert fanouts[k] == upload[k];
    }
  }

  // ----- Parsing ---------------------------------------------------------------------------

  /** ParseSkyfileMetadata, with the wrap-around of its unsigned sums. A slice whose end wraps to
      before its start is a run-time panic. */
  function Parse<M>(S: nat, json: Metadata<M>, b: seq<byte>): Result<Parsed<M>>
    requires ProperSector(S) && |b| >= LAYOUT_SIZE
  {
    var sl := Decoded(b);
    if sl.version != 1 then Err(UnsupportedVersion)
    else if (LAYOUT_SIZE + sl.fanoutSize + sl.metadataSize) % U64 > |b| || sl.fanoutSize > S || sl.metadataSize > S then
      Err(Recursive)
    else
      var metaStart := LAYOUT_SIZE + sl.fanoutSize;
      var fileStart := metaStart + sl.metadataSize;
      var fanout, raw := b[LAYOUT_SIZE..metaStart], b[metaStart..fileStart];
      match json.unmarshal(raw)
      case None => Err(BadMetadata)
      case Some(sm) =>
        var end := (fileStart + sl.filesize) % U64;
        if sl.fanoutSize == 0 && end > |b| then Err(Malformed)
        else if sl.fanoutSize == 0 && end < fileStart then Err(SliceOutOfRange)
        else if !json.valid(sm) then Err(InvalidMetadata)
        else Ok(Parsed(sl, fanout, sm, raw, if sl.fanoutSize == 0 then Some(b[fileStart..end]) else None))
  }

  /** A version 1 layout that describes its parts. */
  ghost predicate Consistent<M(!new)>(json: Metadata<M>, l: Layout, fanout: seq<byte>, meta: seq<byte>,
                                      file: Option<seq<byte>>) {
    && WellTyped(l) && l.version == 1
    && l.fanoutSize == |fanout| && l.metadataSize == |meta|
    && (fanout == [] ==> l.filesize == |Contents(file)|)
    && json.unmarshal(meta).Some?
  }

  /** What parsing the parts of a base sector gives: metadata that is not valid is refused. */
  function PartsParsed<M>(json: Metadata<M>, l: Layout, fanout: seq<byte>, meta: seq<byte>, file: Option<seq<byte>>):
    Result<Parsed<M>>
    requires json.unmarshal(meta).Some?
  {
    var sm := json.unmarshal(meta).value;
    if json.valid(sm) then Ok(Parsed(l, fanout, sm, meta, if fanout == [] then Some(Contents(file)) else None))
    else Err(InvalidMetadata)
  }

  /** What parses is what was encoded: the bytes begin with the encodings of consistent parts, and the
      metadata is valid. A version other than 1 is refused. */
  lemma ParsedIsPrefix<M(!new)>(S: nat, json: Metadata<M>, b: seq<byte>)
    requires ProperSector(S) && |b| >= LAYOUT_SIZE
    ensures Parse(S, json, b) == Err(UnsupportedVersion) <==> b[0] != 1
    ensures Parse(S, json, b).Ok? ==>
              var p := Parse(S, json, b).value;
              && Consistent(json, p.layout, p.fanout, p.raw, p.payload)
              && json.valid(p.metadata) && json.unmarshal(p.raw) == Some(p.metadata)
              && (p.payload.Some? <==> p.fanout == [])
              && Encoding(p.layout) + p.fanout + p.raw + Contents(p.payload) <= b
  {
    hide Encoding, EncodeLE, DecodeLE;
    EncodeDecoded(b);
    if Parse(S, json, b).Ok? {
      var p := Parse(S, json, b).value;
      var x := LAYOUT_SIZE + |p.fanout|;
      var y := x + |p.raw|;
      FourParts(b, LAYOUT_SIZE, x, y, y + |Contents(p.payload)|);
    }
  }

  /** A base sector is recursive exactly if fanout and metadata do not fit behind the layout: the checks make
      up for sums that wrap around. */
  lemma RecursiveIff<M>(S: nat, json: Metadata<M>, b: seq<byte>)
    requires ProperSector(S) && LAYOUT_SIZE <= |b| <= S
    ensures var l := Decoded(b);
            Parse(S, json, b) == Err(Recursive) <==>
            l.version == 1 && LAYOUT_SIZE + l.fanoutSize + l.metadataSize > |b|
  {
    hide Decoded;
  }

  lemma FourParts(b: seq<byte>, i: nat, j: nat, k: nat, l: nat)
    requires i <= j <= k <= l <= |b|
    ensures b[..i] + b[i..j] + b[j..k] + b[k..l] == b[..l]
  {
  }

  lemma PartsOfPrefix(l: seq<byte>, fanout: seq<byte>, meta: seq<byte>, file: seq<byte>, rest: seq<byte>, f: nat)
    requires var m := |l| + |fanout| + |meta|; m + |file| <= f <= m + |file| + |rest|
    ensures var b := (l + fanout + meta + file + rest)[..f];
            var x, m := |l| + |fanout|, |l| + |fanout| + |meta|;
            b[..|l|] == l && b[|l|..x] == fanout && b[x..m] == meta && b[m..m + |file|] == file
  {
  }

  lemma ParseOfParts<M(!new)>(S: nat, json: Metadata<M>, l: Layout, fanout: seq<byte>, meta: seq<byte>,
                              file: Option<seq<byte>>, b: seq<byte>)
    requires ProperSector(S) && Consistent(json, l, fanout, meta, file)
    requires LAYOUT_SIZE + |fanout| + |meta| + |Contents(file)| <= |b| <= S && Decoded(b) == l
    requires var x, m := LAYOUT_SIZE + |fanout|, LAYOUT_SIZE + |fanout| + |meta|;
             b[LAYOUT_SIZE..x] == fanout && b[x..m] == meta && b[m..m + |Contents(file)|] == Contents(file)
    ensures Parse(S, json, b) == PartsParsed(json, l, fanout, meta, file)
  {
    hide Decoded;
  }

  /** Everything that fits one sector is parsed back from every prefix that holds it, if its metadata is
      valid. */
  lemma FittingRoundTrip<M(!new)>(S: nat, json: Metadata<M>, l: Layout, fanout: seq<byte>, meta: seq<byte>,
                                  file: Option<seq<byte>>, f: nat)
    requires ProperSector(S) && Consistent(json, l, fanout, meta, file)
    requires TotalSize(Encoding(l), fanout, meta, file) <= f <= S
    ensures var total := TotalSize(Encoding(l), fanout, meta, file);
            var b := (Encoding(l) + fanout + meta + Contents(file) + Zeros(S - total))[..f];
            Parse(S, json, b) == PartsParsed(json, l, fanout, meta, file)
  {
    hide Encoding, Decoded, Zeros, Parse, PartsParsed;
    var total := TotalSize(Encoding(l), fanout, meta, file);
    var b := (Encoding(l) + fanout + meta + Contents(file) + Zeros(S - total))[..f];
    PartsOfPrefix(Encoding(l), fanout, meta, Contents(file), Zeros(S - total), f);
    DecodeEncoded(l, b[LAYOUT_SIZE..]);
    assert b == Encoding(l) + b[LAYOUT_SIZE..];
    ParseOfParts(S, json, l, fanout, meta, file, b);
  }
}
