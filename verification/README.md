# Verification of the Skynet portal's byte formats and bookkeeping

This Dafny project models the parts of skyd that turn bytes into structures and back, and proves that the
code that takes the harder route computes what the simple description says. Each module follows one component.

- **Base-sector extension** (`BaseSectorExtension`, `ExtensionTree`, `ExtensionRead`, `ExtensionCorrect`,
  `ExtensionWhole`). An oversized payload is compressed into a tree of Merkle roots. The size predictor agrees with
  the builder; range reads are right exactly for full trees; reading the whole payload is right exactly when every
  span stays on its hashes or meets a zero hash. The sector size is a parameter: a multiple of 32, at least 64.
  `MerkleRoot` is a parameter too; of the store it is assumed that it returns each uploaded chunk for its root and
  that no uploaded chunk has the all-zero root. For what is parsed from too short a prefix it is also assumed that no
  stored sector begins with its own root (`NoFixedRoot`).
- **Base sector** (`SkyfileLayout`, `BaseSector`, `RecursiveBaseSector`, `CompressedParse`, `BaseSectorLink`, `Fanout`).
  Layout, fanout, metadata and file in one sector, or compressed: what is parsed back from what the skylink's fetch
  size covers, and exactly when.
- **Skykey manager** (`Skykey`, `SkykeyFile`, `SkykeyJournal`, `SkykeyTornLength`, `SkykeyManager`). Two maps and an
  append-only file with tombstones in place. Reloading the file after any run gives the maps in memory; adding a key is
  crash safe but for a crash between the bytes of the length, which is safe under an exact condition.
- **Erasure coder** (`Erasure`, `ErasureRecover`, `ErasureReconstruct`, `ErasureParity`). A 64-byte segment code
  interleaved over whole pieces. The segment code is a parameter with the laws of Reed-Solomon, and a parity code
  shows that the laws can be met.
- **Distribution tracker** (`DurationTable`, `DistributionLaws`, `Distribution`). Bucket index and duration table are
  inverse, running sums are full sums, and the shift shortcut keeps its meaning.
- **Skylinks** (`SkylinkBitfield`, `BaseCodec`, `Skylink`). The bitfield is a code for an aligned window of a sector;
  raw and string forms round trip.
- **Skyfile byte path** (`SkyfileReader`, `SkyfileForPath`, `LimitStreamer`, `SubfileDownload`). From the multipart
  upload to the download of one path.
- **Small cores** (`SiaPath`, `Percentages`). Path strings refine component lists; largest-remainder rounding.

`Bytes` and `Arith` hold byte strings, little-endian numbers, ceiling division and the non-linear facts.

Where the source works step by step the model is a method with the same loops or a class with the same fields,
proved against a function; the laws are lemmas about that function.

## What the code does not do

Some promises hold only under a condition. The lemmas named here state the condition, and for those that are not plain
from it give an input for which the promise fails.

- Range reads through the extension tree: only in full trees (`RangeReadsIffFullTree`, `PartialTreeMisreads`).
- Reading the whole payload back: only if its spans fit the tree (`WholePayloadReads`). A payload of 64 MB above
  sectors of 4096 bytes is lost (`SomeUploadIsLost`).
- The skylink of a compressed base sector covers the size BuildBaseSector returns, which counts the parts to upload.
  An upload comes back through it if and only if it covers the last fanout as well and the spans fit the tree
  (`LinkedParsesBackIff`). For trees of one level this means at most 124 sectors of fanout and metadata
  (`ComesBackIffSmall`); no upload of 125 sectors comes back (`SomeWindowIsTooShort`).
- Metadata that is not valid is refused in a base sector that holds everything (`FittingRoundTrip`), but not checked in
  a compressed one (`MetadataValidIff`, `SomeInvalidMetadataIsParsed`).
- An empty range at the end of a sector has a bitfield that parses as its start (`EmptyRangeAtEnd`).
- A skykey record of the old format whose name has one or two bytes can be read as one of the new
  (`OldRecordLoadsIff`, `SomeOldRecordIsMisread`).
- CreateKey does not check the new ID (`AddKeepsBijectionIffFreshID`).
- A crash while the length in the header of the key file is written leaves the old or the new keys if and only if none of
  its bytes is written yet, or the bytes not written do not change, or the shorter length then read cuts off nothing but
  deleted keys (`TornLengthIsSafeIff`).
- Recover without any piece writes nothing and reports no error (`RecoverErased`).
- A shift that cuts bucket 0 loses mass (`ShiftConservesIff`).
- The download of a directory is a window of the stream. It is the directory's files for all contents only if no bytes
  of other files lie between its first part and the last byte of its files (`DirectoryServedIff`,
  `SomeDirectoryIsMixed`).
- Rebase compares strings, not components (`RebaseIff`, `StringPrefixIsAccepted`), although its error message speaks
  of a base.

## Model

| member | source | states |
|---|---|---|
| Arith.NumChunksNested | skymodules/renter.go:786-800 | counting chunks of chunks is counting chunks of the product size: nested rounding up collapses |
| BaseSectorExtension.BaseSectorExtensionSize | skymodules/skynethelpers.go:85-102 | the search returns exactly the depth of the builder's recursion and the hash count of its last fanout, for every size and every limit of at least one hash, and it terminates |
| BaseSectorExtension.DepthIsFirstFit | skymodules/skynethelpers.go:157-185 | the depth is the first level that fits the limit; every level above the fitting one is too large |
| BaseSectorExtension.LevelBytesClosed | skymodules/skynethelpers.go:85-102 | after k+1 compressions there is one hash for every S*H^k bytes of payload, rounded up once |
| ExtensionTree.Compress | skymodules/skynethelpers.go:157-182 | one round of the loop yields the Merkle roots of the zero-padded chunks, in order |
| ExtensionTree.CompressUntilFit | skymodules/skynethelpers.go:157-185 | the loop stops after exactly the predicted number of fanouts, each the compression of the one before |
| ExtensionTree.BuildBaseSectorExtension | skymodules/skynethelpers.go:146-204 | the builder refines the predictor: number of fanouts and hash count of the last one agree with it, and the last fanout fits the limit |
| ExtensionRead.TranslateBaseSectorExtensionOffset | skymodules/skynethelpers.go:108-140 | the loop computes one span per level and the offset inside the first chunk |
| ExtensionRead.SpansAreRanges | skymodules/skynethelpers.go:121-135 | the unsigned subtractions never wrap: every span of a nonempty range is a nonempty range of hash numbers, full tree or not |
| ExtensionRead.DownloadChunks | skymodules/renter/skyfile.go:1700-1727 | fetching the sectors of a run of hashes gives the corresponding run of padded chunks |
| ExtensionCorrect.FollowTrueSpans | skymodules/renter/skyfile.go:1693-1733 | following the spans a range really needs ends with exactly the chunks that cover it |
| ExtensionCorrect.FullTreeSpans | skymodules/skynethelpers.go:121-138 | in a full tree the translated spans are the ones the range really needs |
| ExtensionCorrect.FullTreeRead | skymodules/skynethelpers.go:108-140 | for every full tree (every tree of depth one among them), every payload and every nonempty range, following the spans yields exactly those bytes at the returned offset |
| ExtensionCorrect.DepthOneIsFull | skymodules/skynethelpers.go:97-99 | a tree of depth one is always full |
| ExtensionCorrect.PartialTreeMisreads | skymodules/skynethelpers.go:119-124 | if the tree is not full, there is a payload of the same size and a one-byte range that is read wrongly |
| ExtensionCorrect.RangeReadsIffFullTree | skymodules/skynethelpers.go:108-140 | range reads are right for all payloads of a size and all ranges if and only if the tree is full |
| ExtensionCorrect.SomeTreeIsNotFull | skymodules/skynethelpers.go:119-124 | a concrete tree that is not full: 129 sectors of 4096 bytes above room for 64 hashes |
| ExtensionWhole.DivisorAtMostReach | skymodules/skynethelpers.go:123-124 | the bytes the code attributes to a hash are never more than the hash really covers, so spans of the whole payload never miss a chunk |
| ExtensionWhole.DownloadAll | skymodules/renter/skyfile.go:1700-1727 | a span that runs past the last hash of a level still yields the whole level if a zero hash follows, and fails otherwise |
| ExtensionWhole.WholePayloadReads | skymodules/renter/skyfile.go:1675-1738 | the whole payload reads back exactly if and only if every span ends with the last hash of its level or finds room for a zero hash behind it; otherwise the download fails |
| ExtensionWhole.FullTreeFits | skymodules/renter/skyfile.go:1675-1738 | full trees read back completely |
| ExtensionWhole.DepthTwoFits | skymodules/renter/skyfile.go:1675-1738 | trees of depth two read back unless the last fanout leaves no room for one more hash in the base sector |
| ExtensionWhole.SomeSpansDoNotFit | skymodules/renter/skyfile.go:1675-1738 | a tree above 64 MB of payload and sectors of 4096 bytes, as in test builds, whose first span asks for one hash more than there is |
| SkyfileLayout.Encode | skymodules/skynet.go:643-669 | the buffer holds the fields one after another in 99 bytes |
| SkyfileLayout.Decode | skymodules/skynet.go:567-591 | the fields are read from where the encoder puts them |
| SkyfileLayout.EncodeDecoded | skymodules/skynet.go:567-669 | encoding what was decoded gives the same 99 bytes |
| SkyfileLayout.DecodeEncoded | skymodules/skynet.go:567-669 | decoding undoes encoding, whatever follows the layout |
| SkyfileLayout.FieldsOf | skymodules/skynet.go:567-669 | which bytes of the 99 hold which field |
| BaseSector.PadFanouts | skymodules/skynethelpers.go:244-250 | every uploaded fanout is padded to whole sectors |
| BaseSector.BuildBaseSector | skymodules/skynethelpers.go:222-270 | what fits is laid out in order and padded with zeros; what does not fit is replaced by the last fanout, and the fanouts below it and the payload are returned for upload; the size returned then is the layout plus the number of uploaded parts |
| BaseSector.FittingRoundTrip | skymodules/skynethelpers.go:431-480 | everything that fits one sector is parsed back from every prefix that holds it: layout, fanout, raw metadata, and without a fanout the file; metadata that is not valid is refused |
| BaseSector.ParsedIsPrefix | skymodules/skynethelpers.go:431-480 | the other way round, what parses begins with the encodings of a version 1 layout, a fanout, metadata and a file that are consistent with it, and the metadata is valid; exactly other versions are refused as unsupported |
| BaseSector.RecursiveIff | skymodules/skynethelpers.go:443-447 | a sector of version 1 is recursive if and only if layout, fanout and metadata together are longer than it; sums that wrap around are caught |
| RecursiveBaseSector.DownloadSpan | skymodules/renter/skyfile.go:1695-1724 | the inner loop fetches the sectors of a span, ended by a zero hash |
| RecursiveBaseSector.FollowSpans | skymodules/renter/skyfile.go:1693-1733 | the outer loop makes the sectors of a span the hashes of the next, and collects the fanouts on the way |
| RecursiveBaseSector.ParseSkyfileMetadata | skymodules/renter/skyfile.go:1653-1752 | the renter's parser falls back to downloading the payload exactly for recursive base sectors, and its extension is the fetched fanouts followed by the payload |
| RecursiveBaseSector.DepthOfPrefix | skymodules/skynethelpers.go:85-102 | any prefix of the base sector that holds the last fanout gives the parser the builder's depth |
| RecursiveBaseSector.CompressedRoundTrip | skymodules/renter/skyfile.go:1667-1752 | from a prefix with its last fanout, a compressed base sector is parsed back if and only if the spans of the whole payload fit the tree; otherwise the download fails |
| RecursiveBaseSector.FetchedFanouts | skymodules/renter/skyfile.go:1729-1738 | the fanouts collected on the way are exactly the padded fanouts that were uploaded, from the top down |
| CompressedParse.OneLevelTooDeep | skymodules/skynethelpers.go:85-102 | a prefix that ends inside the last fanout makes the parser go exactly one level deeper than the builder |
| CompressedParse.FollowTooDeep | skymodules/renter/skyfile.go:1693-1738 | one span too many takes the payload for hashes: the download fails, or gives nothing if the payload begins with a zero hash, or else begins like the sector that the first hash of the payload stands for |
| CompressedParse.ShortPrefixParse | skymodules/renter/skyfile.go:1667-1752 | whatever is parsed from a prefix that ends inside the last fanout begins like the sector that the first hash of the payload stands for; if there is none, parsing fails |
| CompressedParse.ShortPrefixFails | skymodules/renter/skyfile.go:1667-1752 | an upload is not parsed back from a prefix that ends inside its last fanout, if no stored sector begins with its own root |
| CompressedParse.ParsesBackIff | skymodules/renter/skyfile.go:1667-1752 | where no stored sector begins with its own root, every single compressed base sector is parsed back from its first f bytes if and only if those hold the last fanout and the spans of the whole payload fit the tree |
| CompressedParse.MetadataValidIff | skymodules/renter/skyfile.go:1747-1751 | unlike the parser for what fits (skynethelpers.go:477) the recursive one does not check metadata: what comes back is valid if and only if what was uploaded was |
| CompressedParse.SomeInvalidMetadataIsParsed | skymodules/renter/skyfile.go:1747-1751 | a compressed upload with 4000 bytes of metadata that comes back although its metadata is not valid |
| CompressedParse.SomeUploadIsLost | skymodules/renter/skyfile.go:1675-1738 | with sectors of 4096 bytes, no payload of 15745 sectors (64 MB) can be parsed back: the download fails although the whole base sector is at hand |
| BaseSectorLink.WindowHolds | skymodules/skylink.go:73-81 | a skylink made for the first bytes of a sector covers at least them and stays in the sector |
| BaseSectorLink.UploadThenParse | skymodules/renter/skyfile.go:287-305 | building, linking, fetching what the link covers and parsing: what fits comes back if its metadata is valid and is refused otherwise; a compressed base sector comes back if the fetched bytes hold its last fanout and the spans fit, the download fails if only the spans do not fit, and without the whole last fanout parsing fails or gives something else |
| BaseSectorLink.LinkedParsesBackIff | skymodules/renter/skyfile.go:287-305 | where no stored sector begins with its own root, a compressed upload comes back through its skylink if and only if the fetched bytes hold the last fanout and the spans fit the tree |
| BaseSectorLink.OneLevelReadable | skymodules/skynethelpers.go:252-259 | for a tree of one level the skylink covers 4096 bytes, which hold the last fanout and fit its span if and only if there are at most 124 sectors |
| BaseSectorLink.ComesBackIffSmall | skymodules/renter/skyfile.go:287-305 | uploads whose tree has one level, up to about 512 GiB, come back through their skylinks if and only if fanout and metadata have at most 124 sectors together |
| BaseSectorLink.SomeWindowIsTooShort | skymodules/skynethelpers.go:252-259 | because the returned size counts uploaded parts, the skylink of 125 sectors covers 4096 of the 4099 bytes needed, and no upload of this size comes back |
| Fanout.DecodeFanoutIntoChunks | skymodules/skynet.go:595-639 | a fanout is accepted exactly if it is empty, whatever the layout says, or as long as ExpectedFanoutBytesLen says (skynethelpers.go:208-218), and the decoded chunks hold all of its roots in order |
| Fanout.ExpectedLength | skymodules/skynethelpers.go:208-218 | the expected length is 32 bytes for every piece of every chunk, or for every chunk if there is one data piece and no encryption |
| Skykey.LiveRecordParses | skykey/skykey.go:218-299 | every valid key is read back from its record, whatever follows it |
| Skykey.DeadRecordParses | skykey/skykeymanager.go:159-166 | a tombstone is read back as a deleted key of the same span |
| Skykey.RecordParses | skykey/skykeymanager.go:131-157 | the new-format parser reads every record, live or dead, and stops exactly at its end |
| Skykey.ParsedIsRecord | skykey/skykey.go:217-299 | the other way round, what parses as a key is the record of a valid key, and what parses as a deleted key is a length of at most 256 and as many bytes |
| Skykey.OldRecordLoadsIff | skykey/skykey.go:93-200 | a record of the old format loads as a public ID key if and only if the new format, tried first, rejects its bytes; it always does unless the name has one or two bytes |
| Skykey.SomeOldRecordIsMisread | skykey/skykeymanager.go:131-157 | an old record with a one-byte name that loads as another key |
| Skykey.IDIsSecret | skykey/skykey.go:363-379 | keys that differ only in their nonce share their ID, and if the hash is injective, keys that share their ID have the same type and key bytes |
| Skykey.TombstoneFits | skykey/skykeymanager.go:168-185 | a tombstone fills exactly the span of the record it replaces and stays under the entropy cap |
| SkykeyFile.ScanReplays | skykey/skykeymanager.go:408-426 | scanning the records replays them in order and stops exactly at the header's length |
| SkykeyFile.ReplayRepresents | skykey/skykeymanager.go:417-421 | replaying slots with unique names and IDs gives maps that hold exactly the live ones |
| SkykeyFile.RepresentsDelete | skykey/skykeymanager.go:363-370 | killing one slot removes its name and its ID and nothing else |
| SkykeyFile.RepresentedOnce | skykey/skykeymanager.go:408-422 | the slots determine both maps |
| SkykeyFile.KnownIDIff | skykey/skykeymanager.go:188-206 | if the hash is injective, an ID is known if and only if a stored key has its type and its 32 key bytes |
| SkykeyFile.JournalLoads | skykey/skykeymanager.go:376-434 | loading a well-formed file rebuilds exactly the maps its slots represent |
| SkykeyJournal.TornAdd | skykey/skykeymanager.go:515-530 | whatever has been written past the header's length, the file still stands for the same slots |
| SkykeyJournal.CommittedAdd | skykey/skykeymanager.go:515-534 | with the record and then the header written, the file stands for one more slot |
| SkykeyJournal.CommittedDelete | skykey/skykeymanager.go:168-185 | a tombstone written in place turns one slot dead and moves nothing else |
| SkykeyJournal.AddIsCrashSafe | skykey/README.md:13-16 | a crash at any byte of a new record, or in the first 32 bytes of the header, reloads the old keys; afterwards the new key is there too |
| SkykeyTornLength.TornLengthIsSafeIff | skykey/skykeymanager.go:532-534 | a crash after t of the eight length bytes reloads the old or the new keys if and only if t is 0, or the lengths agree above byte t, or the shorter length read cuts off nothing but tombstones; if t is not 0 and the lengths differ above byte t, whatever loads claims to be shorter than before the add |
| SkykeyJournal.AddKeepsBijectionIffFreshID | skykey/skykeymanager.go:209-233 | adding a key under a new name keeps names and IDs in bijection if and only if its ID is new, which CreateKey does not check |
| SkykeyManager.NewSkykeyManager | skykey/skykeymanager.go:107-127 | a new manager holds exactly what the file says, and is in a valid state for a new file or a key file |
| SkykeyManager.SkykeyManager.Load | skykey/skykeymanager.go:376-479 | load computes what the bytes say, whatever they are; a wrong magic, an unknown version and an impossible length are refused; a key file gives a valid state |
| SkykeyManager.SkykeyManager.ScanRecords | skykey/skykeymanager.go:408-422 | the loop reads all records up to the signed length of the header |
| SkykeyManager.SkykeyManager.SaveHeader | skykey/skykeymanager.go:482-496 | afterwards loadHeader reads this version and length, and the records and the size of the file are as before |
| SkykeyManager.SkykeyManager.AddKey | skykey/skykeymanager.go:188-206 | exactly names over 128 bytes, types other than 1 and 2, entropy not of 56 bytes, keys with a known ID (if the hash is injective, those whose type and first 32 bytes of entropy are those of a stored key), and known names are refused, in this order, and change nothing; otherwise maps and file gain exactly this key |
| SkykeyManager.SkykeyManager.CreateKey | skykey/skykeymanager.go:209-233 | taken and overlong names and unusable types are refused and change nothing; the created key is saved, and the bijection survives if and only if its ID is new |
| SkykeyManager.SkykeyManager.SaveKey | skykey/skykeymanager.go:500-535 | record first, header second; the maps gain the key |
| SkykeyManager.SkykeyManager.DeleteKeyByName | skykey/skykeymanager.go:243-253 | the name and its ID disappear from the maps and the record becomes a tombstone, or nothing changes |
| SkykeyManager.SkykeyManager.DeleteKeyByID | skykey/skykeymanager.go:322-371 | the ID and its name disappear from the maps, the slot of that key becomes dead, and the only bytes written are a tombstone over its record; if the hash is injective, the ID of a type and 32 key bytes is found if and only if a stored key has them, and afterwards none has |
| SkykeyManager.SkykeyManager.FindRecord | skykey/skykeymanager.go:336-361 | the search ends at the span of the live record with this ID |
| SkykeyManager.KeyFileLoads | skykey/skykeymanager.go:376-434 | loading a new file or a key file gives a valid state for its slots |
| SkykeyManager.Run | skykey/skykeymanager.go:188-371 | after any run of adds, creates with fresh IDs and deletes, the maps in memory are those that the operations make of two maps without a file, reloading the file gives exactly these maps, and names and IDs are in bijection |
| Erasure.EncodeShards | skymodules/erasure.go:280-332 | segment e of the pieces is the encoding of segment e of the flattened shards; exactly the wrong count and the wrong sizes are refused |
| Erasure.DataLayout | skymodules/erasure.go:280-332 | byte j of segment e of data piece i is byte 64(ke + i) + j of the data |
| Erasure.EncodeFlat | skymodules/erasure.go:309-331 | the loop that pulls off segments and appends their shards interleaves the segment code over whole pieces |
| Erasure.Encode | skymodules/erasure.go:270-276 | data is encoded if and only if, padded to the next multiple of MinPieces, it is MinPieces times a positive number m of whole segments; then every piece has m segments and they encode the data followed by zeros |
| ErasureRecover.Recover | skymodules/erasure.go:398-444 | the loop writes what segment-wise recovery gives, and the checks of count and size come first |
| ErasureRecover.SegmentRecovers | skymodules/erasure.go:398-444 | one segment of an erased encoding is recovered if and only if enough pieces are left |
| ErasureRecover.RecoverErased | skymodules/erasure.go:398-444 | every erasure pattern: the first n bytes with enough pieces, an error with too few, and nothing at all without any piece |
| ErasureRecover.RecoverIffEnoughPieces | skymodules/erasure.go:398-444 | for all data, however it is padded, and all erasures the first n bytes come back without error if and only if n is 0 or at least MinPieces pieces are left |
| ErasureRecover.ExtractedEncodes | skymodules/erasure.go:459-470 | an extracted segment is itself an encoding of its own slice of the padded data |
| ErasureRecover.ExtractedSegmentRecovers | skymodules/erasure.go:459-470 | decoding one extracted segment gives the matching slice of the padded data if and only if enough pieces are left |
| ErasureReconstruct.Truncate | skymodules/erasure.go:368-372 | lengths become 0, the bytes behind them stay |
| ErasureReconstruct.ReadSegment | skymodules/erasure.go:377-384 | present pieces are read past their length and give their original segment |
| ErasureReconstruct.AppendSegment | skymodules/erasure.go:389-391 | the shards of a segment are appended to the pieces |
| ErasureReconstruct.AppendKeepsIntact | skymodules/erasure.go:378-391 | appending a present piece's own segment in place leaves the rest of its original bytes behind the new length |
| ErasureReconstruct.RebuildSegments | skymodules/erasure.go:374-392 | the loop rebuilds segment after segment while re-reading pieces it is appending to |
| ErasureReconstruct.Reconstruct | skymodules/erasure.go:346-394 | on success every piece is the segment-wise reconstruction of the original pieces |
| ErasureReconstruct.ReconstructedIsEncoding | skymodules/erasure.go:346-394 | reconstructing enough pieces of an encoding gives the encoding |
| ErasureReconstruct.ReconstructEncoding | skymodules/erasure.go:346-394 | from any encoding with pieces emptied, in-place reconstruction restores every piece if at least MinPieces are left, is an error if some but fewer are, and leaves all pieces empty without an error if none is |
| ErasureParity.ParityIsLawful | skymodules/erasure.go:256-266 | a concrete segment code meets what is assumed of the Reed-Solomon code |
| DurationTable.StartClosed | skymodules/distributiontracker.go:210-230 | every bucket starts at a whole number of steps of its group |
| DurationTable.StartPowers | skymodules/distributiontracker.go:210-230 | the first 64 buckets start at multiples of the step; bucket 48g + q starts at q times the step times 4 to the power g, for q from 16 to 63 |
| DurationTable.BuildTable | skymodules/distributiontracker.go:210-230 | the table holds the start of every bucket, for every base step and number of step changes |
| DurationTable.IndexForDuration | skymodules/distributiontracker.go:248-276 | quotient, group and offset give the bucket that a linear search over the widths finds |
| DurationTable.LocateInvertsStart | skymodules/distributiontracker.go:248-276 | below the top every duration lies in the bucket returned and the fraction locates it exactly; above, it is the end of the last bucket |
| DurationTable.LocateOfStart | skymodules/distributiontracker.go:234-276 | a table entry is found again as its own bucket |
| DurationTable.LocateMono | skymodules/distributiontracker.go:248-276 | longer durations are never located earlier |
| DurationTable.RoundingError | skymodules/distributiontracker.go:248-276 | from bucket 16 on, rounding down to the table loses less than a sixteenth of the entry |
| DistributionLaws.ExpectedScale | skymodules/distributiontracker.go:397-408 | decay does not change the expected duration |
| DistributionLaws.ExpectedIsMean | skymodules/distributiontracker.go:397-408 | with data it is the weighted mean of the bucket starts, rounded down |
| DistributionLaws.ExpectedWithin | skymodules/distributiontracker.go:397-408 | it lies between the starts of the first and the last bucket with data, so data in one bucket gives its start; without data it is the start of the last bucket of the table |
| DistributionLaws.ChanceScale | skymodules/distributiontracker.go:309-335 | decay does not change any chance |
| DistributionLaws.QuantileScale | skymodules/distributiontracker.go:444-468 | decay does not change any quantile |
| DistributionLaws.ChanceAtStart | skymodules/distributiontracker.go:340-359 | at a bucket's start the chance is the share of the data points before it |
| DistributionLaws.ChanceMono | skymodules/distributiontracker.go:309-335 | chances lie between 0 and 1 and grow with the duration |
| DistributionLaws.ChanceInside | skymodules/distributiontracker.go:309-335 | inside a bucket the chance also counts the share of the bucket that lies before the duration |
| DistributionLaws.ChanceAtTop | skymodules/distributiontracker.go:309-335 | at the top of the table and beyond, the chance is 1 |
| DistributionLaws.QuantileAdjoint | skymodules/distributiontracker.go:309-468 | a bucket before the last one has reached chance p if and only if the p-quantile is not after it |
| DistributionLaws.QuantileMono | skymodules/distributiontracker.go:444-468 | a higher quantile is never an earlier bucket |
| DistributionLaws.ShiftedShape | skymodules/distributiontracker.go:530-543 | a shift leaves no count negative and the number of buckets as it is |
| DistributionLaws.ShiftConservesIff | skymodules/distributiontracker.go:530-543 | a shift conserves exactly the mass at and after the index if and only if the index is above 0 or nothing of bucket 0 is cut |
| DistributionLaws.ShiftInside | skymodules/distributiontracker.go:472-543 | a shift into a bucket leaves there the share that lies after the duration, spreads the share before it evenly over the earlier buckets in place of their counts, and keeps later buckets |
| DistributionLaws.ShiftPastTop | skymodules/distributiontracker.go:472-543 | a shift past the top of the table leaves nothing in the last bucket and spreads its count over the others |
| DistributionLaws.ShiftToStart | skymodules/distributiontracker.go:472-543 | a shift to the start of a bucket drops the buckets before it and nothing else; one by a negative duration empties bucket 0 |
| Distribution.Distribution.constructor | skymodules/distributiontracker.go:634-638 | a new distribution is empty and its running sums agree |
| Distribution.Distribution.SetTiming | skymodules/distributiontracker.go:159-180 | one count changes, the running sums stay the full sums, and the clamps do nothing for counts that are not negative |
| Distribution.Distribution.AddDecay | skymodules/distributiontracker.go:279-289 | every count is scaled by the decay and the running sums stay the full sums |
| Distribution.Distribution.AddDataPoint | skymodules/distributiontracker.go:293-306 | after the decay the bucket of the duration gains one; negative durations change nothing |
| Distribution.Distribution.DataPoints | skymodules/distributiontracker.go:382-388 | the running total is the sum of the decayed counts |
| Distribution.Distribution.Clone | skymodules/distributiontracker.go:362-378 | the clone is equal and shares no state |
| Distribution.Distribution.ExpectedDuration | skymodules/distributiontracker.go:397-408 | the running sums give the mean of the full sums, independent of the decay, and the distribution is unchanged |
| Distribution.Distribution.ChanceAfter | skymodules/distributiontracker.go:309-335 | the chance of the undecayed counts, whatever decay is applied |
| Distribution.Distribution.ChancesAfter | skymodules/distributiontracker.go:340-359 | entry i is the chance at the start of bucket i |
| Distribution.Distribution.PStat | skymodules/distributiontracker.go:444-468 | the start of the bucket of the quantile |
| Distribution.Distribution.MergeWith | skymodules/distributiontracker.go:411-433 | weighted counts are added, unless half lives differ or the weight is out of range |
| Distribution.MergedTotals | skymodules/distributiontracker.go:411-433 | every count gains the weighted count of the other distribution, and so do the number of data points and the numerator of the expected duration |
| Distribution.Distribution.ShiftInfo | skymodules/distributiontracker.go:472-491 | what a shift would do, without doing it; what that means is in ShiftInside, ShiftPastTop and ShiftToStart |
| Distribution.Distribution.Shift | skymodules/distributiontracker.go:530-543 | the counts become the shifted counts and the running sums stay the full sums |
| Distribution.Distribution.ExpectedDurationWithShift | skymodules/distributiontracker.go:497-523 | the shortcut over two partial sums equals the mean of the shifted counts |
| Distribution.Distribution.Load | skymodules/distributiontracker.go:563-575 | the counts are the persisted ones and the running sums agree |
| Distribution.CloneShiftExpect | skymodules/distributiontracker.go:497-543 | the shortcut and clone, shift, evaluate give the same duration under any decay, and the original is unchanged |
| SkylinkBitfield.RoundUpIsLeast | skymodules/skylink.go:425-492 | rounding up gives the least table entry not below the length, and wastes less than 4096 bytes or an eighth of the length |
| SkylinkBitfield.ParsePack | skymodules/skylink.go:110-164 | parsing undoes packing of offset number, fetch size number and mode, or reports a window past the sector |
| SkylinkBitfield.EncodeThenParse | skymodules/skylink.go:425-492 | for every nonempty range in the sector the setter accepts exactly the aligned offsets, and parsing returns the offset and the rounded length |
| SkylinkBitfield.EncodeThenParseIff | skymodules/skylink.go:110-492 | on all 64-bit arguments, with wrap-around: set and parse round trip if and only if the range lies in the sector, is aligned and does not start at its end |
| SkylinkBitfield.EmptyRangeAtEnd | skymodules/skylink.go:425-492 | the empty range at the end of the sector is accepted but parses as its start |
| SkylinkBitfield.ParseThenEncode | skymodules/skylink.go:110-492 | every bitfield that parses is the one the setter makes from its parse |
| Skylink.Skylink.SetOffsetAndFetchSize | skymodules/skylink.go:425-492 | the shifting and masking loops compute the bitfield code, or refuse and change nothing |
| Skylink.ChooseMode | skymodules/skylink.go:430-440 | the alignment loop finds the first mode with room for the length |
| Skylink.FetchBits | skymodules/skylink.go:448-469 | three bits select the first fetch size of the mode that is not too small |
| Skylink.ShiftInModeBits | skymodules/skylink.go:476-484 | the mode bits end up below a terminating 0 |
| Skylink.FromToBytes | skymodules/skylink.go:178-183 | the raw form of a legal link loads as that link |
| Skylink.ToFromBytes | skymodules/skylink.go:388-420 | the 34-byte strings that load are exactly the raw forms of legal links |
| Skylink.LoadsIff | skymodules/skylink.go:388-420 | bytes load if and only if there are 34 of them and their first two, little-endian, are 1 or the bitfield that the setter makes of some nonempty range in the sector; the others are the root |
| Skylink.Skylink.LoadBytes | skymodules/skylink.go:388-420 | exactly the 34-byte strings whose first two bytes are 1 or the bitfield of a nonempty range load, with the other bytes as root; rejected data leaves the link unchanged |
| Skylink.Skylink.LoadString | skymodules/skylink.go:202-233 | a rejected string leaves the link unchanged |
| BaseCodec.DecodeEncode | skymodules/skylink.go:497-506 | base-2^k decoding undoes encoding for every byte string (sections 5 and 7 of RFC 4648) |
| BaseCodec.EncodedBits | skymodules/skylink.go:497-506 | the characters of an encoding have the bits of the bytes, most significant first, and zeros to fill up the last one |
| BaseCodec.Alphabets | skymodules/skylink.go:497-506 | the characters of both alphabets in order |
| BaseCodec.PrintParsed | skymodules/skylink.go:497-506 | only strings over the alphabet parse: printing what was parsed gives the string back, up to the case of letters in base 32 |
| BaseCodec.DecodeEncodeString | skymodules/skylink.go:497-506 | both string encodings round trip and contain neither ? nor / |
| Skylink.StringRoundTrip | skymodules/skylink.go:167-233 | every legal link survives both string forms with any path or parameters appended |
| Skylink.LowerCaseLoads | skymodules/skylink.go:202-233 | a base 32 link with any of its letters in lower case loads as the same link |
| SkyfileReader.SkyfileMultipartReader.constructor | skymodules/skyfilereader.go:228-242 | a new reader has read nothing |
| SkyfileReader.SkyfileMultipartReader.SetReadBuffer | skymodules/skyfilereader.go:247-249 | what will be read is the given bytes and then everything still in the parts |
| SkyfileReader.SkyfileMultipartReader.NextPart | skymodules/skyfilereader.go:306-323 | a new part starts where the last one ended; form names other than file and files[] are refused; a failure to get a part makes the metadata available |
| SkyfileReader.SkyfileMultipartReader.ReadCurrent | skymodules/skyfilereader.go:325-331 | bytes read from the part are counted and none is lost |
| SkyfileReader.SkyfileMultipartReader.FinishPart | skymodules/skyfilereader.go:333-386 | a finished part gets the entry with its offset and length, or the error of its headers |
| SkyfileReader.SkyfileMultipartReader.Read | skymodules/skyfilereader.go:288-348 | no byte is lost, invented or reordered, the room is filled unless an error stops it, and the subfiles are those of the finished parts |
| SkyfileReader.EntryOfPart | skymodules/skyfilereader.go:361-383 | with distinct names every part has its entry, with its name, mode and content type, its length, and the sum of the lengths before it as its offset |
| SkyfileReader.ReadUpload | skymodules/skyfilereader.go:288-386 | for every schedule of reads the bytes are a prefix of the parts put together; at the end all of it is read and every part has its entry |
| SkyfileForPath.FindExact | skymodules/skynet.go:369-377 | the search by absolute name finds the subfile in any order of the map |
| SkyfileForPath.CollectBelow | skymodules/skynet.go:379-388 | everything below the directory is collected |
| SkyfileForPath.LeastOffset | skymodules/skynet.go:494-505 | the smallest offset, or 0 without subfiles |
| SkyfileForPath.SumOfLens | skymodules/skynet.go:485-491 | the sum of the lengths, in any order |
| SkyfileForPath.ForPath | skymodules/skynet.go:359-401 | an exact file gives its own window; a directory gives everything below it, unchanged but for offsets relative to the smallest one |
| SkyfileForPath.PathOfName | skymodules/skynethelpers.go:383-388 | a name and the name with a slash before it are the same absolute path |
| SkyfileForPath.PathOfDirectory | skymodules/skynethelpers.go:383-398 | all four forms of a directory, with or without slashes around it, are the same directory path |
| SkyfileForPath.PartWindow | skymodules/skynet.go:359-401 | the window of a part's entry holds exactly its bytes |
| SkyfileForPath.SumLensOfParts | skymodules/skynet.go:485-491 | the size of a directory is the length of its files put together |
| SkyfileForPath.DirectoryOffset | skymodules/skynet.go:494-505 | the smallest offset below a directory is where its first uploaded part starts |
| LimitStreamer.LimitStreamer.constructor | node/api/limitstreamer.go:36-47 | the window is the range asked for as far as the stream has it, and empty if offset and size wrap around |
| LimitStreamer.LimitStreamer.Read | node/api/limitstreamer.go:56-66 | reading is reading a stream of exactly the window's bytes; at a position the wrapped stream could not be moved to, it is reading that stream where it stands |
| LimitStreamer.LimitStreamer.Seek | node/api/limitstreamer.go:89-113 | positions are relative to the window, wrap around, and are refused before it; one past 2^63 is kept although the stream refuses it |
| LimitStreamer.NewLimitStreamer | node/api/limitstreamer.go:36-53 | it fails exactly when the offset cannot be sought |
| LimitStreamer.ReadAll | node/api/limitstreamer.go:56-66 | reading to the end gives the rest of the window for any sizes of reads |
| SubfileDownload.ServePath | node/api/skynet.go:549-569 | a path is served as the window of its subfiles, or not found |
| SubfileDownload.FileServed | node/api/skynet.go:549-569 | an exact file is served byte for byte |
| SubfileDownload.ServesFilesIff | node/api/skynet.go:549-569 | the window of a directory holds its files one after another if and only if the stream goes on with them from its first part |
| SubfileDownload.DirectoryServedIff | node/api/skynet.go:549-569 | a directory is served as its files for all contents of the given lengths if and only if no nonempty part of another path comes after its first part and before a nonempty one of its own |
| SubfileDownload.SomeDirectoryIsMixed | node/api/skynet.go:549-569 | an upload of d/a, b and d/c, a byte each, whose directory d is not served as its two files |
| SubfileDownload.UploadThenDownload | skymodules/skyfilereader.go:288-386 | upload with any schedule, then download of a path: the name of a file, with or without a slash before it, gives exactly the file; a directory, in all four forms, and the root give the bytes from the first part below on, as many as the files below have, which are these files if nothing is mixed in; with nothing below, nothing is found |
| SubfileDownload.RelativeEntry | skymodules/skynet.go:389-401 | the relative offsets of a directory's entries are right: each lies at its offset behind the start of the window |
| SiaPath.ValidatePath | skymodules/siapath.go:299-339 | exactly the joins of components other than the empty one, "." and ".." are accepted, and the root if allowed |
| SiaPath.NewSiaPath | skymodules/siapath.go:118-123 | the cleaned string if it is a legal path |
| SiaPath.NewIff | skymodules/siapath.go:110-123 | a string gives a legal path if and only if it is this path with or without a slash at either end |
| SiaPath.LegalPaths | skymodules/siapath.go:299-339 | legal paths and nonempty lists of legal components are the same thing |
| SiaPath.JoinAppends | skymodules/siapath.go:173-179 | Join appends components; it fails exactly if the argument, stripped of one slash in front and up to two behind, is no legal path |
| SiaPath.JoinForms | skymodules/siapath.go:110-179 | one slash before and up to two behind a legal path do not matter to Join |
| SiaPath.DirAndName | skymodules/siapath.go:141-212 | Dir drops the last component and Name is the last one |
| SiaPath.DirJoinName | skymodules/siapath.go:141-212 | joining the name to the directory gives the path back |
| SiaPath.DepthCounts | skymodules/siapath.go:262-267 | Depth is the number of components |
| SiaPath.BaseIsPrefix | skymodules/siapath.go:216-225 | a base in the sense of components is a string prefix that ends with a component |
| SiaPath.RebaseIff | skymodules/siapath.go:216-225 | Rebase replaces the components of the old base, and succeeds if and only if that is a base or it ends inside a component whose rest is a legal one |
| SiaPath.RebaseThereAndBack | skymodules/siapath.go:216-225 | rebasing to a new base and back is the identity |
| SiaPath.StringPrefixIsAccepted | skymodules/siapath.go:216-225 | "a" is accepted as a base of "ab/c" |
| Percentages.SortByFraction | cmd/skyc/parse.go:406-411 | sorted by fraction, a permutation, with nothing said about ties |
| Percentages.Floors | cmd/skyc/parse.go:377-387 | one info per value and the sum of the floors |
| Percentages.ParsePercentages | cmd/skyc/parse.go:369-429 | in place: every value becomes its floor or one more at its own place, as many as are missing to 100 are raised, and none of them has a smaller fraction than one that is not |
| Percentages.SumIs100Iff | cmd/skyc/parse.go:366-429 | for any values the result adds up to 100 if and only if the floors miss 100 by at least 0 and at most one for every value |
| Percentages.SumStays100 | cmd/skyc/parse.go:366-429 | values that add up to 100 are rounded to values that add up to 100 |
| Percentages.IntegersStay | cmd/skyc/parse.go:406-421 | if they are not negative, integers among them are unchanged |

## Left out

- BaseSectorExtension.BaseSectorExtensionSize: sizes are unbounded; the wrap-around of 64-bit products for payloads near 2^63 bytes, which cannot be in memory, is not modelled.
- RecursiveBaseSector.DownloadSpan: a slice of hashes can be extended to the end of the base sector it was cut from, as in Go, but downloaded hashes end exactly where the sectors end.
- RecursiveBaseSector.ParseSkyfileMetadata: downloads in parallel are modelled as one after another, and an index behind the hashes and a root that is not stored are the same failure; a prefix of fewer than 131 bytes of a compressed base sector, for which the search for the extension's size does not end, is not an input.
- BaseSector.BuildBaseSector: the layout leaves room for one hash; with less the code logs a critical error.
- Fanout.DecodeFanoutIntoChunks: a nonempty fanout needs at least one data piece; without one the code divides by zero.
- SkykeyManager.SkykeyManager.AddKey: the file stays below signed 64-bit offsets; the same holds for CreateKey and Run.
- SkykeyManager.Run: operations succeed or are refused; file-system errors and crashes during deletes are not modelled, crashes during adds are in AddIsCrashSafe and TornLengthIsSafeIff.
- SkykeyFile.JournalLoads: versions are compared as the two known byte strings; other spellings of the same number are not modelled.
- Skykey.RecordParses: for records written in the new format; for those of the old format see OldRecordLoadsIff.
- Erasure.EncodeShards: Galois-field arithmetic is not modelled; the segment code is a parameter with the laws in Lawful.
- Erasure.Encode: pieces are values; that encoding reuses the backing bytes of the shards it is given is not modelled.
- ErasureReconstruct.Reconstruct: pieces do not share backing bytes with each other and have the same length or are empty, so pieces of unequal length, which the code does not refuse, are not inputs; how far append grows a slice is not modelled.
- Distribution.Distribution.SetTiming: reals instead of floating point, so the clamps for rounding errors never fire.
- Distribution.Distribution.AddDecay: the clock is not modelled; decay is any positive factor of at most one, or none.
- Distribution.Distribution.ShiftInfo: the share for earlier buckets is a division by zero at index 0 in the code and never used there; it is 0 here.
- Skylink.Skylink.LoadString: newlines, which Go's decoders skip, end in an error in both; letters outside ASCII are not turned to upper case.
- SkyfileReader.SkyfileMultipartReader.Read: bytes put back after the end was reported stay in the read buffer; multipart framing and MIME headers are parameters.
- SkyfileForPath.SumOfLens: the 64-bit sum of lengths is not wrapped.
- SkyfileForPath.ForPath: try files and error pages are copied unchanged by the code and are not modelled.
- SiaPath.ValidatePath: strings are valid Unicode, so the final check for UTF-8 always succeeds; separators of other systems are not converted.
- Percentages.ParsePercentages: reals instead of floating point; the critical log messages are not modelled.
- Encryption: cipher keys, nonces, base-sector encryption and file-specific subkeys.
- Old-format skykeys and the string form of skykeys, whose names are not escaped.
- Persisted trackers with several distributions: Load and AddDataPoint repeat the operation of one distribution for each.
- Locks, goroutines and closing of streams: every modelled object is used by one thread.
- The command line, the HTTP handlers apart from choosing a path's window, JSON and hashing.
