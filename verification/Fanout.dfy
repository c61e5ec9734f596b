/** The fanout of a skyfile: the Merkle roots of its pieces, chunk after chunk. */
module Fanout {
  import opened Arith
  import opened Bytes
  import opened BaseSectorExtension

  /** How a file was encoded: the bytes of a chunk per data piece (a sector without the overhead of
      the cipher), the pieces of a chunk, and whether it is unencrypted. */
  datatype Encoding = Encoding(pieceSize: nat, dataPieces: nat, parityPieces: nat, plain: bool)

  /** An encoding with data pieces. A file without a fanout has none. */
  predicate ValidEncoding(e: Encoding) {
    e.pieceSize > 0 && e.dataPieces > 0
  }

  /** With one data piece and no encryption all pieces of a chunk are the same, and only one root is
      listed. */
  function RootsPerChunk(e: Encoding): (k: nat)
    requires ValidEncoding(e)
    ensures k > 0
  {
    if e.dataPieces == 1 && e.plain then 1 else e.dataPieces + e.parityPieces
  }

  function FileChunks(e: Encoding, fileSize: nat): nat
    requires ValidEncoding(e)
  {
    MulMono(1, e.dataPieces, e.pieceSize);
    NumChunks(fileSize, e.pieceSize * e.dataPieces)
  }

  function ExpectedFanoutBytesLen(e: Encoding, fileSize: nat): nat
    requires ValidEncoding(e)
  {
    FileChunks(e, fileSize) * (HASH_SIZE * RootsPerChunk(e))
  }

  /** The fanout of a file of q chunks has one root for every piece of every chunk, or one for every chunk if
      all of its pieces are the same. */
  lemma ExpectedLength(e: Encoding, fileSize: nat, q: nat)
    requires ValidEncoding(e)
    requires (q - 1) * (e.pieceSize * e.dataPieces) < fileSize <= q * (e.pieceSize * e.dataPieces) || q == fileSize == 0
    ensures FileChunks(e, fileSize) == q
    ensures ExpectedFanoutBytesLen(e, fileSize)
            == if e.plain && e.dataPieces == 1 then q * 32 else q * (32 * (e.dataPieces + e.parityPieces))
  {
    MulMono(1, e.dataPieces, e.pieceSize);
    NumChunksUnique(fileSize, e.pieceSize * e.dataPieces, q);
  }

  datatype FanoutError = UnevenChunks | UnexpectedLength

  datatype Result = Ok(chunks: seq<seq<Hash>>) | Err(error: FanoutError)

  /** All the roots of all the chunks, one after another. */
  ghost function Flatten(chunks: seq<seq<Hash>>): seq<byte> {
    if chunks == [] then [] else Flatten(chunks[..|chunks| - 1]) + Concat(chunks[|chunks| - 1])
  }

  lemma FlattenAppend(chunks: seq<seq<Hash>>, chunk: seq<Hash>)
    ensures Flatten(chunks + [chunk]) == Flatten(chunks) + Concat(chunk)
  {
    assert (chunks + [chunk])[..|chunks|] == chunks;
  }

  lemma ConcatNext(hashes: seq<seq<byte>>, h: seq<byte>)
    ensures Concat(hashes + [h]) == Concat(hashes) + h
  {
    ConcatAppend(hashes, [h]);
    assert [h][1..] == [];
    assert h + [] == h;
  }

  /** One chunk: the roots between two offsets. */
  method DecodeChunk(fanout: seq<byte>, start: nat, piecesPerChunk: nat) returns (chunk: seq<Hash>)
    requires start + HASH_SIZE * piecesPerChunk <= |fanout|
    ensures |chunk| == piecesPerChunk && Concat(chunk) == fanout[start..start + HASH_SIZE * piecesPerChunk]
  {
    hide Concat;
    chunk := [];
    NoHashes();
    for j := 0 to piecesPerChunk
      invariant |chunk| == j && Concat(chunk) == fanout[start..start + HASH_SIZE * j]
    {
      var offset := start + HASH_SIZE * j;
      ConcatNext(chunk, fanout[offset..offset + HASH_SIZE]);
      SplitAt(fanout, start, offset, offset + HASH_SIZE);
      chunk := chunk + [fanout[offset..offset + HASH_SIZE]];
    }
  }

  lemma NoHashes()
    ensures Concat([]) == []
  {
  }

  /** DecodeFanoutIntoChunks accepts a fanout exactly if it is empty or has the expected length for the
      file, and the chunks it returns hold all of its roots in order. */
  method DecodeFanoutIntoChunks(e: Encoding, fileSize: nat, fanout: seq<byte>) returns (r: Result)
    requires fanout != [] ==> ValidEncoding(e)
    ensures r.Ok? <==> fanout == [] || |fanout| == ExpectedFanoutBytesLen(e, fileSize)
    ensures r.Ok? ==> Flatten(r.chunks) == fanout
    ensures r.Ok? ==> forall c :: c in r.chunks ==> fanout != [] && |c| == RootsPerChunk(e)
    ensures r.Ok? ==> |r.chunks| == if fanout == [] then 0 else FileChunks(e, fileSize)
    ensures r == Err(UnevenChunks) <==> fanout != [] && |fanout| % (HASH_SIZE * RootsPerChunk(e)) != 0
  {
    hide Flatten, FileChunks, RootsPerChunk;
    NoChunks();
    if |fanout| == 0 {
      return Ok([]);
    }
    var piecesPerChunk := RootsPerChunk(e);
    var chunkRootsSize := HASH_SIZE * piecesPerChunk;
    LengthOfChunks(|fanout|, chunkRootsSize, FileChunks(e, fileSize));
    if |fanout| % chunkRootsSize != 0 {
      return Err(UnevenChunks);
    }
    var numChunks := |fanout| / chunkRootsSize;
    var chunks: seq<seq<Hash>> := [];
    for i := 0 to numChunks
      invariant |chunks| == i && i * chunkRootsSize <= |fanout|
      invariant Flatten(chunks) == fanout[..i * chunkRootsSize]
      invariant forall c :: c in chunks ==> |c| == piecesPerChunk
    {
      MulMono(i + 1, numChunks, chunkRootsSize);
      assert (i + 1) * chunkRootsSize == i * chunkRootsSize + chunkRootsSize;
      var chunk := DecodeChunk(fanout, i * chunkRootsSize, piecesPerChunk);
      FlattenAppend(chunks, chunk);
      SplitAt(fanout, 0, i * chunkRootsSize, (i + 1) * chunkRootsSize);
      chunks := chunks + [chunk];
    }
    if numChunks != FileChunks(e, fileSize) {
      return Err(UnexpectedLength);
    }
    return Ok(chunks);
  }

  lemma NoChunks()
    ensures Flatten([]) == []
  {
  }

  lemma LengthOfChunks(length: nat, size: nat, count: nat)
    requires size > 0
    ensures length == count * size <==> length % size == 0 && length / size == count
    ensures length % size == 0 ==> length / size * size == length
  {
    DivBounds(length, size);
    if length == count * size {
      ModIs(length, size, count);
      DivUnique(length, size, count);
    }
  }
}
