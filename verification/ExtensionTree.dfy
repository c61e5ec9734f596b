/** Building the extension: each level is the list of Merkle roots of the padded chunks of the
    level below. The Merkle root function is a parameter. */
module ExtensionTree {
  import opened Arith
  import opened Bytes
  import opened BaseSectorExtension

  type MerkleRoot = seq<byte> -> Hash

  function Padded(S: nat, data: seq<byte>): (p: seq<byte>)
    requires S > 0
    ensures |p| == NumChunks(|data|, S) * S && data <= p
  {
    data + Zeros(NumChunks(|data|, S) * S - |data|)
  }

  lemma ChunkBounds(i: nat, n: nat, S: nat)
    requires i < n
    ensures i * S + S == (i + 1) * S <= n * S
  {
    MulMono(i + 1, n, S);
  }

  function ChunkOf(S: nat, data: seq<byte>, i: nat): (c: seq<byte>)
    requires S > 0 && i < NumChunks(|data|, S)
    ensures |c| == S
  {
    ChunkBounds(i, NumChunks(|data|, S), S);
    Padded(S, data)[i * S..i * S + S]
  }

  /** The roots of the first k chunks. */
  function Roots(S: nat, root: MerkleRoot, data: seq<byte>, k: nat): (r: seq<byte>)
    requires S > 0 && k <= NumChunks(|data|, S)
    ensures |r| == HASH_SIZE * k
  {
    if k == 0 then [] else Roots(S, root, data, k - 1) + root(ChunkOf(S, data, k - 1))
  }

  function Fanout(S: nat, root: MerkleRoot, data: seq<byte>): (f: seq<byte>)
    requires S > 0
    ensures |f| == HASH_SIZE * NumChunks(|data|, S)
  {
    Roots(S, root, data, NumChunks(|data|, S))
  }

  /** Hash i of the list is the root of chunk i. */
  lemma {:induction false} RootAt(S: nat, root: MerkleRoot, data: seq<byte>, k: nat, i: nat)
    requires S > 0 && i < k <= NumChunks(|data|, S)
    ensures Roots(S, root, data, k)[HASH_SIZE * i..HASH_SIZE * i + HASH_SIZE] == root(ChunkOf(S, data, i))
  {
    if i < k - 1 {
      RootAt(S, root, data, k - 1, i);
      var r := Roots(S, root, data, k - 1);
      assert (r + root(ChunkOf(S, data, k - 1)))[HASH_SIZE * i..HASH_SIZE * i + HASH_SIZE]
          == r[HASH_SIZE * i..HASH_SIZE * i + HASH_SIZE];
    }
  }

  /** The payload after k compressions. */
  function Level(S: nat, root: MerkleRoot, payload: seq<byte>, k: nat): (l: seq<byte>)
    requires ValidSector(S)
    ensures |l| == LevelBytes(S, |payload|, k)
  {
    if k == 0 then payload else Fanout(S, root, Level(S, root, payload, k - 1))
  }

  /** Pulling S bytes off the front and padding a short pull with zeros yields chunk i. */
  lemma PulledChunk(S: nat, data: seq<byte>, i: nat)
    requires S > 0 && i < NumChunks(|data|, S)
    ensures i * S < |data|
    ensures var rest := data[i * S..];
            && (|rest| >= S ==> rest[..S] == ChunkOf(S, data, i))
            && (|rest| < S ==> i == NumChunks(|data|, S) - 1 && rest + Zeros(S - |rest|) == ChunkOf(S, data, i))
            && (|rest| <= S <==> i == NumChunks(|data|, S) - 1)
  {
    var n := NumChunks(|data|, S);
    MulMono(i, n - 1, S);
    ChunkBounds(i, n, S);
    if i < n - 1 {
      MulMono(i + 1, n - 1, S);
    }
  }

  /** The inner loop of buildBaseSectorExtension: one compression. */
  method Compress(S: nat, root: MerkleRoot, payload: seq<byte>) returns (fanout: seq<byte>)
    requires S > 0
    ensures fanout == Fanout(S, root, payload)
  {
    ghost var n := NumChunks(|payload|, S);
    ghost var i := 0;
    fanout := [];
    var buf := payload;
    while |buf| > 0
      invariant i <= n && (i == n <==> buf == [])
      invariant i < n ==> i * S <= |payload| && buf == payload[i * S..]
      invariant fanout == Roots(S, root, payload, i)
      decreases |buf|
    {
      PulledChunk(S, payload, i);
      ChunkBounds(i, n, S);
      var k := if |buf| < S then |buf| else S;
      var chunk := buf[..k];
      assert k == |buf| ==> chunk == buf;
      buf := buf[k..];
      if |chunk| < S {
        chunk := chunk + Zeros(S - |chunk|);
      }
      fanout := fanout + root(chunk);
      i := i + 1;
    }
  }

  /** The fanouts the builder must produce for a payload: one per level. */
  ghost predicate AreLevels(S: nat, root: MerkleRoot, payload: seq<byte>, fanouts: seq<seq<byte>>)
    requires ValidSector(S)
  {
    forall k :: 0 <= k < |fanouts| ==> fanouts[k] == Level(S, root, payload, k + 1)
  }

  /** The compression loop of buildBaseSectorExtension. */
  method CompressUntilFit(S: nat, root: MerkleRoot, payload: seq<byte>, size: nat)
    returns (fanouts: seq<seq<byte>>)
    requires ValidSector(S) && size >= HASH_SIZE
    ensures |fanouts| == ExtensionDepth(S, |payload|, size)
    ensures AreLevels(S, root, payload, fanouts)
  {
    hide ExtensionDepth, Fanout, LevelBytes;
    fanouts := [];
    var data := payload;
    ghost var d := ExtensionDepth(S, |payload|, size);
    DepthIsFirstFit(S, |payload|, size);
    assert LevelBytes(S, |payload|, 0) == |Level(S, root, payload, 0)|;
    while |data| > size
      invariant |fanouts| <= d
      invariant data == Level(S, root, payload, |fanouts|)
      invariant AreLevels(S, root, payload, fanouts)
      decreases d - |fanouts|
    {
      var fanout := Compress(S, root, data);
      assert fanout == Level(S, root, payload, |fanouts| + 1);
      fanouts := fanouts + [fanout];
      data := fanout;
    }
  }

  /** buildBaseSectorExtension: the last fanout goes into the base sector, the earlier ones are
      uploaded with it. The number of fanouts and the size of the last one are what the size
      predictor says. */
  method BuildBaseSectorExtension(S: nat, root: MerkleRoot, payload: seq<byte>, size: nat)
    returns (baseSectorPart: seq<byte>, uploadPart: seq<seq<byte>>)
    requires ValidSector(S)
    ensures size < HASH_SIZE || |payload| <= size ==> baseSectorPart == [] && uploadPart == []
    ensures size >= HASH_SIZE && |payload| > size ==>
              && |uploadPart| + 1 == ExtensionDepth(S, |payload|, size)
              && AreLevels(S, root, payload, uploadPart + [baseSectorPart])
              && |baseSectorPart| == HASH_SIZE * UsedHashes(S, |payload|, size) <= size
  {
    if size < HASH_SIZE {
      return [], [];
    }
    var fanouts := CompressUntilFit(S, root, payload, size);
    if |fanouts| == 0 {
      return [], [];
    }
    baseSectorPart := fanouts[|fanouts| - 1];
    uploadPart := fanouts[..|fanouts| - 1];
    assert uploadPart + [baseSectorPart] == fanouts;
    LevelBytesClosed(S, |payload|, |fanouts| - 1);
    DepthIsFirstFit(S, |payload|, size);
  }
}
