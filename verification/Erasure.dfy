/** The sub-sharded erasure coder: every 64 bytes of a piece belong to one segment, and every
    segment is encoded on its own. The segment code itself is a parameter. */
module Erasure {
  import opened Arith
  import opened Bytes

  const SEGMENT_SIZE := 64

  type Shards = seq<seq<byte>>

  datatype Error = WrongPieceCount | SizeNotDivisible | UnequalPieces | ShortData | TooFewShards

  datatype Result<+T> = Ok(value: T) | Err(error: Error)

  /** A segment code: k data shards are extended to n shards, and missing shards (empty ones) are
      reconstructed. */
  datatype Code = Code(k: nat, n: nat, enc: Shards -> Shards, rec: Shards -> Option<Shards>)

  ghost predicate IsData(c: Code, d: Shards) {
    |d| == c.k && forall i :: 0 <= i < c.k ==> |d[i]| == SEGMENT_SIZE
  }

  ghost predicate IsFull(c: Code, s: Shards) {
    |s| == c.n && forall i :: 0 <= i < c.n ==> |s[i]| == SEGMENT_SIZE
  }

  function Erase(s: Shards, keep: seq<bool>): (e: Shards)
    requires |keep| == |s|
    ensures |e| == |s|
  {
    seq(|s|, i requires 0 <= i < |s| => if keep[i] then s[i] else [])
  }

  function Kept(keep: seq<bool>): nat {
    if keep == [] then 0 else (if keep[0] then 1 else 0) + Kept(keep[1..])
  }

  /** What the segment code promises: it is systematic, any k shards determine all of them, fewer
      are refused, and present shards are never changed. */
  ghost predicate Lawful(c: Code) {
    && 1 <= c.k <= c.n
    && (forall d :: IsData(c, d) ==> IsFull(c, c.enc(d)) && c.enc(d)[..c.k] == d)
    && (forall d, keep :: IsData(c, d) && |keep| == c.n && |c.enc(d)| == c.n ==>
          c.rec(Erase(c.enc(d), keep)) == if Kept(keep) >= c.k then Some(c.enc(d)) else None)
    && (forall s :: |s| == c.n && c.rec(s).Some? ==>
          IsFull(c, c.rec(s).value) && forall i :: 0 <= i < c.n && s[i] != [] ==> c.rec(s).value[i] == s[i])
  }

  // ----- Cutting data into shards ----------------------------------------------------------

  /** Shard i of data cut into shards of `size` bytes. */
  function Shard(data: seq<byte>, size: nat, i: nat): seq<byte>
    requires (i + 1) * size <= |data|
  {
    MulNext(i, size);
    data[i * size..(i + 1) * size]
  }

  /** Data cut into k shards of `size` bytes. */
  function Split(data: seq<byte>, size: nat, k: nat): (s: Shards)
    requires |data| == k * size
    ensures |s| == k && forall i :: 0 <= i < k ==> |s[i]| == size
  {
    seq(k, i requires 0 <= i < k => ShardBounds(i, k, size); Shard(data, size, i))
  }

  lemma ShardBounds(i: nat, k: nat, size: nat)
    requires i < k
    ensures i * size + size == (i + 1) * size <= k * size
  {
    MulMono(i + 1, k, size);
    MulNext(i, size);
  }

  lemma {:induction false} ConcatLength(s: Shards, size: nat)
    requires forall i :: 0 <= i < |s| ==> |s[i]| == size
    ensures |Concat(s)| == |s| * size
  {
    if s != [] {
      ConcatLength(s[1..], size);
    }
  }

  /** Cutting data into shards and putting them together gives the data. */
  lemma ConcatSplit(data: seq<byte>, size: nat, k: nat)
    requires |data| == k * size
    ensures Concat(Split(data, size, k)) == data
  {
    var s := Split(data, size, k);
    ConcatSplitUpTo(data, size, k, k);
    assert s[..k] == s;
  }

  lemma {:induction false} ConcatSplitUpTo(data: seq<byte>, size: nat, k: nat, j: nat)
    requires |data| == k * size && j <= k
    ensures j * size <= |data| && Concat(Split(data, size, k)[..j]) == data[..j * size]
  {
    var s := Split(data, size, k);
    MulMono(j, k, size);
    if j > 0 {
      ConcatSplitUpTo(data, size, k, j - 1);
      assert s[..j] == s[..j - 1] + [s[j - 1]];
      ConcatAppend(s[..j - 1], [s[j - 1]]);
      assert Concat([s[j - 1]]) == s[j - 1] + Concat([]) == s[j - 1];
      MulNext(j - 1, size);
      SplitAt(data, 0, (j - 1) * size, j * size);
    }
  }

  // ----- What an encoding is ---------------------------------------------------------------

  /** The bytes that segment e encodes. */
  function Segment(c: Code, flat: seq<byte>, e: nat): (s: seq<byte>)
    requires (e + 1) * (c.k * SEGMENT_SIZE) <= |flat|
    ensures |s| == c.k * SEGMENT_SIZE
  {
    Shard(flat, c.k * SEGMENT_SIZE, e)
  }

  /** The n encoded shards of segment e. */
  function EncodedSegment(c: Code, flat: seq<byte>, e: nat): Shards
    requires (e + 1) * (c.k * SEGMENT_SIZE) <= |flat|
  {
    MulNext(e, c.k * SEGMENT_SIZE);
    c.enc(Split(Segment(c, flat, e), SEGMENT_SIZE, c.k))
  }

  /** Bytes 64e to 64e + 64 of a piece, or nothing if the piece is too short. */
  function PieceSegment(piece: seq<byte>, e: nat): seq<byte> {
    if |piece| >= e * SEGMENT_SIZE + SEGMENT_SIZE then piece[e * SEGMENT_SIZE..e * SEGMENT_SIZE + SEGMENT_SIZE] else []
  }

  /** Segment e of all pieces. */
  function SegmentOf(pieces: Shards, e: nat): (s: Shards)
    ensures |s| == |pieces|
  {
    seq(|pieces|, i requires 0 <= i < |pieces| => PieceSegment(pieces[i], e))
  }

  /** Pieces encode `flat` in m segments: segment e of the pieces is the encoding of segment e of
      the data. */
  ghost predicate Encodes(c: Code, flat: seq<byte>, m: nat, pieces: Shards) {
    && |flat| == m * (c.k * SEGMENT_SIZE)
    && |pieces| == c.n
    && (forall i :: 0 <= i < c.n ==> |pieces[i]| == m * SEGMENT_SIZE)
    && forall e :: 0 <= e < m ==>
         (MulMono(e + 1, m, c.k * SEGMENT_SIZE); SegmentOf(pieces, e) == EncodedSegment(c, flat, e))
  }

  lemma EncodedData(c: Code, flat: seq<byte>, e: nat, i: nat)
    requires Lawful(c) && (e + 1) * (c.k * SEGMENT_SIZE) <= |flat| && i < c.k
    ensures i < |EncodedSegment(c, flat, e)|
    ensures EncodedSegment(c, flat, e)[i] == Split(Segment(c, flat, e), SEGMENT_SIZE, c.k)[i]
  {
    var shards := Split(Segment(c, flat, e), SEGMENT_SIZE, c.k);
    assert IsData(c, shards);
    assert EncodedSegment(c, flat, e)[..c.k] == shards;
  }

  lemma SegmentByte(c: Code, flat: seq<byte>, e: nat, i: nat, j: nat)
    requires (e + 1) * (c.k * SEGMENT_SIZE) <= |flat| && i < c.k && j < SEGMENT_SIZE
    ensures 64 * (c.k * e + i) + j < |flat|
    ensures Split(Segment(c, flat, e), SEGMENT_SIZE, c.k)[i][j] == flat[64 * (c.k * e + i) + j]
  {
    var size := c.k * SEGMENT_SIZE;
    MulNext(e, size);
    ShardBounds(i, c.k, SEGMENT_SIZE);
    assert e * size == 64 * (c.k * e);
    var segment := Segment(c, flat, e);
    assert segment == flat[e * size..e * size + size];
    assert Split(segment, SEGMENT_SIZE, c.k)[i] == segment[i * SEGMENT_SIZE..i * SEGMENT_SIZE + SEGMENT_SIZE];
  }

  /** Where the data is: a systematic code leaves it in the first k pieces, 64 bytes of each piece in
      turn. */
  lemma DataLayout(c: Code, flat: seq<byte>, m: nat, pieces: Shards, e: nat, i: nat, j: nat)
    requires Lawful(c) && Encodes(c, flat, m, pieces) && e < m && i < c.k && j < 64
    ensures i < |pieces| && 64 * e + j < |pieces[i]| && 64 * (c.k * e + i) + j < |flat|
    ensures pieces[i][64 * e + j] == flat[64 * (c.k * e + i) + j]
  {
    hide Segment, Split, EncodedSegment, IsData, IsFull;
    MulMono(e + 1, m, c.k * SEGMENT_SIZE);
    LawfulSizes(c);
    EncodedData(c, flat, e, i);
    SegmentByte(c, flat, e, i, j);
    hide Lawful;
    assert PieceSegment(pieces[i], e) == SegmentOf(pieces, e)[i];
  }

  // ----- Encoding --------------------------------------------------------------------------

  /** RSSubCode.EncodeShards: data shards of equal, divisible size are flattened, and the flat data
      is encoded segment by segment. */
  method EncodeShards(c: Code, shards: Shards) returns (r: Result<Shards>)
    requires Lawful(c)
    ensures r.Err? <==> |shards| != c.k || |shards[0]| % SEGMENT_SIZE != 0 ||
                        exists i :: 0 <= i < |shards| && |shards[i]| != |shards[0]|
    ensures r.Err? ==> r.error == if |shards| != c.k then WrongPieceCount
                                  else if |shards[0]| % SEGMENT_SIZE != 0 then SizeNotDivisible else UnequalPieces
    ensures r.Ok? ==> Encodes(c, Concat(shards), |shards[0]| / SEGMENT_SIZE, r.value)
  {
    if |shards| != c.k {
      return Err(WrongPieceCount);
    }
    var pieceSize := |shards[0]|;
    if pieceSize % SEGMENT_SIZE != 0 {
      return Err(SizeNotDivisible);
    }
    for i := 0 to |shards|
      invariant forall j :: 0 <= j < i ==> |shards[j]| == pieceSize
    {
      if |shards[i]| != pieceSize {
        return Err(UnequalPieces);
      }
    }
    ghost var m := pieceSize / SEGMENT_SIZE;
    var data := Flatten(shards);
    FlatLength(c, shards, m);
    var pieces := EncodeFlat(c, data, m);
    return Ok(pieces);
  }

  lemma FlatLength(c: Code, shards: Shards, m: nat)
    requires |shards| == c.k && forall i :: 0 <= i < |shards| ==> |shards[i]| == m * SEGMENT_SIZE
    ensures |Concat(shards)| == m * (c.k * SEGMENT_SIZE)
  {
    ConcatLength(shards, m * SEGMENT_SIZE);
    assert c.k * (m * SEGMENT_SIZE) == m * (c.k * SEGMENT_SIZE);
  }

  method Flatten(shards: Shards) returns (data: seq<byte>)
    ensures data == Concat(shards)
  {
    data := [];
    for i := 0 to |shards|
      invariant data == Concat(shards[..i])
    {
      assert shards[..i + 1] == shards[..i] + [shards[i]];
      ConcatAppend(shards[..i], [shards[i]]);
      assert Concat([shards[i]]) == shards[i] + Concat([]) == shards[i];
      data := data + shards[i];
    }
    assert shards[..|shards|] == shards;
  }

  /** The encoding loop: pull off one segment after another, encode it, and append the encoded
      shards to the pieces. */
  method EncodeFlat(c: Code, data: seq<byte>, ghost m: nat) returns (pieces: Shards)
    requires Lawful(c) && |data| == m * (c.k * SEGMENT_SIZE)
    ensures Encodes(c, data, m, pieces)
  {
    hide Lawful, Split, EncodedSegment;
    var size := c.k * SEGMENT_SIZE;
    LawfulSizes(c);
    pieces := seq(c.n, _ => []);
    var buf := data;
    ghost var e := 0;
    assert EncodesUpTo(c, data, e, pieces);
    hide EncodesUpTo;
    while |buf| > 0
      invariant e <= m && e * size <= |data| && buf == data[e * size..]
      invariant |pieces| == c.n && EncodesUpTo(c, data, e, pieces)
      decreases |buf|
    {
      NextSegment(size, m, e, |data|);
      var segment := buf[..size];
      EncodedNext(c, data, e, segment);
      var encoded := c.enc(Split(segment, SEGMENT_SIZE, c.k));
      SubSlice(data, e * size, |data|, size, |buf|);
      buf := buf[size..];
      ghost var before := pieces;
      pieces := AppendShards(pieces, encoded);
      SegmentAppended(c, data, e, before, encoded, pieces);
      e := e + 1;
    }
    AllSegments(size, m, e, |data|);
    assert Encodes(c, data, m, pieces) by {
      CompleteEncoding(c, data, m, pieces);
    }
  }

  lemma LawfulSizes(c: Code)
    requires Lawful(c)
    ensures 1 <= c.k <= c.n
  {
  }

  lemma CompleteEncoding(c: Code, flat: seq<byte>, m: nat, pieces: Shards)
    requires |flat| == m * (c.k * SEGMENT_SIZE) && EncodesUpTo(c, flat, m, pieces)
    ensures Encodes(c, flat, m, pieces)
  {
  }

  lemma EncodedNext(c: Code, flat: seq<byte>, e: nat, segment: seq<byte>)
    requires Lawful(c) && e * (c.k * SEGMENT_SIZE) <= (e + 1) * (c.k * SEGMENT_SIZE) <= |flat|
    requires c.k * SEGMENT_SIZE <= |flat[e * (c.k * SEGMENT_SIZE)..]|
    requires segment == flat[e * (c.k * SEGMENT_SIZE)..][..c.k * SEGMENT_SIZE]
    ensures c.enc(Split(segment, SEGMENT_SIZE, c.k)) == EncodedSegment(c, flat, e)
    ensures IsFull(c, EncodedSegment(c, flat, e))
  {
    MulNext(e, c.k * SEGMENT_SIZE);
    SubSlice(flat, e * (c.k * SEGMENT_SIZE), |flat|, 0, c.k * SEGMENT_SIZE);
    assert segment == Segment(c, flat, e);
    assert IsData(c, Split(segment, SEGMENT_SIZE, c.k));
  }

  lemma NextSegment(size: nat, m: nat, e: nat, total: nat)
    requires total == m * size && e <= m && e * size < total && size > 0
    ensures e < m && (e + 1) * size == e * size + size <= total
  {
    if e < m {
      MulMono(e + 1, m, size);
    }
  }

  lemma AllSegments(size: nat, m: nat, e: nat, total: nat)
    requires total == m * size && e <= m && e * size == total && size > 0
    ensures e == m
  {
    if e < m {
      MulMono(e + 1, m, size);
      MulNext(e, size);
    }
  }

  /** Appending the encoded shards to the pieces, one by one. */
  method AppendShards(pieces: Shards, encoded: Shards) returns (r: Shards)
    requires |encoded| == |pieces|
    ensures |r| == |pieces| && forall i :: 0 <= i < |pieces| ==> r[i] == pieces[i] + encoded[i]
  {
    r := pieces;
    for i := 0 to |encoded|
      invariant |r| == |pieces|
      invariant forall j :: 0 <= j < i ==> r[j] == pieces[j] + encoded[j]
      invariant forall j :: i <= j < |pieces| ==> r[j] == pieces[j]
    {
      r := r[i := r[i] + encoded[i]];
    }
  }

  ghost predicate EncodesUpTo(c: Code, flat: seq<byte>, m: nat, pieces: Shards)
    requires m * (c.k * SEGMENT_SIZE) <= |flat|
  {
    && |pieces| == c.n
    && (forall i :: 0 <= i < c.n ==> |pieces[i]| == m * SEGMENT_SIZE)
    && forall e :: 0 <= e < m ==>
         (MulMono(e + 1, m, c.k * SEGMENT_SIZE); SegmentOf(pieces, e) == EncodedSegment(c, flat, e))
  }

  lemma AppendedPiece(piece: seq<byte>, x: seq<byte>, m: nat, e: nat)
    requires |piece| == m * SEGMENT_SIZE && |x| == SEGMENT_SIZE && e <= m
    ensures PieceSegment(piece + x, e) == if e < m then PieceSegment(piece, e) else x
  {
  }

  lemma SegmentAppended(c: Code, flat: seq<byte>, m: nat, pieces: Shards, encoded: Shards, pieces': Shards)
    requires (m + 1) * (c.k * SEGMENT_SIZE) <= |flat| && m * (c.k * SEGMENT_SIZE) <= |flat|
    requires EncodesUpTo(c, flat, m, pieces)
    requires encoded == EncodedSegment(c, flat, m) && IsFull(c, encoded)
    requires |pieces'| == c.n && forall i :: 0 <= i < c.n ==> pieces'[i] == pieces[i] + encoded[i]
    ensures EncodesUpTo(c, flat, m + 1, pieces')
  {
    hide EncodedSegment;
    forall e | 0 <= e < m + 1
      ensures (MulMono(e + 1, m + 1, c.k * SEGMENT_SIZE); SegmentOf(pieces', e) == EncodedSegment(c, flat, e))
    {
      MulMono(e + 1, m + 1, c.k * SEGMENT_SIZE);
      if e < m {
        MulMono(e + 1, m, c.k * SEGMENT_SIZE);
        forall i | 0 <= i < c.n ensures SegmentOf(pieces', e)[i] == SegmentOf(pieces, e)[i] {
          AppendedPiece(pieces[i], encoded[i], m, e);
        }
      } else {
        forall i | 0 <= i < c.n ensures SegmentOf(pieces', e)[i] == encoded[i] {
          AppendedPiece(pieces[i], encoded[i], m, e);
        }
      }
    }
  }

  /** Data of n bytes fills k shards of m segments each: padding it to the next multiple of k makes shards
      of whole segments. */
  predicate FillsSegments(k: nat, n: nat, m: nat) {
    m >= 1 && k * (64 * m - 1) < n <= k * (64 * m)
  }

  /** RSSubCode.Encode succeeds if and only if the data fills whole segments. Then every piece has that many
      segments, and the pieces encode the data followed by zeros. */
  method Encode(c: Code, data: seq<byte>) returns (r: Result<Shards>)
    requires Lawful(c)
    ensures r == Err(ShortData) <==> data == []
    ensures r.Ok? <==> exists m: nat :: FillsSegments(c.k, |data|, m)
    ensures r.Err? ==> r.error == ShortData || r.error == SizeNotDivisible
    ensures forall m: nat :: FillsSegments(c.k, |data|, m) ==>
              && r.Ok?
              && Encodes(c, data + Zeros(c.k * (64 * m) - |data|), m, r.value)
              && forall i :: 0 <= i < c.n ==> |r.value[i]| == 64 * m
  {
    hide Lawful, Encodes, Split, FillsSegments;
    LawfulSizes(c);
    NoDataFills(c.k);
    if data == [] {
      return Err(ShortData);
    }
    var size := PerShard(c, data);
    FillsIff(c.k, |data|, size);
    r := EncodePadded(c, PaddedData(c, data), size);
  }

  method EncodePadded(c: Code, padded: seq<byte>, size: nat) returns (r: Result<Shards>)
    requires Lawful(c) && |padded| == c.k * size
    ensures if size % SEGMENT_SIZE != 0 then r == Err(SizeNotDivisible)
            else
              && r.Ok? && Encodes(c, padded, size / SEGMENT_SIZE, r.value)
              && |r.value| == c.n && forall i :: 0 <= i < c.n ==> |r.value[i]| == size
  {
    hide Lawful, Encodes, Split;
    LawfulSizes(c);
    var shards := Split(padded, size, c.k);
    ConcatSplit(padded, size, c.k);
    r := EncodeShards(c, shards);
    if r.Ok? {
      EncodedSizesOf(c, padded, size / SEGMENT_SIZE, r.value);
    }
  }

  lemma EncodedSizesOf(c: Code, flat: seq<byte>, m: nat, pieces: Shards)
    requires Encodes(c, flat, m, pieces)
    ensures |pieces| == c.n && forall i :: 0 <= i < c.n ==> |pieces[i]| == 64 * m
  {
  }

  lemma NoDataFills(k: nat)
    requires k > 0
    ensures forall m: nat :: !FillsSegments(k, 0, m)
  {
    forall m: nat ensures !FillsSegments(k, 0, m) {
      if m >= 1 {
        MulMono(0, 64 * m - 1, k);
      }
    }
  }

  lemma ShardSize(n: nat, k: nat)
    requires k > 0 && n > 0
    ensures var s := (n + k - 1) / k; s > 0 && (s - 1) * k < n <= s * k
  {
    DivBounds(n + k - 1, k);
    LessOne((n + k - 1) / k, k);
    DivPositive(n + k - 1, k);
  }

  lemma LessOne(s: nat, k: nat)
    ensures (s - 1) * k == s * k - k && (s + 1) * k == s * k + k
  {
  }

  lemma FillsIff(k: nat, n: nat, size: nat)
    requires k > 0 && n > 0 && size == (n + k - 1) / k
    ensures size % SEGMENT_SIZE == 0 <==> exists m: nat :: FillsSegments(k, n, m)
    ensures forall m: nat :: FillsSegments(k, n, m) ==> size == 64 * m && size / SEGMENT_SIZE == m
  {
    ShardSize(n, k);
    hide FillsSegments;
    forall m: nat | FillsSegments(k, n, m) ensures size == 64 * m {
      FillsOnly(k, n, size, m);
    }
    if size % SEGMENT_SIZE == 0 {
      FillsAt(k, n, size, size / SEGMENT_SIZE);
    }
  }

  lemma FillsOnly(k: nat, n: nat, s: nat, m: nat)
    requires (s - 1) * k < n <= s * k && FillsSegments(k, n, m)
    ensures s == 64 * m
  {
    FillsOnce(k, n, s, 64 * m);
  }

  lemma FillsAt(k: nat, n: nat, s: nat, m: nat)
    requires s > 0 && s == 64 * m && (s - 1) * k < n <= s * k
    ensures FillsSegments(k, n, m)
  {
  }

  lemma FillsOnce(k: nat, n: nat, s: nat, t: nat)
    requires (s - 1) * k < n <= s * k && k * (t - 1) < n <= k * t
    ensures s == t
  {
    if s < t {
      MulMono(s, t - 1, k);
    } else if t < s {
      MulMono(t, s - 1, k);
    }
  }

  function PerShard(c: Code, data: seq<byte>): nat
    requires c.k > 0
  {
    (|data| + c.k - 1) / c.k
  }

  function PaddedData(c: Code, data: seq<byte>): (p: seq<byte>)
    requires c.k > 0
    ensures |p| == c.k * PerShard(c, data) && data <= p
  {
    PadLength(|data|, c.k);
    data + Zeros(c.k * PerShard(c, data) - |data|)
  }

  lemma PadLength(n: nat, k: nat)
    requires k > 0
    ensures k * ((n + k - 1) / k) >= n
  {
  }
}
