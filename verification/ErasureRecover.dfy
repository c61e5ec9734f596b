/** Decoding: recovering the data from pieces with erasures, recovering one extracted segment, and
    reconstructing the missing pieces in place. */
module ErasureRecover {
  import opened Arith
  import opened Bytes
  import opened Erasure

  // ----- Recovering data -------------------------------------------------------------------

  /** The size of the first piece that is not empty. */
  function PieceSize(pieces: Shards): nat {
    if pieces == [] then 0 else if |pieces[0]| > 0 then |pieces[0]| else PieceSize(pieces[1..])
  }

  method FirstPieceSize(pieces: Shards) returns (pieceSize: nat)
    ensures pieceSize == PieceSize(pieces)
  {
    pieceSize := 0;
    for i := 0 to |pieces|
      invariant pieceSize == 0 && PieceSize(pieces) == PieceSize(pieces[i..])
    {
      if |pieces[i]| > pieceSize {
        return |pieces[i]|;
      }
    }
  }

  function Prefix(s: seq<byte>, n: nat): seq<byte> {
    if n <= |s| then s[..n] else s
  }

  /** RSCode.Recover: the first n bytes of the data shards. */
  function RecoverSegment(c: Code, segment: Shards, n: nat): Result<seq<byte>> {
    match c.rec(segment)
    case None => Err(TooFewShards)
    case Some(shards) => Ok(Prefix(Concat(if c.k <= |shards| then shards[..c.k] else shards), n))
  }

  /** Recovering n bytes from segment e on: what is written, and the error that stops it. */
  function RecoverFrom(c: Code, pieces: Shards, m: nat, e: nat, n: nat): (seq<byte>, Option<Error>)
    decreases m - e
  {
    if e >= m || n == 0 then ([], None)
    else
      var size := if n < c.k * SEGMENT_SIZE then n else c.k * SEGMENT_SIZE;
      match RecoverSegment(c, SegmentOf(pieces, e), size)
      case Err(error) => ([], Some(error))
      case Ok(bytes) =>
        var (rest, error) := RecoverFrom(c, pieces, m, e + 1, n - size);
        (bytes + rest, error)
  }

  /** RSSubCode.Recover: the bytes written to the output and the error. */
  method Recover(c: Code, pieces: Shards, n: nat) returns (written: seq<byte>, error: Option<Error>)
    ensures |pieces| != c.n ==> written == [] && error == Some(WrongPieceCount)
    ensures |pieces| == c.n && PieceSize(pieces) % SEGMENT_SIZE != 0 ==>
              written == [] && error == Some(SizeNotDivisible)
    ensures |pieces| == c.n && PieceSize(pieces) % SEGMENT_SIZE == 0 ==>
              (written, error) == RecoverFrom(c, pieces, PieceSize(pieces) / SEGMENT_SIZE, 0, n)
  {
    if |pieces| != c.n {
      return [], Some(WrongPieceCount);
    }
    var pieceSize := FirstPieceSize(pieces);
    if pieceSize % SEGMENT_SIZE != 0 {
      return [], Some(SizeNotDivisible);
    }
    hide RecoverSegment, SegmentOf, PieceSize;
    var decodedSegmentSize := c.k * SEGMENT_SIZE;
    var m := pieceSize / SEGMENT_SIZE;
    var left: nat := n;
    var segmentIndex := 0;
    written := [];
    assert written + RecoverFrom(c, pieces, m, 0, n).0 == RecoverFrom(c, pieces, m, 0, n).0;
    while segmentIndex < m && left > 0
      invariant segmentIndex <= m
      invariant left > 0 ==> decodedSegmentSize == c.k * SEGMENT_SIZE
      invariant var (rest, e) := RecoverFrom(c, pieces, m, segmentIndex, left);
                (written + rest, e) == RecoverFrom(c, pieces, m, 0, n)
    {
      if left < decodedSegmentSize {
        decodedSegmentSize := left;
      }
      match RecoverSegment(c, SegmentOf(pieces, segmentIndex), decodedSegmentSize) {
        case Err(e) =>
          assert written + [] == written;
          return written, Some(e);
        case Ok(bytes) =>
          ghost var rest := RecoverFrom(c, pieces, m, segmentIndex + 1, left - decodedSegmentSize).0;
          PlusAssoc(written, bytes, rest);
          written := written + bytes;
          left := left - decodedSegmentSize;
      }
      segmentIndex := segmentIndex + 1;
    }
    assert written + [] == written;
    error := None;
  }

  lemma SegmentOfErased(pieces: Shards, keep: seq<bool>, e: nat)
    requires |keep| == |pieces|
    ensures SegmentOf(Erase(pieces, keep), e) == Erase(SegmentOf(pieces, e), keep)
  {
  }

  lemma {:induction false} ErasedPieceSize(pieces: Shards, keep: seq<bool>, size: nat)
    requires |keep| == |pieces| && forall i :: 0 <= i < |pieces| ==> |pieces[i]| == size
    ensures PieceSize(Erase(pieces, keep)) == if Kept(keep) > 0 then size else 0
  {
    var e := Erase(pieces, keep);
    if pieces != [] {
      ErasedPieceSize(pieces[1..], keep[1..], size);
      assert e[1..] == Erase(pieces[1..], keep[1..]);
      if size == 0 {
        AllEmpty(e);
      }
    }
  }

  lemma {:induction false} AllEmpty(pieces: Shards)
    requires forall i :: 0 <= i < |pieces| ==> pieces[i] == []
    ensures PieceSize(pieces) == 0
  {
    if pieces != [] {
      AllEmpty(pieces[1..]);
    }
  }

  /** One segment of an erased encoding is recovered if and only if enough pieces are left. */
  lemma SegmentRecovers(c: Code, flat: seq<byte>, m: nat, full: Shards, keep: seq<bool>, e: nat, n: nat)
    requires Lawful(c) && Encodes(c, flat, m, full) && |keep| == c.n && e < m
    requires n <= c.k * SEGMENT_SIZE
    ensures (e + 1) * (c.k * SEGMENT_SIZE) <= |flat|
    ensures RecoverSegment(c, SegmentOf(Erase(full, keep), e), n)
            == if Kept(keep) >= c.k then Ok(Segment(c, flat, e)[..n]) else Err(TooFewShards)
  {
    MulMono(e + 1, m, c.k * SEGMENT_SIZE);
    MulNext(e, c.k * SEGMENT_SIZE);
    SegmentOfErased(full, keep, e);
    var d := Split(Segment(c, flat, e), SEGMENT_SIZE, c.k);
    assert IsData(c, d) && SegmentOf(full, e) == c.enc(d);
    ConcatSplit(Segment(c, flat, e), SEGMENT_SIZE, c.k);
  }

  lemma {:induction false} RecoverFromEncoding(c: Code, flat: seq<byte>, m: nat, full: Shards, keep: seq<bool>,
                                               e: nat, n: nat)
    requires Lawful(c) && Encodes(c, flat, m, full) && |keep| == c.n && Kept(keep) >= c.k
    requires e <= m && e * (c.k * SEGMENT_SIZE) + n <= |flat|
    ensures RecoverFrom(c, Erase(full, keep), m, e, n)
            == (flat[e * (c.k * SEGMENT_SIZE)..e * (c.k * SEGMENT_SIZE) + n], None)
    decreases m - e
  {
    hide Lawful, Encodes, Segment, RecoverSegment, Erase, SegmentOf;
    var size := c.k * SEGMENT_SIZE;
    EncodedLength(c, flat, m, full);
    if n == 0 {
      assert flat[e * size..e * size + n] == [];
    } else {
      assert e < m;
      var part := if n < size then n else size;
      MulNext(e, size);
      MulMono(e + 1, m, size);
      SegmentRecovers(c, flat, m, full, keep, e, part);
      RecoverFromEncoding(c, flat, m, full, keep, e + 1, n - part);
      SegmentPart(c, flat, e, part);
      SplitAt(flat, e * size, e * size + part, e * size + n);
    }
  }

  lemma EncodedLength(c: Code, flat: seq<byte>, m: nat, full: Shards)
    requires Encodes(c, flat, m, full)
    ensures |flat| == m * (c.k * SEGMENT_SIZE)
  {
  }

  lemma SegmentPart(c: Code, flat: seq<byte>, e: nat, n: nat)
    requires (e + 1) * (c.k * SEGMENT_SIZE) <= |flat| && n <= c.k * SEGMENT_SIZE
    ensures 0 <= e * (c.k * SEGMENT_SIZE) && e * (c.k * SEGMENT_SIZE) + n <= |flat|
    ensures |Segment(c, flat, e)| == c.k * SEGMENT_SIZE
    ensures Segment(c, flat, e)[..n] == flat[e * (c.k * SEGMENT_SIZE)..e * (c.k * SEGMENT_SIZE) + n]
  {
    MulNext(e, c.k * SEGMENT_SIZE);
    SubSlice(flat, e * (c.k * SEGMENT_SIZE), (e + 1) * (c.k * SEGMENT_SIZE), 0, n);
  }

  lemma EncodedSizes(c: Code, flat: seq<byte>, m: nat, full: Shards)
    requires Encodes(c, flat, m, full)
    ensures |full| == c.n && forall i :: 0 <= i < |full| ==> |full[i]| == m * SEGMENT_SIZE
  {
  }

  lemma RecoverNothing(c: Code, pieces: Shards, n: nat)
    ensures RecoverFrom(c, pieces, 0, 0, n) == ([], None)
    ensures forall m :: RecoverFrom(c, pieces, m, 0, 0) == ([], None)
  {
  }

  lemma TooFewPieces(c: Code, flat: seq<byte>, m: nat, full: Shards, keep: seq<bool>, n: nat)
    requires Lawful(c) && Encodes(c, flat, m, full) && |keep| == c.n && 0 < n <= |flat|
    requires Kept(keep) < c.k
    ensures RecoverFrom(c, Erase(full, keep), m, 0, n) == ([], Some(TooFewShards))
  {
    hide Lawful, Encodes, Segment, RecoverSegment, Erase, SegmentOf;
    EncodedLength(c, flat, m, full);
    assert m > 0;
    SegmentRecovers(c, flat, m, full, keep, 0, if n < c.k * SEGMENT_SIZE then n else c.k * SEGMENT_SIZE);
  }

  /** Recovering n bytes of an erased encoding: with enough pieces the first n bytes of the data;
      with too few an error; and with no piece at all nothing is written and no error reported. */
  lemma RecoverErased(c: Code, flat: seq<byte>, m: nat, full: Shards, keep: seq<bool>, n: nat)
    requires Lawful(c) && Encodes(c, flat, m, full) && |keep| == c.n && n <= |flat|
    ensures PieceSize(Erase(full, keep)) % SEGMENT_SIZE == 0
    ensures RecoverFrom(c, Erase(full, keep), PieceSize(Erase(full, keep)) / SEGMENT_SIZE, 0, n)
            == if n == 0 || Kept(keep) == 0 then ([], None)
               else if Kept(keep) < c.k then ([], Some(TooFewShards))
               else (flat[..n], None)
  {
    hide Lawful, Encodes, Erase, RecoverFrom, PieceSize;
    EncodedSizes(c, flat, m, full);
    ErasedPieceSize(full, keep, m * SEGMENT_SIZE);
    var pieces := Erase(full, keep);
    RecoverNothing(c, pieces, n);
    if n > 0 && Kept(keep) > 0 {
      if Kept(keep) >= c.k {
        RecoverFromEncoding(c, flat, m, full, keep, 0, n);
      } else {
        TooFewPieces(c, flat, m, full, keep, n);
      }
    }
  }

  /** Round trip: from the encoding of any data with any erasures, the first n bytes come back
      without an error if and only if n is 0 or at least k pieces are left. */
  lemma RecoverIffEnoughPieces(c: Code, data: seq<byte>, padding: seq<byte>, m: nat, full: Shards, keep: seq<bool>,
                               n: nat)
    requires Lawful(c) && n <= |data| && |keep| == c.n && Encodes(c, data + padding, m, full)
    ensures var pieces := Erase(full, keep);
            RecoverFrom(c, pieces, PieceSize(pieces) / SEGMENT_SIZE, 0, n) == (data[..n], None)
            <==> n == 0 || Kept(keep) >= c.k
  {
    var flat := data + padding;
    RecoverErased(c, flat, m, full, keep, n);
    SubSlice(flat, 0, |data|, 0, n);
    assert flat[0..|data|] == data;
    assert n > 0 ==> data[..n] != [];
  }

  // ----- One segment on its own ------------------------------------------------------------

  /** ExtractSegment, for the segment size of the code. */
  function ExtractSegment(pieces: Shards, segmentIndex: nat): Shards {
    SegmentOf(pieces, segmentIndex)
  }

  /** One extracted segment is itself an encoding, of its own slice of the data. */
  lemma ExtractedEncodes(c: Code, flat: seq<byte>, m: nat, full: Shards, e: nat)
    requires Lawful(c) && Encodes(c, flat, m, full) && e < m
    ensures (e + 1) * (c.k * SEGMENT_SIZE) <= |flat|
    ensures Encodes(c, Segment(c, flat, e), 1, ExtractSegment(full, e))
  {
    MulMono(e + 1, m, c.k * SEGMENT_SIZE);
    var segment, pieces := Segment(c, flat, e), ExtractSegment(full, e);
    SegmentPart(c, flat, e, c.k * SEGMENT_SIZE);
    ExtractTwice(full, m, e);
    assert SegmentOf(pieces, 0) == EncodedSegment(c, flat, e) == EncodedSegment(c, segment, 0) by {
      EncodedAlone(c, flat, e);
    }
  }

  lemma ExtractTwice(full: Shards, m: nat, e: nat)
    requires e < m && forall i :: 0 <= i < |full| ==> |full[i]| == m * SEGMENT_SIZE
    ensures SegmentOf(ExtractSegment(full, e), 0) == ExtractSegment(full, e)
    ensures forall i :: 0 <= i < |full| ==> |ExtractSegment(full, e)[i]| == SEGMENT_SIZE
  {
    var s := ExtractSegment(full, e);
    forall i | 0 <= i < |full| ensures |s[i]| == SEGMENT_SIZE && PieceSegment(s[i], 0) == s[i] {
    }
  }

  lemma EncodedAlone(c: Code, flat: seq<byte>, e: nat)
    requires (e + 1) * (c.k * SEGMENT_SIZE) <= |flat|
    ensures |Segment(c, flat, e)| == c.k * SEGMENT_SIZE
    ensures EncodedSegment(c, Segment(c, flat, e), 0) == EncodedSegment(c, flat, e)
  {
    SegmentPart(c, flat, e, c.k * SEGMENT_SIZE);
    var segment := Segment(c, flat, e);
    assert Segment(c, segment, 0) == segment[0 * |segment|..(0 + 1) * |segment|] == segment;
  }

  /** Decoding one extracted segment gives the matching slice of the padded data, from any k
      pieces and from no fewer. */
  lemma ExtractedSegmentRecovers(c: Code, flat: seq<byte>, m: nat, full: Shards, keep: seq<bool>, e: nat)
    requires Lawful(c) && Encodes(c, flat, m, full) && |keep| == c.n && e < m
    ensures (e + 1) * (c.k * SEGMENT_SIZE) <= |flat|
    ensures var pieces := ExtractSegment(Erase(full, keep), e);
            && PieceSize(pieces) % SEGMENT_SIZE == 0
            && (Kept(keep) >= c.k <==>
                RecoverFrom(c, pieces, PieceSize(pieces) / SEGMENT_SIZE, 0, c.k * SEGMENT_SIZE)
                == (Segment(c, flat, e), None))
  {
    ExtractedEncodes(c, flat, m, full, e);
    SegmentOfErased(full, keep, e);
    SegmentPart(c, flat, e, c.k * SEGMENT_SIZE);
    var segment := Segment(c, flat, e);
    RecoverErased(c, segment, 1, ExtractSegment(full, e), keep, c.k * SEGMENT_SIZE);
    assert segment[..|segment|] == segment;
  }
}
