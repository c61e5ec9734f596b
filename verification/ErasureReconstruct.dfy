/** Reconstructing missing pieces in place. A piece is a slice: backing bytes and a length that may
    be smaller. Every piece is truncated to length 0 and then grows back segment by segment, while
    the present pieces are still read past their current length. */
module ErasureReconstruct {
  import opened Arith
  import opened Bytes
  import opened Erasure
  import opened ErasureRecover

  /** A slice header over its backing bytes; `|buf|` is the capacity. */
  datatype Slice = Slice(buf: seq<byte>, len: nat) {
    ghost predicate Valid() {
      len <= |buf|
    }

    function Contents(): seq<byte>
      requires Valid()
    {
      buf[..len]
    }
  }

  /** append: in place while the capacity lasts, otherwise into new backing bytes. */
  function Append(s: Slice, x: seq<byte>): (r: Slice)
    requires s.Valid()
    ensures r.Valid() && r.Contents() == s.Contents() + x
    ensures r.len <= |s.buf| ==> |r.buf| == |s.buf| && r.buf[r.len..] == s.buf[r.len..]
  {
    if s.len + |x| <= |s.buf| then Slice(s.buf[..s.len] + x + s.buf[s.len + |x|..], s.len + |x|)
    else Slice(s.buf[..s.len] + x, s.len + |x|)
  }

  ghost function AllContents(pieces: seq<Slice>): (s: Shards)
    requires forall i :: 0 <= i < |pieces| ==> pieces[i].Valid()
    ensures |s| == |pieces|
  {
    seq(|pieces|, i requires 0 <= i < |pieces| => pieces[i].Contents())
  }

  /** The pieces that are set have the same length. */
  ghost predicate SameLength(pieces: seq<Slice>, pieceSize: nat) {
    forall i :: 0 <= i < |pieces| ==> pieces[i].Valid() && (pieces[i].len == 0 || pieces[i].len == pieceSize)
  }

  /** The segments 0..m of all the original pieces, reconstructed, are the contents. */
  ghost predicate Reconstructed(c: Code, original: Shards, m: nat, contents: Shards) {
    && |contents| == |original|
    && (forall i :: 0 <= i < |contents| ==> |contents[i]| == m * SEGMENT_SIZE)
    && forall e :: 0 <= e < m ==> c.rec(SegmentOf(original, e)) == Some(SegmentOf(contents, e))
  }

  lemma PrefixSegment(piece: seq<byte>, e: nat, m: nat)
    requires |piece| == m * SEGMENT_SIZE && e < m
    ensures PieceSegment(piece, e) == piece[e * SEGMENT_SIZE..e * SEGMENT_SIZE + SEGMENT_SIZE]
  {
  }

  /** One more reconstructed segment appended to every piece. */
  lemma ReconstructedNext(c: Code, original: Shards, m: nat, contents: Shards, segment: Shards, contents': Shards)
    requires Reconstructed(c, original, m, contents) && |original| == c.n
    requires c.rec(SegmentOf(original, m)) == Some(segment) && IsFull(c, segment)
    requires |contents'| == |contents| && forall i :: 0 <= i < |contents| ==> contents'[i] == contents[i] + segment[i]
    ensures Reconstructed(c, original, m + 1, contents')
  {
    forall e | 0 <= e < m + 1 ensures c.rec(SegmentOf(original, e)) == Some(SegmentOf(contents', e)) {
      var s, s' := SegmentOf(contents, e), SegmentOf(contents', e);
      forall i | 0 <= i < |contents| ensures s'[i] == if e < m then s[i] else segment[i] {
        AppendedPiece(contents[i], segment[i], m, e);
      }
      assert e < m ==> s' == s;
      assert e == m ==> s' == segment;
    }
  }

  /** A present piece that has grown back to e segments still has all of its original bytes. */
  ghost predicate Intact(original: seq<byte>, piece: Slice, len: nat) {
    && piece.Valid() && piece.len == len
    && (original != [] ==> len <= |original| <= |piece.buf| && piece.buf[..|original|] == original)
  }

  /** Appending its own next segment to a present piece writes the bytes that are there. */
  lemma AppendKeepsIntact(original: seq<byte>, piece: Slice, e: nat, m: nat, x: seq<byte>)
    requires e < m && (original != [] ==> |original| == m * SEGMENT_SIZE && x == PieceSegment(original, e))
    requires Intact(original, piece, e * SEGMENT_SIZE) && |x| == SEGMENT_SIZE
    ensures Intact(original, Append(piece, x), (e + 1) * SEGMENT_SIZE)
  {
    if original != [] {
      var r, n := Append(piece, x), e * SEGMENT_SIZE;
      PrefixSegment(original, e, m);
      assert original == original[..n] + x + original[n + SEGMENT_SIZE..];
      assert piece.buf[..n] == original[..n];
      assert r.buf[..|original|] == piece.buf[..n] + x + piece.buf[n + SEGMENT_SIZE..][..|original| - n - SEGMENT_SIZE];
      assert piece.buf[n + SEGMENT_SIZE..][..|original| - n - SEGMENT_SIZE] == original[n + SEGMENT_SIZE..];
    }
  }

  ghost predicate AllIntact(original: Shards, pieces: seq<Slice>, len: nat) {
    |pieces| == |original| && forall i :: 0 <= i < |pieces| ==> Intact(original[i], pieces[i], len)
  }

  lemma FirstSetPiece(pieces: seq<Slice>, size: nat)
    requires SameLength(pieces, size)
    ensures forall i :: 0 <= i < |pieces| && pieces[i].len > 0 ==> PieceSize(AllContents(pieces)) == size
  {
    if pieces != [] && pieces[0].len == 0 {
      FirstSetPiece(pieces[1..], size);
      assert AllContents(pieces)[1..] == AllContents(pieces[1..]);
      forall i | 0 <= i < |pieces| && pieces[i].len > 0 ensures PieceSize(AllContents(pieces)) == size {
        assert pieces[1..][i - 1] == pieces[i];
      }
    }
  }

  method FirstLength(pieces: array<Slice>) returns (size: nat)
    requires forall i :: 0 <= i < pieces.Length ==> pieces[i].Valid()
    ensures size == PieceSize(AllContents(pieces[..]))
  {
    ghost var contents := AllContents(pieces[..]);
    size := 0;
    for i := 0 to pieces.Length
      invariant size == 0 && PieceSize(contents) == PieceSize(contents[i..])
    {
      if pieces[i].len > size {
        return pieces[i].len;
      }
    }
  }

  /** Remember which pieces are missing and set every length to 0. */
  method Truncate(pieces: array<Slice>) returns (isNil: seq<bool>)
    requires forall i :: 0 <= i < pieces.Length ==> pieces[i].Valid()
    modifies pieces
    ensures |isNil| == pieces.Length
    ensures forall i :: 0 <= i < pieces.Length ==> (isNil[i] <==> old(pieces[i].len) == 0)
    ensures AllIntact(old(AllContents(pieces[..])), pieces[..], 0)
  {
    isNil := [];
    for i := 0 to pieces.Length
      invariant |isNil| == i
      invariant forall j :: 0 <= j < i ==> (isNil[j] <==> old(pieces[j].len) == 0)
      invariant forall j :: 0 <= j < i ==> pieces[j] == Slice(old(pieces[j].buf), 0)
      invariant forall j :: i <= j < pieces.Length ==> pieces[j] == old(pieces[j])
    {
      isNil := isNil + [pieces[i].len == 0];
      pieces[i] := Slice(pieces[i].buf, 0);
    }
  }

  /** Re-read segment e of every present piece, past the current length of the piece. */
  method ReadSegment(pieces: array<Slice>, isNil: seq<bool>, e: nat, ghost original: Shards, ghost m: nat)
    returns (segment: Shards)
    requires |isNil| == pieces.Length && e < m && AllIntact(original, pieces[..], e * SEGMENT_SIZE)
    requires forall i :: 0 <= i < |original| ==> (isNil[i] <==> original[i] == [])
    requires forall i :: 0 <= i < |original| ==> original[i] == [] || |original[i]| == m * SEGMENT_SIZE
    ensures segment == SegmentOf(original, e)
  {
    var off := e * SEGMENT_SIZE;
    segment := [];
    for i := 0 to pieces.Length
      invariant |segment| == i
      invariant forall j :: 0 <= j < i ==> segment[j] == PieceSegment(original[j], e)
    {
      assert Intact(original[i], pieces[..][i], off);
      if isNil[i] {
        segment := segment + [[]];
      } else {
        PrefixSegment(original[i], e, m);
        assert pieces[i].buf[..|original[i]|][off..off + SEGMENT_SIZE] == pieces[i].buf[off..off + SEGMENT_SIZE];
        segment := segment + [pieces[i].buf[off..off + SEGMENT_SIZE]];
      }
    }
  }

  /** Append the shards of a segment to the pieces. */
  method AppendSegment(pieces: array<Slice>, segment: Shards)
    requires |segment| == pieces.Length && forall i :: 0 <= i < pieces.Length ==> pieces[i].Valid()
    modifies pieces
    ensures forall i :: 0 <= i < pieces.Length ==> pieces[i] == Append(old(pieces[i]), segment[i])
  {
    for i := 0 to pieces.Length
      invariant forall j :: 0 <= j < i ==> pieces[j] == Append(old(pieces[j]), segment[j])
      invariant forall j :: i <= j < pieces.Length ==> pieces[j] == old(pieces[j])
    {
      pieces[i] := Append(pieces[i], segment[i]);
    }
  }

  lemma SegmentStep(c: Code, original: Shards, before: seq<Slice>, segment: Shards, after: seq<Slice>, e: nat, m: nat)
    requires Lawful(c) && |original| == c.n && e < m
    requires forall i :: 0 <= i < |original| ==> original[i] == [] || |original[i]| == m * SEGMENT_SIZE
    requires AllIntact(original, before, e * SEGMENT_SIZE) && Reconstructed(c, original, e, AllContents(before))
    requires c.rec(SegmentOf(original, e)) == Some(segment)
    requires |segment| == |after| == |before|
    requires forall i :: 0 <= i < |before| ==> after[i] == Append(before[i], segment[i])
    ensures AllIntact(original, after, (e + 1) * SEGMENT_SIZE)
    ensures Reconstructed(c, original, e + 1, AllContents(after))
  {
    assert IsFull(c, segment);
    forall i | 0 <= i < |after| ensures Intact(original[i], after[i], (e + 1) * SEGMENT_SIZE) {
      assert Intact(original[i], before[i], e * SEGMENT_SIZE);
      assert SegmentOf(original, e)[i] == PieceSegment(original[i], e);
      if original[i] != [] {
        PrefixSegment(original[i], e, m);
      }
      AppendKeepsIntact(original[i], before[i], e, m, segment[i]);
    }
    ReconstructedNext(c, original, e, AllContents(before), segment, AllContents(after));
  }

  /** The segment loop of RSSubCode.Reconstruct. */
  method RebuildSegments(c: Code, pieces: array<Slice>, isNil: seq<bool>, m: nat, ghost original: Shards)
    returns (error: Option<Error>)
    requires Lawful(c) && pieces.Length == |isNil| == |original| == c.n
    requires forall i :: 0 <= i < |original| ==> (isNil[i] <==> original[i] == [])
    requires forall i :: 0 <= i < |original| ==> original[i] == [] || |original[i]| == m * SEGMENT_SIZE
    requires AllIntact(original, pieces[..], 0)
    modifies pieces
    ensures forall i :: 0 <= i < pieces.Length ==> pieces[i].Valid()
    ensures match error
            case None => Reconstructed(c, original, m, AllContents(pieces[..]))
            case Some(e) => e == TooFewShards && exists s :: 0 <= s < m && c.rec(SegmentOf(original, s)) == None
  {
    hide Lawful;
    var segmentIndex := 0;
    assert forall i :: 0 <= i < |original| ==> Intact(original[i], pieces[..][i], 0);
    while segmentIndex < m
      invariant segmentIndex <= m
      invariant AllIntact(original, pieces[..], segmentIndex * SEGMENT_SIZE)
      invariant Reconstructed(c, original, segmentIndex, AllContents(pieces[..]))
    {
      var segment := ReadSegment(pieces, isNil, segmentIndex, original, m);
      match c.rec(segment) {
        case None =>
          return Some(TooFewShards);
        case Some(shards) =>
          ghost var before := pieces[..];
          LawfulShape(c, segment);
          AppendSegment(pieces, shards);
          SegmentStep(c, original, before, shards, pieces[..], segmentIndex, m);
      }
      segmentIndex := segmentIndex + 1;
    }
    error := None;
  }

  lemma LawfulShape(c: Code, s: Shards)
    requires Lawful(c) && |s| == c.n && c.rec(s).Some?
    ensures |c.rec(s).value| == c.n
  {
  }

  /** RSSubCode.Reconstruct. On success every piece is the reconstruction of the original pieces,
      segment by segment; if a segment cannot be reconstructed, that is the error. */
  method Reconstruct(c: Code, pieces: array<Slice>, ghost pieceSize: nat) returns (error: Option<Error>)
    requires Lawful(c) && SameLength(pieces[..], pieceSize)
    modifies pieces
    ensures forall i :: 0 <= i < pieces.Length ==> pieces[i].Valid()
    ensures var original := old(AllContents(pieces[..]));
            var size := PieceSize(original);
            && (pieces.Length != c.n ==> error == Some(WrongPieceCount) && pieces[..] == old(pieces[..]))
            && (pieces.Length == c.n && size % SEGMENT_SIZE != 0 ==>
                  error == Some(SizeNotDivisible) && pieces[..] == old(pieces[..]))
            && (pieces.Length == c.n && size % SEGMENT_SIZE == 0 ==>
                  match error
                  case None => Reconstructed(c, original, size / SEGMENT_SIZE, AllContents(pieces[..]))
                  case Some(e) =>
                    e == TooFewShards &&
                    exists s :: 0 <= s < size / SEGMENT_SIZE && c.rec(SegmentOf(original, s)) == None)
  {
    hide Lawful, Reconstructed, AllIntact;
    ghost var original := AllContents(pieces[..]);
    assert forall i :: 0 <= i < pieces.Length ==> pieces[i] == pieces[..][i];
    if pieces.Length != c.n {
      return Some(WrongPieceCount);
    }
    var size := FirstLength(pieces);
    if size % SEGMENT_SIZE != 0 {
      return Some(SizeNotDivisible);
    }
    FirstSetPiece(pieces[..], pieceSize);
    var isNil := Truncate(pieces);
    error := RebuildSegments(c, pieces, isNil, size / SEGMENT_SIZE, original);
  }

  // ----- From encodings --------------------------------------------------------------------

  /** From any encoding with pieces emptied: reconstruction of every segment succeeds if enough
      pieces are left, and then gives back exactly the encoder's pieces. */
  lemma ReconstructedIsEncoding(c: Code, flat: seq<byte>, m: nat, full: Shards, keep: seq<bool>, contents: Shards)
    requires Lawful(c) && Encodes(c, flat, m, full) && |keep| == c.n && Kept(keep) >= c.k
    ensures forall e :: 0 <= e < m ==> c.rec(SegmentOf(Erase(full, keep), e)).Some?
    ensures Reconstructed(c, Erase(full, keep), m, contents) ==> contents == full
  {
    forall e | 0 <= e < m ensures c.rec(SegmentOf(Erase(full, keep), e)) == Some(SegmentOf(full, e)) {
      ErasedSegment(c, flat, m, full, keep, e);
    }
    if Reconstructed(c, Erase(full, keep), m, contents) {
      forall i | 0 <= i < c.n ensures contents[i] == full[i] {
        SameSegments(contents, full, m, i);
      }
    }
  }

  lemma ErasedSegment(c: Code, flat: seq<byte>, m: nat, full: Shards, keep: seq<bool>, e: nat)
    requires Lawful(c) && Encodes(c, flat, m, full) && |keep| == c.n && e < m
    ensures c.rec(SegmentOf(Erase(full, keep), e)) == if Kept(keep) >= c.k then Some(SegmentOf(full, e)) else None
  {
    MulMono(e + 1, m, c.k * SEGMENT_SIZE);
    MulNext(e, c.k * SEGMENT_SIZE);
    SegmentOfErased(full, keep, e);
    assert IsData(c, Split(Segment(c, flat, e), SEGMENT_SIZE, c.k));
  }

  lemma SameSegments(a: Shards, b: Shards, m: nat, i: nat)
    requires i < |a| == |b| && |a[i]| == |b[i]| == m * SEGMENT_SIZE
    requires forall e :: 0 <= e < m ==> SegmentOf(a, e) == SegmentOf(b, e)
    ensures a[i] == b[i]
  {
    forall j | 0 <= j < m * SEGMENT_SIZE ensures a[i][j] == b[i][j] {
      var e := j / SEGMENT_SIZE;
      assert SegmentOf(a, e)[i] == SegmentOf(b, e)[i];
      PrefixSegment(a[i], e, m);
      PrefixSegment(b[i], e, m);
      assert a[i][j] == PieceSegment(a[i], e)[j - e * SEGMENT_SIZE];
      assert b[i][j] == PieceSegment(b[i], e)[j - e * SEGMENT_SIZE];
    }
  }

  /** In-place reconstruction of an erased encoding: with enough pieces every piece becomes the
      encoder's output again; with some but too few it is an error; with none nothing happens. */
  method ReconstructEncoding(c: Code, pieces: array<Slice>, ghost flat: seq<byte>, ghost m: nat, ghost full: Shards,
                             ghost keep: seq<bool>) returns (error: Option<Error>)
    requires Lawful(c) && Encodes(c, flat, m, full) && m > 0 && |keep| == c.n
    requires forall i :: 0 <= i < pieces.Length ==> pieces[i].Valid()
    requires AllContents(pieces[..]) == Erase(full, keep)
    modifies pieces
    ensures forall i :: 0 <= i < pieces.Length ==> pieces[i].Valid()
    ensures error == if 0 < Kept(keep) < c.k then Some(TooFewShards) else None
    ensures Kept(keep) >= c.k ==> AllContents(pieces[..]) == full
    ensures Kept(keep) == 0 ==> AllContents(pieces[..]) == Erase(full, keep)
  {
    hide Lawful, Encodes, Reconstructed;
    EncodedSizes(c, flat, m, full);
    ErasedPieceSize(full, keep, m * SEGMENT_SIZE);
    LawfulSizes(c);
    forall i | 0 <= i < pieces.Length ensures pieces[i].len == 0 || pieces[i].len == m * SEGMENT_SIZE {
      assert pieces[i].Contents() == Erase(full, keep)[i];
    }
    assert pieces.Length == |AllContents(pieces[..])|;
    if Kept(keep) >= c.k {
      ReconstructedIsEncoding(c, flat, m, full, keep, full);
    } else {
      ErasedSegment(c, flat, m, full, keep, 0);
    }
    error := Reconstruct(c, pieces, m * SEGMENT_SIZE);
    if Kept(keep) >= c.k {
      ReconstructedIsEncoding(c, flat, m, full, keep, AllContents(pieces[..]));
    } else if Kept(keep) > 0 {
      NotReconstructed(c, Erase(full, keep), m, AllContents(pieces[..]));
    } else {
      NothingReconstructed(c, full, keep, AllContents(pieces[..]));
    }
  }

  lemma {:induction false} NothingKept(keep: seq<bool>)
    requires Kept(keep) == 0
    ensures forall i :: 0 <= i < |keep| ==> !keep[i]
  {
    if keep != [] {
      NothingKept(keep[1..]);
      assert forall i :: 0 < i < |keep| ==> keep[i] == keep[1..][i - 1];
    }
  }

  lemma NothingReconstructed(c: Code, full: Shards, keep: seq<bool>, contents: Shards)
    requires |keep| == |full| && Kept(keep) == 0 && Reconstructed(c, Erase(full, keep), 0, contents)
    ensures contents == Erase(full, keep)
  {
    NothingKept(keep);
    forall i | 0 <= i < |full| ensures Erase(full, keep)[i] == [] {
    }
  }

  lemma NotReconstructed(c: Code, original: Shards, m: nat, contents: Shards)
    requires m > 0 && c.rec(SegmentOf(original, 0)) == None
    ensures !Reconstructed(c, original, m, contents)
  {
  }
}
