/** The 99 bytes at the start of a skyfile's base sector. */
module SkyfileLayout {
  import opened Bytes

  const LAYOUT_SIZE := 99
  const CIPHER_TYPE_SIZE := 8
  const KEY_DATA_SIZE := 64

  datatype Layout = Layout(version: byte, filesize: nat, metadataSize: nat, fanoutSize: nat, dataPieces: byte,
                           parityPieces: byte, cipherType: seq<byte>, keyData: seq<byte>)

  /** The field types of a layout. */
  predicate WellTyped(l: Layout) {
    && l.filesize < U64 && l.metadataSize < U64 && l.fanoutSize < U64
    && |l.cipherType| == CIPHER_TYPE_SIZE && |l.keyData| == KEY_DATA_SIZE
  }

  /** The fields one after another. */
  function Encoding(l: Layout): (b: seq<byte>)
    requires WellTyped(l)
    ensures |b| == LAYOUT_SIZE
  {
    [l.version] + EncodeLE(l.filesize, 8) + EncodeLE(l.metadataSize, 8) + EncodeLE(l.fanoutSize, 8)
    + [l.dataPieces, l.parityPieces] + l.cipherType + l.keyData
  }

  function Uint64(b: seq<byte>, offset: nat): (n: nat)
    requires offset + 8 <= |b|
    ensures n < U64
  {
    Pow256Of8();
    EncodeDecodeLE(b[offset..offset + 8]);
    DecodeLE(b[offset..offset + 8])
  }

  /** The layout that is encoded at the start of a byte string. */
  function Decoded(b: seq<byte>): (l: Layout)
    requires |b| >= LAYOUT_SIZE
    ensures WellTyped(l)
  {
    Layout(b[0], Uint64(b, 1), Uint64(b, 9), Uint64(b, 17), b[25], b[26], b[27..35], b[35..99])
  }

  /** Encoding undoes decoding. */
  lemma EncodeDecoded(b: seq<byte>)
    requires |b| >= LAYOUT_SIZE
    ensures Encoding(Decoded(b)) == b[..LAYOUT_SIZE]
  {
    hide EncodeLE, DecodeLE, Uint64;
    Reencoded(b, 1);
    Reencoded(b, 9);
    Reencoded(b, 17);
  }

  /** Decoding undoes encoding, whatever follows the layout. */
  lemma DecodeEncoded(l: Layout, rest: seq<byte>)
    requires WellTyped(l)
    ensures Decoded(Encoding(l) + rest) == l
  {
    hide Encoding, Decoded;
    var b := Encoding(l) + rest;
    EncodeDecoded(b);
    assert b[..LAYOUT_SIZE] == Encoding(l);
    EncodingInjective(Decoded(b), l);
  }

  /** SkyfileLayout.Decode reads field after field. */
  method Decode(b: seq<byte>) returns (l: Layout)
    requires |b| >= LAYOUT_SIZE
    ensures l == Decoded(b)
  {
    hide Uint64;
    var offset := 0;
    var version := b[offset];
    offset := offset + 1;
    var filesize := Uint64(b, offset);
    offset := offset + 8;
    var metadataSize := Uint64(b, offset);
    offset := offset + 8;
    var fanoutSize := Uint64(b, offset);
    offset := offset + 8;
    var dataPieces := b[offset];
    offset := offset + 1;
    var parityPieces := b[offset];
    offset := offset + 1;
    var cipherType := b[offset..offset + CIPHER_TYPE_SIZE];
    offset := offset + CIPHER_TYPE_SIZE;
    var keyData := b[offset..offset + KEY_DATA_SIZE];
    l := Layout(version, filesize, metadataSize, fanoutSize, dataPieces, parityPieces, cipherType, keyData);
  }

  lemma Reencoded(b: seq<byte>, offset: nat)
    requires offset + 8 <= |b|
    ensures EncodeLE(Uint64(b, offset), 8) == b[offset..offset + 8]
  {
    EncodeDecodeLE(b[offset..offset + 8]);
  }

  /** No two layouts have the same encoding. */
  lemma EncodingInjective(l: Layout, l': Layout)
    requires WellTyped(l) && WellTyped(l') && Encoding(l) == Encoding(l')
    ensures l == l'
  {
    hide EncodeLE, DecodeLE;
    U64RoundTrip(l.filesize);
    U64RoundTrip(l.metadataSize);
    U64RoundTrip(l.fanoutSize);
    U64RoundTrip(l'.filesize);
    U64RoundTrip(l'.metadataSize);
    U64RoundTrip(l'.fanoutSize);
    FieldsOf(l);
    FieldsOf(l');
    assert [l.version] == [l'.version] && [l.dataPieces, l.parityPieces] == [l'.dataPieces, l'.parityPieces];
    assert l.version == [l.version][0] == [l'.version][0] == l'.version;
    assert l.dataPieces == [l.dataPieces, l.parityPieces][0] == [l'.dataPieces, l'.parityPieces][0];
    assert l.parityPieces == [l.dataPieces, l.parityPieces][1] == [l'.dataPieces, l'.parityPieces][1];
  }

  /** Where the fields are. */
  lemma FieldsOf(l: Layout)
    requires WellTyped(l)
    ensures var b := Encoding(l);
            && b[..1] == [l.version]
            && b[1..9] == EncodeLE(l.filesize, 8)
            && b[9..17] == EncodeLE(l.metadataSize, 8)
            && b[17..25] == EncodeLE(l.fanoutSize, 8)
            && b[25..27] == [l.dataPieces, l.parityPieces]
            && b[27..35] == l.cipherType
            && b[35..99] == l.keyData
  {
    hide EncodeLE;
  }

  /** Copy s into a buffer behind what is already there; the rest of the buffer stays zero. */
  method Put(b: array<byte>, offset: nat, s: seq<byte>, ghost done: seq<byte>) returns (next: nat)
    requires offset == |done| && offset + |s| <= b.Length
    requires b[..] == done + Zeros(b.Length - offset)
    modifies b
    ensures next == offset + |s| && b[..] == done + s + Zeros(b.Length - next)
  {
    for i := 0 to |s|
      invariant b[..] == done + s[..i] + Zeros(b.Length - offset - i)
    {
      ghost var before := b[..];
      b[offset + i] := s[i];
      assert b[..] == before[offset + i := s[i]];
      PutNext(done, s, b.Length - offset, i);
    }
    assert s[..|s|] == s;
    next := offset + |s|;
  }

  lemma PutNext(done: seq<byte>, s: seq<byte>, room: nat, i: nat)
    requires i < |s| <= room
    ensures (done + s[..i] + Zeros(room - i))[|done| + i := s[i]] == done + s[..i + 1] + Zeros(room - (i + 1))
  {
    var x, y := (done + s[..i] + Zeros(room - i))[|done| + i := s[i]], done + s[..i + 1] + Zeros(room - (i + 1));
    assert |x| == |y|;
    forall k | 0 <= k < |x| ensures x[k] == y[k] {
    }
  }

  /** SkyfileLayout.Encode fills a buffer of 99 bytes field by field. */
  method Encode(l: Layout) returns (b: array<byte>)
    requires WellTyped(l)
    ensures fresh(b) && b[..] == Encoding(l)
  {
    hide EncodeLE, Zeros;
    b := NewBuffer(LAYOUT_SIZE);
    ghost var sizes := [l.version] + EncodeLE(l.filesize, 8) + EncodeLE(l.metadataSize, 8) + EncodeLE(l.fanoutSize, 8);
    assert [] + [l.version] == [l.version];
    var offset := Put(b, 0, [l.version], []);
    offset := Put(b, offset, EncodeLE(l.filesize, 8), [l.version]);
    offset := Put(b, offset, EncodeLE(l.metadataSize, 8), [l.version] + EncodeLE(l.filesize, 8));
    offset := Put(b, offset, EncodeLE(l.fanoutSize, 8),
                  [l.version] + EncodeLE(l.filesize, 8) + EncodeLE(l.metadataSize, 8));
    offset := Put(b, offset, [l.dataPieces], sizes);
    offset := Put(b, offset, [l.parityPieces], sizes + [l.dataPieces]);
    assert sizes + [l.dataPieces] + [l.parityPieces] == sizes + [l.dataPieces, l.parityPieces];
    offset := Put(b, offset, l.cipherType, sizes + [l.dataPieces, l.parityPieces]);
    offset := Put(b, offset, l.keyData, sizes + [l.dataPieces, l.parityPieces] + l.cipherType);
    assert offset == LAYOUT_SIZE;
    assert b[..] == Encoding(l) + Zeros(0) == Encoding(l);
  }

  method NewBuffer(n: nat) returns (b: array<byte>)
    ensures fresh(b) && b.Length == n && b[..] == Zeros(n) == [] + Zeros(n - 0)
  {
    b := new byte[n](_ => 0);
    assert [] + Zeros(n) == Zeros(n);
  }
}
