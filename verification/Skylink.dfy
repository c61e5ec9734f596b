/** Skylinks: a 16-bit bitfield and a 32-byte Merkle root, with a raw form of 34 bytes and two string
    forms. */
module Skylink {
  import opened Arith
  import opened BaseCodec
  import opened Bytes
  import opened SkylinkBitfield

  const RAW_SKYLINK_SIZE := 34
  const BASE32_ENCODED_SIZE := 55
  const BASE64_ENCODED_SIZE := 46

  datatype LinkError = IncorrectSize | BadCharacter | UnknownVersion | BadBitfield(error: Error)

  datatype Link = Link(bitfield: nat, root: seq<byte>)

  datatype Result<+T> = Ok(value: T) | Err(error: LinkError)

  predicate IsSkylinkV1(bitfield: nat) {
    bitfield % 4 == 0
  }

  predicate IsSkylinkV2(bitfield: nat) {
    bitfield == 1
  }

  /** What LoadBytes demands of a bitfield. */
  function CheckBitfield(bitfield: nat): Option<LinkError> {
    if IsSkylinkV1(bitfield) then
      match ParseV1(bitfield).1
      case None => None
      case Some(e) => Some(BadBitfield(e))
    else if IsSkylinkV2(bitfield) then None
    else Some(UnknownVersion)
  }

  ghost predicate Legal(l: Link) {
    l.bitfield < U16 && |l.root| == 32 && CheckBitfield(l.bitfield) == None
  }

  // ----- The raw form ----------------------------------------------------------------------

  function ToBytes(l: Link): seq<byte> {
    EncodeLE(l.bitfield, 2) + l.root
  }

  /** LoadBytes as a function: the link of 34 bytes, or why there is none. */
  function FromBytes(data: seq<byte>): Result<Link> {
    if |data| != RAW_SKYLINK_SIZE then Err(IncorrectSize)
    else
      var bitfield := DecodeLE(data[..2]);
      match CheckBitfield(bitfield)
      case Some(e) => Err(e)
      case None => Ok(Link(bitfield, data[2..]))
  }

  lemma FromToBytes(l: Link)
    requires Legal(l)
    ensures |ToBytes(l)| == RAW_SKYLINK_SIZE && FromBytes(ToBytes(l)) == Ok(l)
  {
    hide CheckBitfield;
    assert Pow(256, 2) == U16;
    DecodeEncodeLE(l.bitfield, 2);
    assert ToBytes(l)[..2] == EncodeLE(l.bitfield, 2) && ToBytes(l)[2..] == l.root;
  }

  /** The bytes that load are exactly those of the legal links. */
  lemma ToFromBytes(data: seq<byte>)
    requires FromBytes(data).Ok?
    ensures Legal(FromBytes(data).value) && ToBytes(FromBytes(data).value) == data
  {
    hide CheckBitfield;
    assert Pow(256, 2) == U16;
    EncodeDecodeLE(data[..2]);
    assert data[..2] + data[2..] == data;
  }

  /** What the first two bytes of a link may say: version 2, or the window of some range of a sector. */
  ghost predicate IsLinkNumber(b: nat) {
    b == 1 || exists offset, len :: IsWindowOf(b, offset, len)
  }

  ghost predicate IsWindowOf(b: nat, offset: nat, len: nat) {
    len >= 1 && offset + len <= 0x40_0000 && EncodeBitfield(offset, len) == Some(b)
  }

  lemma CheckIff(b: nat)
    requires b < U16
    ensures CheckBitfield(b) == None <==> IsLinkNumber(b)
  {
    hide EncodeBitfield, ParseV1;
    if ParseV1(b).1 == None {
      ParsedInSector(b);
      ParseThenEncode(b);
      NotV1Parsed(b);
      assert IsWindowOf(b, ParseV1(b).0.offset, ParseV1(b).0.fetchSize);
    }
    if b != 1 && IsLinkNumber(b) {
      var offset, len :| IsWindowOf(b, offset, len);
      EncodeThenParse(offset, len);
      NotV1Parsed(b);
    }
  }

  lemma NotV1Parsed(b: nat)
    ensures b % 4 != 0 ==> ParseV1(b).1 != None
  {
  }

  /** Bytes load if and only if there are 34 of them and the little-endian number at their start is that of a
      version 2 link or of the window of a range; the other bytes are the root. */
  lemma LoadsIff(data: seq<byte>)
    ensures FromBytes(data).Ok? <==> |data| == 34 && IsLinkNumber(data[0] as nat + 256 * data[1] as nat)
    ensures FromBytes(data).Ok? ==> FromBytes(data) == Ok(Link(data[0] as nat + 256 * data[1] as nat, data[2..]))
  {
    hide CheckBitfield, IsLinkNumber;
    if |data| == 34 {
      TwoBytes(data[..2]);
      CheckIff(DecodeLE(data[..2]));
    }
  }

  lemma TwoBytes(s: seq<byte>)
    requires |s| == 2
    ensures DecodeLE(s) == s[0] + 256 * s[1] < U16
  {
    assert DecodeLE(s[1..]) == s[1] + 256 * DecodeLE(s[1..][1..]);
    assert s[1..][1..] == [];
  }

  // ----- The string forms ------------------------------------------------------------------

  function Before(s: string, c: char): string {
    if s == "" || s[0] == c then "" else [s[0]] + Before(s[1..], c)
  }

  function AsBytes(xs: seq<nat>): (b: seq<byte>)
    ensures |b| == |xs|
  {
    seq(|xs|, i requires 0 <= i < |xs| => LowByte(xs[i]))
  }

  function LowByte(x: nat): byte {
    x % 256
  }

  /** decodeSkylink: the length of the string selects the encoding. */
  function DecodeSkylink(encoded: string): Result<seq<byte>> {
    if |encoded| != BASE32_ENCODED_SIZE && |encoded| != BASE64_ENCODED_SIZE then Err(IncorrectSize)
    else
      match DecodeString(encoded, |encoded| == BASE64_ENCODED_SIZE)
      case None => Err(BadCharacter)
      case Some(xs) => Ok(AsBytes(xs))
  }

  /** LoadString as a function: everything after the first '?' and then after the first '/' is
      dropped. */
  function FromString(s: string): Result<Link> {
    match DecodeSkylink(Before(Before(s, '?'), '/'))
    case Err(e) => Err(e)
    case Ok(raw) => FromBytes(raw)
  }

  function ToString(l: Link, base64: bool): string {
    EncodeString(ToBytes(l), base64)
  }

  lemma {:induction false} BeforeSuffix(s: string, suffix: string, c: char)
    requires forall i :: 0 <= i < |s| ==> s[i] != c
    ensures Before(s + suffix, c) == s + Before(suffix, c)
  {
    if s == "" {
      assert s + suffix == suffix;
    } else {
      BeforeSuffix(s[1..], suffix, c);
      assert (s + suffix)[1..] == s[1..] + suffix;
    }
  }

  /** A path or parameters after a skylink. */
  predicate IsSuffix(suffix: string) {
    suffix == "" || suffix[0] == '?' || suffix[0] == '/'
  }

  lemma SuffixDropped(s: string, suffix: string)
    requires IsSuffix(suffix) && forall i :: 0 <= i < |s| ==> s[i] != '?' && s[i] != '/'
    ensures Before(Before(s + suffix, '?'), '/') == s
  {
    BeforeSuffix(s, suffix, '?');
    var rest := Before(suffix, '?');
    BeforeSuffix(s, rest, '/');
    assert Before(rest, '/') == "";
  }

  lemma EncodedSize(l: Link, base64: bool)
    requires Legal(l)
    ensures |ToString(l, base64)| == if base64 then BASE64_ENCODED_SIZE else BASE32_ENCODED_SIZE
  {
    hide Encode, CheckBitfield;
    FromToBytes(l);
    DecodeEncode(ToBytes(l), BitsPerDigit(base64));
  }

  lemma AsBytesOfNumbers(data: seq<byte>)
    ensures AsBytes(AsNumbers(data)) == data
  {
  }

  /** Every legal link survives both string forms, with any path or parameters appended. */
  lemma StringRoundTrip(l: Link, base64: bool, suffix: string)
    requires Legal(l) && IsSuffix(suffix)
    ensures FromString(ToString(l, base64) + suffix) == Ok(l)
  {
    hide EncodeString, DecodeString, Legal, FromBytes;
    FromToBytes(l);
    EncodedSize(l, base64);
    DecodeEncodeString(ToBytes(l), base64);
    AsBytesOfNumbers(ToBytes(l));
    SuffixDropped(ToString(l, base64), suffix);
  }

  /** A base 32 link may also be written with lower-case letters. */
  lemma LowerCaseLoads(l: Link, s: string, suffix: string)
    requires Legal(l) && IsSuffix(suffix) && Lowered(s, ToString(l, false))
    ensures FromString(s + suffix) == Ok(l)
  {
    hide EncodeString, Legal, FromBytes, Parse;
    FromToBytes(l);
    EncodedSize(l, false);
    DecodeEncodeString(ToBytes(l), false);
    AsBytesOfNumbers(ToBytes(l));
    ParseLowered(s, ToString(l, false));
    SuffixDropped(s, suffix);
  }

  // ----- The object ------------------------------------------------------------------------

  class Skylink {
    var bitfield: nat
    var merkleRoot: seq<byte>

    function AsLink(): Link
      reads this
    {
      Link(bitfield, merkleRoot)
    }

    constructor ()
      ensures AsLink() == Link(0, Zeros(32))
    {
      bitfield, merkleRoot := 0, Zeros(32);
    }

    /** LoadBytes: the bitfield is checked first, so that rejected data leaves the link unchanged. */
    method LoadBytes(data: seq<byte>) returns (error: Option<LinkError>)
      modifies this
      ensures match FromBytes(data)
              case Ok(l) => error == None && AsLink() == l
              case Err(e) => error == Some(e) && AsLink() == old(AsLink())
      ensures error == None <==> |data| == 34 && IsLinkNumber(data[0] as nat + 256 * data[1] as nat)
      ensures error == None ==> bitfield == data[0] as nat + 256 * data[1] as nat && merkleRoot == data[2..]
    {
      hide IsLinkNumber;
      LoadsIff(data);
      if |data| != RAW_SKYLINK_SIZE {
        return Some(IncorrectSize);
      }
      var b := DecodeLE(data[..2]);
      if IsSkylinkV1(b) {
        match ParseV1(b).1 {
          case None =>
          case Some(e) => return Some(BadBitfield(e));
        }
      } else if !IsSkylinkV2(b) {
        return Some(UnknownVersion);
      }
      bitfield, merkleRoot := b, data[2..];
      return None;
    }

    /** LoadString. */
    method LoadString(s: string) returns (error: Option<LinkError>)
      modifies this
      ensures match FromString(s)
              case Ok(l) => error == None && AsLink() == l
              case Err(e) => error == Some(e) && AsLink() == old(AsLink())
    {
      match DecodeSkylink(Before(Before(s, '?'), '/')) {
        case Err(e) => return Some(e);
        case Ok(raw) => error := LoadBytes(raw);
      }
    }

    /** setOffsetAndFetchSize. Alignments are powers of two, so masking is a remainder. */
    method SetOffsetAndFetchSize(offset: nat, length: nat) returns (ok: bool)
      requires offset < U64 && length < U64
      modifies this`bitfield
      ensures match EncodeBitfield(offset, length)
              case Some(b) => ok && bitfield == b
              case None => !ok && bitfield == old(bitfield)
    {
      hide ModeMax, FetchIndex, Pack, ModeOf;
      if (offset + length) % U64 > MAX_FETCH_SIZE {
        return false;
      }
      var mode, offsetAlign := ChooseMode(length);
      if offset % offsetAlign != 0 {
        return false;
      }
      var bitwiseFetchSize := FetchBits(length, mode, offsetAlign);
      ghost var o, f := offset / offsetAlign, FetchIndex(length, mode);
      hide OffsetAlign;
      DivNonNegative(offset, offsetAlign);
      var b := (offset / offsetAlign) % U16;
      WrapTimes(o);
      b := (b * 8) % U16;
      WrapSum(o * 8, f);
      b := (b + bitwiseFetchSize) % U16;
      b := ShiftInModeBits(b, o * 8 + f, mode, offsetAlign);
      WrapTimes(2 * Pow2(mode) * (o * 8 + f) + Pow2(mode) - 1);
      bitfield := (b * 4) % U16;
      PackIsBits(o, f, mode);
      ok := true;
    }
  }

  /** The alignment loop: the mode is the first one with room for the length. */
  method ChooseMode(length: nat) returns (ghost mode: nat, offsetAlign: nat)
    ensures mode == ModeOf(length, 0) && offsetAlign == OffsetAlign(ModeOf(length, 0))
  {
    Pow2Values();
    var minFetchSize := 0x20_0000;
    offsetAlign, mode := 0x8_0000, 7;
    while length <= minFetchSize && offsetAlign > 0x1000
      invariant mode <= 7 && offsetAlign == OffsetAlign(mode) && 2 * minFetchSize == ModeMax(mode)
      invariant mode < 7 ==> length <= ModeMax(mode)
      decreases mode
    {
      offsetAlign := offsetAlign / 2;
      minFetchSize := minFetchSize / 2;
      mode := mode - 1;
    }
    ModeOfUnique(length, mode, 0);
  }

  /** The fetch size bits: shift the range of the mode down, and round down to a whole step after
      stepping off an exact multiple. */
  method FetchBits(length: nat, ghost mode: nat, offsetAlign: nat) returns (bits: nat)
    requires mode == ModeOf(length, 0) && offsetAlign == OffsetAlign(mode)
    ensures bits == FetchIndex(length, mode) % U16
  {
    var fetchSizeAlign := 0x1000;
    if offsetAlign > 0x2000 {
      fetchSizeAlign := offsetAlign / 2;
    }
    StepOfMode(mode, offsetAlign, fetchSizeAlign, length);
    var fetchSize: nat := length;
    if offsetAlign > 0x1000 {
      fetchSize := fetchSize - fetchSizeAlign * 8;
    }
    ghost var x := fetchSize;
    hide OffsetAlign, FetchAlign, ModeOf, FetchIndex;
    if IsMultiple(fetchSize, fetchSizeAlign) {
      fetchSize := fetchSize - 1;
    }
    StepDown(x, fetchSizeAlign, fetchSize);
    RoundedQuotient(fetchSize, fetchSizeAlign);
    fetchSize := RoundDown(fetchSize, fetchSizeAlign);
    bits := Quotient(fetchSize, fetchSizeAlign) % U16;
  }

  predicate IsMultiple(x: nat, a: nat)
    requires a > 0
  {
    x != 0 && x == Quotient(x, a) * a
  }

  function RoundDown(x: nat, a: nat): (r: nat)
    requires a > 0
  {
    MulMono(0, Quotient(x, a), a);
    Quotient(x, a) * a
  }

  lemma RoundedQuotient(x: nat, a: nat)
    requires a > 0
    ensures Quotient(RoundDown(x, a), a) == Quotient(x, a)
  {
    ProductQuotient(Quotient(x, a), a);
  }

  lemma ProductQuotient(q: nat, a: nat)
    requires a > 0
    ensures q * a >= 0 && Quotient(q * a, a) == q
  {
    MulMono(0, q, a);
    DivExact(a, q);
    assert q * a == a * q;
  }

  lemma StepOfMode(mode: nat, offsetAlign: nat, fetchSizeAlign: nat, length: nat)
    requires mode == ModeOf(length, 0) && offsetAlign == OffsetAlign(mode)
    requires fetchSizeAlign == if offsetAlign > 0x2000 then offsetAlign / 2 else 0x1000
    ensures fetchSizeAlign == FetchAlign(mode) && (offsetAlign > 0x1000 <==> mode > 0)
    ensures mode > 0 ==> length > 8 * fetchSizeAlign
    ensures FetchIndex(length, mode)
            == var x := if mode > 0 then length - 8 * fetchSizeAlign else length;
               if x == 0 then 0 else Quotient(x - 1, fetchSizeAlign)
  {
    Pow2Values();
    ModeOfAbove(length, 0);
    if mode > 1 {
      assert Pow2(mode) == 2 * Pow2(mode - 1) && Pow2(mode - 1) == 2 * Pow2(mode - 2);
    }
  }

  lemma {:induction false} ModeOfAbove(len: nat, m: nat)
    requires m <= 7 && (m > 0 ==> len > ModeMax(m - 1))
    ensures var r := ModeOf(len, m); r > 0 ==> len > ModeMax(r - 1)
    decreases 7 - m
  {
    if !(len <= ModeMax(m) || m == 7) {
      ModeOfAbove(len, m + 1);
    }
  }

  lemma StepDown(x: nat, a: nat, y: nat)
    requires a > 0 && y == if IsMultiple(x, a) then x - 1 else x
    ensures Quotient(y, a) == if x == 0 then 0 else Quotient(x - 1, a)
  {
    DivBounds(x, a);
    if x == 0 {
      DivUnique(0, a, 0);
    } else if !IsMultiple(x, a) {
      DivUnique(x - 1, a, x / a);
    }
  }

  /** The mode loop: a terminating 0, then one 1 for every doubling of the alignment. */
  method ShiftInModeBits(b: nat, ghost y: nat, ghost mode: nat, offsetAlign: nat) returns (bitfield: nat)
    requires b == y % U16 && offsetAlign == OffsetAlign(mode)
    ensures bitfield == (2 * Pow2(mode) * y + Pow2(mode) - 1) % U16
  {
    hide OffsetAlign, Pow2, Shifted;
    AlignOfZero();
    ShiftedIs(y, 0);
    WrapTimes(y);
    bitfield := (b * 2) % U16;
    var baseAlign := 0x1000;
    ghost var j := 0;
    while baseAlign < offsetAlign
      invariant j <= mode && baseAlign == OffsetAlign(j)
      invariant bitfield == Shifted(y, j) % U16
      decreases mode - j
    {
      AlignBelow(j, mode);
      baseAlign := baseAlign * 2;
      ShiftedNext(y, j);
      bitfield := (bitfield * 2) % U16;
      bitfield := (bitfield + 1) % U16;
      j := j + 1;
    }
    AlignBelow(j, mode);
    ShiftedIs(y, j);
  }

  /** y with a 0 and then j ones shifted in. */
  ghost function Shifted(y: nat, j: nat): nat {
    if j == 0 then 2 * y else 2 * Shifted(y, j - 1) + 1
  }

  lemma {:induction false} ShiftedIs(y: nat, j: nat)
    ensures Shifted(y, j) == 2 * Pow2(j) * y + Pow2(j) - 1
    ensures Shifted(y, 0) == 2 * y
  {
    if j > 0 {
      ShiftedIs(y, j - 1);
      DoubleProduct(Pow2(j - 1), y);
    }
  }

  lemma ShiftedNext(y: nat, j: nat)
    ensures (Shifted(y, j) % U16 * 2 % U16 + 1) % U16 == Shifted(y, j + 1) % U16
  {
    ShiftInOne(Shifted(y, j));
  }

  lemma ShiftInOne(v: nat)
    ensures (v % U16 * 2 % U16 + 1) % U16 == (2 * v + 1) % U16
  {
    WrapTimes(v);
    WrapSum(v * 2, 1);
  }

  lemma AlignOfZero()
    ensures OffsetAlign(0) == 0x1000
  {
  }

  lemma AlignBelow(j: nat, mode: nat)
    requires j <= mode
    ensures OffsetAlign(j) < OffsetAlign(mode) <==> j < mode
    ensures OffsetAlign(j + 1) == OffsetAlign(j) * 2
  {
    if j < mode {
      Pow2Mono(j, mode);
    }
  }

  lemma WrapTimes(x: nat)
    ensures x % U16 * 2 % U16 == x * 2 % U16 && x % U16 * 4 % U16 == x * 4 % U16 && x % U16 * 8 % U16 == x * 8 % U16
  {
    var q, r := x / U16, x % U16;
    WrapMultiple(r * 2, q * 2);
    WrapMultiple(r * 4, q * 4);
    WrapMultiple(r * 8, q * 8);
  }

  lemma WrapMultiple(x: nat, q: nat)
    ensures (x + q * U16) % U16 == x % U16
  {
  }

  lemma WrapSum(x: nat, y: nat)
    ensures (x % U16 + y % U16) % U16 == (x + y) % U16
  {
  }
}
