/** The bitfield of a version 1 skylink: a variable-length code for an offset and a fetch size
    inside one sector. */
module SkylinkBitfield {
  import opened Arith
  import opened Bytes

  /** SkylinkMaxFetchSize, the size of a sector. */
  const MAX_FETCH_SIZE := 0x40_0000

  const U16 := 0x1_0000

  datatype Error = NotV1 | IllegalModeBits | BeyondSector | Misaligned

  lemma Pow2Values()
    ensures Pow2(0) == 1 && Pow2(1) == 2 && Pow2(2) == 4 && Pow2(3) == 8 && Pow2(4) == 16
    ensures Pow2(5) == 32 && Pow2(6) == 64 && Pow2(7) == 128 && Pow2(8) == 256
  {
    assert Pow2(3) == 8;
    assert Pow2(6) == 64;
  }

  lemma {:induction false} Pow2Mono(m: nat, n: nat)
    requires m < n
    ensures 2 * Pow2(m) <= Pow2(n)
  {
    if m < n - 1 {
      Pow2Mono(m, n - 1);
    }
  }

  // ----- The table of fetch sizes ----------------------------------------------------------

  /** Offsets of mode m are multiples of this. */
  function OffsetAlign(m: nat): (a: nat)
    ensures a > 0
  {
    4096 * Pow2(m)
  }

  /** The step between the fetch sizes of mode m. */
  function FetchAlign(m: nat): (a: nat)
    ensures a > 0
  {
    if m == 0 then 4096 else 4096 * Pow2(m - 1)
  }

  /** Fetch size f of mode m, for f from 0 to 7. */
  function FetchSize(m: nat, f: nat): nat {
    FetchAlign(m) * (f + 1) + if m > 0 then 8 * FetchAlign(m) else 0
  }

  ghost predicate InTable(size: nat) {
    exists m, f :: m < 8 && f < 8 && size == FetchSize(m, f)
  }

  /** The largest fetch size of mode m. */
  function ModeMax(m: nat): nat {
    32768 * Pow2(m)
  }

  /** Mode m has the fetch sizes above those of the mode before it, up to its maximum. */
  lemma ModeRange(m: nat, f: nat)
    requires f < 8
    ensures FetchSize(m, f) <= ModeMax(m) && FetchSize(m, 7) == ModeMax(m)
    ensures m > 0 ==> FetchSize(m, f) > ModeMax(m - 1)
  {
  }

  /** The first mode that has room for a length; the last one takes everything longer. */
  function ModeOf(len: nat, m: nat): (r: nat)
    requires m <= 7
    ensures m <= r <= 7
    decreases 7 - m
  {
    if len <= ModeMax(m) || m == 7 then m else ModeOf(len, m + 1)
  }

  lemma {:induction false} ModeOfFits(len: nat, m: nat)
    requires m <= 7 && len <= MAX_FETCH_SIZE && (m > 0 ==> len > ModeMax(m - 1))
    ensures var r := ModeOf(len, m); len <= ModeMax(r) && (r > 0 ==> len > ModeMax(r - 1))
    decreases 7 - m
  {
    Pow2Values();
    if !(len <= ModeMax(m) || m == 7) {
      ModeOfFits(len, m + 1);
    }
  }

  function Quotient(x: nat, a: nat): nat
    requires a > 0
  {
    DivNonNegative(x, a);
    x / a
  }

  /** Which of the eight fetch sizes of mode m is the first that is not below the length. */
  function FetchIndex(len: nat, m: nat): nat {
    var base := if m > 0 then 8 * FetchAlign(m) else 0;
    if len <= base then 0 else Quotient(len - base - 1, FetchAlign(m))
  }

  /** The fetch size that a length is rounded up to. */
  function RoundUp(len: nat): nat {
    var m := ModeOf(len, 0);
    FetchSize(m, FetchIndex(len, m))
  }

  lemma FetchIndexBounds(len: nat, m: nat)
    requires (m > 0 ==> len > ModeMax(m - 1)) && 1 <= len <= ModeMax(m)
    ensures FetchIndex(len, m) < 8
    ensures len <= FetchSize(m, FetchIndex(len, m)) < len + FetchAlign(m)
  {
    var a := FetchAlign(m);
    var x := len - (if m > 0 then 8 * a else 0) - 1;
    DivBounds(x, a);
    var q := x / a;
    assert q == FetchIndex(len, m);
    if q >= 8 {
      MulMono(8, q, a);
    }
    assert (q + 1) * a == a * (q + 1);
  }

  /** Rounding up gives the least fetch size in the table that is not below the length, and wastes
      less than 4096 bytes or less than an eighth of the length. */
  lemma RoundUpIsLeast(len: nat, other: nat)
    requires 1 <= len <= MAX_FETCH_SIZE
    ensures InTable(RoundUp(len)) && len <= RoundUp(len) <= MAX_FETCH_SIZE
    ensures InTable(other) && other >= len ==> other >= RoundUp(len)
    ensures RoundUp(len) - len < 4096 || 8 * (RoundUp(len) - len) < len
  {
    ModeOfFits(len, 0);
    var m := ModeOf(len, 0);
    FetchIndexBounds(len, m);
    var f := FetchIndex(len, m);
    ModeRange(m, f);
    ModeMaxMono(m, 7);
    if InTable(other) && other >= len {
      var m', f' :| m' < 8 && f' < 8 && other == FetchSize(m', f');
      LeastInTable(len, m, m', f');
    }
    assert m > 0 ==> 8 * FetchAlign(m) == ModeMax(m - 1);
  }

  lemma ModeMaxMono(m: nat, n: nat)
    requires m <= n <= 7
    ensures ModeMax(m) <= ModeMax(n) <= MAX_FETCH_SIZE
  {
    Pow2Values();
    if m < n {
      Pow2Mono(m, n);
    }
    if n < 7 {
      Pow2Mono(n, 7);
    }
  }

  lemma LeastInTable(len: nat, m: nat, m': nat, f': nat)
    requires m < 8 && m' < 8 && f' < 8 && FetchSize(m', f') >= len >= 1
    requires len <= ModeMax(m) && (m > 0 ==> len > ModeMax(m - 1))
    ensures FetchSize(m', f') >= FetchSize(m, FetchIndex(len, m))
  {
    FetchIndexBounds(len, m);
    ModeRange(m', f');
    ModeRange(m, FetchIndex(len, m));
    if m' < m {
      ModeMaxMono(m', m - 1);
    } else if m < m' {
      ModeMaxMono(m, m' - 1);
    } else {
      SameModeLeast(FetchAlign(m), FetchIndex(len, m), f', if m > 0 then 8 * FetchAlign(m) else 0, len);
    }
  }

  lemma SameModeLeast(a: nat, f: nat, g: nat, base: nat, len: nat)
    requires a > 0 && a * (f + 1) + base < len + a && len <= a * (g + 1) + base
    ensures a * (f + 1) <= a * (g + 1)
  {
    if g < f {
      MulMono(g + 2, f + 1, a);
    }
  }

  // ----- Packing ---------------------------------------------------------------------------

  /** Offset number, fetch size number, the terminating 0, m mode bits, and the version bits. */
  function Pack(o: nat, f: nat, m: nat): nat {
    (2 * Pow2(m) * (o * 8 + f) + Pow2(m) - 1) * 4
  }

  /** setOffsetAndFetchSize on 64-bit numbers: the sum wraps, and so does the 16-bit result. */
  function EncodeBitfield(offset: nat, len: nat): Option<nat> {
    var m := ModeOf(len, 0);
    if (offset + len) % U64 > MAX_FETCH_SIZE then None
    else if offset % OffsetAlign(m) != 0 then None
    else Some(Pack(offset / OffsetAlign(m), FetchIndex(len, m), m) % U16)
  }

  /** The number of ones at the low end. */
  function TrailingOnes(b: nat): nat {
    if b % 2 == 1 then 1 + TrailingOnes(b / 2) else 0
  }

  /** Offset number o of mode m. */
  function Offset(o: nat, m: nat): nat {
    o * OffsetAlign(m)
  }

  datatype Window = Window(offset: nat, fetchSize: nat)

  /** validateAndParseV1Bitfield. With an error the window is the whole sector. */
  function ParseV1(bitfield: nat): (Window, Option<Error>) {
    var whole := Window(0, MAX_FETCH_SIZE);
    if bitfield % 4 != 0 then (whole, Some(NotV1))
    else
      var b := bitfield / 4;
      if b % 256 == 255 then (whole, Some(IllegalModeBits))
      else
        var m := TrailingOnes(b);
        if m > 7 then (whole, Some(IllegalModeBits))
        else
          var rest := Quotient(b, 2 * Pow2(m));
          var w := Window(Offset(rest / 8, m), FetchSize(m, rest % 8));
          if w.offset + w.fetchSize > MAX_FETCH_SIZE then (whole, Some(BeyondSector))
          else (w, None)
  }

  lemma {:induction false} TrailingOnesOfPacked(y: nat, m: nat)
    ensures TrailingOnes(2 * Pow2(m) * y + Pow2(m) - 1) == m
  {
    hide TrailingOnes;
    if m == 0 {
      NextTrailingOne(y);
    } else {
      var c := 2 * Pow2(m - 1) * y + Pow2(m - 1) - 1;
      DoubleProduct(Pow2(m - 1), y);
      TrailingOnesOfPacked(y, m - 1);
      NextTrailingOne(c);
    }
  }

  lemma NextTrailingOne(c: nat)
    ensures TrailingOnes(2 * c) == 0 && TrailingOnes(2 * c + 1) == TrailingOnes(c) + 1
  {
    hide TrailingOnes;
    Halves(c);
    TrailingOnesIs(2 * c);
    TrailingOnesIs(2 * c + 1);
  }

  lemma Halves(c: nat)
    ensures 2 * c % 2 == 0 && (2 * c + 1) % 2 == 1 && (2 * c + 1) / 2 == c
  {
  }

  lemma TrailingOnesIs(b: nat)
    ensures TrailingOnes(b) == if b % 2 == 1 then 1 + TrailingOnes(b / 2) else 0
  {
  }

  lemma DoubleProduct(p: nat, y: nat)
    ensures 2 * (2 * p) * y == 2 * (2 * p * y)
  {
  }

  /** Every number is some value above a 0 above its trailing ones. */
  lemma {:induction false} TrailingOnesForm(b: nat) returns (y: nat)
    ensures b == 2 * Pow2(TrailingOnes(b)) * y + Pow2(TrailingOnes(b)) - 1
  {
    if b % 2 == 1 {
      y := TrailingOnesForm(b / 2);
      DoubleProduct(Pow2(TrailingOnes(b / 2)), y);
    } else {
      y := b / 2;
    }
  }

  lemma PackedQuotient(b: nat, y: nat, m: nat)
    requires b == 2 * Pow2(m) * y + Pow2(m) - 1
    ensures b / (2 * Pow2(m)) == y
  {
    var w := 2 * Pow2(m);
    assert y * w <= b < (y + 1) * w by {
      assert (y + 1) * w == w * y + w;
    }
    DivUnique(b, w, y);
  }

  /** Fewer than eight trailing ones is what the check on the low byte says. */
  lemma ModeBitsLegal(b: nat)
    ensures b % 256 == 255 <==> TrailingOnes(b) >= 8
  {
    hide TrailingOnes, Pow2;
    var m := TrailingOnes(b);
    var y := TrailingOnesForm(b);
    if m < 8 {
      LowByte(b, y, m);
    } else {
      HighOnes(b, y, m);
    }
  }

  lemma LowByte(b: nat, y: nat, m: nat)
    requires m < 8 && b == 2 * Pow2(m) * y + Pow2(m) - 1
    ensures b % 256 != 255
  {
    Pow2Values();
    if m == 0 {
      assert b == 2 * y;
    } else if m == 1 {
      assert b == 4 * y + 1;
    } else if m == 2 {
      assert b == 8 * y + 3;
    } else if m == 3 {
      assert b == 16 * y + 7;
    } else if m == 4 {
      assert b == 32 * y + 15;
    } else if m == 5 {
      assert b == 64 * y + 31;
    } else if m == 6 {
      assert b == 128 * y + 63;
    } else {
      assert b == 256 * y + 127;
    }
  }

  lemma HighOnes(b: nat, y: nat, m: nat)
    requires m >= 8 && b == 2 * Pow2(m) * y + Pow2(m) - 1
    ensures b % 256 == 255
  {
    Pow2Values();
    Pow2Add(m - 8, 8);
    hide Pow2;
    HighProduct(Pow2(m - 8), y);
    LowByteIs255(b, 2 * Pow2(m - 8) * y + Pow2(m - 8) - 1);
  }

  lemma HighProduct(p: nat, y: nat)
    requires p > 0
    ensures 2 * p * y >= 0 && 2 * (p * 256) * y + p * 256 - 1 == 256 * (2 * p * y + p - 1) + 255
  {
  }

  lemma LowByteIs255(b: nat, k: nat)
    requires b == 256 * k + 255
    ensures b % 256 == 255
  {
  }

  lemma {:induction false} Pow2Add(a: nat, b: nat)
    ensures Pow2(a + b) == Pow2(a) * Pow2(b)
  {
    if a > 0 {
      Pow2Add(a - 1, b);
    }
  }

  lemma Quarter(b: nat)
    ensures b * 4 % 4 == 0 && b * 4 / 4 == b
  {
  }

  lemma Eighth(o: nat, f: nat)
    requires f < 8
    ensures (o * 8 + f) / 8 == o && (o * 8 + f) % 8 == f
  {
  }

  lemma ParseBits(b: nat, y: nat, m: nat)
    requires b % 256 != 255 && m < 8 && TrailingOnes(b) == m && Quotient(b, 2 * Pow2(m)) == y
    ensures ParseV1(b * 4)
            == var w := Window(Offset(y / 8, m), FetchSize(m, y % 8));
               if w.offset + w.fetchSize <= MAX_FETCH_SIZE then (w, None)
               else (Window(0, MAX_FETCH_SIZE), Some(BeyondSector))
  {
    hide Pow2, TrailingOnes, Offset, FetchSize, Quotient;
    Quarter(b);
  }

  lemma PackIsBits(o: nat, f: nat, m: nat)
    ensures 2 * Pow2(m) * (o * 8 + f) + Pow2(m) - 1 >= 0
    ensures Pack(o, f, m) == (2 * Pow2(m) * (o * 8 + f) + Pow2(m) - 1) * 4
  {
    hide Pow2;
  }

  /** Parsing a packed bitfield gives back its three numbers. */
  lemma ParsePack(o: nat, f: nat, m: nat)
    requires f < 8 && m < 8
    ensures ParseV1(Pack(o, f, m))
            == if Offset(o, m) + FetchSize(m, f) <= MAX_FETCH_SIZE
               then (Window(Offset(o, m), FetchSize(m, f)), None)
               else (Window(0, MAX_FETCH_SIZE), Some(BeyondSector))
  {
    hide Pow2, TrailingOnes, Offset, FetchSize, ParseV1, Pack;
    var y := o * 8 + f;
    PackIsBits(o, f, m);
    var b := 2 * Pow2(m) * y + Pow2(m) - 1;
    Eighth(o, f);
    TrailingOnesOfPacked(y, m);
    ModeBitsLegal(b);
    PackedQuotient(b, y, m);
    ParseBits(b, y, m);
  }

  // ----- Setting and parsing undo each other -----------------------------------------------

  lemma PackFits(o: nat, f: nat, m: nat)
    requires m < 8 && f < 8 && o * Pow2(m) < 1024
    ensures Pack(o, f, m) < U16
  {
    Pow2Values();
    if m == 0 {
      assert Pack(o, f, m) == (2 * (o * 8 + f)) * 4;
    } else if m == 1 {
      assert Pack(o, f, m) == (4 * (o * 8 + f) + 1) * 4;
    } else if m == 2 {
      assert Pack(o, f, m) == (8 * (o * 8 + f) + 3) * 4;
    } else if m == 3 {
      assert Pack(o, f, m) == (16 * (o * 8 + f) + 7) * 4;
    } else if m == 4 {
      assert Pack(o, f, m) == (32 * (o * 8 + f) + 15) * 4;
    } else if m == 5 {
      assert Pack(o, f, m) == (64 * (o * 8 + f) + 31) * 4;
    } else if m == 6 {
      assert Pack(o, f, m) == (128 * (o * 8 + f) + 63) * 4;
    } else {
      assert Pack(o, f, m) == (256 * (o * 8 + f) + 127) * 4;
    }
  }

  /** An aligned offset inside the sector is a whole number of alignments. */
  lemma AlignedOffset(offset: nat, m: nat)
    requires offset % OffsetAlign(m) == 0
    ensures Offset(offset / OffsetAlign(m), m) == offset
    ensures offset < MAX_FETCH_SIZE ==> offset / OffsetAlign(m) * Pow2(m) < 1024
  {
    DivBounds(offset, OffsetAlign(m));
    OffsetProduct(offset / OffsetAlign(m), Pow2(m));
  }

  lemma OffsetProduct(o: nat, p: nat)
    ensures o * (4096 * p) == 4096 * (o * p)
  {
  }

  /** The rounded fetch size stays inside the sector. */
  lemma RoundUpInSector(offset: nat, len: nat)
    requires 1 <= len && offset + len <= MAX_FETCH_SIZE && offset % OffsetAlign(ModeOf(len, 0)) == 0
    ensures offset + RoundUp(len) <= MAX_FETCH_SIZE
  {
    var m := ModeOf(len, 0);
    ModeOfFits(len, 0);
    FetchIndexBounds(len, m);
    AlignedOffset(offset, m);
    InSector(offset / OffsetAlign(m), FetchIndex(len, m), m, len);
  }

  lemma InSector(o: nat, f: nat, m: nat, len: nat)
    requires m < 8 && f < 8 && Offset(o, m) + len <= MAX_FETCH_SIZE && FetchSize(m, f) < len + FetchAlign(m)
    ensures Offset(o, m) + FetchSize(m, f) <= MAX_FETCH_SIZE
  {
    if m == 0 {
      assert Pow2(0) == 1;
      MultiplesFit(4096, o, f + 1, 1024, len);
    } else {
      Pow2Add(m - 1, 11 - m);
      assert Pow2(10) == 1024 by {
        Pow2Values();
        assert Pow2(10) == 4 * Pow2(8);
      }
      var p, k := Pow2(m - 1), Pow2(11 - m);
      assert Pow2(m) == 2 * p;
      hide Pow2;
      StepsOfMode(o, f, p, k);
      MultiplesFit(4096 * p, 2 * o, f + 9, k, len);
    }
  }

  lemma StepsOfMode(o: nat, f: nat, p: nat, k: nat)
    ensures o * (4096 * (2 * p)) == 2 * o * (4096 * p)
    ensures (f + 9) * (4096 * p) == 4096 * p * (f + 1) + 8 * (4096 * p)
    ensures k * (4096 * p) == 4096 * (p * k)
  {
  }

  /** Two multiples of a that miss a third one by less than a do not pass it. */
  lemma MultiplesFit(a: nat, c: nat, d: nat, k: nat, len: nat)
    requires a > 0 && c * a + len <= k * a && d * a < len + a
    ensures c * a + d * a <= k * a
  {
    assert (c + d) * a == c * a + d * a;
    if k < c + d {
      MulMono(k + 1, c + d, a);
    } else {
      MulMono(c + d, k, a);
    }
  }

  /** For every nonempty range inside the sector: the setter accepts exactly the offsets aligned for
      the length, and parsing its result gives back the offset and the rounded fetch size. */
  lemma EncodeThenParse(offset: nat, len: nat)
    requires 1 <= len && offset + len <= MAX_FETCH_SIZE
    ensures EncodeBitfield(offset, len).Some? <==> offset % OffsetAlign(ModeOf(len, 0)) == 0
    ensures EncodeBitfield(offset, len).Some? ==>
              && EncodeBitfield(offset, len).value < U16
              && ParseV1(EncodeBitfield(offset, len).value) == (Window(offset, RoundUp(len)), None)
  {
    hide ParseV1, Pack, FetchIndex, FetchSize;
    var m := ModeOf(len, 0);
    if offset % OffsetAlign(m) == 0 {
      ModeOfFits(len, 0);
      FetchIndexBounds(len, m);
      AlignedOffset(offset, m);
      var o, f := offset / OffsetAlign(m), FetchIndex(len, m);
      hide Offset, OffsetAlign;
      PackFits(o, f, m);
      ParsePack(o, f, m);
      RoundUpInSector(offset, len);
    }
  }

  lemma ZeroLength(offset: nat)
    requires offset < MAX_FETCH_SIZE && offset % OffsetAlign(0) == 0
    ensures EncodeBitfield(offset, 0).Some? && ParseV1(EncodeBitfield(offset, 0).value) == (Window(offset, 4096), None)
  {
    hide Pack, ParseV1;
    assert Pow2(0) == 1 && OffsetAlign(0) == 4096 && FetchSize(0, 0) == 4096 && ModeOf(0, 0) == 0;
    assert FetchIndex(0, 0) == 0;
    AlignedOffset(offset, 0);
    hide OffsetAlign, Offset, Pow2, ModeOf, FetchIndex;
    var o := offset / OffsetAlign(0);
    PackFits(o, 0, 0);
    ParsePack(o, 0, 0);
  }

  lemma ParsedInSector(bitfield: nat)
    requires ParseV1(bitfield).1 == None
    ensures var w := ParseV1(bitfield).0; w.offset + w.fetchSize <= MAX_FETCH_SIZE && w.fetchSize > 0
  {
  }

  /** On all 64-bit arguments: setting and parsing give back the offset and room for the length if
      and only if the range lies in the sector without wrapping, its offset is aligned for its
      length, and it does not start at the very end of the sector. */
  lemma EncodeThenParseIff(offset: nat, len: nat)
    requires offset < U64 && len < U64
    ensures (&& offset + len <= MAX_FETCH_SIZE
             && offset < MAX_FETCH_SIZE
             && offset % OffsetAlign(ModeOf(len, 0)) == 0)
            <==>
            (&& EncodeBitfield(offset, len).Some?
             && ParseV1(EncodeBitfield(offset, len).value).1 == None
             && ParseV1(EncodeBitfield(offset, len).value).0.offset == offset
             && ParseV1(EncodeBitfield(offset, len).value).0.fetchSize >= len)
  {
    hide ParseV1, OffsetAlign, Pack, FetchIndex, RoundUp;
    var r := EncodeBitfield(offset, len);
    if offset + len <= MAX_FETCH_SIZE && offset < MAX_FETCH_SIZE && offset % OffsetAlign(ModeOf(len, 0)) == 0 {
      if len == 0 {
        assert ModeOf(0, 0) == 0;
        ZeroLength(offset);
      } else {
        EncodeThenParse(offset, len);
        RoundUpIsLeast(len, 0);
      }
    }
    if r.Some? && ParseV1(r.value).1 == None {
      ParsedInSector(r.value);
    }
  }

  /** The empty range at the end of the sector is accepted but parses as the start of it. */
  lemma EmptyRangeAtEnd()
    ensures EncodeBitfield(MAX_FETCH_SIZE, 0) == Some(0) && ParseV1(0) == (Window(0, 4096), None)
  {
    Pow2Values();
    ParsePack(0, 0, 0);
    assert Pack(0, 0, 0) == 0 && Pack(1024, 0, 0) == U16;
  }

  lemma {:induction false} ModeOfUnique(len: nat, m: nat, k: nat)
    requires k <= m <= 7 && (m < 7 ==> len <= ModeMax(m)) && (m > 0 ==> len > ModeMax(m - 1))
    ensures ModeOf(len, k) == m
    decreases m - k
  {
    if k < m {
      ModeMaxMono(k, m - 1);
      ModeOfUnique(len, m, k + 1);
    }
  }

  lemma FetchIndexOfSize(m: nat, f: nat)
    requires m < 8 && f < 8
    ensures FetchIndex(FetchSize(m, f), m) == f
  {
    var a := FetchAlign(m);
    LastOfStep(a, f);
  }

  lemma LastOfStep(a: nat, f: nat)
    requires a > 0
    ensures a * (f + 1) > 0 && (a * (f + 1) - 1) / a == f
  {
    assert a * (f + 1) == f * a + a;
    assert (f + 1) * a == f * a + a;
    DivUnique(a * (f + 1) - 1, a, f);
  }

  /** The three numbers of a bitfield that parses. */
  lemma Unpack(bitfield: nat) returns (o: nat, f: nat, m: nat)
    requires ParseV1(bitfield).1 == None
    ensures m < 8 && f < 8 && bitfield == Pack(o, f, m)
  {
    hide TrailingOnes, FetchSize, Offset;
    var b := bitfield / 4;
    ModeBitsLegal(b);
    m := TrailingOnes(b);
    var y := TrailingOnesForm(b);
    hide Pow2, ParseV1;
    o, f := y / 8, y % 8;
    assert y == o * 8 + f;
  }

  /** Every bitfield that parses is the one the setter makes from its parse. */
  lemma ParseThenEncode(bitfield: nat)
    requires bitfield < U16 && ParseV1(bitfield).1 == None
    ensures EncodeBitfield(ParseV1(bitfield).0.offset, ParseV1(bitfield).0.fetchSize) == Some(bitfield)
  {
    hide Pack, TrailingOnes, ParseV1, FetchSize, Offset, OffsetAlign, FetchIndex, ModeMax, ModeOf;
    var o, f, m := Unpack(bitfield);
    ParsePack(o, f, m);
    ModeRange(m, f);
    ModeOfUnique(FetchSize(m, f), m, 0);
    FetchIndexOfSize(m, f);
    OffsetQuotient(o, m);
    ParsedInSector(bitfield);
  }

  lemma OffsetQuotient(o: nat, m: nat)
    ensures Offset(o, m) % OffsetAlign(m) == 0 && Offset(o, m) / OffsetAlign(m) == o
  {
    DivExact(OffsetAlign(m), o);
    DivBounds(Offset(o, m), OffsetAlign(m));
  }
}
