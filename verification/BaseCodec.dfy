/** The base encodings of RFC 4648 without padding: bytes are cut into groups of k bits, and every
    group is printed as one character of an alphabet. */
module BaseCodec {
  import opened Arith
  import opened Bytes

  type bit = b: int | 0 <= b < 2

  /** The w low bits of n, most significant first. */
  function ToBits(n: nat, w: nat): (s: seq<bit>)
    ensures |s| == w
  {
    if w == 0 then [] else ToBits(n / 2, w - 1) + [n % 2]
  }

  function FromBits(s: seq<bit>): nat {
    if s == [] then 0 else 2 * FromBits(s[..|s| - 1]) + s[|s| - 1]
  }

  lemma {:induction false} FromToBits(n: nat, w: nat)
    requires n < Pow2(w)
    ensures FromBits(ToBits(n, w)) == n
  {
    if w > 0 {
      FromToBits(n / 2, w - 1);
      assert ToBits(n, w)[..w - 1] == ToBits(n / 2, w - 1);
    }
  }

  lemma {:induction false} ToFromBits(s: seq<bit>)
    ensures FromBits(s) < Pow2(|s|)
    ensures ToBits(FromBits(s), |s|) == s
  {
    if s != [] {
      ToFromBits(s[..|s| - 1]);
    }
  }

  /** The bits of a list of w-bit numbers. */
  function FlatBits(xs: seq<nat>, w: nat): (s: seq<bit>)
    ensures |s| == w * |xs|
  {
    if xs == [] then [] else MulStep(w, |xs|); ToBits(xs[0], w) + FlatBits(xs[1..], w)
  }

  lemma MulStep(w: nat, n: nat)
    ensures w + w * (n - 1) == w * n
  {
  }

  /** Bits cut into w-bit numbers; a rest of fewer than w bits is dropped. */
  function Digits(s: seq<bit>, w: nat): (xs: seq<nat>)
    requires w > 0
  {
    if |s| < w then [] else [FromBits(s[..w])] + Digits(s[w..], w)
  }

  lemma {:induction false} DigitsInRange(s: seq<bit>, w: nat)
    requires w > 0
    ensures forall i :: 0 <= i < |Digits(s, w)| ==> Digits(s, w)[i] < Pow2(w)
    decreases |s|
  {
    if |s| >= w {
      ToFromBits(s[..w]);
      DigitsInRange(s[w..], w);
    }
  }

  /** Cutting the bits of numbers, with fewer than w bits after them, gives the numbers. */
  lemma {:induction false} DigitsOfFlat(xs: seq<nat>, w: nat, rest: seq<bit>)
    requires w > 0 && |rest| < w && forall i :: 0 <= i < |xs| ==> xs[i] < Pow2(w)
    ensures Digits(FlatBits(xs, w) + rest, w) == xs
  {
    if xs == [] {
      assert FlatBits(xs, w) + rest == rest;
    } else {
      var first, tail := ToBits(xs[0], w), FlatBits(xs[1..], w);
      assert (first + tail) + rest == first + (tail + rest);
      FromToBits(xs[0], w);
      DigitsOfFlat(xs[1..], w, rest);
      assert (first + (tail + rest))[..w] == first && (first + (tail + rest))[w..] == tail + rest;
    }
  }

  /** Numbers cut from whole groups have the same bits again. */
  lemma {:induction false} FlatOfDigits(s: seq<bit>, w: nat, n: nat)
    requires w > 0 && |s| == w * n
    ensures FlatBits(Digits(s, w), w) == s && |Digits(s, w)| == n
    decreases n
  {
    hide Digits, FlatBits, FromBits, ToBits;
    MulStep(w, n);
    if n == 0 {
      NoDigits(w);
    } else {
      var first, rest := s[..w], s[w..];
      assert s == first + rest;
      FlatOfDigits(rest, w, n - 1);
      ToFromBits(first);
      NextDigit(first, rest, w);
      NextFlat(FromBits(first), Digits(rest, w), w);
    }
  }

  lemma NoDigits(w: nat)
    requires w > 0
    ensures Digits([], w) == [] && FlatBits([], w) == []
  {
  }

  lemma NextDigit(first: seq<bit>, rest: seq<bit>, w: nat)
    requires w > 0 && |first| == w
    ensures Digits(first + rest, w) == [FromBits(first)] + Digits(rest, w)
  {
    hide FromBits;
    assert (first + rest)[..w] == first && (first + rest)[w..] == rest;
  }

  lemma NextFlat(x: nat, xs: seq<nat>, w: nat)
    ensures FlatBits([x] + xs, w) == ToBits(x, w) + FlatBits(xs, w)
  {
    hide ToBits;
    assert ([x] + xs)[1..] == xs;
  }

  /** The number of zero bits that fill the last group. */
  function Padding(bits: nat, k: nat): (p: nat)
    requires k > 0
    ensures p < k && (bits + p) % k == 0
  {
    var r := bits % k;
    PaddingFills(bits, k);
    if r == 0 then 0 else k - r
  }

  lemma PaddingFills(bits: nat, k: nat)
    requires k > 0
    ensures (bits + (if bits % k == 0 then 0 else k - bits % k)) % k == 0
  {
    var q, r := bits / k, bits % k;
    if r != 0 {
      assert bits + (k - r) == (q + 1) * k;
      ModExact(q + 1, k);
    }
  }

  function AsNumbers(data: seq<byte>): (xs: seq<nat>)
    ensures |xs| == |data| && forall i :: 0 <= i < |data| ==> xs[i] == data[i]
  {
    seq(|data|, i requires 0 <= i < |data| => data[i])
  }

  function ZeroBits(n: nat): (s: seq<bit>)
    ensures |s| == n
  {
    seq(n, _ => 0)
  }

  /** Bytes as numbers of k bits. */
  function Encode(data: seq<byte>, k: nat): seq<nat>
    requires k > 0
  {
    Digits(FlatBits(AsNumbers(data), 8) + ZeroBits(Padding(8 * |data|, k)), k)
  }

  /** Numbers of k bits as bytes; bits that do not fill a byte are ignored. */
  function Decode(xs: seq<nat>, k: nat): seq<nat> {
    Digits(FlatBits(xs, k), 8)
  }

  /** Decoding undoes encoding for every group size up to a byte. */
  lemma DecodeEncode(data: seq<byte>, k: nat)
    requires 0 < k <= 8
    ensures Decode(Encode(data, k), k) == AsNumbers(data)
    ensures k * |Encode(data, k)| == 8 * |data| + Padding(8 * |data|, k)
  {
    hide FlatBits, Digits;
    var bits, rest := FlatBits(AsNumbers(data), 8), ZeroBits(Padding(8 * |data|, k));
    var n := |bits + rest| / k;
    DivBounds(|bits + rest|, k);
    FlatOfDigits(bits + rest, k, n);
    assert Pow2(8) == 256 by {
      assert Pow2(4) == 16;
    }
    DigitsOfFlat(AsNumbers(data), 8, rest);
  }

  lemma EncodeInRange(data: seq<byte>, k: nat)
    requires k > 0
    ensures forall i :: 0 <= i < |Encode(data, k)| ==> Encode(data, k)[i] < Pow2(k)
  {
    DigitsInRange(FlatBits(AsNumbers(data), 8) + ZeroBits(Padding(8 * |data|, k)), k);
  }

  /** Bit b of a number, most significant first, of w bits. */
  function BitAt(n: nat, w: nat, b: nat): nat
    requires b < w
  {
    n / Pow2(w - 1 - b) % 2
  }

  lemma {:induction false} BitOfBits(n: nat, w: nat, b: nat)
    requires b < w
    ensures ToBits(n, w)[b] == BitAt(n, w, b)
  {
    if b == w - 1 {
      assert Pow2(0) == 1;
    } else {
      BitOfBits(n / 2, w - 1, b);
      HalfThenDivide(n, Pow2(w - 2 - b));
    }
  }

  lemma HalfThenDivide(n: nat, p: nat)
    requires p > 0
    ensures n / 2 / p == n / (2 * p)
  {
    DivNested(n, 2, p);
  }

  lemma {:induction false} BitOfFlat(xs: seq<nat>, w: nat, i: nat, b: nat)
    requires i < |xs| && b < w
    ensures w * i + b < w * |xs| && FlatBits(xs, w)[w * i + b] == BitAt(xs[i], w, b)
  {
    hide ToBits, BitAt;
    if i == 0 {
      MulMono(1, |xs|, w);
      BitOfBits(xs[0], w, b);
    } else {
      BitOfFlat(xs[1..], w, i - 1, b);
      MulStep(w, i);
      MulStep(w, |xs|);
    }
  }

  /** What an encoding is: its characters and the bytes have the same bits, the most significant first, and
      the last character is filled with zero bits. */
  lemma EncodedBits(data: seq<byte>, k: nat, i: nat, b: nat)
    requires 0 < k <= 8 && i < |Encode(data, k)| && b < k
    ensures var p := k * i + b;
            BitAt(Encode(data, k)[i], k, b) == if p < 8 * |data| then BitAt(data[p / 8], 8, p % 8) else 0
  {
    hide FlatBits, Digits, BitAt;
    var bits, rest := FlatBits(AsNumbers(data), 8), ZeroBits(Padding(8 * |data|, k));
    var n := |bits + rest| / k;
    DivBounds(|bits + rest|, k);
    FlatOfDigits(bits + rest, k, n);
    var p := k * i + b;
    BitOfFlat(Encode(data, k), k, i, b);
    if p < 8 * |data| {
      BitOfFlat(AsNumbers(data), 8, p / 8, p % 8);
    }
  }

  // ----- Alphabets -------------------------------------------------------------------------

  /** The URL and filename safe base 64 alphabet, section 5 of RFC 4648. */
  function Base64Char(d: nat): char
    requires d < 64
  {
    if d < 26 then (d + 65) as char
    else if d < 52 then (d - 26 + 97) as char
    else if d < 62 then (d - 52 + 48) as char
    else if d == 62 then '-'
    else '_'
  }

  function Base64Digit(c: char): (d: Option<nat>)
    ensures d.Some? ==> d.value < 64
  {
    if 'A' <= c <= 'Z' then Some(c as int - 65)
    else if 'a' <= c <= 'z' then Some(c as int - 97 + 26)
    else if '0' <= c <= '9' then Some(c as int - 48 + 52)
    else if c == '-' then Some(62)
    else if c == '_' then Some(63)
    else None
  }

  /** The extended hex base 32 alphabet, section 7 of RFC 4648. */
  function Base32Char(d: nat): char
    requires d < 32
  {
    if d < 10 then (d + 48) as char else (d - 10 + 65) as char
  }

  function ToUpper(c: char): char {
    if 'a' <= c <= 'z' then (c as int - 32) as char else c
  }

  /** A digit in either case, since the decoder turns letters to upper case first. */
  function Base32Digit(c: char): (d: Option<nat>)
    ensures d.Some? ==> d.value < 32
  {
    var u := ToUpper(c);
    if '0' <= u <= '9' then Some(u as int - 48)
    else if 'A' <= u <= 'V' then Some(u as int - 65 + 10)
    else None
  }

  lemma Base64RoundTrip(d: nat)
    requires d < 64
    ensures Digit(Base64Char(d), true) == Some(d)
    ensures Base64Char(d) != '?' && Base64Char(d) != '/'
  {
  }

  lemma Base32RoundTrip(d: nat)
    requires d < 32
    ensures Digit(Base32Char(d), false) == Some(d)
    ensures Base32Char(d) != '?' && Base32Char(d) != '/'
  {
  }

  /** The characters in order. */
  lemma Alphabets(d: nat)
    requires d < 64
    ensures var c := Base64Char(d) as int;
            && (d < 26 ==> c == 'A' as int + d)
            && (26 <= d < 52 ==> c == 'a' as int + (d - 26))
            && (52 <= d < 62 ==> c == '0' as int + (d - 52))
            && (d == 62 ==> Base64Char(d) == '-') && (d == 63 ==> Base64Char(d) == '_')
    ensures d < 10 ==> Base32Char(d) as int == '0' as int + d
    ensures 10 <= d < 32 ==> Base32Char(d) as int == 'A' as int + (d - 10)
  {
  }

  /** s is t, except that letters may be lower case. */
  predicate Lowered(s: string, t: string) {
    |s| == |t| && forall i :: 0 <= i < |t| ==> s[i] == t[i] || ('A' <= t[i] <= 'Z' && s[i] as int == t[i] as int + 32)
  }

  /** In base 32 lower-case letters are read as upper-case ones. */
  lemma {:induction false} ParseLowered(s: string, t: string)
    requires Lowered(s, t)
    ensures Parse(s, false) == Parse(t, false)
  {
    if s != "" {
      assert Digit(s[0], false) == Digit(t[0], false);
      ParseLowered(s[1..], t[1..]);
    }
  }

  function Print(xs: seq<nat>, base64: bool): (s: string)
    requires forall i :: 0 <= i < |xs| ==> xs[i] < if base64 then 64 else 32
    ensures |s| == |xs|
  {
    seq(|xs|, i requires 0 <= i < |xs| => if base64 then Base64Char(xs[i]) else Base32Char(xs[i]))
  }

  function Digit(c: char, base64: bool): Option<nat> {
    if base64 then Base64Digit(c) else Base32Digit(c)
  }

  /** The digits of a string, if all of its characters are in the alphabet. */
  function Parse(s: string, base64: bool): Option<seq<nat>> {
    if s == "" then Some([])
    else
      match (Digit(s[0], base64), Parse(s[1..], base64))
      case (Some(d), Some(rest)) => Some([d] + rest)
      case _ => None
  }

  /** Parsing undoes printing, and a printed string has no '?' and no '/'. */
  lemma {:induction false} ParsePrint(xs: seq<nat>, base64: bool)
    requires forall i :: 0 <= i < |xs| ==> xs[i] < if base64 then 64 else 32
    ensures Parse(Print(xs, base64), base64) == Some(xs)
    ensures forall i :: 0 <= i < |xs| ==> Print(xs, base64)[i] != '?' && Print(xs, base64)[i] != '/'
  {
    if xs == [] {
      assert Print(xs, base64) == "";
    } else {
      ParsePrint(xs[1..], base64);
      assert Print(xs, base64)[0] == if base64 then Base64Char(xs[0]) else Base32Char(xs[0]);
      assert Print(xs, base64)[1..] == Print(xs[1..], base64);
      assert [xs[0]] + xs[1..] == xs;
      if base64 {
        Base64RoundTrip(xs[0]);
      } else {
        Base32RoundTrip(xs[0]);
      }
      forall i | 0 <= i < |xs| ensures Print(xs, base64)[i] != '?' && Print(xs, base64)[i] != '/' {
        if i > 0 {
          assert Print(xs, base64)[i] == Print(xs[1..], base64)[i - 1];
        }
      }
    }
  }

  /** Printing what was parsed gives the string back, up to the case of letters in base 32; so nothing else is
      accepted. */
  lemma {:induction false} PrintParsed(s: string, base64: bool)
    requires Parse(s, base64).Some?
    ensures var xs := Parse(s, base64).value;
            && (forall i :: 0 <= i < |xs| ==> xs[i] < if base64 then 64 else 32)
            && if base64 then Print(xs, true) == s else Lowered(s, Print(xs, false))
  {
    if s != "" {
      PrintParsed(s[1..], base64);
      var xs := Parse(s, base64).value;
      assert xs[1..] == Parse(s[1..], base64).value;
      CharOfDigit(s[0], base64);
      var rest := xs[1..];
      assert xs == [xs[0]] + rest && s == [s[0]] + s[1..];
      PrintNext(xs[0], rest, base64);
      if !base64 {
        LoweredNext(s[0], Base32Char(xs[0]), s[1..], Print(rest, false));
      }
    }
  }

  lemma PrintNext(x: nat, xs: seq<nat>, base64: bool)
    requires x < (if base64 then 64 else 32) && forall i :: 0 <= i < |xs| ==> xs[i] < if base64 then 64 else 32
    ensures forall i :: 0 <= i < |[x] + xs| ==> ([x] + xs)[i] < if base64 then 64 else 32
    ensures Print([x] + xs, base64) == [if base64 then Base64Char(x) else Base32Char(x)] + Print(xs, base64)
  {
    hide Base64Char, Base32Char;
  }

  lemma LoweredNext(c: char, d: char, s: string, t: string)
    requires Lowered([c], [d]) && Lowered(s, t)
    ensures Lowered([c] + s, [d] + t)
  {
    assert c == [c][0] && d == [d][0];
  }

  lemma CharOfDigit(c: char, base64: bool)
    requires Digit(c, base64).Some?
    ensures var d := Digit(c, base64).value;
            if base64 then Base64Char(d) == c else Lowered([c], [Base32Char(d)])
  {
  }

  function BitsPerDigit(base64: bool): nat {
    if base64 then 6 else 5
  }

  lemma DigitRange(data: seq<byte>, base64: bool)
    ensures forall i :: 0 <= i < |Encode(data, BitsPerDigit(base64))| ==>
              Encode(data, BitsPerDigit(base64))[i] < if base64 then 64 else 32
  {
    EncodeInRange(data, BitsPerDigit(base64));
    assert Pow2(6) == 64 && Pow2(5) == 32 by {
      assert Pow2(3) == 8;
    }
  }

  /** EncodeToString. */
  function EncodeString(data: seq<byte>, base64: bool): string {
    DigitRange(data, base64);
    Print(Encode(data, BitsPerDigit(base64)), base64)
  }

  /** DecodeString. */
  function DecodeString(s: string, base64: bool): Option<seq<nat>> {
    match Parse(s, base64)
    case None => None
    case Some(xs) => Some(Decode(xs, BitsPerDigit(base64)))
  }

  /** The string encodings round trip for every byte string. */
  lemma DecodeEncodeString(data: seq<byte>, base64: bool)
    ensures DecodeString(EncodeString(data, base64), base64) == Some(AsNumbers(data))
    ensures forall i :: 0 <= i < |EncodeString(data, base64)| ==>
              EncodeString(data, base64)[i] != '?' && EncodeString(data, base64)[i] != '/'
  {
    DigitRange(data, base64);
    ParsePrint(Encode(data, BitsPerDigit(base64)), base64);
    DecodeEncode(data, BitsPerDigit(base64));
  }
}
