/** Byte strings and the fixed-width little-endian integers that every on-disk format of the
    repository uses. */
module Bytes {
  import opened Arith

  type byte = b: int | 0 <= b < 256

  const U64 := 0x1_0000_0000_0000_0000

  datatype Option<+T> = None | Some(value: T)

  function Zeros(n: nat): (z: seq<byte>)
    ensures |z| == n && forall i :: 0 <= i < n ==> z[i] == 0
  {
    seq(n, _ => 0)
  }

  /** Little-endian digits of n in base 256, exactly `width` of them (the value wraps). */
  function EncodeLE(n: nat, width: nat): (s: seq<byte>)
    ensures |s| == width
  {
    if width == 0 then [] else [n % 256] + EncodeLE(n / 256, width - 1)
  }

  function DecodeLE(s: seq<byte>): nat {
    if s == [] then 0 else s[0] + 256 * DecodeLE(s[1..])
  }

  /** Decoding undoes encoding for every value that fits the width. */
  lemma {:induction false} DecodeEncodeLE(n: nat, width: nat)
    requires n < Pow(256, width)
    ensures DecodeLE(EncodeLE(n, width)) == n
  {
    if width > 0 {
      DecodeEncodeLE(n / 256, width - 1);
    }
  }

  /** Encoding undoes decoding for every byte string. */
  lemma {:induction false} EncodeDecodeLE(s: seq<byte>)
    ensures DecodeLE(s) < Pow(256, |s|)
    ensures EncodeLE(DecodeLE(s), |s|) == s
  {
    if s != [] {
      EncodeDecodeLE(s[1..]);
      LastDigit(s[0], DecodeLE(s[1..]), Pow(256, |s| - 1));
      assert s == [s[0]] + s[1..];
    }
  }

  lemma Pow256Of8()
    ensures Pow(256, 8) == U64
  {
    assert Pow(256, 4) == 0x1_0000_0000;
  }

  lemma U64RoundTrip(n: nat)
    requires n < U64
    ensures DecodeLE(EncodeLE(n, 8)) == n
  {
    Pow256Of8();
    DecodeEncodeLE(n, 8);
  }

  /** All the byte strings of xs, one after another. */
  function Concat(xs: seq<seq<byte>>): (r: seq<byte>)
  {
    if xs == [] then [] else xs[0] + Concat(xs[1..])
  }

  lemma {:induction false} ConcatAppend(xs: seq<seq<byte>>, ys: seq<seq<byte>>)
    ensures Concat(xs + ys) == Concat(xs) + Concat(ys)
  {
    if xs == [] {
      assert xs + ys == ys;
      assert Concat(xs) + Concat(ys) == Concat(ys);
    } else {
      ConcatAppend(xs[1..], ys);
      assert (xs + ys)[0] == xs[0] && (xs + ys)[1..] == xs[1..] + ys;
      PlusAssoc(xs[0], Concat(xs[1..]), Concat(ys));
    }
  }

  lemma PlusAssoc(x: seq<byte>, y: seq<byte>, z: seq<byte>)
    ensures x + y + z == x + (y + z)
  {
  }

  lemma SubSlice<T>(s: seq<T>, a: nat, b: nat, c: nat, d: nat)
    requires a <= b <= |s| && c <= d <= b - a
    ensures s[a..b][c..d] == s[a + c..a + d]
  {
    var x, y := s[a..b][c..d], s[a + c..a + d];
    assert |x| == |y|;
    forall k | 0 <= k < |x| ensures x[k] == y[k] {
      assert x[k] == s[a..b][c + k] == s[a + (c + k)];
    }
  }

  lemma SplitAt<T>(s: seq<T>, a: nat, b: nat, c: nat)
    requires a <= b <= c <= |s|
    ensures s[a..c] == s[a..b] + s[b..c]
  {
  }
}
