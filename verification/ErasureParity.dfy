/** A segment code that keeps the promises of `Lawful`: two data shards and one parity shard. It
    shows that the results about erasure coding are about codes that exist. */
module ErasureParity {
  import opened Bytes
  import opened Erasure

  function AddBytes(x: int, y: int): byte {
    (x + y) % 256
  }

  function SubtractBytes(x: int, y: int): byte {
    (x - y) % 256
  }

  function Add(a: seq<byte>, b: seq<byte>): (s: seq<byte>)
    requires |a| == |b|
    ensures |s| == |a|
  {
    seq(|a|, i requires 0 <= i < |a| => AddBytes(a[i], b[i]))
  }

  function Subtract(s: seq<byte>, a: seq<byte>): (b: seq<byte>)
    requires |a| == |s|
    ensures |b| == |s|
  {
    seq(|s|, i requires 0 <= i < |s| => SubtractBytes(s[i], a[i]))
  }

  lemma SubtractAdded(a: seq<byte>, b: seq<byte>)
    requires |a| == |b|
    ensures Subtract(Add(a, b), a) == b && Subtract(Add(a, b), b) == a
  {
    var s := Add(a, b);
    forall i | 0 <= i < |a| ensures Subtract(s, a)[i] == b[i] && Subtract(s, b)[i] == a[i] {
      SubtractAddedBytes(a[i], b[i]);
    }
  }

  lemma SubtractAddedBytes(x: byte, y: byte)
    ensures SubtractBytes(AddBytes(x, y), x) == y && SubtractBytes(AddBytes(x, y), y) == x
  {
  }

  predicate IsShard(s: seq<byte>) {
    |s| == SEGMENT_SIZE
  }

  function EncodeParity(d: Shards): Shards {
    if |d| == 2 && IsShard(d[0]) && IsShard(d[1]) then [d[0], d[1], Add(d[0], d[1])] else []
  }

  function RebuildParity(s: Shards): Option<Shards> {
    if |s| != 3 then None
    else if IsShard(s[0]) && IsShard(s[1]) && (s[2] == [] || s[2] == Add(s[0], s[1])) then
      Some([s[0], s[1], Add(s[0], s[1])])
    else if IsShard(s[0]) && s[1] == [] && IsShard(s[2]) then Some([s[0], Subtract(s[2], s[0]), s[2]])
    else if s[0] == [] && IsShard(s[1]) && IsShard(s[2]) then Some([Subtract(s[2], s[1]), s[1], s[2]])
    else None
  }

  const PARITY := Code(2, 3, EncodeParity, RebuildParity)

  lemma KeptOfThree(keep: seq<bool>)
    requires |keep| == 3
    ensures Kept(keep) == (if keep[0] then 1 else 0) + (if keep[1] then 1 else 0) + (if keep[2] then 1 else 0)
  {
    var tail := keep[1..];
    assert tail[0] == keep[1] && tail[1..] == [keep[2]];
    assert Kept([keep[2]]) == (if keep[2] then 1 else 0) + Kept([keep[2]][1..]);
    assert Kept(tail) == (if keep[1] then 1 else 0) + Kept([keep[2]]);
  }

  lemma ParityRebuilds(d: Shards, keep: seq<bool>)
    requires IsData(PARITY, d) && |keep| == 3
    ensures |EncodeParity(d)| == 3
    ensures RebuildParity(Erase(EncodeParity(d), keep)) == if Kept(keep) >= 2 then Some(EncodeParity(d)) else None
  {
    KeptOfThree(keep);
    SubtractAdded(d[0], d[1]);
  }

  lemma ParityKeepsPresent(s: Shards)
    requires |s| == 3 && RebuildParity(s).Some?
    ensures IsFull(PARITY, RebuildParity(s).value)
    ensures forall i :: 0 <= i < 3 && s[i] != [] ==> RebuildParity(s).value[i] == s[i]
  {
  }

  /** The parity code is systematic, rebuilds from any two shards and refuses fewer. */
  lemma ParityIsLawful()
    ensures Lawful(PARITY)
  {
    hide RebuildParity, Erase, Kept;
    forall d, keep | IsData(PARITY, d) && |keep| == PARITY.n && |PARITY.enc(d)| == PARITY.n
      ensures PARITY.rec(Erase(PARITY.enc(d), keep)) == if Kept(keep) >= PARITY.k then Some(PARITY.enc(d)) else None
    {
      ParityRebuilds(d, keep);
    }
    forall s | |s| == PARITY.n && PARITY.rec(s).Some?
      ensures IsFull(PARITY, PARITY.rec(s).value)
      ensures forall i :: 0 <= i < PARITY.n && s[i] != [] ==> PARITY.rec(s).value[i] == s[i]
    {
      ParityKeepsPresent(s);
    }
  }
}
