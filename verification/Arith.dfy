/** Exact integer arithmetic: ceiling division, powers of the branching factor, and the
    non-linear facts the tree proofs need. */
module Arith {

  lemma MulMono(x: int, y: int, k: nat)
    requires x <= y
    ensures x * k <= y * k
  {
  }

  lemma MulNext(x: nat, k: nat)
    ensures 0 <= x * k <= (x + 1) * k == x * k + k
  {
  }

  lemma MulAssoc(x: int, y: int, z: int)
    ensures x * y * z == x * (y * z)
  {
  }

  lemma MulSwap(x: int, y: int, z: int)
    ensures x * y * z == x * z * y
  {
  }

  lemma DivBounds(a: nat, b: nat)
    requires b > 0
    ensures (a / b) * b <= a < (a / b + 1) * b
    ensures a == (a / b) * b + a % b
  {
  }

  /** The quotient is the only integer between the two bounds. */
  lemma DivUnique(a: nat, b: nat, q: nat)
    requires b > 0
    requires q * b <= a < (q + 1) * b
    ensures a / b == q
  {
    DivBounds(a, b);
    if a / b < q {
      MulMono(a / b + 1, q, b);
    } else if a / b > q {
      MulMono(q + 1, a / b, b);
    }
  }

  lemma DivMono(a: nat, c: nat, b: nat)
    requires b > 0 && a <= c
    ensures a / b <= c / b
  {
    DivBounds(a, b);
    DivBounds(c, b);
    if c / b < a / b {
      MulMono(c / b + 1, a / b, b);
    }
  }

  lemma DivPositive(a: nat, b: nat)
    requires 0 < b <= a
    ensures a / b > 0
  {
    DivBounds(a, b);
  }

  lemma NestedBounds(a: nat, b: nat, c: nat, q: nat, r: nat)
    requires q * b <= a < (q + 1) * b && r * c <= q < (r + 1) * c
    ensures r * (b * c) <= a < (r + 1) * (b * c)
  {
    MulMono(r * c, q, b);
    MulMono(q + 1, (r + 1) * c, b);
    assert r * c * b == r * (b * c);
    assert (r + 1) * c * b == (r + 1) * (b * c);
  }

  /** Dividing by b * c is dividing by b and then by c. */
  lemma DivNested(a: nat, b: nat, c: nat)
    requires b > 0 && c > 0
    ensures b * c > 0
    ensures a / (b * c) == a / b / c
  {
    var q, r := a / b, a / b / c;
    DivBounds(a, b);
    DivBounds(q, c);
    NestedBounds(a, b, c, q, r);
    MulMono(1, b, c);
    DivUnique(a, b * c, r);
  }

  lemma CeilingBounds(size: nat, chunk: nat, q: nat, r: nat)
    requires size == q * chunk + r && r < chunk
    ensures r != 0 ==> q * chunk < size <= (q + 1) * chunk
    ensures r == 0 ==> size <= q * chunk && (q > 0 ==> (q - 1) * chunk < size)
  {
    MulNext(q, chunk);
    if q > 0 {
      MulNext(q - 1, chunk);
    }
  }

  /** How many chunks of `chunk` bytes hold `size` bytes: the ceiling of the quotient. */
  function NumChunks(size: nat, chunk: nat): (q: nat)
    requires chunk > 0
    ensures size <= q * chunk
    ensures q > 0 ==> (q - 1) * chunk < size
  {
    DivBounds(size, chunk);
    DivNonNegative(size, chunk);
    CeilingBounds(size, chunk, size / chunk, size % chunk);
    if size % chunk != 0 then size / chunk + 1 else size / chunk
  }

  lemma NumChunksUnique(size: nat, chunk: nat, q: nat)
    requires chunk > 0
    requires size <= q * chunk && (q > 0 ==> (q - 1) * chunk < size)
    ensures NumChunks(size, chunk) == q
  {
    var p := NumChunks(size, chunk);
    if p < q {
      MulMono(p, q - 1, chunk);
    } else if q < p {
      MulMono(q, p - 1, chunk);
    }
  }

  lemma NumChunksLeast(size: nat, chunk: nat, q: nat)
    requires chunk > 0
    ensures size <= q * chunk <==> NumChunks(size, chunk) <= q
  {
    var p := NumChunks(size, chunk);
    if p <= q {
      MulMono(p, q, chunk);
    } else {
      MulMono(q, p - 1, chunk);
    }
  }

  lemma IndexBelowNumChunks(x: nat, size: nat, chunk: nat)
    requires chunk > 0 && x < size
    ensures x / chunk < NumChunks(size, chunk)
  {
    DivBounds(x, chunk);
    if NumChunks(size, chunk) <= x / chunk {
      MulMono(NumChunks(size, chunk), x / chunk, chunk);
    }
  }

  /** Rounding up twice is rounding up once. */
  lemma NumChunksNested(size: nat, b: nat, c: nat)
    requires b > 0 && c > 0
    ensures b * c > 0
    ensures NumChunks(NumChunks(size, b), c) == NumChunks(size, b * c)
  {
    hide NumChunks;
    var q := NumChunks(size, b);
    var r := NumChunks(q, c);
    NestedBound(q, b, c, r);
    if r > 0 {
      NestedBound((r - 1) * c, b, c, r - 1);
      MulMono((r - 1) * c, q - 1, b);
    }
    NumChunksUnique(size, b * c, r);
  }

  lemma NestedBound(q: nat, b: nat, c: nat, r: nat)
    requires q <= r * c && b > 0 && c > 0
    ensures q * b <= r * (b * c) && b * c > 0
    ensures q == r * c ==> q * b == r * (b * c)
  {
    MulMono(q, r * c, b);
    MulAssoc(r, c, b);
    MulMono(1, b, c);
  }

  lemma NumChunksScale(size: nat, chunk: nat, k: nat)
    requires chunk > 0 && k > 0
    ensures k * chunk > 0
    ensures NumChunks(k * size, k * chunk) == NumChunks(size, chunk)
  {
    hide NumChunks;
    var q := NumChunks(size, chunk);
    MulMono(1, k, chunk);
    ScaleBounds(size, chunk, k, q);
    NumChunksUnique(k * size, k * chunk, q);
  }

  lemma ScaleBounds(size: nat, chunk: nat, k: nat, q: nat)
    requires k > 0 && size <= q * chunk && (q > 0 ==> (q - 1) * chunk < size)
    ensures k * size <= q * (k * chunk) && (q > 0 ==> (q - 1) * (k * chunk) < k * size)
  {
    MulMono(size, q * chunk, k);
    MulSwap(q, chunk, k);
    MulAssoc(q, k, chunk);
    if q > 0 {
      MulMono((q - 1) * chunk + 1, size, k);
      MulSwap(q - 1, chunk, k);
      MulAssoc(q - 1, k, chunk);
    }
  }

  function Pow(b: nat, e: nat): (p: nat)
    requires b > 0
    ensures p > 0
  {
    if e == 0 then 1 else MulMono(1, b, Pow(b, e - 1)); b * Pow(b, e - 1)
  }

  lemma {:induction false} PowAdd(b: nat, d: nat, e: nat)
    requires b > 0
    ensures Pow(b, d + e) == Pow(b, d) * Pow(b, e)
  {
    hide Pow;
    PowFirst(b, d);
    PowFirst(b, d + e);
    if d > 0 {
      PowAdd(b, d - 1, e);
      MulAssoc(b, Pow(b, d - 1), Pow(b, e));
    }
  }

  lemma PowFirst(b: nat, e: nat)
    requires b > 0
    ensures Pow(b, e) == if e == 0 then 1 else b * Pow(b, e - 1)
  {
  }

  /** If one hash less reaches only over p * S bytes short of `total`, all of them are few. */
  lemma FewHashes(used: nat, p: nat, S: nat, total: nat)
    requires used >= 2 && S >= 2 && (used - 1) * (p * S) < total
    ensures used * p <= total
  {
    var x := (used - 1) * p;
    assert used * p == x + p;
    MulMono(1, used - 1, p);
    MulMono(2, S, x);
    MulAssoc(used - 1, p, S);
  }

  lemma FactorAtMost(used: nat, p: nat, q: nat, total: nat)
    requires used > 0 && p > 0 && q > 0 && used * (p * q) <= total
    ensures 0 < used * p <= total
  {
    MulMono(1, used, p);
    MulAssoc(used, p, q);
    MulMono(1, q, used * p);
  }

  lemma DivExact(m: nat, r: nat)
    requires m > 0
    ensures m * r / m == r
  {
    assert (r + 1) * m == m * r + m;
    DivUnique(m * r, m, r);
  }

  lemma DivNestedBounds(a: nat, b: nat, c: nat)
    requires b > 0 && c > 0
    ensures b * c > 0
    ensures a / (b * c) * c <= a / b < (a / (b * c) + 1) * c
  {
    DivNested(a, b, c);
    DivBounds(a / b, c);
  }

  lemma PowNext(b: nat, e: nat)
    requires b > 0
    ensures Pow(b, e + 1) == Pow(b, e) * b
  {
  }

  lemma DivNonNegative(a: nat, b: nat)
    requires b > 0
    ensures a / b >= 0
  {
  }

  lemma ModExact(q: nat, k: nat)
    requires k > 0
    ensures q * k % k == 0
  {
    ModIs(q * k, k, q);
  }

  lemma ModIs(x: nat, k: nat, q: nat)
    requires k > 0 && x == q * k
    ensures x % k == 0
  {
    DivBounds(x, k);
    DivUnique(x, k, q);
  }

  /** The last digit of a number in base 256, and what is before it. */
  lemma LastDigit(b: nat, q: nat, p: nat)
    requires b < 256
    ensures (b + 256 * q) % 256 == b && (b + 256 * q) / 256 == q
    ensures q < p ==> b + 256 * q < 256 * p
  {
    DivUnique(b + 256 * q, 256, q);
    DivBounds(b + 256 * q, 256);
  }

  function Pow2(m: nat): (p: nat)
    ensures p > 0
  {
    if m == 0 then 1 else 2 * Pow2(m - 1)
  }
}
