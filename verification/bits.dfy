/** Small vocabulary for 32-bit register words, held as naturals below `WordLimit`.
    A field written as `(x << k)` into bits that are otherwise clear is `x * 2^k`, and
    an OR of such disjoint fields is their sum; reading a field back is a division and
    a remainder by powers of two. */
module Bits {

  /** Number of distinct values of a 32-bit register. */
  const WordLimit: nat := 0x1_0000_0000

  function Pow2(n: nat): (p: nat)
    ensures p >= 1
  {
    if n == 0 then 1 else 2 * Pow2(n - 1)
  }

  /** Bit `k` of `w` is set. */
  predicate Bit(w: nat, k: nat) {
    (w / Pow2(k)) % 2 == 1
  }

  lemma MulAtLeast(x: int, m: nat)
    ensures x >= 1 ==> x * m >= m
  {
  }

  /** Division by `m` undoes `a * m + r` for a remainder below `m`: the quotient and the
      remainder are unique. */
  lemma DivMulAdd(a: nat, r: nat, m: nat)
    requires r < m
    ensures (a * m + r) / m == a && (a * m + r) % m == r
  {
    var q, s := (a * m + r) / m, (a * m + r) % m;
    assert (q - a) * m == r - s;
    MulAtLeast(q - a, m);
    MulAtLeast(a - q, m);
    assert (a - q) * m == s - r;
  }

  /** The low `n` bits of `w`, least significant first (bit `i` is element `i`). */
  function Flags(w: nat, n: nat): (s: seq<bool>)
    ensures |s| == n
  {
    if n == 0 then [] else [w % 2 == 1] + Flags(w / 2, n - 1)
  }

  /** Setting bit `n` (`w |= 1U << n`) of a word whose bits from `n` up are clear adds
      `2^n`, appends one set flag and keeps the low `n` flags; leaving it clear appends a
      clear flag. */
  lemma {:induction false} AddFlag(w: nat, n: nat, c: bool)
    requires w < Pow2(n)
    ensures w + (if c then Pow2(n) else 0) < Pow2(n + 1)
    ensures Flags(w + (if c then Pow2(n) else 0), n + 1) == Flags(w, n) + [c]
  {
    if n > 0 {
      AddFlag(w / 2, n - 1, c);
      var x := w + (if c then Pow2(n) else 0);
      assert x % 2 == w % 2 && x / 2 == w / 2 + (if c then Pow2(n - 1) else 0);
    }
  }

  /** `(1U << n) - 1` has exactly its low `n` bits set. */
  lemma {:induction false} LowMaskFlags(n: nat)
    ensures Flags(Pow2(n) - 1, n) == seq(n, _ => true)
  {
    if n > 0 {
      LowMaskFlags(n - 1);
      assert (Pow2(n) - 1) / 2 == Pow2(n - 1) - 1;
    }
  }

  /** Absolute difference of two naturals. */
  function Dist(a: nat, b: nat): (d: nat)
    ensures a + d == b || b + d == a
  {
    if a >= b then a - b else b - a
  }
}
