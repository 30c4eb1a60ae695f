/**
 * Arithmetic of chunk-aligned prefix lengths. Both versions of the shortener
 * grow a candidate prefix `l` bytes at a time, so the only lengths they ever
 * test are the positive multiples of `l` that still fit inside the input.
 */
module Chunks {

  /** `m` is a length a chunked search over `input` with chunk size `l` tests. */
  predicate ChunkEnd(input: string, l: int, m: int) {
    l >= 1 && l <= m <= |input| && m % l == 0
  }

  lemma MulAtLeast(a: int, l: int)
    requires a >= 1 && l >= 1
    ensures a * l >= l
  {
  }

  /** Euclidean division is unique: any decomposition `q * l + rem` is the one `/` and `%` give. */
  lemma ModUnique(x: int, l: int, q: int, rem: int)
    requires l >= 1 && 0 <= rem < l && x == q * l + rem
    ensures x % l == rem && x / l == q
  {
    var q', r' := x / l, x % l;
    assert x == q' * l + r';
    assert (q - q') * l == r' - rem;
    if q - q' >= 1 {
      MulAtLeast(q - q', l);
    } else if q' - q >= 1 {
      MulAtLeast(q' - q, l);
    }
  }

  /** The chunk after an aligned length ends on a chunk boundary too. */
  lemma NextAligned(n: int, l: int)
    requires l >= 1 && n % l == 0
    ensures (n + l) % l == 0
  {
    var q := n / l;
    assert n == q * l;
    assert n + l == (q + 1) * l;
    ModUnique(n + l, l, q + 1, 0);
  }

  /** Two distinct aligned lengths are at least one whole chunk apart. */
  lemma AlignedGap(n: int, m: int, l: int)
    requires l >= 1 && n % l == 0 && m % l == 0 && n < m
    ensures n + l <= m
  {
    var a, b := n / l, m / l;
    assert n == a * l && m == b * l;
    assert (b - a) * l == m - n;
    if b - a >= 1 {
      MulAtLeast(b - a, l);
    } else if a - b >= 1 {
      MulAtLeast(a - b, l);
    }
  }

  /** The end of chunk number `i` (counting from zero) is `(i + 1) * l`, and `i * l` is aligned. */
  lemma ChunkIndex(i: nat, l: int)
    requires l >= 1
    ensures (i * l) % l == 0 && (i + 1) * l == i * l + l
  {
    ModUnique(i * l, l, i, 0);
  }
}
