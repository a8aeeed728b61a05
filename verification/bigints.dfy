/** Botan's BigInt as a sign flag over a little-endian word vector.

    The word vector may carry high zero words (a BigInt's `size()` can exceed
    its `sig_words()`); `Value` is the signed integer it stands for. */
module BigInts {
  import opened Words

  datatype BigInt = BigInt(negative: bool, words: seq<Word>)

  /** The signed value: the magnitude, negated when the sign flag is set. */
  function Value(x: BigInt): int
  {
    if x.negative then -(Val(x.words) as int) else Val(x.words)
  }

  function Min(a: nat, b: nat): nat
  {
    if a <= b then a else b
  }

  /** The BigInt a product or a conversion produces: sign of v, minimal words. */
  function FromInt(v: int): (r: BigInt)
    ensures Value(r) == v
    ensures r.negative <==> v < 0
    ensures |r.words| == SigWords(if v < 0 then -v else v)
  {
    var mag: nat := if v < 0 then -v else v;
    ValToWords(mag, SigWords(mag));
    SigWordsBounds(mag);
    DivModUnique(mag, Pow(BASE, SigWords(mag)), 0, mag);
    BigInt(v < 0, ToWords(mag, SigWords(mag)))
  }

  /** `cond_flip_sign(c)`: the sign flag is inverted exactly when c holds. */
  function CondFlipSign(x: BigInt, c: bool): (r: BigInt)
    ensures r.words == x.words
    ensures Value(r) == (if c then -Value(x) else Value(x))
  {
    if c then BigInt(!x.negative, x.words) else x
  }

  /** The significant words of a vector never exceed its length. */
  lemma SigWordsLe(s: seq<Word>)
    ensures SigWords(Val(s)) <= |s|
  {
    ValBound(s);
    var k := SigWords(Val(s));
    if k > |s| {
      SigWordsBounds(Val(s));
      PowMonotone(BASE, |s|, k - 1);
    }
  }

  /** At most k significant words means the value is below b^k. */
  lemma SigWordsBelow(v: nat, k: nat)
    requires SigWords(v) <= k
    ensures v < Pow(BASE, k)
  {
    SigWordsBounds(v);
    PowMonotone(BASE, SigWords(v), k);
  }

  /** The fix-up that both reducers apply to a negative input: from |x| mod m,
      `m - t` (when t is non-zero) is the non-negative remainder of -|x|. */
  lemma NegFixup(mag: nat, m: nat, t: int)
    requires m > 0 && t == mag % m
    ensures (if t != 0 then m - t else t) == (-(mag as int)) % m
  {
    var q := mag / m;
    if t != 0 {
      DivModUnique(-(mag as int), m, -q - 1, m - t);
    } else {
      DivModUnique(-(mag as int), m, -q, 0);
    }
  }

  /** The low min(|x|, n) words of x hold x mod b^n. */
  lemma LowWordsValue(xw: seq<Word>, n: nat)
    ensures Val(xw[..Min(|xw|, n)]) == Val(xw) % Pow(BASE, n)
  {
    if |xw| >= n {
      ValDivMod(xw, n);
    } else {
      assert xw[..|xw|] == xw;
      ValBound(xw);
      PowMonotone(BASE, |xw|, n);
      DivModUnique(Val(xw), Pow(BASE, n), 0, Val(xw));
    }
  }

  /** The 2k-word product of the low min(size, k) words of x and y (bigint_mul). */
  function ProductWords(k: nat, x: BigInt, y: BigInt): (z: seq<Word>)
    ensures |z| == 2 * k
  {
    ToWords(Val(x.words[..Min(|x.words|, k)]) * Val(y.words[..Min(|y.words|, k)]), 2 * k)
  }

  /** Operands below b^k lose nothing: the product words hold |x|*|y|. */
  lemma ProductWordsExact(k: nat, x: BigInt, y: BigInt)
    requires Val(x.words) < Pow(BASE, k) && Val(y.words) < Pow(BASE, k)
    ensures Val(ProductWords(k, x, y)) == Val(x.words) * Val(y.words)
  {
    LowWordsBelow(x.words, k, Pow(BASE, k));
    LowWordsBelow(y.words, k, Pow(BASE, k));
    ProductFits(Val(x.words), Val(y.words), k);
  }

  /** A value below b^k keeps all of itself in its low k words. */
  lemma LowWordsBelow(xw: seq<Word>, k: nat, bk: nat)
    requires bk == Pow(BASE, k) && Val(xw) < bk
    ensures Val(xw[..Min(|xw|, k)]) == Val(xw)
  {
    LowWordsValue(xw, k);
    DivModUnique(Val(xw), bk, 0, Val(xw));
  }

  /** A product of two values below b^k fits in 2k words. */
  lemma ProductFits(a: nat, b: nat, k: nat)
    requires a < Pow(BASE, k) && b < Pow(BASE, k)
    ensures Val(ToWords(a * b, 2 * k)) == a * b
  {
    ProductBelow(a, b, Pow(BASE, k));
    PowDouble(k);
    ValToWords(a * b, 2 * k);
    DivModUnique(a * b, Pow(BASE, 2 * k), 0, a * b);
  }

  lemma ProductBelow(a: nat, b: nat, n: nat)
    requires a < n && b < n
    ensures a * b < n * n
  {
    MulLeMono(a, n, b);
    if b > 0 {
      assert n * b < n * n;
    }
  }
}
