/** Machine words and multi-precision integers as little-endian word sequences.

    Botan's `word` is modelled at 64 bits. A multi-precision magnitude is a
    `seq<Word>` with index 0 least significant; `Val` gives the number it
    stands for. The arithmetic facts the reduction proofs lean on live here
    as small lemmas. */
module Words {

  const WORD_BITS: nat := 64
  /** b = 2^W, the radix of every multi-precision integer. */
  const BASE: nat := 0x1_0000_0000_0000_0000

  type Word = w: nat | w < BASE

  function Pow(b: nat, e: nat): (r: nat)
    ensures b > 0 ==> r > 0
  {
    if e == 0 then 1 else b * Pow(b, e - 1)
  }

  lemma {:induction false} PowAdd(b: nat, e1: nat, e2: nat)
    ensures Pow(b, e1 + e2) == Pow(b, e1) * Pow(b, e2)
    decreases e2
  {
    if e2 > 0 {
      PowAdd(b, e1, e2 - 1);
      calc {
        Pow(b, e1 + e2);
        b * Pow(b, e1 + e2 - 1);
        b * (Pow(b, e1) * Pow(b, e2 - 1));
        { MulAssoc3(b, Pow(b, e1), Pow(b, e2 - 1)); }
        Pow(b, e1) * (b * Pow(b, e2 - 1));
      }
    }
  }

  lemma {:induction false} PowMonotone(b: nat, e1: nat, e2: nat)
    requires b >= 1 && e1 <= e2
    ensures Pow(b, e1) <= Pow(b, e2)
    decreases e2
  {
    if e2 > e1 {
      PowMonotone(b, e1, e2 - 1);
      MulLeMono(1, b, Pow(b, e2 - 1));
    }
  }

  lemma Pow2Word()
    ensures Pow(2, WORD_BITS) == BASE
  {
    PowSquare(2, 1, 2);
    PowSquare(2, 2, 4);
    PowSquare(2, 4, 16);
    PowSquare(2, 8, 256);
    PowSquare(2, 16, 0x1_0000);
    PowSquare(2, 32, 0x1_0000_0000);
  }

  lemma PowSquare(b: nat, n: nat, v: nat)
    requires Pow(b, n) == v
    ensures Pow(b, 2 * n) == v * v
  {
    PowAdd(b, n, n);
    assert n + n == 2 * n;
  }

  lemma PowDouble(n: nat)
    ensures Pow(BASE, 2 * n) == Pow(BASE, n) * Pow(BASE, n)
  {
    PowAdd(BASE, n, n);
    assert n + n == 2 * n;
  }

  /** b^(2k) == b^(k-1) * b^(k+1): the two shifts of Barrett reduction. */
  lemma PowSplit(k: nat)
    requires k > 0
    ensures Pow(BASE, 2 * k) == Pow(BASE, k - 1) * Pow(BASE, k + 1)
  {
    PowAdd(BASE, k - 1, k + 1);
    assert k - 1 + (k + 1) == 2 * k;
  }

  /** The base-2 view: 2^(W*n) == b^n, so "shift by W*n bits" is "divide by b^n". */
  lemma {:induction false} Pow2Words(n: nat)
    ensures Pow(2, WORD_BITS * n) == Pow(BASE, n)
  {
    Pow2Word();
    if n > 0 {
      Pow2Words(n - 1);
      PowAdd(2, WORD_BITS * (n - 1), WORD_BITS);
      assert WORD_BITS * (n - 1) + WORD_BITS == WORD_BITS * n;
    }
  }

  // ---------------------------------------------------------------------
  // Little-endian word sequences

  /** The number a little-endian word sequence stands for. */
  function Val(s: seq<Word>): nat
  {
    if |s| == 0 then 0 else Val(s[..|s| - 1]) + s[|s| - 1] * Pow(BASE, |s| - 1)
  }

  lemma ValAppend(s: seq<Word>, w: Word)
    ensures Val(s + [w]) == Val(s) + w * Pow(BASE, |s|)
  {
    assert (s + [w])[..|s|] == s;
  }

  lemma ValPrefixStep(s: seq<Word>, k: nat)
    requires k < |s|
    ensures Val(s[..k + 1]) == Val(s[..k]) + s[k] * Pow(BASE, k)
  {
    assert s[..k + 1][..k] == s[..k];
  }

  lemma PowStep(b: nat, e: nat)
    ensures Pow(b, e + 1) == b * Pow(b, e)
  {
  }

  lemma {:induction false} ValBound(s: seq<Word>)
    ensures Val(s) < Pow(BASE, |s|)
  {
    if |s| > 0 {
      var k := |s| - 1;
      ValBound(s[..k]);
      // Val(s) <= (b^k - 1) + (b - 1) * b^k = b^(k+1) - 1
      MulLeMono(s[k], BASE - 1, Pow(BASE, k));
      assert Pow(BASE, k + 1) == BASE * Pow(BASE, k);
    }
  }

  /** The low k words and the high words together make up the value. */
  lemma {:induction false} ValSplit(s: seq<Word>, k: nat)
    requires k <= |s|
    ensures Val(s) == Val(s[..k]) + Pow(BASE, k) * Val(s[k..])
    decreases |s|
  {
    if |s| == k {
      assert s[..k] == s;
      assert s[k..] == [];
    } else {
      var n := |s| - 1;
      ValSplit(s[..n], k);
      assert s[..n][..k] == s[..k];
      assert s[k..][..n - k] == s[..n][k..];
      assert s[k..][n - k] == s[n];
      assert Val(s[k..]) == Val(s[..n][k..]) + s[n] * Pow(BASE, n - k);
      PowAdd(BASE, k, n - k);
      SplitStep(Pow(BASE, k), Val(s[..n][k..]), s[n], Pow(BASE, n - k));
    }
  }

  lemma SplitStep(p: int, h: int, w: int, q: int)
    ensures p * (h + w * q) == p * h + w * (p * q)
  {
  }

  /** Dropping the low k words divides by b^k; keeping them reduces mod b^k. */
  lemma ValDivMod(s: seq<Word>, k: nat)
    requires k <= |s|
    ensures Val(s[k..]) == Val(s) / Pow(BASE, k)
    ensures Val(s[..k]) == Val(s) % Pow(BASE, k)
  {
    ValSplit(s, k);
    ValBound(s[..k]);
    DivModOfSplit(Val(s), Val(s[..k]), Val(s[k..]), Pow(BASE, k));
  }

  function Zeros(n: nat): (r: seq<Word>)
    ensures |r| == n
    ensures forall i :: 0 <= i < n ==> r[i] == 0
  {
    seq(n, _ => 0)
  }

  lemma {:induction false} ValZeros(s: seq<Word>, n: nat)
    ensures Val(s + Zeros(n)) == Val(s)
  {
    ValSplit(s + Zeros(n), |s|);
    assert (s + Zeros(n))[..|s|] == s;
    assert (s + Zeros(n))[|s|..] == Zeros(n);
    ValOfZeros(n);
  }

  lemma {:induction false} ValOfZeros(n: nat)
    ensures Val(Zeros(n)) == 0
  {
    if n > 0 {
      assert Zeros(n)[..n - 1] == Zeros(n - 1);
      ValOfZeros(n - 1);
    }
  }

  /** A value below b^k has only zero words from index k on. */
  lemma ValHighZero(s: seq<Word>, k: nat)
    requires k <= |s| && Val(s) < Pow(BASE, k)
    ensures Val(s[..k]) == Val(s)
  {
    ValSplit(s, k);
    HighZero(Val(s), Val(s[..k]), Val(s[k..]), Pow(BASE, k));
  }

  /** The n low words of v, little-endian. */
  function ToWords(v: nat, n: nat): (r: seq<Word>)
    ensures |r| == n
  {
    if n == 0 then [] else
      ToWords(v, n - 1) + [(v / Pow(BASE, n - 1)) % BASE]
  }

  lemma {:induction false} ValToWords(v: nat, n: nat)
    ensures Val(ToWords(v, n)) == v % Pow(BASE, n)
  {
    if n > 0 {
      var m := n - 1;
      ValToWords(v, m);
      ValAppend(ToWords(v, m), (v / Pow(BASE, m)) % BASE);
      ModOfProduct(v, Pow(BASE, m), BASE);
      assert Pow(BASE, n) == Pow(BASE, m) * BASE;
    }
  }

  /** Number of significant words of a magnitude (BigInt::sig_words). */
  function SigWords(n: nat): nat
  {
    if n == 0 then 0 else 1 + SigWords(n / BASE)
  }

  /** n needs exactly SigWords(n) words: b^(k-1) <= n < b^k. */
  lemma {:induction false} SigWordsBounds(n: nat)
    ensures n < Pow(BASE, SigWords(n))
    ensures n > 0 ==> Pow(BASE, SigWords(n) - 1) <= n
  {
    if n > 0 {
      SigWordsBounds(n / BASE);
      var k := SigWords(n / BASE);
      assert Pow(BASE, k + 1) == BASE * Pow(BASE, k);
      if n / BASE > 0 {
        MulLeMono(Pow(BASE, k - 1), n / BASE, BASE);
        assert Pow(BASE, k) == BASE * Pow(BASE, k - 1);
      }
    }
  }

  /** Conversely, a value between b^(k-1) and b^k has k significant words. */
  lemma SigWordsExact(n: nat, k: nat)
    requires n < Pow(BASE, k)
    requires k > 0 ==> Pow(BASE, k - 1) <= n
    ensures SigWords(n) == k
  {
    SigWordsBounds(n);
    var s := SigWords(n);
    if s < k {
      PowMonotone(BASE, s, k - 1);
    } else if s > k {
      PowMonotone(BASE, k, s - 1);
    }
  }

  // ---------------------------------------------------------------------
  // Integer arithmetic facts

  lemma MulPositive(a: nat, b: nat)
    requires a > 0 && b > 0
    ensures a * b > 0
  {
  }

  lemma MulLeMono(a: nat, b: nat, c: nat)
    requires a <= b
    ensures a * c <= b * c
  {
  }

  lemma MulAssoc3(a: int, b: int, c: int)
    ensures a * (b * c) == b * (a * c)
  {
  }

  /** Division and remainder are determined by the defining equation. */
  lemma DivModUnique(a: int, m: int, q: int, r: int)
    requires m > 0 && 0 <= r < m && a == q * m + r
    ensures a / m == q && a % m == r
  {
    var q0, r0 := a / m, a % m;
    assert a == q0 * m + r0;
    if q0 > q {
      MulLeMono(1, q0 - q, m);
    } else if q0 < q {
      MulLeMono(1, q - q0, m);
    }
  }

  lemma DivModOfSplit(a: int, lo: int, hi: int, p: int)
    requires p > 0 && 0 <= lo < p && a == lo + p * hi
    ensures a / p == hi && a % p == lo
  {
    DivModUnique(a, p, hi, lo);
  }

  lemma HighZero(a: nat, lo: nat, hi: nat, p: nat)
    requires a == lo + p * hi && a < p
    ensures a == lo
  {
    if hi > 0 {
      MulLeMono(1, hi, p);
    }
  }

  lemma ModAddMultiple(k: int, m: int, r: int)
    requires m > 0
    ensures (k * m + r) % m == r % m
    ensures (k * m + r) / m == k + r / m
  {
    DivModUnique(k * m + r, m, k + r / m, r % m);
  }

  /** Multiplying by a factor commutes with reducing it first. */
  lemma MulMod(x: int, y: int, m: int)
    requires m > 0
    ensures (x * y) % m == ((x % m) * y) % m
  {
    var q := x / m;
    assert x * y == (q * y) * m + (x % m) * y;
    ModAddMultiple(q * y, m, (x % m) * y);
  }

  /** v mod ab splits into v mod a and the next "digit" (v / a) mod b. */
  lemma ModOfProduct(v: nat, a: nat, b: nat)
    requires a > 0 && b > 0
    ensures v % (a * b) == v % a + ((v / a) % b) * a
    ensures v / (a * b) == (v / a) / b
  {
    var q1, r1 := v / a, v % a;
    var q2, r2 := q1 / b, q1 % b;
    assert v == q2 * (a * b) + (r2 * a + r1) by {
      assert v == q1 * a + r1;
      assert q1 == q2 * b + r2;
    }
    MulLeMono(r2, b - 1, a);
    MulPositive(a, b);
    DivModUnique(v, a * b, q2, r2 * a + r1);
  }
}
