/** The arithmetic shared by both Barrett reducers (barrett.cpp and reducer.cpp).

    After the quotient estimate q1 has been formed, both files run the same
    pipeline: multiply by mu, shift, multiply by m, mask to k+1 words,
    subtract from the low k+1 words of x, add b^(k+1) back if negative, and
    subtract m at most twice. `BarrettTail` is that pipeline and
    `BarrettTailCorrect` is Algorithm 14.42 of the Handbook of Applied
    Cryptography: the result is x mod m. */
module BarrettMath {
  import opened Words

  /** ct_modulo: the remainder in [0, m), also for negative x. */
  function CtModulo(x: int, m: nat): (r: nat)
    requires m > 0
    ensures r < m && (x - r) % m == 0
  {
    assert x - x % m == (x / m) * m + 0;
    ModAddMultiple(x / m, m, 0);
    x % m
  }

  /** ct_divide_pow2k(bits, m): floor(2^bits / m), characterised by its bounds. */
  function CtDividePow2k(bits: nat, m: nat): (q: nat)
    requires m > 0
    ensures q * m <= Pow(2, bits) < q * m + m
  {
    DivBounds(Pow(2, bits), m);
    Pow(2, bits) / m
  }

  /** The mu both factories store: 2^(2Wk) / m, which is b^(2k) / m. */
  lemma MuValue(k: nat, m: nat, q: nat)
    requires m > 0 && q * m <= Pow(2, 2 * WORD_BITS * k) < q * m + m
    ensures q == Pow(BASE, 2 * k) / m
  {
    Pow2Words(2 * k);
    assert WORD_BITS * (2 * k) == 2 * WORD_BITS * k;
    DivModUnique(Pow(BASE, 2 * k), m, q, Pow(BASE, 2 * k) - q * m);
  }

  /** `>>= bits` on a non-negative BigInt. */
  function ShiftRightBits(v: nat, bits: nat): nat
  {
    v / Pow(2, bits)
  }

  /** `mask_bits(bits)` on a non-negative BigInt: keep the low `bits` bits. */
  function MaskBits(v: nat, bits: nat): (r: nat)
    ensures r < Pow(2, bits)
  {
    v % Pow(2, bits)
  }

  /** The k+2 word vector whose only non-zero word is r_neg at index k+1. */
  function RNegWords(k: nat, rNeg: bool): (r: seq<Word>)
    ensures |r| == k + 2
    ensures Val(r) == (if rNeg then Pow(BASE, k + 1) else 0)
  {
    var w: Word := if rNeg then 1 else 0;
    ValAppend(Zeros(k + 1), w);
    ValOfZeros(k + 1);
    Zeros(k + 1) + [w]
  }

  /** One correction round: bigint_sub3 computes r - m with a borrow, and the
      difference is selected only when the borrow is zero. */
  function SubRound(r: int, m: nat): (s: int)
    requires m > 0
    ensures r >= 0 ==> 0 <= s <= r && (r - s) % m == 0
  {
    var borrow := r < m;
    if borrow then DivModUnique(0, m, 0, 0); r else DivModUnique(m, m, 1, 0); r - m
  }

  /** `rounds` correction rounds (ct_reduce_below, or the explicit loop). */
  function CorrectBelow(r: int, m: nat, rounds: nat): int
    requires m > 0
  {
    if rounds == 0 then r else CorrectBelow(SubRound(r, m), m, rounds - 1)
  }

  /** Below (rounds+1)*m, the correction rounds leave exactly r mod m. */
  lemma {:induction false} CorrectBelowMod(r: nat, m: nat, rounds: nat)
    requires m > 0 && r < (rounds + 1) * m
    ensures CorrectBelow(r, m, rounds) == r % m
  {
    if rounds == 0 {
      DivModUnique(r, m, 0, r);
    } else {
      var s := SubRound(r, m);
      if r >= m {
        ModAddMultiple(1, m, r - m);
      }
      CorrectBelowMod(s, m, rounds - 1);
    }
  }

  /** The shared Barrett pipeline, from the quotient estimate q1 and the low
      k+1 words `low` of |x|. */
  function BarrettTail(k: nat, m: nat, mu: nat, q1: nat, low: nat): int
    requires m > 0
  {
    var q3 := ShiftRightBits(q1 * mu, WORD_BITS * (k + 1));
    var t := MaskBits(q3 * m, WORD_BITS * (k + 1));
    // rev_sub: r = low - r, a signed result
    var r := low - t;
    var rNeg := r < 0;
    // the unconditional add of r_neg * b^(k+1)
    var r2 := r + Val(RNegWords(k, rNeg));
    // at most two subtractions (HAC 14.42 step 4)
    CorrectBelow(r2, m, 2)
  }

  /** Barrett reduction reduces: for m with k significant words,
      mu = floor(b^(2k) / m) and 0 <= x < b^(2k), the pipeline returns x mod m. */
  lemma BarrettTailCorrect(k: nat, m: nat, mu: nat, x: nat)
    requires m > 0 && k == SigWords(m)
    requires mu == Pow(BASE, 2 * k) / m
    requires x < Pow(BASE, 2 * k)
    ensures BarrettTail(k, m, mu, x / Pow(BASE, k - 1), x % Pow(BASE, k + 1)) == x % m
  {
    BarrettFacts(k, m);
    BarrettTailUnfold(k, m, mu, x / Pow(BASE, k - 1), x % Pow(BASE, k + 1));
    BarrettSteps(x, m, mu, Pow(BASE, k - 1), Pow(BASE, k + 1), Pow(BASE, 2 * k));
  }

  function Quot(a: nat, b: nat): nat
    requires b > 0
  {
    a / b
  }

  /** HAC 14.42 with the powers of b abstracted: p = b^(k-1), s = b^(k+1). */
  lemma BarrettSteps(x: nat, m: nat, mu: nat, p: nat, s: nat, ps: nat)
    requires 0 < p <= m && 3 * m < s && ps == p * s && m < ps
    requires mu == ps / m && x < ps
    ensures var r := x % s - (((x / p) * mu) / s * m) % s;
            CorrectBelow(r + (if r < 0 then s else 0), m, 2) == x % m
  {
    var q1 := Quot(x, p);
    var q3 := Quot(q1 * mu, s);
    HacBound(x, m, p, s, ps, q1, mu, q3);
    BarrettTailFinish(x, m, q3, s);
  }

  /** The sizes HAC 14.42 needs: b^(k-1) <= m < b^k, and b^(k+1) divides into b^(2k). */
  lemma BarrettFacts(k: nat, m: nat)
    requires m > 0 && k == SigWords(m)
    ensures k > 0
    ensures Pow(BASE, k - 1) <= m < Pow(BASE, k)
    ensures Pow(BASE, k + 1) == BASE * Pow(BASE, k)
    ensures Pow(BASE, 2 * k) == Pow(BASE, k - 1) * Pow(BASE, k + 1)
    ensures m < Pow(BASE, 2 * k)
    ensures 3 * m < Pow(BASE, k + 1)
  {
    SigWordsBounds(m);
    PowSplit(k);
    PowStep(BASE, k);
    PowMonotone(BASE, k + 1, 2 * k);
    MulLeMono(1, BASE, Pow(BASE, k));
  }

  /** The last steps: the window add recovers x - q3*m, and two rounds reduce it. */
  lemma BarrettTailFinish(x: nat, m: nat, q3: nat, s: nat)
    requires m > 0 && 3 * m < s
    requires q3 * m <= x < q3 * m + 3 * m
    ensures var r := x % s - (q3 * m) % s;
            CorrectBelow(r + (if r < 0 then s else 0), m, 2) == x % m
  {
    var d := x - q3 * m;
    ModDiffWindow(x, q3 * m, s);
    CorrectBelowMod(d, m, 2);
    ModAddMultiple(q3, m, d);
  }

  lemma BarrettTailUnfold(k: nat, m: nat, mu: nat, q1: nat, low: nat)
    requires m > 0
    ensures var s := Pow(BASE, k + 1);
            var r := low - (((q1 * mu) / s) * m) % s;
            BarrettTail(k, m, mu, q1, low) == CorrectBelow(r + (if r < 0 then s else 0), m, 2)
  {
    Pow2Words(k + 1);
  }

  /** x % S - y % S is x - y, or x - y - S, when 0 <= x - y < S. */
  lemma ModDiffWindow(x: nat, y: nat, s: nat)
    requires s > 0 && y <= x < y + s
    ensures x % s - y % s >= 0 ==> x % s - y % s == x - y
    ensures x % s - y % s < 0 ==> x % s - y % s + s == x - y
  {
    var a, b := x / s, y / s;
    var c := a - b;
    var r := x % s - y % s;
    assert x - y == c * s + r;
    if c >= 2 {
      MulLeMono(2, c, s);
    } else if c <= -1 {
      MulLeMono(1, -c, s);
    }
  }

  /** HAC 14.42, steps 1-3: the estimate q3 is at most two below floor(x / m). */
  lemma HacBound(x: nat, m: nat, p: nat, s: nat, ps: nat, q1: nat, mu: nat, q3: nat)
    requires p > 0 && s > 0 && ps == p * s
    requires p <= m < ps && x < ps
    requires q1 == x / p && mu == ps / m && q3 == (q1 * mu) / s
    ensures q3 * m <= x < q3 * m + 3 * m
  {
    // q1*p <= x,  mu*m <= ps,  q3*s <= q1*mu
    HacUpper(x, m, p, s, ps, q1, mu, q3);
    if x >= m {
      HacLower(x, m, p, s, ps, q1, mu, q3);
    }
  }

  lemma HacUpper(x: nat, m: nat, p: nat, s: nat, ps: nat, q1: nat, mu: nat, q3: nat)
    requires p > 0 && s > 0 && ps == p * s && m > 0
    requires q1 == x / p && mu == ps / m && q3 == (q1 * mu) / s
    ensures q3 * m <= x
  {
    QuotientBelow(x, p);
    QuotientBelow(ps, m);
    QuotientBelow(q1 * mu, s);
    HacUpperScaled(x, m, p, s, ps, q1, mu, q3);
  }

  /** (a / d) * d <= a. */
  lemma QuotientBelow(a: nat, d: nat)
    requires d > 0
    ensures (a / d) * d <= a
  {
  }

  lemma HacUpperScaled(x: nat, m: nat, p: nat, s: nat, ps: nat, q1: nat, mu: nat, q3: nat)
    requires p > 0 && s > 0 && ps == p * s && m > 0
    requires q1 * p <= x && mu * m <= ps && q3 * s <= q1 * mu
    ensures q3 * m <= x
  {
    MulLeMono(q3 * s, q1 * mu, m * p);
    assert (q3 * s) * (m * p) == (q3 * m) * ps;
    assert (q1 * mu) * (m * p) == (q1 * p) * (mu * m);
    MulMono2(q1 * p, x, mu * m, ps);
    CancelLe(q3 * m, x, ps);
  }

  lemma HacLower(x: nat, m: nat, p: nat, s: nat, ps: nat, q1: nat, mu: nat, q3: nat)
    requires p > 0 && s > 0 && ps == p * s
    requires p <= m <= x < ps
    requires q1 == x / p && mu == ps / m && q3 == (q1 * mu) / s
    ensures x < q3 * m + 3 * m
  {
    HacLowerScaled(x, m, p, s, ps, q1, mu, q3);
    if x - 2 * m >= 0 {
      CancelLtInt(x - 2 * m, (q3 + 1) * m, ps);
    }
  }

  /** The inequality of HAC 14.42 before dividing out ps. */
  lemma HacLowerScaled(x: nat, m: nat, p: nat, s: nat, ps: nat, q1: nat, mu: nat, q3: nat)
    requires p > 0 && s > 0 && ps == p * s
    requires p <= m <= x < ps
    requires q1 == x / p && mu == ps / m && q3 == (q1 * mu) / s
    ensures ((q3 + 1) * m) * ps > (x - 2 * m) * ps
  {
    DivBounds(x, p);
    DivBounds(ps, m);
    DivBounds(q1 * mu, s);
    MulLtMono(q1 * mu, (q3 + 1) * s, p * m);
    Regroup(q1, mu, p, m);
    MulMono2(x - p, q1 * p, ps - m, mu * m);
    Expand(x, p, ps, m);
    MulLtMono(x, ps, m);
    MulLeMono(p, m, ps);
    Regroup2(q3 + 1, s, p, m, ps);
    Expand2(x, m, ps);
  }

  lemma DivBounds(a: nat, b: nat)
    requires b > 0
    ensures (a / b) * b <= a < (a / b) * b + b
    ensures ((a / b) + 1) * b == (a / b) * b + b
  {
  }

  lemma Regroup(a: int, b: int, c: int, d: int)
    ensures (a * b) * (c * d) == (a * c) * (b * d)
  {
  }

  lemma Regroup2(a: int, s: int, p: int, m: int, ps: int)
    requires ps == p * s
    ensures (a * s) * (p * m) == (a * m) * ps
  {
  }

  lemma Expand(a: int, b: int, c: int, d: int)
    ensures (a - b) * (c - d) == a * c - a * d - b * c + b * d
  {
  }

  lemma Expand2(x: int, m: int, ps: int)
    ensures (x - 2 * m) * ps == x * ps - 2 * (m * ps)
  {
  }

  lemma MulMono2(a: nat, b: nat, c: nat, d: nat)
    requires a <= b && c <= d
    ensures a * c <= b * d
  {
    MulLeMono(a, b, c);
    MulLeMono(c, d, b);
  }

  lemma MulLtMono(a: nat, b: nat, c: nat)
    requires a < b && c > 0
    ensures a * c < b * c
  {
  }

  lemma CancelLe(x: nat, y: nat, c: nat)
    requires c > 0 && x * c <= y * c
    ensures x <= y
  {
    if x > y {
      MulLtMono(y, x, c);
    }
  }

  lemma CancelLtInt(x: nat, y: nat, c: nat)
    requires c > 0 && x * c < y * c
    ensures x < y
  {
    if x >= y {
      MulLeMono(y, x, c);
    }
  }
}
