/** The reference modular inverse of the inverse_mod fuzzer (invert.cpp): a
    binary extended GCD that keeps u = A*mod + B*n and v = C*mod + D*n, and
    the input split the fuzzer applies before comparing it with the library. */
module Invert {
  import opened Words
  import opened Wrappers

  /** d divides a (d positive). */
  predicate Divides(d: int, a: int)
  {
    d > 0 && a % d == 0
  }

  /** x is an inverse of n modulo mod. */
  predicate IsInverse(n: int, x: int, mod: int)
  {
    mod > 0 && (n * x) % mod == 1
  }

  /** BigInt::is_odd, on the magnitude: the Euclidean remainder has the same parity. */
  predicate IsOdd(a: int)
  {
    a % 2 == 1
  }

  /** `>>= 1` on a signed BigInt: the magnitude is shifted, the sign kept. */
  function Halve(a: int): (r: int)
    ensures a % 2 == 0 ==> 2 * r == a
  {
    if a >= 0 then a / 2 else -((-a) / 2)
  }

  /** low_zero_bits: the number of trailing zero bits (0 for zero). */
  function LowZeroBits(u: nat): (z: nat)
    ensures u > 0 ==> u % Pow(2, z) == 0 && IsOdd(u / Pow(2, z))
  {
    if u == 0 || u % 2 == 1 then 0
    else
      var z' := LowZeroBits(u / 2);
      HalvingShift(u, z');
      1 + z'
  }

  lemma HalvingShift(u: nat, z: nat)
    requires u > 0 && u % 2 == 0
    requires (u / 2) % Pow(2, z) == 0 && IsOdd((u / 2) / Pow(2, z))
    ensures u % Pow(2, z + 1) == 0 && IsOdd(u / Pow(2, z + 1))
  {
    ModOfProduct(u, 2, Pow(2, z));
    PowStep(2, z);
    assert Pow(2, z + 1) == 2 * Pow(2, z);
  }

  // ---------------------------------------------------------------------
  // Divisibility facts

  lemma DivSum(d: int, x: int, y: int)
    requires Divides(d, x) && Divides(d, y)
    ensures Divides(d, x + y) && Divides(d, x - y)
  {
    assert x == (x / d) * d;
    assert y == (y / d) * d;
    assert x + y == (x / d + y / d) * d + 0;
    assert x - y == (x / d - y / d) * d + 0;
    ModAddMultiple(x / d + y / d, d, 0);
    ModAddMultiple(x / d - y / d, d, 0);
  }

  lemma DivMul(d: int, a: int, k: int)
    requires Divides(d, a)
    ensures Divides(d, a * k)
  {
    assert a == (a / d) * d;
    assert a * k == ((a / d) * k) * d + 0;
    ModAddMultiple((a / d) * k, d, 0);
  }

  lemma OddProduct(a: int, b: int)
    requires IsOdd(a) && IsOdd(b)
    ensures IsOdd(a * b)
  {
    var i, j := a / 2, b / 2;
    assert a * b == (2 * i * j + i + j) * 2 + 1;
    ModAddMultiple(2 * i * j + i + j, 2, 1);
  }

  /** An odd d divides an even u exactly when it divides u / 2. */
  lemma OddDividesHalf(d: int, u: int)
    requires d > 0 && IsOdd(d) && u % 2 == 0
    ensures Divides(d, u) <==> Divides(d, u / 2)
  {
    assert u == 2 * (u / 2);
    if Divides(d, u / 2) {
      DivMul(d, u / 2, 2);
    }
    if Divides(d, u) {
      var k := u / d;
      assert u == k * d;
      if IsOdd(k) {
        OddProduct(k, d);
      }
      assert k == 2 * (k / 2);
      assert u / 2 == (k / 2) * d + 0;
      ModAddMultiple(k / 2, d, 0);
    }
  }

  /** Dropping all trailing zero bits keeps the odd divisors. */
  lemma {:induction false} OddDividesShift(d: int, u: nat)
    requires d > 0 && IsOdd(d)
    ensures Divides(d, u) <==> Divides(d, u / Pow(2, LowZeroBits(u)))
    decreases u
  {
    if u == 0 || u % 2 == 1 {
    } else {
      OddDividesHalf(d, u);
      OddDividesShift(d, u / 2);
      ModOfProduct(u, 2, Pow(2, LowZeroBits(u / 2)));
      assert Pow(2, LowZeroBits(u)) == 2 * Pow(2, LowZeroBits(u / 2));
    }
  }

  /** u and v have the same odd common divisors as mod and n. */
  ghost predicate SameOddDivisors(u: int, v: int, mod: int, n: int)
  {
    forall d :: d > 0 && IsOdd(d) ==> (Divides(d, u) && Divides(d, v) <==> Divides(d, mod) && Divides(d, n))
  }

  // ---------------------------------------------------------------------
  // The halving loops

  /** One halving step of A, B against u * 2^e: when u * 2^(e+1) == A*mod + B*n
      and one of mod, n is odd, the adjustment makes A and B even and halving
      them keeps the relation with one power of two less. */
  lemma HalvingStep(u: int, e: nat, a: int, b: int, mod: int, n: int)
    requires IsOdd(mod) || IsOdd(n)
    requires u * Pow(2, e + 1) == a * mod + b * n
    ensures var a1 := if IsOdd(a) || IsOdd(b) then a + n else a;
            var b1 := if IsOdd(a) || IsOdd(b) then b - mod else b;
            a1 % 2 == 0 && b1 % 2 == 0
            && u * Pow(2, e) == Halve(a1) * mod + Halve(b1) * n
  {
    PowStep(2, e);
    var a1 := if IsOdd(a) || IsOdd(b) then a + n else a;
    var b1 := if IsOdd(a) || IsOdd(b) then b - mod else b;
    assert a1 * mod + b1 * n == a * mod + b * n by {
      if IsOdd(a) || IsOdd(b) {
        assert (a + n) * mod + (b - mod) * n == a * mod + b * n;
      }
    }
    var s := u * Pow(2, e);
    assert a * mod + b * n == 2 * s;
    Parity(a, b, mod, n, s);
    assert Halve(a1) * mod + Halve(b1) * n == s by {
      assert 2 * (Halve(a1) * mod + Halve(b1) * n) == a1 * mod + b1 * n;
    }
  }

  /** The parity argument: with a*mod + b*n even and one of mod, n odd, the
      adjusted a, b are both even. */
  lemma Parity(a: int, b: int, mod: int, n: int, s: int)
    requires IsOdd(mod) || IsOdd(n)
    requires a * mod + b * n == 2 * s
    ensures var a1 := if IsOdd(a) || IsOdd(b) then a + n else a;
            var b1 := if IsOdd(a) || IsOdd(b) then b - mod else b;
            a1 % 2 == 0 && b1 % 2 == 0
  {
    var pa, pb, pm, pn := a % 2, b % 2, mod % 2, n % 2;
    assert a == 2 * (a / 2) + pa;
    assert b == 2 * (b / 2) + pb;
    assert mod == 2 * (mod / 2) + pm;
    assert n == 2 * (n / 2) + pn;
    ParityOfSum(a / 2, b / 2, mod / 2, n / 2, pa, pb, pm, pn, s);
    ParityCases(pa, pb, pm, pn);
    if IsOdd(a) || IsOdd(b) {
      EvenSum(a / 2, n / 2, pa, pn);
      EvenSum(b / 2, -(mod / 2), pb, -pm);
    }
  }

  /** Which parities the sum leaves possible: when a or b is odd, a and n
      have the same parity, and so do b and mod. */
  lemma ParityCases(pa: int, pb: int, pm: int, pn: int)
    requires 0 <= pa < 2 && 0 <= pb < 2 && 0 <= pm < 2 && 0 <= pn < 2
    requires pm == 1 || pn == 1
    requires pa * pm + pb * pn == 0 || pa * pm + pb * pn == 2
    ensures pa == 1 || pb == 1 ==> pa == pn && pb == pm
  {
  }

  /** (2x + p) + (2y + q) is even when p + q is 0 or 2 in absolute value. */
  lemma EvenSum(x: int, y: int, p: int, q: int)
    requires p + q == 0 || p + q == 2
    ensures ((2 * x + p) + (2 * y + q)) % 2 == 0
  {
    DivModUnique((2 * x + p) + (2 * y + q), 2, x + y + (p + q) / 2, 0);
  }

  lemma ParityOfSum(qa: int, qb: int, qm: int, qn: int, pa: int, pb: int, pm: int, pn: int, s: int)
    requires 0 <= pa < 2 && 0 <= pb < 2 && 0 <= pm < 2 && 0 <= pn < 2
    requires pm == 1 || pn == 1
    requires (2 * qa + pa) * (2 * qm + pm) + (2 * qb + pb) * (2 * qn + pn) == 2 * s
    ensures pa * pm + pb * pn == 0 || pa * pm + pb * pn == 2
  {
    var t := 2 * qa * qm + qa * pm + pa * qm + 2 * qb * qn + qb * pn + pb * qn;
    assert (2 * qa + pa) * (2 * qm + pm) + (2 * qb + pb) * (2 * qn + pn) == 2 * t + pa * pm + pb * pn;
  }

  /** The `for i < zero_bits` loop: z halvings of the coefficients of u * 2^z. */
  method HalveCoefficients(u: int, z: nat, a0: int, b0: int, mod: int, n: int) returns (a: int, b: int)
    requires IsOdd(mod) || IsOdd(n)
    requires u * Pow(2, z) == a0 * mod + b0 * n
    ensures u == a * mod + b * n
  {
    a, b := a0, b0;
    var i := 0;
    while i != z
      invariant 0 <= i <= z
      invariant u * Pow(2, z - i) == a * mod + b * n
      decreases z - i
    {
      HalvingStep(u, z - i - 1, a, b, mod, n);
      if IsOdd(a) || IsOdd(b) {
        a := a + n;
        b := b - mod;
      }
      a := Halve(a);
      b := Halve(b);
      i := i + 1;
    }
  }

  /** One iteration of the main loop: strip the trailing zeros of u and v
      (halving their coefficients as often), then subtract the smaller from
      the larger. */
  method Iteration(u0: int, v0: int, a0: int, b0: int, c0: int, d0: int, mod: int, n: int)
    returns (u: int, v: int, a: int, b: int, c: int, d: int)
    requires u0 > 0 && v0 > 0 && (IsOdd(mod) || IsOdd(n))
    requires u0 == a0 * mod + b0 * n && v0 == c0 * mod + d0 * n
    requires SameOddDivisors(u0, v0, mod, n)
    ensures u >= 0 && v > 0 && u + v < u0 + v0
    ensures u == a * mod + b * n && v == c * mod + d * n
    ensures SameOddDivisors(u, v, mod, n)
    ensures u == 0 ==> IsOdd(v)
  {
    var uz := LowZeroBits(u0);
    u := u0 / Pow(2, uz);
    ExactShift(u0, Pow(2, uz));
    a, b := HalveCoefficients(u, uz, a0, b0, mod, n);
    var vz := LowZeroBits(v0);
    v := v0 / Pow(2, vz);
    ExactShift(v0, Pow(2, vz));
    c, d := HalveCoefficients(v, vz, c0, d0, mod, n);
    ShiftKeepsDivisors(u0, v0, mod, n);
    ghost var us, vs := u, v;
    if u >= v {
      SubCoefficients(a, b, c, d, mod, n);
      u := u - v;
      a := a - c;
      b := b - d;
    } else {
      SubCoefficients(c, d, a, b, mod, n);
      v := v - u;
      c := c - a;
      d := d - b;
    }
    SubtractKeepsDivisors(us, vs, u, v, mod, n);
  }

  lemma ExactShift(u: nat, p: nat)
    requires u > 0 && p > 0 && u % p == 0
    ensures (u / p) * p == u && 0 < u / p <= u
  {
    MulLeMono(1, p, u / p);
  }

  lemma SubCoefficients(a: int, b: int, c: int, d: int, mod: int, n: int)
    ensures (a - c) * mod + (b - d) * n == (a * mod + b * n) - (c * mod + d * n)
  {
  }

  /** ref_inverse_mod(n, mod). Returns 0 when there is no inverse. */
  method RefInverseMod(n: int, mod: int) returns (r: int)
    requires n >= 0
    ensures n == 0 || mod < 2 || (!IsOdd(n) && !IsOdd(mod)) ==> r == 0
    ensures r != 0 ==> 0 < r < mod && IsInverse(n, r, mod)
    ensures r == 0 && mod >= 2 ==> forall x :: !IsInverse(n, x, mod)
  {
    if n == 0 || mod < 2 {
      if mod >= 2 {
        NoInverseOfZero(mod);
      }
      return 0;
    }
    if !IsOdd(n) && !IsOdd(mod) {
      NoInverseCommon(2, n, mod);
      return 0;
    }
    var v, c, d := BinaryGcd(n, mod);
    if v != 1 {
      NoInverseCommon(v, n, mod) by {
        SameOddDivisorsAtEnd(v, mod, n);
      }
      return 0;
    }
    c, d := NormaliseCoefficient(c, d, n, mod);
    InverseFromBezout(n, mod, c, d);
    return d;
  }

  /** The main loop of ref_inverse_mod: the binary GCD of mod and n, with
      the Bezout coefficients of v carried along. */
  method BinaryGcd(n: int, mod: int) returns (v: int, c: int, d: int)
    requires n > 0 && mod >= 2 && (IsOdd(n) || IsOdd(mod))
    ensures v > 0 && v == c * mod + d * n
    ensures SameOddDivisors(0, v, mod, n) && IsOdd(v)
  {
    var u: int := mod;
    v := n;
    var a, b := 1, 0;
    c, d := 0, 1;
    while u != 0
      invariant u >= 0 && v > 0
      invariant u == a * mod + b * n && v == c * mod + d * n
      invariant SameOddDivisors(u, v, mod, n)
      invariant u == 0 ==> IsOdd(v)
      decreases u + v
    {
      u, v, a, b, c, d := Iteration(u, v, a, b, c, d, mod, n);
    }
  }

  /** The last two loops: bring D into [0, mod) by multiples of mod,
      keeping 1 == C * mod + D * n. */
  method NormaliseCoefficient(c0: int, d0: int, n: int, mod: int) returns (c: int, d: int)
    requires mod >= 2 && 1 == c0 * mod + d0 * n
    ensures 0 <= d < mod && 1 == c * mod + d * n
  {
    c, d := c0, d0;
    while d < 0
      invariant 1 == c * mod + d * n
      decreases -d
    {
      d := d + mod;
      c := c - n;
    }
    while d >= mod
      invariant d >= 0 && 1 == c * mod + d * n
      decreases d
    {
      d := d - mod;
      c := c + n;
    }
  }

  lemma ShiftKeepsDivisors(u: int, v: int, mod: int, n: int)
    requires u > 0 && v > 0 && SameOddDivisors(u, v, mod, n)
    ensures SameOddDivisors(u / Pow(2, LowZeroBits(u)), v / Pow(2, LowZeroBits(v)), mod, n)
  {
    forall d | d > 0 && IsOdd(d)
      ensures Divides(d, u / Pow(2, LowZeroBits(u))) && Divides(d, v / Pow(2, LowZeroBits(v)))
              <==> Divides(d, mod) && Divides(d, n)
    {
      OddDividesShift(d, u);
      OddDividesShift(d, v);
    }
  }

  lemma SubtractKeepsDivisors(u: int, v: int, u2: int, v2: int, mod: int, n: int)
    requires SameOddDivisors(u, v, mod, n)
    requires (u2 == u - v && v2 == v) || (u2 == u && v2 == v - u)
    ensures SameOddDivisors(u2, v2, mod, n)
  {
    forall d | d > 0 && IsOdd(d)
      ensures Divides(d, u2) && Divides(d, v2) <==> Divides(d, mod) && Divides(d, n)
    {
      if Divides(d, u) && Divides(d, v) {
        DivSum(d, u, v);
        DivSum(d, v, u);
      }
      if Divides(d, u2) && Divides(d, v2) {
        DivSum(d, u2, v2);
        DivSum(d, v2, u2);
      }
    }
  }

  /** At the end u == 0, so the odd v divides both mod and n. */
  lemma SameOddDivisorsAtEnd(v: int, mod: int, n: int)
    requires v > 0 && IsOdd(v) && SameOddDivisors(0, v, mod, n)
    ensures Divides(v, mod) && Divides(v, n)
  {
    assert Divides(v, 0) && Divides(v, v);
  }

  /** A common divisor g > 1 of n and mod rules out every inverse. */
  lemma NoInverseCommon(g: int, n: int, mod: int)
    requires g > 1 && Divides(g, n) && Divides(g, mod)
    ensures forall x :: !IsInverse(n, x, mod)
  {
    forall x | IsInverse(n, x, mod)
      ensures false
    {
      var q := (n * x) / mod;
      assert n * x == q * mod + 1;
      DivMul(g, n, x);
      DivMul(g, mod, q);
      DivSum(g, n * x, q * mod);
    }
  }

  lemma NoInverseOfZero(mod: int)
    requires mod >= 2
    ensures forall x :: !IsInverse(0, x, mod)
  {
    forall x
      ensures !IsInverse(0, x, mod)
    {
      assert 0 * x == 0;
    }
  }

  lemma InverseFromBezout(n: int, mod: int, c: int, d: int)
    requires mod >= 2 && 0 <= d < mod && 1 == c * mod + d * n
    ensures d != 0 && IsInverse(n, d, mod)
  {
    assert n * d == (-c) * mod + 1;
    ModAddMultiple(-c, mod, 1);
  }

  // ---------------------------------------------------------------------
  // The fuzzer's input split

  const MAX_BITS: nat := 4096

  /** BigInt::from_bytes: big-endian. */
  function BytesToNat(s: seq<bv8>): nat
  {
    if |s| == 0 then 0 else BytesToNat(s[..|s| - 1]) * 256 + s[|s| - 1] as nat
  }

  /** The first half (rounded down) is x, the rest is the modulus; inputs longer
      than 2 * 4096 / 8 bytes and moduli below 2 are skipped. */
  function FuzzInputs(input: seq<bv8>): (r: Option<(nat, nat)>)
    ensures r.Some? <==> |input| <= 2 * MAX_BITS / 8 && BytesToNat(input[|input| / 2..]) >= 2
    ensures r.Some? ==> r.value.1 >= 2
    ensures r.Some? ==> r.value == (BytesToNat(input[..|input| / 2]), BytesToNat(input[|input| / 2..]))
    ensures r.Some? ==> BytesToNat(input) == r.value.0 * Pow(256, |input| - |input| / 2) + r.value.1
  {
    if |input| > 2 * MAX_BITS / 8 then None
    else
      var x := BytesToNat(input[..|input| / 2]);
      var mod := BytesToNat(input[|input| / 2..]);
      if mod < 2 then None
      else
        BytesToNatSplit(input, |input| / 2);
        Some((x, mod))
  }

  /** A big-endian byte string is its prefix shifted past the suffix, plus the suffix. */
  lemma {:induction false} BytesToNatSplit(s: seq<bv8>, k: nat)
    requires k <= |s|
    ensures BytesToNat(s) == BytesToNat(s[..k]) * Pow(256, |s| - k) + BytesToNat(s[k..])
    decreases |s|
  {
    if |s| == k {
      assert s[..k] == s;
      assert s[k..] == [];
    } else {
      var m := |s| - 1;
      BytesToNatSplit(s[..m], k);
      assert s[..m][..k] == s[..k];
      assert s[k..][..|s[k..]| - 1] == s[..m][k..];
      assert s[k..][|s[k..]| - 1] == s[m];
      PowStep(256, m - k);
      assert |s| - k == m - k + 1;
      SplitShift(BytesToNat(s[..k]), Pow(256, m - k), BytesToNat(s[..m][k..]), s[m] as nat);
    }
  }

  lemma SplitShift(x: int, p: int, y: int, w: int)
    ensures (x * p + y) * 256 + w == x * (256 * p) + (y * 256 + w)
  {
  }
}
