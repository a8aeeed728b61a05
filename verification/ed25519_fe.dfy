/** FE_25519 (ed25519_fe.h): an element of GF(2^255 - 19) as ten signed 32-bit
    limbs in radix 2^25.5 (section 5.1 of RFC 8032 fixes the field), limb i
    weighted by 2^ceil(25.5 i): exponents 0, 26, 51, 77, 102, 128, 153, 179,
    204, 230.

    add, sub and negate work limb by limb. Signed overflow of a limb is
    undefined behaviour in C++, so those operations require that no limb
    overflows; under that requirement they are the linear maps on the
    represented integer. */
module Ed25519Fe {
  import opened Words

  const INT32_MIN: int := -0x8000_0000
  const INT32_MAX: int := 0x7FFF_FFFF

  type Int32 = x: int | INT32_MIN <= x <= INT32_MAX
  type Int64 = x: int | -0x8000_0000_0000_0000 <= x <= 0x7FFF_FFFF_FFFF_FFFF

  const LIMBS: nat := 10

  /** The ten limbs of a field element. */
  type Fe = s: seq<Int32> | |s| == LIMBS witness [0, 0, 0, 0, 0, 0, 0, 0, 0, 0]

  predicate Fits32(x: int)
  {
    INT32_MIN <= x <= INT32_MAX
  }

  /** ceil(25.5 i): the bit position of limb i. */
  function Exponent(i: nat): nat
  {
    (51 * i + 1) / 2
  }

  /** The integer a limb vector represents: sum of t[i] * 2^Exponent(i). */
  function Eval(t: seq<int>): int
  {
    if |t| == 0 then 0 else Eval(t[..|t| - 1]) + t[|t| - 1] * Pow(2, Exponent(|t| - 1))
  }

  function Value(t: Fe): int
  {
    Eval(t)
  }

  /** zero(): the default constructor clears all limbs. */
  function Zero(): (z: Fe)
    ensures forall i :: 0 <= i < LIMBS ==> z[i] == 0
  {
    seq(LIMBS, _ => 0)
  }

  /** one(): limb 0 is 1, the rest 0. */
  function One(): (o: Fe)
    ensures o[0] == 1 && forall i :: 1 <= i < LIMBS ==> o[i] == 0
  {
    Zero()[0 := 1]
  }

  /** Zero and one represent 0 and 1. */
  lemma ZeroOneValues()
    ensures Value(Zero()) == 0
    ensures Value(One()) == 1
  {
    EvalZeros(Zero());
    EvalUnit(One());
  }

  lemma {:induction false} EvalZeros(t: seq<int>)
    requires forall i :: 0 <= i < |t| ==> t[i] == 0
    ensures Eval(t) == 0
  {
    if |t| > 0 {
      EvalZeros(t[..|t| - 1]);
    }
  }

  lemma {:induction false} EvalUnit(t: seq<int>)
    requires |t| > 0 && t[0] == 1 && forall i :: 1 <= i < |t| ==> t[i] == 0
    ensures Eval(t) == 1
  {
    if |t| > 1 {
      EvalUnit(t[..|t| - 1]);
    } else {
      assert t[..0] == [];
    }
  }

  /** The span constructor copies ten limbs. */
  function FromSpan(fe: seq<Int32>): (r: Fe)
    requires |fe| == LIMBS
    ensures forall i :: 0 <= i < LIMBS ==> r[i] == fe[i]
  {
    fe
  }

  /** static_cast<int32_t> of an int64: reduction modulo 2^32 into the signed range. */
  function Trunc32(h: int): (r: Int32)
    ensures (h - r) % 0x1_0000_0000 == 0
    ensures Fits32(h) ==> r == h
  {
    var r := (h - INT32_MIN) % 0x1_0000_0000 + INT32_MIN;
    ModAddMultiple((h - INT32_MIN) / 0x1_0000_0000, 0x1_0000_0000, 0);
    if Fits32(h) then
      DivModUnique(h - INT32_MIN, 0x1_0000_0000, 0, h - INT32_MIN);
      r
    else r
  }

  /** The ten-int64 constructor truncates each h_i to 32 bits. */
  function FromInt64(h: seq<Int64>): (r: Fe)
    requires |h| == LIMBS
    ensures forall i :: 0 <= i < LIMBS ==> r[i] == Trunc32(h[i])
    ensures (forall i :: 0 <= i < LIMBS ==> Fits32(h[i])) ==> r == h
  {
    seq(LIMBS, i requires 0 <= i < LIMBS => Trunc32(h[i]))
  }

  /** add: limb-wise sum, defined when no limb overflows. */
  function Add(a: Fe, b: Fe): (z: Fe)
    requires forall i :: 0 <= i < LIMBS ==> INT32_MIN <= a[i] as int + b[i] as int <= INT32_MAX
    ensures forall i :: 0 <= i < LIMBS ==> z[i] == a[i] as int + b[i] as int
  {
    seq(LIMBS, i requires 0 <= i < LIMBS => (a[i] as int + b[i] as int) as Int32)
  }

  /** sub: limb-wise difference, defined when no limb overflows. */
  function Sub(a: Fe, b: Fe): (z: Fe)
    requires forall i :: 0 <= i < LIMBS ==> INT32_MIN <= a[i] as int - b[i] as int <= INT32_MAX
    ensures forall i :: 0 <= i < LIMBS ==> z[i] == a[i] as int - b[i] as int
  {
    seq(LIMBS, i requires 0 <= i < LIMBS => (a[i] as int - b[i] as int) as Int32)
  }

  /** negate: limb-wise negation, defined when no limb is INT32_MIN. */
  function Negate(a: Fe): (z: Fe)
    requires forall i :: 0 <= i < LIMBS ==> a[i] != INT32_MIN
    ensures forall i :: 0 <= i < LIMBS ==> z[i] == -(a[i] as int)
  {
    seq(LIMBS, i requires 0 <= i < LIMBS => (-(a[i] as int)) as Int32)
  }

  /** Limb-wise linear combinations evaluate to the same combination. */
  lemma {:induction false} EvalCombine(a: seq<int>, b: seq<int>, z: seq<int>, s: int)
    requires |a| == |b| == |z|
    requires s == 1 || s == -1
    requires forall i :: 0 <= i < |z| ==> z[i] == a[i] + s * b[i]
    ensures Eval(z) == Eval(a) + s * Eval(b)
  {
    if |z| > 0 {
      var k := |z| - 1;
      EvalCombine(a[..k], b[..k], z[..k], s);
      assert Eval(z) == Eval(z[..k]) + z[k] * Pow(2, Exponent(k));
      assert Eval(a) == Eval(a[..k]) + a[k] * Pow(2, Exponent(k));
      assert Eval(b) == Eval(b[..k]) + b[k] * Pow(2, Exponent(k));
      CombineStep(Eval(a[..k]), Eval(b[..k]), Eval(z[..k]), a[k], b[k], z[k], Pow(2, Exponent(k)), s);
    }
  }

  lemma CombineStep(ea: int, eb: int, ez: int, ak: int, bk: int, zk: int, p: int, s: int)
    requires ez == ea + s * eb && zk == ak + s * bk
    ensures ez + zk * p == (ea + ak * p) + s * (eb + bk * p)
  {
  }

  /** add is addition of the represented integers. */
  lemma AddValue(a: Fe, b: Fe)
    requires forall i :: 0 <= i < LIMBS ==> INT32_MIN <= a[i] as int + b[i] as int <= INT32_MAX
    ensures Value(Add(a, b)) == Value(a) + Value(b)
  {
    EvalCombine(a, b, Add(a, b), 1);
  }

  /** sub is subtraction of the represented integers. */
  lemma SubValue(a: Fe, b: Fe)
    requires forall i :: 0 <= i < LIMBS ==> INT32_MIN <= a[i] as int - b[i] as int <= INT32_MAX
    ensures Value(Sub(a, b)) == Value(a) - Value(b)
  {
    EvalCombine(a, b, Sub(a, b), -1);
  }

  /** negate is negation of the represented integer. */
  lemma NegateValue(a: Fe)
    requires forall i :: 0 <= i < LIMBS ==> a[i] != INT32_MIN
    ensures Value(Negate(a)) == -Value(a)
  {
    EvalCombine(Zero(), a, Negate(a), -1);
    EvalZeros(Zero());
  }

  /** negate is an involution. */
  lemma NegateInvolution(a: Fe)
    requires forall i :: 0 <= i < LIMBS ==> a[i] != INT32_MIN
    ensures Negate(Negate(a)) == a
  {
  }

  /** a - b is a + (-b). */
  lemma SubIsAddNegate(a: Fe, b: Fe)
    requires forall i :: 0 <= i < LIMBS ==> INT32_MIN <= a[i] as int - b[i] as int <= INT32_MAX
    requires forall i :: 0 <= i < LIMBS ==> b[i] != INT32_MIN
    ensures Sub(a, b) == Add(a, Negate(b))
  {
  }

  /** The exponents are ceil(25.5 i): the table of the class comment. */
  lemma ExponentTable()
    ensures seq(LIMBS, i requires 0 <= i => Exponent(i)) == [0, 26, 51, 77, 102, 128, 153, 179, 204, 230]
  {
  }
}
