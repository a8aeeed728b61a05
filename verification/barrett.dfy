/** Barrett_Reduction (barrett.cpp): a reducer bound to one positive modulus m
    with k = sig_words(m) and mu = floor(2^(2Wk) / m).

    Every operation returns the Euclidean remainder in [0, m): inputs in range
    go through the Barrett pipeline, out-of-range inputs through ct_modulo,
    and negative inputs get the `m - t` fix-up. */
module Barrett {
  import opened Words
  import opened Wrappers
  import opened BigInts
  import opened BarrettMath

  datatype BarrettReduction = BarrettReduction(modulus: nat, mu: nat, modWords: nat)

  /** What the two factories establish and every operation relies on. */
  predicate Valid(br: BarrettReduction)
  {
    br.modulus > 0 && br.modWords == SigWords(br.modulus)
    && br.mu == Pow(BASE, 2 * br.modWords) / br.modulus
  }

  /** for_secret_modulus: mu from the constant-time division of 2^(2Wk). */
  function ForSecretModulus(mod: int): (r: Result<BarrettReduction>)
    ensures r.Failure? <==> mod <= 0
    ensures r.Failure? ==> r.error == InvalidArgument
    ensures r.Success? ==> Valid(r.value) && r.value.modulus == mod
  {
    if mod == 0 then Failure(InvalidArgument)
    else if mod < 0 then Failure(InvalidArgument)
    else
      var k := SigWords(mod);
      var mu := CtDividePow2k(2 * WORD_BITS * k, mod);
      MuValue(k, mod, mu);
      Success(BarrettReduction(mod, mu, k))
  }

  /** for_public_modulus: mu from the ordinary division power_of_2(2Wk) / m. */
  function ForPublicModulus(mod: int): (r: Result<BarrettReduction>)
    ensures r.Failure? <==> mod <= 0
    ensures r.Failure? ==> r.error == InvalidArgument
    ensures r.Success? ==> Valid(r.value) && r.value.modulus == mod
  {
    if mod == 0 then Failure(InvalidArgument)
    else if mod < 0 then Failure(InvalidArgument)
    else
      var k := SigWords(mod);
      var mu := Pow(2, 2 * WORD_BITS * k) / mod;
      DivBounds(Pow(2, 2 * WORD_BITS * k), mod);
      MuValue(k, mod, mu);
      Success(BarrettReduction(mod, mu, k))
  }

  /** A valid reducer is determined by its modulus, so the two factories
      build the same object. */
  lemma FactoriesAgree(mod: int)
    ensures ForSecretModulus(mod) == ForPublicModulus(mod)
  {
  }

  /** barrett_init_shift: words k-1 .. min(|x|, 2k) of x, zero-padded to k+1 words. */
  function InitShift(k: nat, xw: seq<Word>): (r: seq<Word>)
    requires k > 0
    ensures |r| == k + 1
  {
    var usable := Min(|xw|, 2 * k);
    if usable >= k - 1 then xw[k - 1 .. usable] + Zeros(k + 1 - (usable - (k - 1)))
    else Zeros(k + 1)
  }

  /** For x below b^(2k) the shifted vector is floor(x / b^(k-1)). */
  lemma InitShiftValue(k: nat, xw: seq<Word>)
    requires k > 0 && Val(xw) < Pow(BASE, 2 * k)
    ensures Val(InitShift(k, xw)) == Val(xw) / Pow(BASE, k - 1)
  {
    var u := Min(|xw|, 2 * k);
    var ys := xw[..u];
    UsableValue(k, xw);
    if u >= k - 1 {
      assert xw[k - 1 .. u] == ys[k - 1..];
      ShiftHigh(k, ys, k + 1 - (u - (k - 1)));
    } else {
      ShiftLow(k, ys);
      ValOfZeros(k + 1);
    }
  }

  /** The words beyond 2k of a value below b^(2k) carry nothing. */
  lemma UsableValue(k: nat, xw: seq<Word>)
    requires Val(xw) < Pow(BASE, 2 * k)
    ensures Val(xw[..Min(|xw|, 2 * k)]) == Val(xw)
  {
    if |xw| <= 2 * k {
      assert xw[..Min(|xw|, 2 * k)] == xw;
    } else {
      ValHighZero(xw, 2 * k);
    }
  }

  lemma ShiftHigh(k: nat, ys: seq<Word>, n: nat)
    requires 0 < k && k - 1 <= |ys|
    ensures Val(ys[k - 1..] + Zeros(n)) == Val(ys) / Pow(BASE, k - 1)
  {
    ValDivMod(ys, k - 1);
    ValZeros(ys[k - 1..], n);
  }

  lemma ShiftLow(k: nat, ys: seq<Word>)
    requires 0 < k && |ys| < k - 1
    ensures Val(ys) / Pow(BASE, k - 1) == 0
  {
    ValBound(ys);
    PowMonotone(BASE, |ys|, k - 1);
    DivModUnique(Val(ys), Pow(BASE, k - 1), 0, Val(ys));
  }

  /** barrett_reduce on the magnitude words of x: HAC 14.42, so for
      x < b^(2k) it returns x mod m. */
  function BarrettReduceWords(br: BarrettReduction, xw: seq<Word>): (r: int)
    requires Valid(br)
    ensures Val(xw) < Pow(BASE, 2 * br.modWords) ==> r == Val(xw) % br.modulus
  {
    var r := BarrettTail(br.modWords, br.modulus, br.mu,
                         Val(InitShift(br.modWords, xw)), Val(xw[..Min(|xw|, br.modWords + 1)]));
    if Val(xw) < Pow(BASE, 2 * br.modWords) then
      ReduceWordsArgs(br, xw);
      TailOnWords(br, xw);
      r
    else r
  }

  /** The tail, once its two arguments are known to be the quotient and the
      remainder HAC 14.42 asks for. */
  lemma TailOnWords(br: BarrettReduction, xw: seq<Word>)
    requires Valid(br) && Val(xw) < Pow(BASE, 2 * br.modWords)
    requires Val(InitShift(br.modWords, xw)) == Val(xw) / Pow(BASE, br.modWords - 1)
    requires Val(xw[..Min(|xw|, br.modWords + 1)]) == Val(xw) % Pow(BASE, br.modWords + 1)
    ensures BarrettTail(br.modWords, br.modulus, br.mu, Val(InitShift(br.modWords, xw)),
                        Val(xw[..Min(|xw|, br.modWords + 1)])) == Val(xw) % br.modulus
  {
    TailAt(br.modWords, br.modulus, br.mu, Val(xw), Val(InitShift(br.modWords, xw)),
           Val(xw[..Min(|xw|, br.modWords + 1)]));
  }

  /** The tail on arguments already known to be x / b^(k-1) and x mod b^(k+1). */
  lemma TailAt(k: nat, m: nat, mu: nat, x: nat, high: nat, low: nat)
    requires m > 0 && k == SigWords(m) && mu == Pow(BASE, 2 * k) / m && x < Pow(BASE, 2 * k)
    requires high == x / Pow(BASE, k - 1) && low == x % Pow(BASE, k + 1)
    ensures BarrettTail(k, m, mu, high, low) == x % m
  {
    BarrettTailCorrect(k, m, mu, x);
  }

  /** The two values barrett_reduce feeds its tail: x / b^(k-1) and x mod b^(k+1). */
  lemma ReduceWordsArgs(br: BarrettReduction, xw: seq<Word>)
    requires Valid(br) && Val(xw) < Pow(BASE, 2 * br.modWords)
    ensures Val(InitShift(br.modWords, xw)) == Val(xw) / Pow(BASE, br.modWords - 1)
    ensures Val(xw[..Min(|xw|, br.modWords + 1)]) == Val(xw) % Pow(BASE, br.modWords + 1)
  {
    InitShiftValue(br.modWords, xw);
    LowWordsValue(xw, br.modWords + 1);
  }

  /** reduce(t1, x, ws): `aliased` says whether t1 and x are the same object. */
  function ReduceInto(br: BarrettReduction, x: BigInt, aliased: bool): (r: Result<int>)
    requires Valid(br)
    ensures r.Failure? <==> aliased
    ensures r.Failure? ==> r.error == InvalidArgument
    ensures r.Success? ==> r.value == Value(x) % br.modulus
  {
    if aliased then Failure(InvalidArgument)
    else if SigWords(Val(x.words)) > 2 * br.modWords then
      // too big for Barrett: the slow division
      Success(CtModulo(Value(x), br.modulus))
    else
      SigWordsBelow(Val(x.words), 2 * br.modWords);
      var t1 := BarrettReduceWords(br, x.words);
      NegFixup(Val(x.words), br.modulus, t1);
      Success(if x.negative && t1 != 0 then br.modulus - t1 else t1)
  }

  /** reduce(x): the in-place reduce with a fresh output, which cannot alias. */
  function Reduce(br: BarrettReduction, x: BigInt): (r: int)
    requires Valid(br)
    ensures 0 <= r < br.modulus
    ensures r == Value(x) % br.modulus
  {
    ReduceInto(br, x, false).value
  }

  /** multiply(x, y): (x*y) mod m, through ct_modulo when an operand is
      negative or above m and through the Barrett pipeline otherwise. */
  function Multiply(br: BarrettReduction, x: BigInt, y: BigInt): (r: int)
    requires Valid(br)
    ensures 0 <= r < br.modulus
    ensures r == (Value(x) * Value(y)) % br.modulus
  {
    if Value(x) > br.modulus || Value(y) > br.modulus || x.negative || y.negative then
      CtModulo(Value(x) * Value(y), br.modulus)
    else
      var z := ProductWords(br.modWords, x, y);
      SigWordsBounds(br.modulus);
      ProductWordsExact(br.modWords, x, y);
      var xy := CondFlipSign(BigInt(false, z), Val(z) != 0 && x.negative != y.negative);
      ReduceInto(br, xy, false).value
  }

  /** square(x): x^2 mod m, through ct_modulo when x is negative or at least m. */
  function Square(br: BarrettReduction, x: BigInt): (r: int)
    requires Valid(br)
    ensures 0 <= r < br.modulus
    ensures r == (Value(x) * Value(x)) % br.modulus
  {
    if x.negative || Value(x) >= br.modulus then
      CtModulo(Value(x) * Value(x), br.modulus)
    else
      var z := ProductWords(br.modWords, x, x);
      SigWordsBounds(br.modulus);
      ProductWordsExact(br.modWords, x, x);
      ReduceInto(br, BigInt(false, z), false).value
  }
}
