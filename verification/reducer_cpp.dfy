/** Modular_Reducer as implemented in reducer.cpp: a Barrett reducer that can
    also be left uninitialised (modulus 0, no words), in which state every
    reduction throws Invalid_State.

    Unlike barrett.cpp, its `multiply` falls back to `reduce(x*y)`, its
    `square` asserts x < m instead of falling back, and its reduction shifts
    the whole of |x| instead of copying the middle words. */
module ReducerCpp {
  import opened Words
  import opened Wrappers
  import opened BigInts
  import opened BarrettMath

  datatype ModularReducer = ModularReducer(modulus: nat, mu: nat, modWords: nat)

  /** The uninitialised state: the default constructor, or a zero modulus. */
  function Uninitialized(): ModularReducer
  {
    ModularReducer(0, 0, 0)
  }

  /** Either uninitialised, or set up as HAC 14.42 needs. */
  predicate Valid(red: ModularReducer)
  {
    red == Uninitialized()
    || (red.modulus > 0 && red.modWords == SigWords(red.modulus)
        && red.mu == Pow(BASE, 2 * red.modWords) / red.modulus)
  }

  /** for_secret_modulus: mu from the constant-time division of 2^(2Wk). */
  function ForSecretModulus(mod: int): (r: Result<ModularReducer>)
    ensures r.Failure? <==> mod <= 0
    ensures r.Failure? ==> r.error == InvalidArgument
    ensures r.Success? ==> Valid(r.value) && r.value.modulus == mod && r.value.modWords > 0
  {
    if mod == 0 then Failure(InvalidArgument)
    else if mod < 0 then Failure(InvalidArgument)
    else
      var k := SigWords(mod);
      var mu := CtDividePow2k(2 * WORD_BITS * k, mod);
      MuValue(k, mod, mu);
      Success(ModularReducer(mod, mu, k))
  }

  /** for_public_modulus: mu from the ordinary division power_of_2(2Wk) / m. */
  function ForPublicModulus(mod: int): (r: Result<ModularReducer>)
    ensures r.Failure? <==> mod <= 0
    ensures r.Failure? ==> r.error == InvalidArgument
    ensures r.Success? ==> Valid(r.value) && r.value.modulus == mod && r.value.modWords > 0
  {
    if mod == 0 then Failure(InvalidArgument)
    else if mod < 0 then Failure(InvalidArgument)
    else
      var k := SigWords(mod);
      var mu := Pow(2, 2 * WORD_BITS * k) / mod;
      DivBounds(Pow(2, 2 * WORD_BITS * k), mod);
      MuValue(k, mod, mu);
      Success(ModularReducer(mod, mu, k))
  }

  /** Both factories build the same reducer for every modulus. */
  lemma FactoriesAgree(mod: int)
    ensures ForSecretModulus(mod) == ForPublicModulus(mod)
  {
  }

  /** The constructor: a negative modulus is rejected, zero leaves the reducer
      uninitialised, and a positive one is set up as for a secret modulus. */
  function Construct(mod: int): (r: Result<ModularReducer>)
    ensures r.Failure? <==> mod < 0
    ensures r.Failure? ==> r.error == InvalidArgument
    ensures r.Success? ==> Valid(r.value) && r.value.modulus == mod
    ensures r.Success? ==> (r.value.modWords == 0 <==> mod == 0)
  {
    if mod < 0 then Failure(InvalidArgument)
    else if mod == 0 then Success(Uninitialized())
    else ForSecretModulus(mod)
  }

  /** reduce(t1, x, ws). The uninitialised check comes before anything else. */
  function ReduceInto(red: ModularReducer, x: BigInt, aliased: bool): (r: Result<int>)
    requires Valid(red)
    ensures red.modWords == 0 ==> r == Failure(InvalidState)
    ensures red.modWords != 0 ==> (r.Failure? <==> aliased)
    ensures red.modWords != 0 && r.Failure? ==> r.error == InvalidArgument
    ensures r.Success? ==> red.modulus > 0 && r.value == Value(x) % red.modulus
  {
    if red.modWords == 0 then Failure(InvalidState)
    else if aliased then Failure(InvalidArgument)
    else
      var k := red.modWords;
      var xsw := SigWords(Val(x.words));
      if xsw > 2 * k then
        // too big: the slow division
        Success(CtModulo(Value(x), red.modulus))
      else
        SigWordsLe(x.words);
        // |x| >> W(k-1), then the shared pipeline on the low min(x_sw, k+1) words
        var q1 := ShiftRightBits(Val(x.words), WORD_BITS * (k - 1));
        var low := Val(x.words[..Min(xsw, k + 1)]);
        var t1 := BarrettTail(k, red.modulus, red.mu, q1, low);
        ReduceSteps(red, x);
        NegFixup(Val(x.words), red.modulus, t1);
        Success(if x.negative && t1 != 0 then red.modulus - t1 else t1)
  }

  /** The steps of reduce recover |x| mod m from the shift and the low words. */
  lemma ReduceSteps(red: ModularReducer, x: BigInt)
    requires Valid(red) && red.modWords > 0
    requires SigWords(Val(x.words)) <= 2 * red.modWords
    ensures SigWords(Val(x.words)) <= |x.words|
    ensures var k := red.modWords;
            BarrettTail(k, red.modulus, red.mu,
                        ShiftRightBits(Val(x.words), WORD_BITS * (k - 1)),
                        Val(x.words[..Min(SigWords(Val(x.words)), k + 1)]))
            == Val(x.words) % red.modulus
  {
    var k := red.modWords;
    var xsw := SigWords(Val(x.words));
    SigWordsLe(x.words);
    SigWordsBelow(Val(x.words), 2 * k);
    Pow2Words(k - 1);
    // the words above x_sw are zero
    SigWordsBelow(Val(x.words), xsw);
    ValHighZero(x.words, xsw);
    LowWordsValue(x.words[..xsw], k + 1);
    assert x.words[..xsw][..Min(xsw, k + 1)] == x.words[..Min(xsw, k + 1)];
    BarrettTailCorrect(k, red.modulus, red.mu, Val(x.words));
  }

  /** reduce(x): a fresh output, which cannot alias x. */
  function Reduce(red: ModularReducer, x: BigInt): (r: Result<int>)
    requires Valid(red)
    ensures r.Failure? <==> red.modWords == 0
    ensures r.Failure? ==> r.error == InvalidState
    ensures r.Success? ==> 0 <= r.value < red.modulus && r.value == Value(x) % red.modulus
  {
    ReduceInto(red, x, false)
  }

  /** multiply(x, y): out-of-range or negative operands go to reduce(x*y);
      otherwise the 2k-word product is reduced. */
  function Multiply(red: ModularReducer, x: BigInt, y: BigInt): (r: Result<int>)
    requires Valid(red)
    ensures r.Failure? <==> red.modWords == 0
    ensures r.Failure? ==> r.error == InvalidState
    ensures r.Success? ==> 0 <= r.value < red.modulus
    ensures r.Success? ==> r.value == (Value(x) * Value(y)) % red.modulus
  {
    if Value(x) > red.modulus || Value(y) > red.modulus || x.negative || y.negative then
      Reduce(red, FromInt(Value(x) * Value(y)))
    else
      var z := ProductWords(red.modWords, x, y);
      SigWordsBounds(red.modulus);
      if red.modWords > 0 then ProductWordsExact(red.modWords, x, y); MultiplyFast(red, x, y, z)
      else MultiplyFast(red, x, y, z)
  }

  function MultiplyFast(red: ModularReducer, x: BigInt, y: BigInt, z: seq<Word>): (r: Result<int>)
    requires Valid(red)
    requires red.modWords > 0 ==> Val(z) == Value(x) * Value(y)
    requires !x.negative && !y.negative
    ensures r.Failure? <==> red.modWords == 0
    ensures r.Failure? ==> r.error == InvalidState
    ensures r.Success? ==> r.value == (Value(x) * Value(y)) % red.modulus
  {
    var xy := CondFlipSign(BigInt(false, z), Val(z) != 0 && x.negative != y.negative);
    Reduce(red, xy)
  }

  /** square(x) as written: BOTAN_ASSERT_NOMSG(x < m), then bigint_sqr on the
      low min(size, k) words of x. A negative x passes the assertion, and
      when |x| >= b^k its high words are dropped. */
  function SquareAsWritten(red: ModularReducer, x: BigInt): (r: Result<int>)
    requires Valid(red)
    ensures Value(x) >= red.modulus ==> r == Failure(AssertionFailure)
    ensures Value(x) < red.modulus ==> (r.Failure? <==> red.modWords == 0)
    ensures Value(x) < red.modulus && r.Failure? ==> r.error == InvalidState
    ensures r.Success? ==> 0 <= r.value < red.modulus
  {
    if !(Value(x) < red.modulus) then Failure(AssertionFailure)
    else
      var z := ProductWords(red.modWords, x, x);
      Reduce(red, BigInt(false, z))
  }

  /** Where the magnitude fits in k words, square as written is x^2 mod m. */
  lemma SquareAsWrittenInRange(red: ModularReducer, x: BigInt)
    requires Valid(red) && red.modWords > 0
    requires Value(x) < red.modulus && Val(x.words) < Pow(BASE, red.modWords)
    ensures SquareAsWritten(red, x) == Success((Value(x) * Value(x)) % red.modulus)
  {
    ProductWordsExact(red.modWords, x, x);
    SquareOfValue(x);
  }

  lemma SquareOfValue(x: BigInt)
    ensures Value(x) * Value(x) == Val(x.words) * Val(x.words)
  {
    var v: int := Val(x.words);
    assert (-v) * (-v) == v * v;
  }

  /** m = 5 and x = -b: the square is b^2, which is 1 mod 5, but only the
      low word of x (zero) is squared, so the result is 0. */
  lemma SquareAsWrittenDropsHighWords()
    ensures var red := ForSecretModulus(5).value;
            var x := BigInt(true, [0, 1]);
            Value(x) == -(BASE as int)
            && SquareAsWritten(red, x) == Success(0)
            && (Value(x) * Value(x)) % red.modulus == 1
  {
    NegBaseValue();
    FiveIsOneWord();
    LowWordSquared();
    NegBaseSquaredMod5();
  }

  lemma NegBaseValue()
    ensures Value(BigInt(true, [0, 1])) == -(BASE as int)
  {
    assert Val([0, 1]) == BASE;
  }

  lemma FiveIsOneWord()
    ensures ForSecretModulus(5).Success?
    ensures ForSecretModulus(5).value.modulus == 5 && ForSecretModulus(5).value.modWords == 1
  {
    assert SigWords(5) == 1;
  }

  /** The low word of b is zero, so the one-word product is zero. */
  lemma LowWordSquared()
    ensures Val(ProductWords(1, BigInt(true, [0, 1]), BigInt(true, [0, 1]))) == 0
  {
    var x := BigInt(true, [0, 1]);
    assert x.words[..Min(|x.words|, 1)] == [0];
    assert Val([0]) == 0;
    assert ProductWords(1, x, x) == ToWords(0, 2);
    ValToWords(0, 2);
  }

  /** b = 2^64 is 1 mod 5, and so is b^2. */
  lemma NegBaseSquaredMod5()
    ensures ((-(BASE as int)) * (-(BASE as int))) % 5 == 1
  {
  }

  /** square(x) corrected: a negative x below m is squared through reduce(x*x),
      as multiply does for its negative operands. */
  function Square(red: ModularReducer, x: BigInt): (r: Result<int>)
    requires Valid(red)
    ensures Value(x) >= red.modulus ==> r == Failure(AssertionFailure)
    ensures Value(x) < red.modulus ==> (r.Failure? <==> red.modWords == 0)
    ensures Value(x) < red.modulus && r.Failure? ==> r.error == InvalidState
    ensures r.Success? ==> 0 <= r.value < red.modulus
    ensures r.Success? ==> r.value == (Value(x) * Value(x)) % red.modulus
  {
    if !(Value(x) < red.modulus) then Failure(AssertionFailure)
    else if x.negative then Reduce(red, FromInt(Value(x) * Value(x)))
    else
      var z := ProductWords(red.modWords, x, x);
      SigWordsBounds(red.modulus);
      if red.modWords > 0 then ProductWordsExact(red.modWords, x, x); Reduce(red, BigInt(false, z))
      else Reduce(red, BigInt(false, z))
  }
}
