/** PCurveInstance::from_params and the pieces of GenericPrimeOrderCurve that
    are not Not_Implemented (pcurves_generic.cpp): the parameter validator, the
    constructor's assertions, scalar equality and the serialize_scalar length
    check. Primality is a parameter of the model (Baillie-PSW is not shown). */
module PCurvesGeneric {
  import opened Words
  import opened Wrappers

  /** BigInt::bits: the bit length of the magnitude. */
  function Bits(n: nat): nat
  {
    if n == 0 then 0 else 1 + Bits(n / 2)
  }

  /** BigInt::bytes: the byte length, rounded up. */
  function Bytes(n: nat): nat
  {
    (Bits(n) + 7) / 8
  }

  function Abs(x: int): nat
  {
    if x < 0 then -x else x
  }

  /** n has Bits(n) bits: 2^(bits-1) <= n < 2^bits. */
  lemma {:induction false} BitsBounds(n: nat)
    ensures n < Pow(2, Bits(n))
    ensures n > 0 ==> Pow(2, Bits(n) - 1) <= n
  {
    if n > 0 {
      BitsBounds(n / 2);
      PowStep(2, Bits(n / 2));
      if n / 2 > 0 {
        PowStep(2, Bits(n / 2) - 1);
      }
    }
  }

  /** 2^k - 1 has exactly k bits. */
  lemma {:induction false} BitsOfMersenne(k: nat)
    ensures Bits(Pow(2, k) - 1) == k
  {
    if k > 0 {
      BitsOfMersenne(k - 1);
      assert (Pow(2, k) - 1) / 2 == Pow(2, k - 1) - 1;
    }
  }

  /** The word count follows from the bit count: ceil(bits / 64). */
  lemma SigWordsFromBits(n: nat)
    ensures SigWords(n) == (Bits(n) + WORD_BITS - 1) / WORD_BITS
  {
    if n > 0 {
      var k := SigWords(n);
      var t := Bits(n);
      SigWordsBounds(n);
      BitsBounds(n);
      Pow2Words(k);
      Pow2Words(k - 1);
      if t > WORD_BITS * k {
        PowMonotone(2, WORD_BITS * k, t - 1);
      }
      if t <= WORD_BITS * (k - 1) {
        PowMonotone(2, t, WORD_BITS * (k - 1));
      }
      DivModUnique(t + WORD_BITS - 1, WORD_BITS, k, t + WORD_BITS - 1 - WORD_BITS * k);
    }
  }

  datatype Params = Params(p: int, a: int, b: int, baseX: int, baseY: int, order: int)

  /** The sizes GenericPrimeOrderCurve records from its parameters. */
  datatype Curve = Curve(params: Params, words: nat, orderBits: nat, scalarBytes: nat, feBytes: nat)

  /** The GenericPrimeOrderCurve constructor and its two assertions. */
  function NewCurve(ps: Params): (r: Result<Curve>)
    ensures r.Success? <==> Bytes(Abs(ps.order)) == Bytes(Abs(ps.p)) && SigWords(Abs(ps.order)) == SigWords(Abs(ps.p))
    ensures r.Failure? ==> r.error == AssertionFailure
    ensures r.Success? ==> r.value.params == ps && r.value.scalarBytes == r.value.feBytes
  {
    var c := Curve(ps, SigWords(Abs(ps.p)), Bits(Abs(ps.order)), Bytes(Abs(ps.order)), Bytes(Abs(ps.p)));
    if c.scalarBytes != c.feBytes then Failure(AssertionFailure)
    else if SigWords(Abs(ps.order)) != c.words then Failure(AssertionFailure)
    else Success(c)
  }

  /** The argument checks shared by both versions of from_params. */
  function CheckArgs(ps: Params, isPrime: int -> bool): (r: Outcome)
    ensures r.Pass? <==> isPrime(ps.p) && isPrime(ps.order) && 0 <= ps.a < ps.p && 0 < ps.b < ps.p
                         && 0 <= ps.baseX < ps.p && 0 <= ps.baseY < ps.p
    ensures r.Fail? ==> r.error == InvalidArgument
  {
    if !isPrime(ps.p) then Fail(InvalidArgument)
    else if !isPrime(ps.order) then Fail(InvalidArgument)
    else if !(ps.a >= 0 && ps.a < ps.p) then Fail(InvalidArgument)
    else if !(ps.b > 0 && ps.b < ps.p) then Fail(InvalidArgument)
    else if !(ps.baseX >= 0 && ps.baseX < ps.p) then Fail(InvalidArgument)
    else if !(ps.baseY >= 0 && ps.baseY < ps.p) then Fail(InvalidArgument)
    else Pass
  }

  /** The size rule with the special case as written: a 512-bit p must equal
      2^521 - 1. */
  predicate SizeOkAsWritten(p: nat)
  {
    var bits := Bits(p);
    if bits == 512 then p == Pow(2, 521) - 1
    else !(bits < 128 || bits > 512 || bits % 32 != 0)
  }

  /** The size rule as evidently intended: p = 2^521 - 1 (P-521), or 128..512
      bits in steps of 32. */
  predicate SizeOkIntended(p: nat)
  {
    var bits := Bits(p);
    if bits == 521 then p == Pow(2, 521) - 1
    else !(bits < 128 || bits > 512 || bits % 32 != 0)
  }

  /** The shared tail of from_params once the size rule has been applied. */
  function Finish(ps: Params, sizeOk: bool): (r: Result<Option<Curve>>)
    requires ps.p > 0
    ensures r.Success?
    ensures r.value.Some? <==> sizeOk && ps.p % 4 == 3 && Bits(ps.p) == Bits(Abs(ps.order))
    ensures r.value.Some? ==> r.value.value.params == ps
  {
    if !sizeOk then Success(None)
    else if ps.p % 4 != 3 then Success(None)
    else if Bits(ps.p) != Bits(Abs(ps.order)) then Success(None)
    else
      ConstructorAssertionsHold(ps);
      Success(Some(NewCurve(ps).value))
  }

  /** from_params as written. */
  function FromParamsAsWritten(ps: Params, isPrime: int -> bool): (r: Result<Option<Curve>>)
    ensures r.Failure? <==> CheckArgs(ps, isPrime).Fail?
    ensures r.Failure? ==> r.error == InvalidArgument
    ensures r.Success? ==>
              (r.value.Some? <==> SizeOkAsWritten(ps.p) && ps.p % 4 == 3 && Bits(ps.p) == Bits(Abs(ps.order)))
  {
    if CheckArgs(ps, isPrime).Fail? then Failure(InvalidArgument)
    else Finish(ps, SizeOkAsWritten(ps.p))
  }

  /** from_params with the special case on 521 bits. */
  function FromParams(ps: Params, isPrime: int -> bool): (r: Result<Option<Curve>>)
    ensures r.Failure? <==> CheckArgs(ps, isPrime).Fail?
    ensures r.Failure? ==> r.error == InvalidArgument
    ensures r.Success? ==>
              (r.value.Some? <==> SizeOkIntended(ps.p) && ps.p % 4 == 3 && Bits(ps.p) == Bits(Abs(ps.order)))
  {
    if CheckArgs(ps, isPrime).Fail? then Failure(InvalidArgument)
    else Finish(ps, SizeOkIntended(ps.p))
  }

  /** Whatever from_params accepts passes the constructor's assertions:
      equal bit lengths give equal byte lengths and equal word counts. */
  lemma ConstructorAssertionsHold(ps: Params)
    requires ps.p > 0 && Bits(ps.p) == Bits(Abs(ps.order))
    ensures NewCurve(ps).Success?
  {
    SigWordsFromBits(ps.p);
    SigWordsFromBits(Abs(ps.order));
  }

  /** As written, the 512-bit branch accepts nothing: 2^521 - 1 has 521 bits. */
  lemma AsWrittenRejects512Bits(ps: Params, isPrime: int -> bool)
    requires CheckArgs(ps, isPrime).Pass? && Bits(ps.p) == 512
    ensures FromParamsAsWritten(ps, isPrime) == Success(None)
  {
    NotMersenne(ps.p);
  }

  /** A 512-bit number is not 2^521 - 1. */
  lemma NotMersenne(p: nat)
    requires Bits(p) == 512
    ensures !SizeOkAsWritten(p)
  {
    MersenneBits(p, 521);
  }

  lemma MersenneBits(p: nat, k: nat)
    requires Bits(p) < k
    ensures p != Pow(2, k) - 1
  {
    BitsOfMersenne(k);
    BitsDiffer(p, Pow(2, k) - 1);
  }

  lemma BitsDiffer(p: nat, q: nat)
    requires Bits(p) != Bits(q)
    ensures p != q
  {
  }

  /** The facts about p = 2^521 - 1 both size rules depend on. */
  lemma MersenneSize()
    ensures Bits(Pow(2, 521) - 1) == 521
    ensures (Pow(2, 521) - 1) % 4 == 3
  {
    BitsOfMersenne(521);
    Pow2Mod4(521);
  }

  /** P-521 itself is rejected as written, because 521 > 512, but accepted by
      the intended rule (2^521 - 1 is 3 mod 4). */
  lemma P521Rejected(ps: Params, isPrime: int -> bool)
    requires CheckArgs(ps, isPrime).Pass? && ps.p == Pow(2, 521) - 1 && Bits(Abs(ps.order)) == 521
    ensures FromParamsAsWritten(ps, isPrime) == Success(None)
    ensures FromParams(ps, isPrime).Success? && FromParams(ps, isPrime).value.Some?
  {
    MersenneSize();
    assert !SizeOkAsWritten(ps.p);
    assert SizeOkIntended(ps.p);
  }

  lemma Pow2Mod4(k: nat)
    requires k >= 2
    ensures (Pow(2, k) - 1) % 4 == 3
  {
    PowAdd(2, 2, k - 2);
    assert Pow(2, 2) == 4;
    assert k - 2 + 2 == k;
    assert Pow(2, k) - 1 == (Pow(2, k - 2) - 1) * 4 + 3;
    ModAddMultiple(Pow(2, k - 2) - 1, 4, 3);
  }

  /** The two rules differ only on 512 and 521 bits. */
  lemma SizeRulesAgreeElsewhere(p: nat)
    requires Bits(p) != 512 && Bits(p) != 521
    ensures SizeOkAsWritten(p) == SizeOkIntended(p)
  {
  }

  // ---------------------------------------------------------------------
  // Scalars

  /** A GenericScalar: the curve it belongs to and its N stored words. */
  datatype Scalar = Scalar(curve: nat, val: seq<Word>)

  /** CT::is_equal over n words: accumulate the differences, then test for none. */
  method CtIsEqual(x: seq<Word>, y: seq<Word>, n: nat) returns (eq: bool)
    requires n <= |x| && n <= |y|
    ensures eq <==> x[..n] == y[..n]
  {
    var diff := false;
    var i := 0;
    while i < n
      invariant 0 <= i <= n
      invariant !diff <==> x[..i] == y[..i]
    {
      assert x[..i + 1] == x[..i] + [x[i]];
      assert y[..i + 1] == y[..i] + [y[i]];
      diff := diff || x[i] != y[i];
      i := i + 1;
    }
    eq := !diff;
  }

  /** operator==: scalars of different curves are never equal; otherwise the
      N words are compared. */
  method ScalarEqual(s: Scalar, t: Scalar, n: nat) returns (eq: bool)
    requires n <= |s.val| && n <= |t.val|
    ensures s.curve != t.curve ==> !eq
    ensures s.curve == t.curve ==> (eq <==> s.val[..n] == t.val[..n])
  {
    if s.curve != t.curve {
      return false;
    }
    eq := CtIsEqual(s.val, t.val, n);
  }

  /** serialize_scalar: the output buffer must be exactly scalar_bytes long. */
  function SerializeScalarCheck(c: Curve, outLen: nat): (r: Outcome)
    ensures r.Pass? <==> outLen == c.scalarBytes
    ensures r.Fail? ==> r.error == InvalidArgument
  {
    if outLen != c.scalarBytes then Fail(InvalidArgument) else Pass
  }
}
