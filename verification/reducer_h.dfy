/** Modular_Reducer as declared in reducer.h: a facade holding only the
    modulus, with every operation defined as `reduce` of a product.

    The out-of-line constructor and `reduce(x)` are not in this header. The
    header documents only that a zero modulus leaves the reducer
    uninitialised and that `reduce(x)` reduces x modulo the modulus. The
    remaining behaviour is assumed to be that of the out-of-line definitions
    in reducer.cpp: a negative modulus is rejected with Invalid_Argument, and
    reduction on an uninitialised reducer throws Invalid_State. */
module ReducerHeader {
  import opened Wrappers
  import opened Words

  datatype ModularReducer = ModularReducer(modulus: nat)

  /** `Modular_Reducer() = default`: the modulus is zero. */
  function Default(): ModularReducer
  {
    ModularReducer(0)
  }

  /** initialized(): the modulus is non-zero. */
  predicate Initialized(red: ModularReducer)
  {
    red.modulus != 0
  }

  /** `Modular_Reducer(mod)`: zero is accepted and leaves it uninitialised. */
  function Construct(mod: int): (r: Result<ModularReducer>)
    ensures r.Failure? <==> mod < 0
    ensures r.Failure? ==> r.error == InvalidArgument
    ensures r.Success? ==> r.value.modulus == mod
    ensures r.Success? ==> (Initialized(r.value) <==> mod > 0)
  {
    if mod < 0 then Failure(InvalidArgument) else Success(ModularReducer(mod))
  }

  function ForPublicModulus(mod: int): Result<ModularReducer>
  {
    Construct(mod)
  }

  function ForSecretModulus(mod: int): Result<ModularReducer>
  {
    Construct(mod)
  }

  /** The two factories are the constructor, so they build the same reducer. */
  lemma FactoriesAgree(mod: int)
    ensures ForPublicModulus(mod) == ForSecretModulus(mod)
    ensures mod > 0 ==> ForPublicModulus(mod).Success? && Initialized(ForPublicModulus(mod).value)
  {
  }

  /** The default reducer is not initialised, so it cannot reduce. */
  lemma DefaultUninitialized(x: int)
    ensures !Initialized(Default())
    ensures Reduce(Default(), x) == Failure(InvalidState)
  {
  }

  /** reduce(x): x mod m in [0, m). */
  function Reduce(red: ModularReducer, x: int): (r: Result<int>)
    ensures r.Failure? <==> !Initialized(red)
    ensures r.Failure? ==> r.error == InvalidState
    ensures r.Success? ==> 0 <= r.value < red.modulus && (x - r.value) % red.modulus == 0
  {
    if !Initialized(red) then Failure(InvalidState)
    else
      assert x - x % red.modulus == (x / red.modulus) * red.modulus + 0;
      ModAddMultiple(x / red.modulus, red.modulus, 0);
      Success(x % red.modulus)
  }

  /** Congruence mod m determines the remainder: the reduction of x is x % m. */
  lemma ReduceIsRemainder(red: ModularReducer, x: int)
    requires Initialized(red)
    ensures Reduce(red, x) == Success(x % red.modulus)
  {
  }

  /** multiply(x, y) = reduce(x * y). */
  function Multiply(red: ModularReducer, x: int, y: int): (r: Result<int>)
    ensures r.Failure? <==> !Initialized(red)
    ensures r.Success? ==> r.value == (x * y) % red.modulus
  {
    if Initialized(red) then ReduceIsRemainder(red, x * y); Reduce(red, x * y)
    else Reduce(red, x * y)
  }

  /** multiply(x, y, z) = multiply(x, multiply(y, z)). */
  function Multiply3(red: ModularReducer, x: int, y: int, z: int): (r: Result<int>)
    ensures r.Failure? <==> !Initialized(red)
    ensures r.Success? ==> r.value == (x * y * z) % red.modulus
  {
    var yz :- Multiply(red, y, z);
    MulModRight(x, y * z, red.modulus);
    assert x * (y * z) == x * y * z;
    Multiply(red, x, yz)
  }

  /** square(x) = reduce(x * x). */
  function Square(red: ModularReducer, x: int): (r: Result<int>)
    ensures r.Failure? <==> !Initialized(red)
    ensures r.Success? ==> r.value == (x * x) % red.modulus
  {
    if Initialized(red) then ReduceIsRemainder(red, x * x); Reduce(red, x * x)
    else Reduce(red, x * x)
  }

  /** cube(x) = multiply(x, square(x)). */
  function Cube(red: ModularReducer, x: int): (r: Result<int>)
    ensures r.Failure? <==> !Initialized(red)
    ensures r.Success? ==> r.value == (x * x * x) % red.modulus
  {
    var sq :- Square(red, x);
    MulModRight(x, x * x, red.modulus);
    assert x * (x * x) == x * x * x;
    Multiply(red, x, sq)
  }

  /** reduce(out, x, ws): the workspace is ignored, out = reduce(x). */
  function ReduceInto(red: ModularReducer, x: int, ws: seq<int>): (r: Result<int>)
    ensures r.Failure? <==> !Initialized(red)
    ensures r.Success? ==> r.value == x % red.modulus
  {
    if Initialized(red) then ReduceIsRemainder(red, x); Reduce(red, x)
    else Reduce(red, x)
  }

  /** The workspace never matters. */
  lemma ReduceIntoIgnoresWorkspace(red: ModularReducer, x: int, ws1: seq<int>, ws2: seq<int>)
    ensures ReduceInto(red, x, ws1) == ReduceInto(red, x, ws2) == Reduce(red, x)
  {
  }

  /** Reducing the second factor first does not change the product's remainder. */
  lemma MulModRight(x: int, y: int, m: int)
    requires m > 0
    ensures (x * (y % m)) % m == (x * y) % m
  {
    MulMod(y, x, m);
    assert y * x == x * y;
    assert (y % m) * x == x * (y % m);
  }
}
