# Botan: modular reduction engine and small pure cores, in Dafny

This project models parts of the Botan C++ cryptography library and proves
properties of them. The main subject is multi-precision modular reduction,
plus several smaller pieces of self-contained logic:

- **Montgomery reduction** (`bigint_monty_redc_generic`, product-scanning
  form): the unrolled `mul_rev_range`, the two word loops over a `word3`
  accumulator, and the final masked subtraction.
- **Barrett reduction** (`Barrett_Reduction`, Algorithm 14.42 of the
  Handbook of Applied Cryptography). This covers both factories, the shift,
  multiply, mask and reverse-subtract pipeline, the unconditional add of
  b^(k+1), the two correction rounds, the `ct_modulo` fallbacks and the
  negative-input fix-up.
- **Two `Modular_Reducer` versions**, kept as separate modules:
  - the Barrett-based `reducer.cpp` (`ReducerCpp`);
  - the header-only facade `reducer.h`, which delegates every operation to
    `reduce` (`ReducerHeader`).
- **`ref_inverse_mod`**: the binary extended GCD of the modular-inverse
  fuzzer, plus the fuzzer's input split.
- **Ed25519 field elements**: the limb-wise `add`, `sub` and `negate`,
  `zero`/`one` and the constructors of `FE_25519`. A field element is ten
  signed limbs in radix 2^25.5 (section 5.1 of RFC 8032).
- **`PCurveInstance::from_params`**: the validator for generic prime-order
  curves, together with scalar equality and the `serialize_scalar` length
  check.
- **TLS 1.2 CBC record logic**:
  - the constant-time padding check (section 6.2.3.2 of RFC 5246);
  - the padding fill and the record length arithmetic;
  - the Encrypt-then-MAC length rewrite (section 3 of RFC 7366);
  - the MAC-then-encrypt acceptance mask;
  - the byte count of the Lucky-13 dummy compressions;
  - round trips for both modes.
- **SM4** (GB/T 32907-2016), scalar path: the key schedule, T, T' and the
  table-based T, the eight unrolled round groups, and the one-block and
  two-block loops of `encrypt_n`/`decrypt_n`.
- **SHA-256 compression** (`compress_digest_x86_bmi2`): the message
  schedule, round constants, the macro rounds, the feed-forward, and the
  two-block and one-block loops. Properties are stated against sections
  4.2.2 and 6.2.2 of FIPS 180-4.
- **The XML test reporter**: `replace`, `escape`, `format_cdata`, the
  optional `+`, the suite aggregates, `record` and the reporter totals.

## Representation choices

- A machine word is a natural number below b = 2^64 (`Words.Word`). A word
  vector is little-endian, and `Words.Val` is its value.
- The `word3` accumulator is an unbounded natural number. Its `add`, `mul`,
  `monty_step` and `extract` are stated by what they compute.
- A `BigInt` is a sign flag over a word vector, which may carry high zero
  words (`BigInts.BigInt`).
- Exceptions become `Failure(e)` of `Wrappers.Result`. There is one `Error`
  constructor per exception class: `Invalid_Argument`, `Invalid_State`,
  failed `BOTAN_ASSERT`, `Key_Not_Set`, `Decoding_Error`, and the TLS
  `BadRecordMac` alert.
- A C++ aliasing check (`&t1 != &x`) becomes a boolean parameter.
- In SM4, SHA-256 and the fuzzer, bytes and 32-bit words are `bv8` and `bv32`, so their arithmetic wraps as in C++.
- In the TLS code a byte is a natural number below 256 (`TlsCbc.Byte`). Its wrap-around is written out as `% 256`, and 16-bit wrap-around as `% 0x1_0000`.
- `static_cast<int32_t>` from `int64_t` is reduction into the signed 32-bit
  range.
- The helpers that live in headers not shown are specified mathematically
  and not re-implemented:
  - `ct_modulo`, `ct_divide_pow2k` and `ct_reduce_below`;
  - `bigint_mul`/`bigint_sqr`, as the product of the low min(size, k) words;
  - `bigint_sub3` together with the masked select;
  - `bigint_monty_maybe_sub`;
  - `round_up`.
- The HMAC, the CBC engine, the primality test and the TLS cipher are
  function parameters.
- The reporter's `std::map` is a sequence of suites with distinct names.

Where the C++ code and its surrounding documentation disagree, the model
follows the code:
- Barrett `multiply`/`square` and `reducer.cpp`'s `multiply` do not fail on
  out-of-range operands. They fall back to `ct_modulo` or to `reduce(x*y)`.
- `reducer.cpp`'s `reduce` checks for an uninitialised reducer before it
  checks for aliasing.

## Model

| member | source | states |
|---|---|---|
| Montgomery.MontyStep | src/lib/math/mp/mp_monty.cpp:98-103 | with pDash = -p0^-1 mod b, the chosen word u makes acc + u*p0 divisible by b, and the new accumulator is exactly that quotient |
| Montgomery.Extract | src/lib/math/mp/mp_monty.cpp:109-116 | extract splits the accumulator into its low word and the rest, with nothing lost |
| Montgomery.MontyStepExact | src/lib/math/mp/mp_monty.cpp:98-103 | the word u = (acc mod b)*pDash mod b cancels the low word: acc + u*p0 is a multiple of b |
| Montgomery.MulRevRange | src/lib/math/mp/mp_monty.cpp:18-74 | the unrolled 16/8/4/2/1 loop adds exactly the sum of ws[j]*p[i-j] for j < i, the plain loop of its comment |
| Montgomery.RevSumCol | src/lib/math/mp/mp_monty.cpp:18-25 | that plain loop computes column i of the product of ws and p |
| Montgomery.BlockSize | src/lib/math/mp/mp_monty.cpp:29-71 | each pass of the unrolled loop consumes 16, 8, 4, 2 or 1 products, never more than remain |
| Montgomery.ProductByColumns | src/lib/math/mp/mp_monty.cpp:78-89 | summing all columns of q*p, each weighted by its power of b, gives Val(q)*Val(p): product scanning is multiplication |
| Montgomery.Loop2Col | src/lib/math/mp/mp_monty.cpp:106-107 | the call mul_rev_range(&ws[i+1], &p[i], n-(i+1)) adds column n+i of q*p |
| Montgomery.RedcFirstLoop | src/lib/math/mp/mp_monty.cpp:96-104 | after the first loop, acc*b^n == (columns 0..n-1 of q*p) + z mod b^n, so the low n words of z + q*p are zero |
| Montgomery.Loop1Step | src/lib/math/mp/mp_monty.cpp:100-104 | one monty_step completes column i and keeps the first-loop invariant |
| Montgomery.RedcSecondLoop | src/lib/math/mp/mp_monty.cpp:106-110 | after the second loop, the accumulator and ws[0..n-1) account for columns n..2n-2 of z + q*p |
| Montgomery.Loop2Step | src/lib/math/mp/mp_monty.cpp:107-109 | one extract stores the low word of column n+i in ws[i] and keeps the second-loop invariant |
| Montgomery.FinalValue | src/lib/math/mp/mp_monty.cpp:112-116 | x = ws + w1*b^n satisfies x*b^n == z + q*p, and x < 2p when z < p*b^n |
| Montgomery.MaybeSub | src/lib/math/mp/mp_monty.cpp:118-136 | subtracting y from the (n+1)-word x0:x unless it borrows leaves x mod y, whenever x < 2y |
| Montgomery.FinalReduced | src/lib/math/mp/mp_monty.cpp:118-136 | below 2p the single final subtraction yields x mod p, and that is below p |
| Montgomery.FinalBound | src/lib/math/mp/mp_monty.cpp:112-136 | the result r is below p and r*b^n == z (mod p) |
| Montgomery.MontyRedc | src/lib/math/mp/mp_monty.cpp:90-137 | rejects z_size < 2*p_size or p_size == 0 with invalid-argument; otherwise returns p_size words r with r < p and r*b^n == z (mod p) when pDash is the Montgomery constant and z < p*b^n |
| BarrettMath.CtDividePow2k | src/lib/math/numbertheory/barrett.cpp:23 | the quotient is floor(2^bits / m), fixed by q*m <= 2^bits < (q+1)*m |
| BarrettMath.CtModulo | src/lib/math/numbertheory/barrett.cpp:122 | ct_modulo yields the remainder in [0, m), congruent to x, also for negative x |
| BarrettMath.MuValue | src/lib/math/numbertheory/barrett.cpp:19-23 | mu computed from 2^(2Wk) is b^(2k) / m |
| BarrettMath.RNegWords | src/lib/math/numbertheory/barrett.cpp:91-99 | the word vector added unconditionally is worth b^(k+1) exactly when the intermediate is negative, and 0 otherwise |
| BarrettMath.SubRound | src/lib/math/numbertheory/barrett.cpp:110-111 | one subtract-if-no-borrow round keeps r in [0, r] and congruent to r mod m |
| BarrettMath.CorrectBelowMod | src/lib/math/numbertheory/barrett.cpp:106-112 | below (rounds+1)*m, that many correction rounds leave exactly r mod m |
| BarrettMath.HacBound | src/lib/math/numbertheory/barrett.cpp:76-78 | the quotient estimate q3 = floor(floor(x/b^(k-1))*mu / b^(k+1)) is at most two below floor(x/m) |
| BarrettMath.BarrettTailFinish | src/lib/math/numbertheory/barrett.cpp:81-112 | the masked difference plus the window add recovers x - q3*m, and the two rounds reduce it to x mod m |
| BarrettMath.BarrettTailCorrect | src/lib/math/numbertheory/barrett.cpp:76-112 | for m with k significant words and x < b^(2k), the pipeline after the shift returns x mod m |
| Barrett.ForSecretModulus | src/lib/math/numbertheory/barrett.cpp:15-24 | rejects a zero or negative modulus with invalid-argument; otherwise stores m, k = sig_words(m) and mu = floor(b^(2k)/m) |
| Barrett.ForPublicModulus | src/lib/math/numbertheory/barrett.cpp:26-35 | the same rejection and the same stored state, computed with ordinary division |
| Barrett.FactoriesAgree | src/lib/math/numbertheory/barrett.cpp:15-35 | secret-mode and public-mode factories build identical reducers for every modulus |
| Barrett.InitShift | src/lib/math/numbertheory/barrett.cpp:54-64 | barrett_init_shift returns k+1 words |
| Barrett.InitShiftValue | src/lib/math/numbertheory/barrett.cpp:54-64 | for x < b^(2k) those words hold floor(x / b^(k-1)) |
| Barrett.BarrettReduceWords | src/lib/math/numbertheory/barrett.cpp:66-115 | barrett_reduce on the magnitude words of x < b^(2k) returns x mod m |
| Barrett.ReduceInto | src/lib/math/numbertheory/barrett.cpp:182-206 | fails with invalid-argument exactly when t1 aliases x; otherwise returns x mod m for every x, including the ct_modulo fallback and the m - t fix-up for negative x |
| Barrett.Reduce | src/lib/math/numbertheory/barrett.cpp:37-42 | reduce(x) is x mod m in [0, m) |
| Barrett.Multiply | src/lib/math/numbertheory/barrett.cpp:119-155 | multiply is (x*y) mod m in [0, m), both on the ct_modulo path and on the fast path, where a release build still lets x == m through |
| Barrett.Square | src/lib/math/numbertheory/barrett.cpp:157-180 | square is x^2 mod m in [0, m), both for negative or too large x and on the fast path |
| BigInts.NegFixup | src/lib/math/numbertheory/barrett.cpp:201-205 | from t = \|x\| mod m, the value m - t (when t != 0) is the non-negative remainder of -\|x\| |
| BigInts.ProductWordsExact | src/lib/math/numbertheory/barrett.cpp:135-146 | operands below b^k lose nothing when bigint_mul multiplies their low min(size, k) words |
| BigInts.CondFlipSign | src/lib/math/numbertheory/barrett.cpp:150 | cond_flip_sign(c) negates the value exactly when c holds and keeps the words |
| BigInts.FromInt | src/lib/math/numbertheory/barrett.cpp:122 | a product or conversion result carries the value's sign and exactly its significant words |
| BigInts.LowWordsValue | src/lib/math/numbertheory/barrett.cpp:82-86 | keeping the low min(size, n) words is reduction mod b^n, the mask_bits step |
| ReducerCpp.Construct | src/lib/math/numbertheory/reducer.cpp:19-30 | a negative modulus throws invalid-argument; zero leaves the reducer uninitialised (no modulus words); a positive modulus gives for_secret_modulus |
| ReducerCpp.ForSecretModulus | src/lib/math/numbertheory/reducer.cpp:32-41 | rejects zero and negative moduli; otherwise an initialised reducer for m |
| ReducerCpp.ForPublicModulus | src/lib/math/numbertheory/reducer.cpp:43-52 | the same, computed with ordinary division |
| ReducerCpp.FactoriesAgree | src/lib/math/numbertheory/reducer.cpp:32-52 | both factories build the same reducer for every modulus |
| ReducerCpp.ReduceInto | src/lib/math/numbertheory/reducer.cpp:123-182 | throws invalid-state on an uninitialised reducer before anything else; otherwise fails exactly on aliasing; otherwise returns x mod m |
| ReducerCpp.ReduceSteps | src/lib/math/numbertheory/reducer.cpp:143-173 | for \|x\| of at most 2k significant words, the shift, multiply, mask, reverse-subtract, window add and ct_reduce_below give \|x\| mod m |
| ReducerCpp.Reduce | src/lib/math/numbertheory/reducer.cpp:54-59 | reduce(x) fails only when uninitialised and is otherwise x mod m in [0, m) |
| ReducerCpp.Multiply | src/lib/math/numbertheory/reducer.cpp:61-97 | fails only when uninitialised; otherwise (x*y) mod m in [0, m), through reduce(x*y) for out-of-range or negative operands |
| ReducerCpp.MultiplyFast | src/lib/math/numbertheory/reducer.cpp:71-96 | the fast path reduces the 2k-word product to (x*y) mod m |
| ReducerCpp.SquareAsWritten | src/lib/math/numbertheory/reducer.cpp:99-121 | the assertion fails exactly for x >= m; otherwise the result is in [0, m) (but see Findings) |
| ReducerCpp.SquareAsWrittenInRange | src/lib/math/numbertheory/reducer.cpp:99-121 | where \|x\| fits in k words, square as written is x^2 mod m |
| ReducerCpp.SquareAsWrittenDropsHighWords | src/lib/math/numbertheory/reducer.cpp:108-113 | for m = 5 and x = -b, square as written returns 0 although x^2 mod 5 is 1 |
| ReducerCpp.Square | src/lib/math/numbertheory/reducer.cpp:99-121 | corrected square: the same assertion and errors, and x^2 mod m for every x below m |
| ReducerHeader.Construct | src/lib/math/numbertheory/reducer.h:79-84 | a negative modulus is rejected; zero is accepted and leaves the reducer uninitialised |
| ReducerHeader.FactoriesAgree | src/lib/math/numbertheory/reducer.h:93-103 | for_public_modulus and for_secret_modulus build the same reducer, which is initialised for m > 0 |
| ReducerHeader.DefaultUninitialized | src/lib/math/numbertheory/reducer.h:77-79 | the default reducer is not initialised and cannot reduce |
| ReducerHeader.Reduce | src/lib/math/numbertheory/reducer.h:28-35 | reduce(x) fails exactly when uninitialised; otherwise it is in [0, m) and congruent to x |
| ReducerHeader.ReduceIsRemainder | src/lib/math/numbertheory/reducer.h:28-35 | that result is x % m |
| ReducerHeader.Initialized | src/lib/math/numbertheory/reducer.h:77 | initialized() is m != 0; every operation below fails exactly when it is false |
| ReducerHeader.Multiply | src/lib/math/numbertheory/reducer.h:47 | multiply(x, y) fails only when uninitialised and is otherwise (x*y) mod m |
| ReducerHeader.Multiply3 | src/lib/math/numbertheory/reducer.h:55 | multiply(x, multiply(y, z)) fails only when uninitialised and is otherwise (x*y*z) mod m |
| ReducerHeader.Square | src/lib/math/numbertheory/reducer.h:66 | square(x) fails only when uninitialised and is otherwise x^2 mod m |
| ReducerHeader.Cube | src/lib/math/numbertheory/reducer.h:75 | cube = multiply(x, square(x)) fails only when uninitialised and is otherwise x^3 mod m |
| ReducerHeader.ReduceInto | src/lib/math/numbertheory/reducer.h:108-110 | the three-argument reduce fails only when uninitialised and otherwise stores x mod m |
| ReducerHeader.ReduceIntoIgnoresWorkspace | src/lib/math/numbertheory/reducer.h:108-110 | the three-argument reduce ignores the workspace and equals reduce(x) |
| Invert.LowZeroBits | src/fuzzer/invert.cpp:27-28 | 2^z divides u and u / 2^z is odd |
| Invert.HalveCoefficients | src/fuzzer/invert.cpp:29-36 | the halving loop turns u*2^z == A*mod + B*n into u == A'*mod + B'*n, dividing exactly |
| Invert.HalvingStep | src/fuzzer/invert.cpp:30-35 | with mod or n odd, the adjusted A, B are both even, and halving them keeps the representation |
| Invert.Parity | src/fuzzer/invert.cpp:30-35 | with mod or n odd and A*mod + B*n even, the conditional adjustment makes A and B both even |
| Invert.Iteration | src/fuzzer/invert.cpp:26-58 | one iteration keeps u = A*mod + B*n, v = C*mod + D*n and the odd common divisors, keeps v > 0 and strictly decreases u + v |
| Invert.BinaryGcd | src/fuzzer/invert.cpp:19-58 | the loop ends with an odd v = C*mod + D*n that divides both mod and n |
| Invert.NormaliseCoefficient | src/fuzzer/invert.cpp:64-69 | the two loops bring D into [0, mod) and keep 1 == C*mod + D*n |
| Invert.RefInverseMod | src/fuzzer/invert.cpp:12-72 | returns 0 for n == 0, mod < 2 or both even; a non-zero result is in (0, mod) with (n*r) mod mod == 1; 0 with mod >= 2 means no inverse exists |
| Invert.FuzzInputs | src/fuzzer/invert.cpp:76-88 | inputs over 1024 bytes or with a modulus below 2 are ignored; x is the first floor(len/2) bytes and mod the rest |
| Invert.BytesToNatSplit | src/fuzzer/invert.cpp:83-84 | a big-endian byte string is its prefix shifted past the suffix plus the suffix, so the two halves recombine to the input |
| Invert.NoInverseCommon | src/fuzzer/invert.cpp:16-17 | a common divisor above 1 of n and mod rules out every inverse, justifying the 0 for two even inputs and the final 0 |
| Invert.InverseFromBezout | src/fuzzer/invert.cpp:60-71 | when 1 == C*mod + D*n with D in [0, mod), D is a non-zero inverse of n |
| Ed25519Fe.Zero | src/lib/pubkey/ed25519/ed25519_fe.h:34-40 | zero() has all ten limbs 0 |
| Ed25519Fe.One | src/lib/pubkey/ed25519/ed25519_fe.h:42-46 | one() has limb 0 equal to 1 and the rest 0 |
| Ed25519Fe.ZeroOneValues | src/lib/pubkey/ed25519/ed25519_fe.h:22-46 | zero() and one() represent 0 and 1 |
| Ed25519Fe.ExponentTable | src/lib/pubkey/ed25519/ed25519_fe.h:25-26 | the limb weights ceil(25.5 i) are 0, 26, 51, 77, 102, ..., 230, as the class comment lists |
| Ed25519Fe.FromSpan | src/lib/pubkey/ed25519/ed25519_fe.h:48-50 | the span constructor copies the ten limbs |
| Ed25519Fe.Trunc32 | src/lib/pubkey/ed25519/ed25519_fe.h:62-71 | the int32 cast is congruent mod 2^32 and is the identity on values that fit |
| Ed25519Fe.FromInt64 | src/lib/pubkey/ed25519/ed25519_fe.h:52-72 | the int64 constructor truncates each h_i, so the limbs equal the h_i when all fit in int32 |
| Ed25519Fe.Add | src/lib/pubkey/ed25519/ed25519_fe.h:101-107 | each limb of the sum is the sum of the limbs |
| Ed25519Fe.Sub | src/lib/pubkey/ed25519/ed25519_fe.h:109-115 | each limb of the difference is the difference of the limbs |
| Ed25519Fe.Negate | src/lib/pubkey/ed25519/ed25519_fe.h:117-123 | each limb is negated |
| Ed25519Fe.AddValue | src/lib/pubkey/ed25519/ed25519_fe.h:101-107 | without limb overflow, add represents the sum of the represented integers |
| Ed25519Fe.SubValue | src/lib/pubkey/ed25519/ed25519_fe.h:109-115 | without limb overflow, sub represents the difference |
| Ed25519Fe.NegateValue | src/lib/pubkey/ed25519/ed25519_fe.h:117-123 | with no INT32_MIN limb, negate represents the negation |
| Ed25519Fe.NegateInvolution | src/lib/pubkey/ed25519/ed25519_fe.h:117-123 | negate is an involution |
| Ed25519Fe.SubIsAddNegate | src/lib/pubkey/ed25519/ed25519_fe.h:101-123 | sub(a, b) equals add(a, negate(b)) |
| PCurvesGeneric.NewCurve | src/lib/math/pcurves/pcurves_generic/pcurves_generic.cpp:75-86 | the constructor's assertions hold exactly when order and p have equal byte lengths and equal significant word counts |
| PCurvesGeneric.CheckArgs | src/lib/math/pcurves/pcurves_generic/pcurves_generic.cpp:300-305 | passes exactly when p and order are prime, 0 <= a < p, 0 < b < p and both base coordinates are in [0, p); otherwise invalid-argument |
| PCurvesGeneric.Finish | src/lib/math/pcurves/pcurves_generic/pcurves_generic.cpp:319-329 | after the size rule, a curve on these parameters is returned exactly when the size rule passed, p mod 4 == 3 and p and order have equal bit lengths; nothing throws |
| PCurvesGeneric.FromParamsAsWritten | src/lib/math/pcurves/pcurves_generic/pcurves_generic.cpp:298-330 | argument errors throw; otherwise a curve is returned exactly when the size rule as written, p mod 4 == 3 and bits(p) == bits(order) all hold |
| PCurvesGeneric.AsWrittenRejects512Bits | src/lib/math/pcurves/pcurves_generic/pcurves_generic.cpp:311-314 | as written, every 512-bit p is rejected |
| PCurvesGeneric.NotMersenne | src/lib/math/pcurves/pcurves_generic/pcurves_generic.cpp:311-314 | no 512-bit p satisfies the as-written special case, since 2^521 - 1 is not a 512-bit number |
| PCurvesGeneric.MersenneSize | src/lib/math/pcurves/pcurves_generic/pcurves_generic.cpp:311-320 | 2^521 - 1 has 521 bits and is 3 mod 4, so only the size rule decides P-521 |
| PCurvesGeneric.P521Rejected | src/lib/math/pcurves/pcurves_generic/pcurves_generic.cpp:311-317 | P-521 (p = 2^521 - 1) is rejected as written and accepted by the corrected rule |
| PCurvesGeneric.FromParams | src/lib/math/pcurves/pcurves_generic/pcurves_generic.cpp:298-330 | corrected from_params: the same, with the special case on 521 bits |
| PCurvesGeneric.SizeRulesAgreeElsewhere | src/lib/math/pcurves/pcurves_generic/pcurves_generic.cpp:311-317 | the two size rules differ only at 512 and 521 bits; elsewhere 128..512 bits in steps of 32 are required |
| PCurvesGeneric.ConstructorAssertionsHold | src/lib/math/pcurves/pcurves_generic/pcurves_generic.cpp:82-83 | any p and order with equal bit lengths pass the constructor's assertions |
| PCurvesGeneric.CtIsEqual | src/lib/math/pcurves/pcurves_generic/pcurves_generic.cpp:53 | the constant-time comparison is true exactly when the first N words agree |
| PCurvesGeneric.ScalarEqual | src/lib/math/pcurves/pcurves_generic/pcurves_generic.cpp:48-54 | scalars of different curves are unequal; otherwise equality of the N stored words |
| PCurvesGeneric.SerializeScalarCheck | src/lib/math/pcurves/pcurves_generic/pcurves_generic.cpp:209-212 | serialize_scalar accepts exactly an output of scalar_bytes |
| TlsCbc.PaddingLength | src/lib/tls/tls12/tls_cbc/tls_cbc.cpp:225-235 | the reference: 0 for an empty or over-long record or bad padding, else pb+1 with pb the last byte; it lies in {0} or [1, 256] and never exceeds the record |
| TlsCbc.CheckTlsCbcPadding | src/lib/tls/tls12/tls_cbc/tls_cbc.cpp:236-262 | the masked scan over the last min(256, n) bytes computes exactly that reference |
| TlsCbc.PadFill | src/lib/tls/tls12/tls_cbc/tls_cbc.cpp:150-169 | asserts padding_length <= 16; grows the buffer by padding_length, sets exactly the new last bytes to padding_length-1 and keeps every other byte |
| TlsCbc.PadFillThenCheck | src/lib/tls/tls12/tls_cbc/tls_cbc.cpp:150-169 | round trip: the padding check reads back exactly the padding length written |
| TlsCbc.RoundUp | src/lib/tls/tls12/tls_cbc/tls_cbc.cpp:144 | round_up gives a multiple of align in [n, n + align) |
| TlsCbc.RoundUpLeast | src/lib/tls/tls12/tls_cbc/tls_cbc.cpp:144 | and it is the least such multiple |
| TlsCbc.OutputLength | src/lib/tls/tls12/tls_cbc/tls_cbc.cpp:181-184 | output_length: the part before an Encrypt-then-MAC tag is a block multiple covering message, one padding byte and (MtE) the tag, with less than one block of slack |
| TlsCbc.EncryptLayout | src/lib/tls/tls12/tls_cbc/tls_cbc.cpp:181-198 | padding_length is in [1, block_size], the encrypted span is a non-empty block multiple covering message, tag (MtE) and padding, and the bytes appended equal output_length |
| TlsCbc.AssocDataWithLen | src/lib/tls/tls12/tls_cbc/tls_cbc.cpp:121-127 | asserts 13 bytes; changes only bytes 11-12, to the big-endian length |
| TlsCbc.WithLength | src/lib/tls/tls12/tls_cbc/tls_cbc.cpp:121-127 | the 13-byte additional data keeps its first 11 bytes and reads back the given 16-bit length |
| TlsCbc.LengthFieldDetermines | src/lib/tls/tls12/tls_cbc/tls_cbc.cpp:121-127 | additional data that agrees on bytes 0-10 and has length field len is exactly that rewrite |
| TlsCbc.WithOwnLength | src/lib/tls/tls12/tls_cbc/tls_cbc.cpp:121-127 | rewriting the length field with its own value changes nothing |
| TlsCbc.SetAssociatedData | src/lib/tls/tls12/tls_cbc/tls_cbc.cpp:129-135 | rejects idx != 0 and a length other than 13 with invalid-argument; otherwise stores the data unchanged |
| TlsCbc.EncSetAssociatedData | src/lib/tls/tls12/tls_cbc/tls_cbc.cpp:137-148 | the same checks; with Encrypt-then-MAC only the length field is rewritten, to round_up(iv + pt + 1, bs) |
| TlsCbc.EtmLengthsAgree | src/lib/tls/tls12/tls_cbc/tls_cbc.cpp:137-148 | the encrypt-side length round_up(iv + pt + 1, bs) equals the decrypt-side enc_size + iv_size |
| TlsCbc.EncryptLength | src/lib/tls/tls12/tls_cbc/tls_cbc.cpp:181-222 | finish_msg produces a record of exactly output_length bytes |
| TlsCbc.Encrypt | src/lib/tls/tls12/tls_cbc/tls_cbc.cpp:186-222 | finish_msg succeeds whenever the block size passes the padding assertion (at most 16) |
| TlsCbc.MteEncrypts | src/lib/tls/tls12/tls_cbc/tls_cbc.cpp:200-222 | MAC-then-encrypt: the CBC input is the message, then the MAC over additional data and message, then padding_length bytes of padding, a block multiple |
| TlsCbc.EtmEncrypts | src/lib/tls/tls12/tls_cbc/tls_cbc.cpp:200-222 | Encrypt-then-MAC: the record is the CBC encryption of message plus padding, followed by the MAC over additional data, explicit IV and ciphertext |
| TlsCbc.EtmAssociatedData | src/lib/tls/tls12/tls_cbc/tls_cbc.cpp:137-148 | the encryptor's rewritten length is the ciphertext size plus the IV size, within 16 bits |
| TlsCbc.DecryptEtm | src/lib/tls/tls12/tls_cbc/tls_cbc.cpp:352-400 | records failing the public length check are rejected with BadRecordMac; a record is accepted only if its tag is the MAC over the length-rewritten additional data, IV and ciphertext and the decrypted padding is non-zero, and the result is the plaintext with that padding removed |
| TlsCbc.EtmDecryptAccepts | src/lib/tls/tls12/tls_cbc/tls_cbc.cpp:365-400 | a record whose MAC is over the length-rewritten additional data, IV and ciphertext, and whose plaintext is validly padded, decrypts to the message |
| TlsCbc.MteDecide | src/lib/tls/tls12/tls_cbc/tls_cbc.cpp:402-440 | pad_size is forced to 0 unless tag_size + pad_size <= record_len; a non-zero pad_size places plaintext, tag and padding end to end |
| TlsCbc.MteAccept | src/lib/tls/tls12/tls_cbc/tls_cbc.cpp:431-449 | the plaintext is released only if the size check, the MAC over the rewritten additional data and a non-zero pad all hold |
| TlsCbc.MteAcceptsPadded | src/lib/tls/tls12/tls_cbc/tls_cbc.cpp:418-462 | a well-formed plaintext (message, correct MAC, valid padding) is accepted and yields the message |
| TlsCbc.DecryptMte | src/lib/tls/tls12/tls_cbc/tls_cbc.cpp:352-462 | records failing the public length check are rejected with BadRecordMac; a record is accepted only if its decrypted padding is non-zero and the tag before it is the MAC over the rewritten additional data and the released plaintext, which is what precedes the tag |
| TlsCbc.MteRoundTrip | src/lib/tls/tls12/tls_cbc/tls_cbc.cpp:186-222 | MAC-then-encrypt decryption of what encryption produced returns the message |
| TlsCbc.EtmRoundTrip | src/lib/tls/tls12/tls_cbc/tls_cbc.cpp:137-148 | Encrypt-then-MAC: after the encryptor's length rewrite, decryption of its record returns the message |
| TlsCbc.DummyMacBytes | src/lib/tls/tls12/tls_cbc/tls_cbc.cpp:324-350 | the dummy byte count is 55/111 (no extra compression) or a multiple of the hash block size, even after the 16-bit casts |
| TlsCbc.DummyMacBytesEqualize | src/lib/tls/tls12/tls_cbc/tls_cbc.cpp:324-350 | without 16-bit wrap-around, the dummy bytes make the compressions for L2 bytes plus the dummies equal those for L1 bytes |
| Sm4Tables.SboxTIsL | src/lib/block/sm4/sm4.cpp:38-75 | every SM4_SBOX_T entry is L applied to the S-box output placed in the top byte |
| Sm4Round.LinearL | src/lib/block/sm4/sm4.cpp:81-82 | L is linear over XOR |
| Sm4Round.TSlow | src/lib/block/sm4/sm4.cpp:77-83 | the standard's round function T: the S-box on each byte, packed big-endian, then L |
| Sm4Round.T | src/lib/block/sm4/sm4.cpp:85-88 | the table-based SM4_T equals SM4_T_slow on every 32-bit input |
| Sm4Round.TPrime | src/lib/block/sm4/sm4.cpp:91-96 | the key-schedule T': the S-box on each byte, then L'(t) = t ^ rotl13(t) ^ rotl23(t); `Sm4.KeySchedule` shows it yields the standard's round keys |
| Sm4Round.TableTBytes | src/lib/block/sm4/sm4.cpp:85-88 | XOR of the four rotated table lookups is L of the four S-box outputs packed big-endian |
| Sm4.RoundTIsStandard | src/lib/block/sm4/sm4.cpp:196-203 | mixing T_slow in groups 0 and 7 with the table T elsewhere computes the standard round function in every group |
| Sm4.EncryptGroup | src/lib/block/sm4/sm4.cpp:99-106 | SM4_E<r> on one block; `EncryptGroupsRounds` proves it computes four steps of the standard's recurrence, and `DecryptGroupInverts` that SM4_D<r> undoes it |
| Sm4.DecryptGroup | src/lib/block/sm4/sm4.cpp:129-136 | SM4_D<r> on one block, the same steps with the keys in reverse; `EncryptGroupInverts` proves SM4_E<r> undoes it |
| Sm4.DecryptGroupInverts | src/lib/block/sm4/sm4.cpp:99-136 | SM4_D<r> undoes SM4_E<r> under the same keys, up to the B3..B0 word reversal |
| Sm4.EncryptGroupInverts | src/lib/block/sm4/sm4.cpp:99-136 | and SM4_E<r> undoes SM4_D<r> |
| Sm4.DecryptGroupsInvert | src/lib/block/sm4/sm4.cpp:218-225 | n decryption groups undo n encryption groups, up to the word reversal |
| Sm4.EncryptGroupsInvert | src/lib/block/sm4/sm4.cpp:291-298 | n encryption groups undo n decryption groups, up to the word reversal |
| Sm4.EncryptGroupsRounds | src/lib/block/sm4/sm4.cpp:99-106 | n unrolled groups compute X_{4n} .. X_{4n+3} of the standard's recurrence X_{i+4} = X_i ^ T(X_{i+1} ^ X_{i+2} ^ X_{i+3} ^ rk_i) |
| Sm4.DecryptGroupsReversedKeys | src/lib/block/sm4/sm4.cpp:129-136 | the decryption groups are the encryption groups under the reversed round keys |
| Sm4.LoadStoreReversed | src/lib/block/sm4/sm4.cpp:205-227 | loading what store_be(B3, B2, B1, B0) wrote gives the reversed state |
| Sm4.CryptBlockInverts | src/lib/block/sm4/sm4.cpp:212-231 | one-block decryption undoes one-block encryption, and vice versa |
| Sm4.EncryptBlockStandard | src/lib/block/sm4/sm4.cpp:212-231 | the one-block encryption is the standard's 32-round encryption with output reversal |
| Sm4.DecryptBlockStandard | src/lib/block/sm4/sm4.cpp:285-304 | the one-block decryption is the standard's decryption with reversed keys |
| Sm4.CryptPairAsBlocks | src/lib/block/sm4/sm4.cpp:185-210 | the two-block path gives the same bytes as the one-block path on each half |
| Sm4.EncryptGroup2 | src/lib/block/sm4/sm4.cpp:108-127 | the interleaved SM4_E<r> over B and C is the one-block SM4_E<r> on each of them |
| Sm4.DecryptGroup2 | src/lib/block/sm4/sm4.cpp:138-157 | the interleaved SM4_D<r> over B and C is the one-block SM4_D<r> on each of them |
| Sm4.CryptBlock | src/lib/block/sm4/sm4.cpp:212-231 | the one-block loop body maps 16 bytes to 16 bytes; `CryptBlockInverts` and `BlockFnStandard` state what it computes |
| Sm4.CryptPair | src/lib/block/sm4/sm4.cpp:185-210 | the two-block loop body maps 32 bytes to 32 bytes; `CryptPairAsBlocks` states it is the one-block body on each half |
| Sm4.EncryptGroups2Split | src/lib/block/sm4/sm4.cpp:108-127 | the interleaved SM4_E<r> over B and C acts on each block independently |
| Sm4.DecryptGroups2Split | src/lib/block/sm4/sm4.cpp:138-157 | the interleaved SM4_D<r> over B and C acts on each block independently |
| Sm4.PairLoopIsEachBlock | src/lib/block/sm4/sm4.cpp:185-231 | the two-block loop followed by the one-block loop processes every block once, in order |
| Sm4.EachBlockUndone | src/lib/block/sm4/sm4.cpp:164-305 | running the inverse block function over every block of the output restores the input |
| Sm4.ProcessN | src/lib/block/sm4/sm4.cpp:164-305 | without round keys encrypt_n/decrypt_n fail with Key_Not_Set; otherwise every 16-byte block is processed by the one-block function |
| Sm4.ProcessNInverts | src/lib/block/sm4/sm4.cpp:164-305 | decrypt_n(encrypt_n(x)) == x, and the other way round, under the same key |
| Sm4.EachBlockStandard | src/lib/block/sm4/sm4.cpp:164-305 | block j of the output is the standard's encryption (or decryption) of block j of the input |
| Sm4.EachBlockAt | src/lib/block/sm4/sm4.cpp:212-231 | block j of the output is the block function applied to block j of the input |
| Sm4.BlockFnStandard | src/lib/block/sm4/sm4.cpp:212-231 | the one-block path is the standard's encryption or decryption |
| Sm4.HasKeyingMaterial | src/lib/block/sm4/sm4.cpp:307-309 | has_keying_material() is true exactly when round keys are stored; `Clear`, `KeySchedule` and `ProcessN` are stated with it |
| Sm4.Clear | src/lib/block/sm4/sm4.cpp:337-339 | after clear() there is no keying material |
| Sm4.KeyRound | src/lib/block/sm4/sm4.cpp:331-334 | K[i%4] ^= T'(K[(i+1)%4] ^ K[(i+2)%4] ^ K[(i+3)%4] ^ CK[i]) moves the four-word window of the recurrence on by one and appends K_{i+4} |
| Sm4.KeySchedule | src/lib/block/sm4/sm4.cpp:314-335 | the key words XOR FK, then 32 rounds, give exactly the standard's round keys rk_i = K_{i+4}, and the cipher then has keying material |
| LoadStore.LoadStoreWord | src/lib/block/sm4/sm4.cpp:186-205 | load_be of store_be of a word is that word |
| LoadStore.LoadWord | src/lib/block/sm4/sm4.cpp:186-205 | load_be of four bytes is the word whose store_be gives back those bytes |
| LoadStore.StoreWord | src/lib/block/sm4/sm4.cpp:186-205 | store_be of a word is four bytes; `LoadStoreWord` reads the word back from them |
| Sha256.MessageSchedule | src/lib/hash/sha2_32/sha2_32_bmi2/sha2_32_bmi2.cpp:84-92 | the single-block loops give W_t + K_t, with W_t = W_{t-16} + sigma0(W_{t-15}) + W_{t-7} + sigma1(W_{t-2}) for t >= 16 |
| Sha256.ExpandReordered | src/lib/hash/sha2_32/sha2_32_bmi2/sha2_32_bmi2.cpp:46-48 | the code's order of the four schedule terms gives the standard's W_t |
| Sha256.ScheduleStep | src/lib/hash/sha2_32/sha2_32_bmi2/sha2_32_bmi2.cpp:86-88 | one pass of the expansion loop appends the next schedule word |
| Sha256.TwoSchedules | src/lib/hash/sha2_32/sha2_32_bmi2/sha2_32_bmi2.cpp:46-54 | the two-block schedule loops give both blocks' W_t + K_t |
| Sha256.MacroArgsRound | src/lib/hash/sha2_32/sha2_32_bmi2/sha2_32_bmi2.cpp:56-66 | the SHA2_32_F macro with M = W_t + K_t, followed by the register renaming, is one round of section 6.2.2 step 3 |
| Sha256.Macro | src/lib/hash/sha2_32/sha2_32_bmi2/sha2_32_bmi2.cpp:95-104 | macro call k writes only the two registers in its D and H argument positions and keeps the other six |
| Sha256.MacroIsRound | src/lib/hash/sha2_32/sha2_32_bmi2/sha2_32_bmi2.cpp:95-104 | a macro call on registers rotated by k, rotated by k+1, is the standard round |
| Sha256.MacroSimulatesRound | src/lib/hash/sha2_32/sha2_32_bmi2/sha2_32_bmi2.cpp:95-104 | every macro call, seen through the next call's argument order, is the standard's round t |
| Sha256.PassesAreSteps | src/lib/hash/sha2_32/sha2_32_bmi2/sha2_32_bmi2.cpp:95-104 | the eight passes of eight calls run all 64 rounds |
| Sha256.FeedForwardIsStandard | src/lib/hash/sha2_32/sha2_32_bmi2/sha2_32_bmi2.cpp:108-115 | the feed-forward adds each working variable into its digest word mod 2^32 |
| Sha256.CompressBlock | src/lib/hash/sha2_32/sha2_32_bmi2/sha2_32_bmi2.cpp:81-116 | one block through the code's loops leaves an eight-word digest; `CompressIsStandard` states it is the standard's compression |
| Sha256.CompressIsStandard | src/lib/hash/sha2_32/sha2_32_bmi2/sha2_32_bmi2.cpp:81-116 | one block through the code's loops is the standard's compression (steps 1 to 4) |
| Sha256.OneBlock | src/lib/hash/sha2_32/sha2_32_bmi2/sha2_32_bmi2.cpp:81-116 | the single-block path computes the standard's compression |
| Sha256.TwoBlocks | src/lib/hash/sha2_32/sha2_32_bmi2/sha2_32_bmi2.cpp:42-79 | one pass of the two-block loop equals two sequential compressions |
| Sha256.PairFoldIsFold | src/lib/hash/sha2_32/sha2_32_bmi2/sha2_32_bmi2.cpp:42-81 | taking blocks in pairs, then an odd last block singly, visits every block once and in order |
| Sha256.CodeTwoIsTwoOnes | src/lib/hash/sha2_32/sha2_32_bmi2/sha2_32_bmi2.cpp:42-116 | the code's two-block step equals two applications of its one-block step |
| Sha256.CodeOneIsStandard | src/lib/hash/sha2_32/sha2_32_bmi2/sha2_32_bmi2.cpp:81-116 | the code's one-block step is the standard's compression on every 64-byte block |
| Sha256.CompressDigest | src/lib/hash/sha2_32/sha2_32_bmi2/sha2_32_bmi2.cpp:24-117 | compress_digest over `blocks` blocks is the standard's iterated hash computation |
| Sha256.DigestLength | src/lib/hash/sha2_32/sha2_32_bmi2/sha2_32_bmi2.cpp:108-115 | the digest stays eight words after any number of blocks |
| XmlReporter.OptionalSum | src/tests/test_xml_reporter.cpp:19-29 | the sum is present exactly when both sides are, and is then their sum |
| XmlReporter.Elapsed | src/tests/test_xml_reporter.cpp:100-108 | a suite's elapsed time is absent exactly when some test lacks one; otherwise it is the sum |
| XmlReporter.ElapsedAppend | src/tests/test_xml_reporter.cpp:100-108 | appending a result adds its elapsed time with the optional + |
| XmlReporter.Oldest | src/tests/test_xml_reporter.cpp:90-98 | the suite time stamp is the minimum over its tests (one of them), or time_point::max for none |
| XmlReporter.OldestAppend | src/tests/test_xml_reporter.cpp:90-98 | appending a result lowers the time stamp to that result's if it is earlier |
| XmlReporter.PassedPlusFailed | src/tests/test_xml_reporter.cpp:42-43 | every test is counted once, as passed or as failed: passed() + failed() == tests() |
| XmlReporter.CountPassed | src/tests/test_xml_reporter.cpp:78-82 | passed() never exceeds tests() |
| XmlReporter.CountFailed | src/tests/test_xml_reporter.cpp:84-88 | failed() never exceeds tests() |
| XmlReporter.CountAppend | src/tests/test_xml_reporter.cpp:69-88 | appending a result adds one to passed() or failed() by its outcome |
| XmlReporter.NoneFailed | src/tests/test_xml_reporter.cpp:76-88 | failed() == 0 exactly when every test passed |
| XmlReporter.TestTagEnd | src/tests/test_xml_reporter.cpp:316-325 | a test case renders self-closing exactly when it has no failures and no notes, so such a test passed |
| XmlReporter.SuiteTagEnd | src/tests/test_xml_reporter.cpp:285-299 | a suite renders self-closing exactly when it has no test cases |
| XmlReporter.SuiteRecord | src/tests/test_xml_reporter.cpp:69-72 | record appends the test case and keeps the earlier ones |
| XmlReporter.SuiteRecordAggregates | src/tests/test_xml_reporter.cpp:69-108 | recording moves tests, passed, failed, time stamp and elapsed time by exactly that test's contribution |
| XmlReporter.Record | src/tests/test_xml_reporter.cpp:136-140 | record adds no key but the name, and adds a suite exactly when the name is new |
| XmlReporter.RecordLookup | src/tests/test_xml_reporter.cpp:136-140 | record creates the suite on first use of a name and appends the result to it; every other suite is unchanged |
| XmlReporter.Lookup | src/tests/test_xml_reporter.cpp:136-140 | find(name) reports absence exactly for unrecorded names and otherwise returns the suite of that name |
| XmlReporter.RecordUnique | src/tests/test_xml_reporter.cpp:136-140 | recording never duplicates a suite name |
| XmlReporter.TotalTests | src/tests/test_xml_reporter.cpp:143-149 | tests() sums the suites' test counts; `TotalsAdd` and `RecordTotals` relate it to passed() and failed() |
| XmlReporter.TotalPassed | src/tests/test_xml_reporter.cpp:152-158 | passed() over all suites never exceeds tests() |
| XmlReporter.TotalFailed | src/tests/test_xml_reporter.cpp:161-167 | failed() over all suites never exceeds tests() |
| XmlReporter.TotalsAdd | src/tests/test_xml_reporter.cpp:143-167 | over all suites, passed() + failed() == tests() |
| XmlReporter.RecordTotals | src/tests/test_xml_reporter.cpp:136-167 | recording one result adds one test, and one passed or one failed |
| XmlStrings.Find | src/tests/test_xml_reporter.cpp:191 | find returns the first occurrence at or after the offset, or none if there is none |
| XmlStrings.Replace | src/tests/test_xml_reporter.cpp:185-196 | an empty `from` leaves the string unchanged; otherwise the loop, resuming after each inserted text, replaces every occurrence from left to right without rescanning replacement text |
| XmlStrings.EscapeChainIsRef | src/tests/test_xml_reporter.cpp:198-206 | the five replacements, ampersand first, equal the per-character entity escaping: entity ampersands are not double-escaped |
| XmlStrings.Escape | src/tests/test_xml_reporter.cpp:198-206 | escape is the per-character escaping, and its output contains no raw `<`, `>`, `"` or `'` character |
| XmlStrings.EscapeRefUnmarked | src/tests/test_xml_reporter.cpp:198-206 | escaped text contains no raw markup or quote characters |
| XmlStrings.FrameText | src/tests/test_xml_reporter.cpp:208-227 | the framed, split payload reads back as the payload |
| XmlStrings.FormatCdata | src/tests/test_xml_reporter.cpp:208-227 | the output starts with `<![CDATA[`, ends with `]]>`, and the text of its CDATA sections is the original string |

## Left out

- Timing and side-channel behaviour are not modelled. `CT::poison`/`unpoison` are left out, and masks and selects appear only as their functional if-then-else. The Lucky-13 dummy MAC update is modelled only by its byte count, and the DTLS `final` is left out.
- The CPUID/SIMD dispatch branches of `encrypt_n`/`decrypt_n`, and the ARMv8, x86 and GFNI SM4 paths, are hardware probing and foreign code.
- The model follows release builds, where `BOTAN_DEBUG_ASSERT` is compiled out. The debug assertions at barrett.cpp:101-102, 125-128 and 163-164, reducer.cpp:68-69 and tls_cbc.cpp:193 are therefore not failure paths. In particular `Barrett.Multiply` takes the fast path for x == m or y == m, which a debug build would stop; `Barrett.Square` already sends x >= m to `ct_modulo`.
- Header helpers (`word3`, `bigint_mul`, `bigint_sqr`, `bigint_sub3`, `bigint_monty_maybe_sub`, `ct_modulo`, `ct_divide_pow2k`, `ct_reduce_below`, `round_up`, BigInt shifts and masks) are specified by the values they compute. Their word-level code is not part of this model.
- The out-of-line bodies of the header version's `Modular_Reducer(mod)` and `reduce(x)` are not part of this model. The header documents only that m == 0 leaves the reducer uninitialised (reducer.h:81-84) and that the factories require m > 0 (reducer.h:88-103). The model assumes the other rules from the Barrett-based definitions: a negative modulus is rejected with Invalid_Argument (reducer.cpp:19-30), an uninitialised `reduce` throws Invalid_State (reducer.cpp:124-127), and otherwise reduce is x mod m in [0, m).
- ReducerHeader.Reduce: states only congruence, range and the uninitialised error. `ReduceIsRemainder` derives x % m from these.
- HMAC, the CBC engine and the TLS block cipher are function parameters. `Invalid_Key_Length` plumbing, `reset`/`clear` of the TLS mode and the `cbc_state` bookkeeping are left out.
- TlsCbc.Encrypt: the CBC state (IV) is a parameter, and the next IV taken from the last ciphertext block is not modelled.
- TlsCbc.DecryptEtm and TlsCbc.DecryptMte: their contracts state rejection, the length bound, and that only a record with the right MAC and non-zero padding is accepted. That every well-formed record is accepted is stated separately, by the round-trip lemmas (`EtmRoundTrip`, `MteRoundTrip`, `MteAcceptsPadded`).
- TlsCbc.DummyMacBytesEqualize: stated only when 13 + plen stays below 2^16, where the 16-bit casts do not wrap. Records are at most 2^14 + 2048 bytes in TLS 1.2.
- TlsCbc.EtmRoundTrip and TlsCbc.MteRoundTrip: stated for block sizes up to 16 bytes, because `cbc_encrypt_record` asserts padding_length <= 16. They also require message lengths that keep 16-bit lengths from wrapping.
- Invert.RefInverseMod: requires n >= 0. `fuzz` only passes `from_bytes` values, which are non-negative, and the loop's shifts are not meaningful on a negative v.
- Ed25519 `mul`, `sqr`, `sqr2`, `sqr_iter`, `invert`, `pow_22523`, `deserialize`, `to_bytes`, `is_zero` and `is_negative` are declared only in the header; their bodies are not part of this model.
- Ed25519Fe.Add, Ed25519Fe.Sub and Ed25519Fe.Negate: require that no limb overflows int32. Signed overflow is undefined in C++, so these are the only defined inputs.
- The rest of `pcurves_generic.cpp` throws `Not_Implemented` and is left out. Primality (`is_bailie_psw_probable_prime`) is a parameter `isPrime`.
- PCurvesGeneric.SerializeScalarCheck: only the length check is modelled. `serialize_to` itself is not part of this model.
- Sm4.KeySchedule: requires a 16-byte key. The block cipher interface rejects other lengths with `Invalid_Key_Length` before `key_schedule` runs.
- Sm4.ProcessN: models the scalar path only, as a function on whole 16-byte blocks; the raw `in`/`out` buffers become byte sequences.
- The `SHA2_32_F` macro is defined in sha2_32_f.h, which is not part of this model. It is taken from section 6.2.2, step 3, of FIPS 180-4.
- SHA-256's loading of the initial digest into registers and the address arithmetic over `input` are modelled on byte sequences.
- Sha256.CompressDigest: modelled as a fold over blocks, not as an in-place method.
- In the XML reporter, time formatting (`format` of time points and durations, `localtime`), the wall-clock `elapsed_time`, file output and the full `ostream` rendering are left out. Only the self-closing decisions are modelled.
- XmlReporter.Oldest: time points are 64-bit nanosecond counts, and `time_point::max()` is 2^63 - 1.
- XmlReporter.Record: the `std::map` is a sequence with distinct names. Iteration order only matters to rendering, which is left out, and the totals do not depend on it.
- The other files of the repository are outside this model: SIMD hashes, CPU detection, FFI, RNG, examples, curve formulas, and pure declarations.

## Findings

| source | as written | input that shows it | evidently intended | confidence | as-written member | corrected member |
|---|---|---|---|---|---|---|
| src/lib/math/numbertheory/reducer.cpp:99-121 | `square` only asserts x < m. A negative x passes, and `bigint_sqr` then squares only the low min(size, k) words of \|x\|, dropping the high words | m = 5 (k = 1), x = -2^64 (words [0, 1], negative): returns 0, but x^2 mod 5 = 1 | x^2 mod m for every x the assertion lets through, e.g. by sending negative x to `reduce(x*x)` as `multiply` does | not executed | ReducerCpp.SquareAsWritten, ReducerCpp.SquareAsWrittenDropsHighWords | ReducerCpp.Square |
| src/lib/math/pcurves/pcurves_generic/pcurves_generic.cpp:311-314 | the special case tests `p_bits == 512` and then requires p == 2^521 - 1, which has 521 bits. So every 512-bit p is rejected, and P-521 itself fails the 128..512 range test | p = 2^521 - 1, an order of 521 bits and valid a, b, base point: returns no curve; likewise any 512-bit p | the special case on `p_bits == 521` (accept exactly P-521), as the comment "exactly P-512" (meaning P-521) suggests | not executed | PCurvesGeneric.FromParamsAsWritten, PCurvesGeneric.AsWrittenRejects512Bits, PCurvesGeneric.P521Rejected | PCurvesGeneric.FromParams |
