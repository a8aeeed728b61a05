/** SHA-256 block compression as `SHA_256::compress_digest_x86_bmi2` does it
    (sha2_32_bmi2.cpp), against the hash computation of section 6.2.2 of
    FIPS 180-4.

    The C++ code keeps the working variables in eight registers A..H and
    calls the round macro `SHA2_32_F` eight times per loop pass, with the
    argument list rotated by one register each call so that no value has to
    move. The macro's body lives in sha2_32_f.h, which is not part of this
    model; it is taken here in the in-place form of step 3 of section 6.2.2
    of FIPS 180-4 that such a macro computes:
        H += Sigma1(E) + Ch(E, F, G) + M;  D += H;  H += Sigma0(A) + Maj(A, B, C)
    with M the schedule word that already has its round constant added.
    Words are `bv32`, so `+` wraps modulo 2^32 as `uint32_t` does. */
module Sha256 {
  import opened LoadStore

  // ---------------------------------------------------------------------
  // The functions and constants of section 4 of FIPS 180-4

  /** Addition modulo 2^32 of two words, for sums that are stored as they
      are: the round-constant additions and the feed-forward. */
  function Add(a: bv32, b: bv32): bv32
  {
    a + b
  }

  /** `rho<2, 13, 22>`. */
  function BigSigma0(x: bv32): bv32
  {
    x.RotateRight(2) ^ x.RotateRight(13) ^ x.RotateRight(22)
  }

  /** `rho<6, 11, 25>`. */
  function BigSigma1(x: bv32): bv32
  {
    x.RotateRight(6) ^ x.RotateRight(11) ^ x.RotateRight(25)
  }

  /** `sigma<7, 18, 3>`. */
  function SmallSigma0(x: bv32): bv32
  {
    x.RotateRight(7) ^ x.RotateRight(18) ^ (x >> 3)
  }

  /** `sigma<17, 19, 10>`. */
  function SmallSigma1(x: bv32): bv32
  {
    x.RotateRight(17) ^ x.RotateRight(19) ^ (x >> 10)
  }

  function Ch(x: bv32, y: bv32, z: bv32): bv32
  {
    (x & y) ^ (!x & z)
  }

  function Maj(x: bv32, y: bv32, z: bv32): bv32
  {
    (x & y) ^ (x & z) ^ (y & z)
  }

  /** The round constants K_0 .. K_63 of section 4.2.2 of FIPS 180-4. */
  const RC: seq<bv32> := [
    0x428A2F98, 0x71374491, 0xB5C0FBCF, 0xE9B5DBA5, 0x3956C25B, 0x59F111F1, 0x923F82A4, 0xAB1C5ED5,
    0xD807AA98, 0x12835B01, 0x243185BE, 0x550C7DC3, 0x72BE5D74, 0x80DEB1FE, 0x9BDC06A7, 0xC19BF174,
    0xE49B69C1, 0xEFBE4786, 0x0FC19DC6, 0x240CA1CC, 0x2DE92C6F, 0x4A7484AA, 0x5CB0A9DC, 0x76F988DA,
    0x983E5152, 0xA831C66D, 0xB00327C8, 0xBF597FC7, 0xC6E00BF3, 0xD5A79147, 0x06CA6351, 0x14292967,
    0x27B70A85, 0x2E1B2138, 0x4D2C6DFC, 0x53380D13, 0x650A7354, 0x766A0ABB, 0x81C2C92E, 0x92722C85,
    0xA2BFE8A1, 0xA81A664B, 0xC24B8B70, 0xC76C51A3, 0xD192E819, 0xD6990624, 0xF40E3585, 0x106AA070,
    0x19A4C116, 0x1E376C08, 0x2748774C, 0x34B0BCB5, 0x391C0CB3, 0x4ED8AA4A, 0x5B9CCA4F, 0x682E6FF3,
    0x748F82EE, 0x78A5636F, 0x84C87814, 0x8CC70208, 0x90BEFFFA, 0xA4506CEB, 0xBEF9A3F7, 0xC67178F2]

  // ---------------------------------------------------------------------
  // The standard: section 6.2.2 of FIPS 180-4

  /** The sixteen big-endian words M_0 .. M_15 of a 64-byte block. */
  function BlockWords(block: seq<bv8>): (m: seq<bv32>)
    requires |block| == 64
    ensures |m| == 16
  {
    seq(16, i requires 0 <= i < 16 => LoadWord(block[4 * i .. 4 * i + 4]))
  }

  /** Step 1 for one word: W_t from W_{t-2}, W_{t-7}, W_{t-15}, W_{t-16}. */
  function Expand(w2: bv32, w7: bv32, w15: bv32, w16: bv32): bv32
  {
    SmallSigma1(w2) + w7 + SmallSigma0(w15) + w16
  }

  /** W_t of step 1: the block's words, then the expansion recurrence. */
  function ScheduleWord(m: seq<bv32>, t: nat): bv32
    requires |m| == 16 && t < 64
    decreases t
  {
    if t < 16 then m[t]
    else Expand(ScheduleWord(m, t - 2), ScheduleWord(m, t - 7), ScheduleWord(m, t - 15), ScheduleWord(m, t - 16))
  }

  /** One round of step 3 on the working variables a..h, held as a
      sequence of eight words. */
  function Round(s: seq<bv32>, k: bv32, w: bv32): (r: seq<bv32>)
    requires |s| == 8
    ensures |r| == 8
  {
    var t1 := s[7] + BigSigma1(s[4]) + Ch(s[4], s[5], s[6]) + k + w;
    var t2 := BigSigma0(s[0]) + Maj(s[0], s[1], s[2]);
    [t1 + t2, s[0], s[1], s[2], s[3] + t1, s[4], s[5], s[6]]
  }

  /** The full schedule W_0 .. W_63 of step 1. */
  function ExpandedSchedule(m: seq<bv32>): (ws: seq<bv32>)
    requires |m| == 16
    ensures |ws| == 64
  {
    seq(64, t requires 0 <= t < 64 => ScheduleWord(m, t))
  }

  /** x with f applied n times, the i-th application taking index i. */
  function Steps<T>(f: (T, nat) -> T, x: T, n: nat): T
  {
    if n == 0 then x else f(Steps(f, x, n - 1), n - 1)
  }

  /** Round t of step 3 with round constants ks and schedule ws. */
  function RoundFn(ks: seq<bv32>, ws: seq<bv32>): (f: (seq<bv32>, nat) -> seq<bv32>)
    requires |ks| == 64 && |ws| == 64
  {
    (s: seq<bv32>, t: nat) => if |s| == 8 && t < 64 then Round(s, ks[t], ws[t]) else s
  }

  lemma {:induction false} RoundsLength(ks: seq<bv32>, ws: seq<bv32>, h: seq<bv32>, n: nat)
    requires |ks| == 64 && |ws| == 64 && |h| == 8
    ensures |Steps(RoundFn(ks, ws), h, n)| == 8
  {
    if n > 0 {
      RoundsLength(ks, ws, h, n - 1);
    }
  }

  /** The working variables after the first n rounds of step 3, starting
      from the hash value h (step 2). */
  function Rounds(h: seq<bv32>, ks: seq<bv32>, ws: seq<bv32>, n: nat): (s: seq<bv32>)
    requires |h| == 8 && |ks| == 64 && |ws| == 64
    ensures |s| == 8
  {
    RoundsLength(ks, ws, h, n);
    Steps(RoundFn(ks, ws), h, n)
  }

  /** Steps 1 to 4: the intermediate hash value after one block. */
  function StandardCompress(h: seq<bv32>, block: seq<bv8>): (r: seq<bv32>)
    requires |h| == 8 && |block| == 64
    ensures |r| == 8
  {
    var ws := ExpandedSchedule(BlockWords(block));
    var s := Rounds(h, RC, ws, |ws|);
    seq(8, i requires 0 <= i < 8 => Add(s[i], h[i]))
  }

  /** h run through c once per 64-byte block of the input, in order. */
  function Fold<S>(c: (S, seq<bv8>) -> S, h: S, input: seq<bv8>, blocks: nat): S
    requires |input| == 64 * blocks
    decreases blocks
  {
    if blocks == 0 then h else Fold(c, c(h, input[..64]), input[64..], blocks - 1)
  }

  /** The compression of one block, on well-formed arguments. */
  function CompressFn(): (c: (seq<bv32>, seq<bv8>) -> seq<bv32>)
  {
    (h: seq<bv32>, block: seq<bv8>) => if |h| == 8 && |block| == 64 then StandardCompress(h, block) else h
  }

  lemma {:induction false} DigestLength(h: seq<bv32>, input: seq<bv8>, blocks: nat)
    requires |h| == 8 && |input| == 64 * blocks
    ensures |Fold(CompressFn(), h, input, blocks)| == 8
    decreases blocks
  {
    CompressFnKeepsEight();
    FoldKeepsEight(CompressFn(), h, input, blocks);
  }

  lemma CompressFnKeepsEight()
    ensures forall x: seq<bv32>, block: seq<bv8> :: |x| == 8 ==> |CompressFn()(x, block)| == 8
  {
  }

  /** A step that keeps eight words keeps them over the whole iteration. */
  lemma {:induction false} FoldKeepsEight<T>(c: (seq<T>, seq<bv8>) -> seq<T>, h: seq<T>, input: seq<bv8>, blocks: nat)
    requires forall x: seq<T>, block: seq<bv8> :: |x| == 8 ==> |c(x, block)| == 8
    requires |h| == 8 && |input| == 64 * blocks
    ensures |Fold(c, h, input, blocks)| == 8
    decreases blocks
  {
    if blocks > 0 {
      FoldKeepsEight(c, c(h, input[..64]), input[64..], blocks - 1);
    }
  }

  /** The hash value after the given number of blocks: steps 1 to 4 for
      each block in turn. */
  function StandardDigest(h: seq<bv32>, input: seq<bv8>, blocks: nat): (r: seq<bv32>)
    requires |h| == 8 && |input| == 64 * blocks
    ensures |r| == 8
  {
    DigestLength(h, input, blocks);
    Fold(CompressFn(), h, input, blocks)
  }

  // ---------------------------------------------------------------------
  // The message schedule as the code computes it

  /** The code adds the four terms in the opposite order. */
  lemma ExpandReordered(w2: bv32, w7: bv32, w15: bv32, w16: bv32)
    ensures w16 + SmallSigma0(w15) + w7 + SmallSigma1(w2) == Expand(w2, w7, w15, w16)
  {
  }

  /** Each schedule word with its round constant added, as the rounds
      consume them. */
  function WithConstants(ws: seq<bv32>, ks: seq<bv32>): (w: seq<bv32>)
    requires |ws| == 64 && |ks| == 64
    ensures |w| == 64
  {
    seq(64, t requires 0 <= t < 64 => Add(ws[t], ks[t]))
  }

  /** W_t + K_t for one block. */
  function Schedule(block: seq<bv8>): (w: seq<bv32>)
    requires |block| == 64
    ensures |w| == 64
  {
    WithConstants(ExpandedSchedule(BlockWords(block)), RC)
  }

  /** The first i words of the schedule are in place. */
  ghost predicate ScheduleSoFar(w: seq<bv32>, m: seq<bv32>, i: nat)
    requires |m| == 16
  {
    |w| == i && i <= 64 && forall j :: 0 <= j < i ==> w[j] == ScheduleWord(m, j)
  }

  /** One pass of the expansion loop computes the next word. */
  lemma ScheduleStep(w: seq<bv32>, m: seq<bv32>, i: nat)
    requires |m| == 16 && 16 <= i < 64 && ScheduleSoFar(w, m, i)
    ensures ScheduleSoFar(w + [w[i - 16] + SmallSigma0(w[i - 15]) + w[i - 7] + SmallSigma1(w[i - 2])], m, i + 1)
  {
    ExpandReordered(w[i - 2], w[i - 7], w[i - 15], w[i - 16]);
  }

  lemma ScheduleDone(w: seq<bv32>, m: seq<bv32>)
    requires |m| == 16 && ScheduleSoFar(w, m, 64)
    ensures w == ExpandedSchedule(m)
  {
  }

  /** The first i words have their constant added, the rest not yet. */
  ghost predicate ConstantsSoFar(w: seq<bv32>, ws: seq<bv32>, ks: seq<bv32>, i: nat)
    requires |ws| == 64 && |ks| == 64
  {
    |w| == 64 && i <= 64
    && (forall j :: 0 <= j < i ==> w[j] == Add(ws[j], ks[j]))
    && (forall j :: i <= j < 64 ==> w[j] == ws[j])
  }

  lemma ConstantsStep(w: seq<bv32>, ws: seq<bv32>, ks: seq<bv32>, i: nat)
    requires |ws| == 64 && |ks| == 64 && i < 64 && ConstantsSoFar(w, ws, ks, i)
    ensures ConstantsSoFar(w[i := Add(w[i], ks[i])], ws, ks, i + 1)
  {
  }

  lemma ConstantsDone(w: seq<bv32>, ws: seq<bv32>, ks: seq<bv32>)
    requires |ws| == 64 && |ks| == 64 && ConstantsSoFar(w, ws, ks, 64)
    ensures w == WithConstants(ws, ks)
  {
  }

  /** The single-block schedule loops: load the sixteen words, expand in
      place to 64, then add RC. */
  method MessageSchedule(block: seq<bv8>) returns (w: seq<bv32>)
    requires |block| == 64
    ensures w == Schedule(block)
  {
    var m := BlockWords(block);
    w := m;
    var i := 16;
    while i != 64
      invariant 16 <= i <= 64 && ScheduleSoFar(w, m, i)
    {
      ScheduleStep(w, m, i);
      w := w + [w[i - 16] + SmallSigma0(w[i - 15]) + w[i - 7] + SmallSigma1(w[i - 2])];
      i := i + 1;
    }
    ScheduleDone(w, m);
    ghost var ws := w;
    i := 0;
    while i != 64
      invariant 0 <= i <= 64 && ConstantsSoFar(w, ws, RC, i)
    {
      ConstantsStep(w, ws, RC, i);
      w := w[i := Add(w[i], RC[i])];
      i := i + 1;
    }
    ConstantsDone(w, ws, RC);
  }

  /** The two-block schedule loops, which expand and offset both blocks'
      schedules in the same passes. */
  method TwoSchedules(first: seq<bv8>, second: seq<bv8>) returns (w0: seq<bv32>, w1: seq<bv32>)
    requires |first| == 64 && |second| == 64
    ensures w0 == Schedule(first) && w1 == Schedule(second)
  {
    var m0 := BlockWords(first);
    var m1 := BlockWords(second);
    w0, w1 := m0, m1;
    var i := 16;
    while i != 64
      invariant 16 <= i <= 64 && ScheduleSoFar(w0, m0, i) && ScheduleSoFar(w1, m1, i)
    {
      ScheduleStep(w0, m0, i);
      ScheduleStep(w1, m1, i);
      w0 := w0 + [w0[i - 16] + SmallSigma0(w0[i - 15]) + w0[i - 7] + SmallSigma1(w0[i - 2])];
      w1 := w1 + [w1[i - 16] + SmallSigma0(w1[i - 15]) + w1[i - 7] + SmallSigma1(w1[i - 2])];
      i := i + 1;
    }
    ScheduleDone(w0, m0);
    ScheduleDone(w1, m1);
    ghost var ws0, ws1 := w0, w1;
    i := 0;
    while i != 64
      invariant 0 <= i <= 64 && ConstantsSoFar(w0, ws0, RC, i) && ConstantsSoFar(w1, ws1, RC, i)
    {
      ConstantsStep(w0, ws0, RC, i);
      ConstantsStep(w1, ws1, RC, i);
      w0 := w0[i := Add(w0[i], RC[i])];
      w1 := w1[i := Add(w1[i], RC[i])];
      i := i + 1;
    }
    ConstantsDone(w0, ws0, RC);
    ConstantsDone(w1, ws1, RC);
  }

  // ---------------------------------------------------------------------
  // The rounds as the code computes them

  /** The argument list of macro call k (0 <= k < 8) in a pass: the
      registers A..H rotated right by k, so call 1 takes H, A, .., G. */
  function Rot<T>(regs: seq<T>, k: nat): (args: seq<T>)
    requires |regs| == 8 && k <= 8
    ensures |args| == 8
  {
    seq(8, p requires 0 <= p < 8 => regs[(p + 8 - k) % 8])
  }

  /** Where macro call k writes its arguments back: the inverse rotation. */
  function Unrot<T>(args: seq<T>, k: nat): (regs: seq<T>)
    requires |args| == 8 && k <= 8
    ensures |regs| == 8
  {
    seq(8, q requires 0 <= q < 8 => args[(q + k) % 8])
  }

  /** Writing back after call k and reading for call k + 1 shifts the
      argument list by one: the standard's renaming h := g, .., b := a. */
  lemma RotUnrot<T>(args: seq<T>, k: nat)
    requires |args| == 8 && k < 8
    ensures Rot(Unrot(args, k), k + 1) == [args[7]] + args[..7]
  {
  }

  lemma RotZero<T>(regs: seq<T>)
    requires |regs| == 8
    ensures Rot(regs, 0) == regs && Rot(regs, 8) == regs
  {
  }

  /** `SHA2_32_F(A, B, C, D, E, F, G, H, M)` on its eight arguments: only
      D and H change. */
  function MacroArgs(args: seq<bv32>, m: bv32): (r: seq<bv32>)
    requires |args| == 8
    ensures |r| == 8
  {
    var h1 := args[7] + BigSigma1(args[4]) + Ch(args[4], args[5], args[6]) + m;
    var d1 := args[3] + h1;
    var h2 := h1 + BigSigma0(args[0]) + Maj(args[0], args[1], args[2]);
    args[3 := d1][7 := h2]
  }

  /** With M = W_t + K_t, the macro followed by the renaming is one round. */
  lemma MacroArgsRound(args: seq<bv32>, k: bv32, w: bv32)
    requires |args| == 8
    ensures [MacroArgs(args, w + k)[7]] + MacroArgs(args, w + k)[..7] == Round(args, k, w)
  {
  }

  /** Macro call k of a pass on the registers A..H. It writes only the two
      registers passed in the D and H argument positions. */
  function Macro(regs: seq<bv32>, k: nat, m: bv32): (r: seq<bv32>)
    requires |regs| == 8 && k < 8
    ensures |r| == 8
    ensures forall q :: 0 <= q < 8 && (q + k) % 8 != 3 && (q + k) % 8 != 7 ==> r[q] == regs[q]
  {
    UnrotKeeps(regs, MacroArgs(Rot(regs, k), m), k);
    Unrot(MacroArgs(Rot(regs, k), m), k)
  }

  /** Rotating by k and back again lands on the starting register. */
  lemma RotIndexBack(q: nat, k: nat)
    requires q < 8 && k < 8
    ensures ((q + k) % 8 + 8 - k) % 8 == q
  {
    if q + k >= 8 {
      assert (q + k) % 8 == q + k - 8;
    }
  }

  /** Argument positions a call leaves alone are written back unchanged. */
  lemma UnrotKeeps(regs: seq<bv32>, args: seq<bv32>, k: nat)
    requires |regs| == 8 && |args| == 8 && k < 8
    requires forall p :: 0 <= p < 8 && p != 3 && p != 7 ==> args[p] == Rot(regs, k)[p]
    ensures forall q :: 0 <= q < 8 && (q + k) % 8 != 3 && (q + k) % 8 != 7 ==> Unrot(args, k)[q] == regs[q]
  {
    forall q | 0 <= q < 8 && (q + k) % 8 != 3 && (q + k) % 8 != 7
      ensures Unrot(args, k)[q] == regs[q]
    {
      RotIndexBack(q, k);
    }
  }

  /** Seen through the next call's argument list, call k is one round of
      the standard on its own argument list. */
  lemma MacroIsRound(regs: seq<bv32>, k: nat, mt: bv32, kt: bv32, wt: bv32)
    requires |regs| == 8 && k < 8 && mt == Add(wt, kt)
    ensures Rot(Macro(regs, k, mt), k + 1) == Round(Rot(regs, k), kt, wt)
  {
    RotUnrot(MacroArgs(Rot(regs, k), mt), k);
    MacroArgsRound(Rot(regs, k), kt, wt);
  }

  /** Macro call k of a pass, consuming schedule entry t. */
  function MacroFn(w: seq<bv32>): (g: (seq<bv32>, nat, nat) -> seq<bv32>)
    requires |w| == 64
  {
    (regs: seq<bv32>, k: nat, t: nat) => if |regs| == 8 && k < 8 && t < 64 then Macro(regs, k, w[t]) else regs
  }

  /** g maps eight registers to eight registers. */
  ghost predicate KeepsEight<T(!new)>(g: (seq<T>, nat, nat) -> seq<T>)
  {
    forall x: seq<T>, k: nat, t: nat :: |x| == 8 ==> |g(x, k, t)| == 8
  }

  /** Calls k .. 7 of the pass that consumes schedule entries r .. r + 7. */
  function Calls<T(!new)>(g: (seq<T>, nat, nat) -> seq<T>, regs: seq<T>, r: nat, k: nat): (out: seq<T>)
    requires KeepsEight(g) && |regs| == 8 && k <= 8
    ensures |out| == 8
    decreases 8 - k
  {
    if k == 8 then regs else Calls(g, g(regs, k, r + k), r, k + 1)
  }

  /** The passes of the round loop from schedule entry r on, eight calls
      each. */
  function Passes<T(!new)>(g: (seq<T>, nat, nat) -> seq<T>, regs: seq<T>, r: nat): (out: seq<T>)
    requires KeepsEight(g) && |regs| == 8 && r <= 64 && r % 8 == 0
    ensures |out| == 8
    decreases 64 - r
  {
    if r == 64 then regs else Passes(g, Calls(g, regs, r, 0), r + 8)
  }

  /** Lines 68-75 / 108-115: add the registers into the digest; the
      registers are reloaded from the result. */
  function FeedForward(digest: seq<bv32>, regs: seq<bv32>): (r: seq<bv32>)
    requires |digest| == 8 && |regs| == 8
    ensures |r| == 8
  {
    seq(8, i requires 0 <= i < 8 => Add(digest[i], regs[i]))
  }

  /** One block: the 64 rounds from the digest, then the feed-forward. */
  function CompressBlock(digest: seq<bv32>, w: seq<bv32>): (r: seq<bv32>)
    requires |digest| == 8 && |w| == 64
    ensures |r| == 8
  {
    MacroFnKeepsEight(w);
    FeedForward(digest, Passes(MacroFn(w), digest, 0))
  }

  // ---------------------------------------------------------------------
  // The code's rounds are the standard's

  lemma MacroFnKeepsEight(w: seq<bv32>)
    requires |w| == 64
    ensures KeepsEight(MacroFn(w))
  {
  }

  /** Each call of g, seen through the next call's argument list, is the
      step f on its own argument list. */
  ghost predicate Simulates<T(!new)>(g: (seq<T>, nat, nat) -> seq<T>, f: (seq<T>, nat) -> seq<T>)
  {
    forall x: seq<T>, k: nat, t: nat :: |x| == 8 && k < 8 && t < 64 ==> |g(x, k, t)| == 8 && Rot(g(x, k, t), k + 1) == f(Rot(x, k), t)
  }

  /** The code's macro calls simulate the standard's rounds. */
  lemma MacroSimulatesRound(w: seq<bv32>, ks: seq<bv32>, ws: seq<bv32>)
    requires |ks| == 64 && |ws| == 64 && w == WithConstants(ws, ks)
    ensures Simulates(MacroFn(w), RoundFn(ks, ws))
  {
    forall x: seq<bv32>, k: nat, t: nat | |x| == 8 && k < 8 && t < 64
      ensures |MacroFn(w)(x, k, t)| == 8 && Rot(MacroFn(w)(x, k, t), k + 1) == RoundFn(ks, ws)(Rot(x, k), t)
    {
      MacroIsRound(x, k, w[t], ks[t], ws[t]);
    }
  }

  /** A pass's remaining calls run the remaining steps up to r + 8. */
  lemma {:induction false} CallsAreSteps<T(!new)>(g: (seq<T>, nat, nat) -> seq<T>, f: (seq<T>, nat) -> seq<T>, regs: seq<T>, r: nat, k: nat, h: seq<T>)
    requires KeepsEight(g) && Simulates(g, f) && |regs| == 8 && r + 8 <= 64 && k <= 8
    requires Rot(regs, k) == Steps(f, h, r + k)
    ensures Calls(g, regs, r, k) == Steps(f, h, r + 8)
    decreases 8 - k
  {
    if k == 8 {
      RotZero(regs);
    } else {
      CallsAreSteps(g, f, g(regs, k, r + k), r, k + 1, h);
    }
  }

  /** The remaining passes of the round loop run the remaining steps. */
  lemma {:induction false} PassesAreSteps<T(!new)>(g: (seq<T>, nat, nat) -> seq<T>, f: (seq<T>, nat) -> seq<T>, regs: seq<T>, r: nat, h: seq<T>)
    requires KeepsEight(g) && Simulates(g, f) && |regs| == 8 && r <= 64 && r % 8 == 0
    requires regs == Steps(f, h, r)
    ensures Passes(g, regs, r) == Steps(f, h, 64)
    decreases 64 - r
  {
    if r < 64 {
      PassIsEightSteps(g, f, regs, r, h);
      PassesAreSteps(g, f, Calls(g, regs, r, 0), r + 8, h);
    }
  }

  /** One whole pass runs the eight steps from r. */
  lemma PassIsEightSteps<T(!new)>(g: (seq<T>, nat, nat) -> seq<T>, f: (seq<T>, nat) -> seq<T>, regs: seq<T>, r: nat, h: seq<T>)
    requires KeepsEight(g) && Simulates(g, f) && |regs| == 8 && r + 8 <= 64
    requires regs == Steps(f, h, r)
    ensures Calls(g, regs, r, 0) == Steps(f, h, r + 8)
  {
    RotZero(regs);
    CallsAreSteps(g, f, regs, r, 0, h);
  }

  /** One block through the code's loops is the standard's compression. */
  lemma CompressIsStandard(digest: seq<bv32>, block: seq<bv8>)
    requires |digest| == 8 && |block| == 64
    ensures CompressBlock(digest, Schedule(block)) == StandardCompress(digest, block)
  {
    var ws := ExpandedSchedule(BlockWords(block));
    MacroFnKeepsEight(Schedule(block));
    MacroSimulatesRound(Schedule(block), RC, ws);
    PassesAreSteps(MacroFn(Schedule(block)), RoundFn(RC, ws), digest, 0, digest);
    FeedForwardIsStandard(digest, Passes(MacroFn(Schedule(block)), digest, 0), Rounds(digest, RC, ws, |ws|));
  }

  /** The feed-forward adds the registers into the digest in either order. */
  lemma FeedForwardIsStandard(digest: seq<bv32>, regs: seq<bv32>, s: seq<bv32>)
    requires |digest| == 8 && regs == s && |s| == 8
    ensures FeedForward(digest, regs) == seq(8, i requires 0 <= i < 8 => Add(s[i], digest[i]))
  {
    forall i | 0 <= i < 8
      ensures Add(digest[i], regs[i]) == Add(s[i], digest[i])
    {
      AddComm(digest[i], regs[i]);
    }
  }

  lemma AddComm(a: bv32, b: bv32)
    ensures Add(a, b) == Add(b, a)
  {
  }

  // ---------------------------------------------------------------------
  // The block loop

  /** Two blocks of the iteration, then the rest. */
  lemma TwoFolds<S>(c: (S, seq<bv8>) -> S, h: S, input: seq<bv8>, blocks: nat)
    requires |input| == 64 * blocks && blocks >= 2
    ensures Fold(c, h, input, blocks) == Fold(c, c(c(h, input[..64]), input[64..128]), input[128..], blocks - 2)
  {
    assert input[64..][..64] == input[64..128];
    assert input[64..][64..] == input[128..];
  }

  lemma OneFold<S>(c: (S, seq<bv8>) -> S, h: S, input: seq<bv8>)
    requires |input| == 64
    ensures Fold(c, h, input, 1) == c(h, input)
  {
    assert input[..64] == input;
  }

  /** One pass of the two-block loop (lines 42-79): both schedules, then
      for each block the rounds and the feed-forward. It is two one-block
      compressions. */
  method TwoBlocks(digest: seq<bv32>, first: seq<bv8>, second: seq<bv8>) returns (d: seq<bv32>)
    requires |digest| == 8 && |first| == 64 && |second| == 64
    ensures d == StandardCompress(StandardCompress(digest, first), second)
  {
    var w0, w1 := TwoSchedules(first, second);
    var d1 := CompressBlock(digest, w0);
    CompressIsStandard(digest, first);
    d := CompressBlock(d1, w1);
    CompressIsStandard(d1, second);
  }

  /** The single-block path (lines 81-116). */
  method OneBlock(digest: seq<bv32>, block: seq<bv8>) returns (d: seq<bv32>)
    requires |digest| == 8 && |block| == 64
    ensures d == StandardCompress(digest, block)
  {
    var w := MessageSchedule(block);
    d := CompressBlock(digest, w);
    CompressIsStandard(digest, block);
  }

  /** The block loop of `compress_digest_x86_bmi2` over any one-block and
      two-block steps: two blocks per pass while at least two remain, then
      a last single block if the count was odd. */
  function PairFold<S>(one: (S, seq<bv8>) -> S, two: (S, seq<bv8>) -> S, h: S, input: seq<bv8>, blocks: nat): S
    requires |input| == 64 * blocks
    decreases blocks
  {
    if blocks >= 2 then PairFold(one, two, two(h, input[..128]), input[128..], blocks - 2)
    else if blocks == 1 then one(h, input)
    else h
  }

  /** two does what one does twice. */
  ghost predicate IsTwoOnes<S(!new)>(one: (S, seq<bv8>) -> S, two: (S, seq<bv8>) -> S)
  {
    forall h: S, x: seq<bv8> :: |x| == 128 ==> two(h, x) == one(one(h, x[..64]), x[64..])
  }

  /** Taking blocks in pairs visits every block once, in order. */
  lemma {:induction false} PairFoldIsFold<S(!new)>(one: (S, seq<bv8>) -> S, two: (S, seq<bv8>) -> S, h: S, input: seq<bv8>, blocks: nat)
    requires IsTwoOnes(one, two) && |input| == 64 * blocks
    ensures PairFold(one, two, h, input, blocks) == Fold(one, h, input, blocks)
    decreases blocks
  {
    if blocks >= 2 {
      TwoFolds(one, h, input, blocks);
      assert input[..128][..64] == input[..64];
      assert input[..128][64..] == input[64..128];
      PairFoldIsFold(one, two, two(h, input[..128]), input[128..], blocks - 2);
    } else if blocks == 1 {
      OneFold(one, h, input);
    }
  }

  /** Two steps that agree on every state and block fold alike. */
  lemma {:induction false} FoldAgree<S(!new)>(c1: (S, seq<bv8>) -> S, c2: (S, seq<bv8>) -> S, h: S, input: seq<bv8>, blocks: nat)
    requires forall x: S, b: seq<bv8> :: |b| == 64 ==> c1(x, b) == c2(x, b)
    requires |input| == 64 * blocks
    ensures Fold(c1, h, input, blocks) == Fold(c2, h, input, blocks)
    decreases blocks
  {
    if blocks > 0 {
      FoldAgree(c1, c2, c1(h, input[..64]), input[64..], blocks - 1);
    }
  }

  /** The code's single-block path: schedule, rounds, feed-forward. */
  function CodeOne(): (seq<bv32>, seq<bv8>) -> seq<bv32>
  {
    (d: seq<bv32>, block: seq<bv8>) => if |d| == 8 && |block| == 64 then CompressBlock(d, Schedule(block)) else d
  }

  /** The code's two-block pass: both schedules, then for each block in
      turn the rounds and the feed-forward, the registers being reloaded
      from the digest in between. */
  function CodeTwo(): (seq<bv32>, seq<bv8>) -> seq<bv32>
  {
    (d: seq<bv32>, two: seq<bv8>) =>
      if |d| == 8 && |two| == 128 then CompressBlock(CompressBlock(d, Schedule(two[..64])), Schedule(two[64..])) else d
  }

  lemma CodeTwoIsTwoOnes()
    ensures IsTwoOnes(CodeOne(), CodeTwo())
  {
  }

  lemma CodeOneIsStandard()
    ensures forall d: seq<bv32>, b: seq<bv8> :: |b| == 64 ==> CodeOne()(d, b) == CompressFn()(d, b)
  {
    forall d: seq<bv32>, b: seq<bv8> | |b| == 64
      ensures CodeOne()(d, b) == CompressFn()(d, b)
    {
      if |d| == 8 {
        CompressIsStandard(d, b);
      }
    }
  }

  /** `compress_digest_x86_bmi2`: the standard's iteration of the
      compression over all the blocks, each once and in order. */
  function CompressDigest(digest: seq<bv32>, input: seq<bv8>, blocks: nat): (r: seq<bv32>)
    requires |digest| == 8 && |input| == 64 * blocks
    ensures r == StandardDigest(digest, input, blocks)
  {
    CodeTwoIsTwoOnes();
    PairFoldIsFold(CodeOne(), CodeTwo(), digest, input, blocks);
    CodeOneIsStandard();
    FoldAgree(CodeOne(), CompressFn(), digest, input, blocks);
    PairFold(CodeOne(), CodeTwo(), digest, input, blocks)
  }
}
