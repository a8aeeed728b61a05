/** The round functions of sm4.cpp: T_slow (S-box then L), the table-driven
    T, and the key-schedule variant T'; and the proof that T and T_slow are
    the same function, which is what lets the rounds mix them. */
module Sm4Round {
  import opened Sm4Tables
  import opened LoadStore

  /** `SM4_T_slow`: the S-box on each byte, then L. */
  function TSlow(b: bv32): bv32
  {
    L(MakeUint32(Sbox(GetByte(b, 0)), Sbox(GetByte(b, 1)), Sbox(GetByte(b, 2)), Sbox(GetByte(b, 3))))
  }

  /** `SM4_T`: one table lookup per byte, rotated into place. It computes
      the same function as the slow T, for every 32-bit input; this is what
      lets the rounds mix the two. */
  function T(b: bv32): (r: bv32)
    ensures r == TSlow(b)
  {
    TableTBytes(GetByte(b, 0), GetByte(b, 1), GetByte(b, 2), GetByte(b, 3));
    Xor(Xor(Xor(SboxT(GetByte(b, 0)), Rotr8(SboxT(GetByte(b, 1)))), Rotr16(SboxT(GetByte(b, 2)))),
      Rotr24(SboxT(GetByte(b, 3))))
  }

  /** `SM4_Tp`: the key-schedule variant, with L'. */
  function TPrime(b: bv32): bv32
  {
    var t := MakeUint32(Sbox(GetByte(b, 0)), Sbox(GetByte(b, 1)), Sbox(GetByte(b, 2)), Sbox(GetByte(b, 3)));
    t ^ t.RotateLeft(13) ^ t.RotateLeft(23)
  }

  lemma RotlXor(a: bv32, b: bv32)
    ensures Rotl2(Xor(a, b)) == Xor(Rotl2(a), Rotl2(b))
    ensures Rotl10(Xor(a, b)) == Xor(Rotl10(a), Rotl10(b))
  {
  }

  lemma RotlXorHigh(a: bv32, b: bv32)
    ensures Rotl18(Xor(a, b)) == Xor(Rotl18(a), Rotl18(b))
    ensures Rotl24(Xor(a, b)) == Xor(Rotl24(a), Rotl24(b))
  {
  }

  lemma XorAssoc(a: bv32, b: bv32, c: bv32)
    ensures Xor(Xor(a, b), c) == Xor(a, Xor(b, c))
  {
  }

  lemma XorComm(a: bv32, b: bv32)
    ensures Xor(a, b) == Xor(b, a)
  {
  }

  /** (a ^ b) ^ (c ^ d) == (a ^ c) ^ (b ^ d). */
  lemma {:induction false} XorSwap(a: bv32, b: bv32, c: bv32, d: bv32)
    ensures Xor(Xor(a, b), Xor(c, d)) == Xor(Xor(a, c), Xor(b, d))
  {
    XorAssoc(a, b, Xor(c, d));
    XorAssoc(b, c, d);
    XorComm(b, c);
    XorAssoc(c, b, d);
    XorAssoc(a, c, Xor(b, d));
  }

  /** L is linear over XOR. */
  lemma {:induction false} LinearL(x: bv32, y: bv32)
    ensures L(Xor(x, y)) == Xor(L(x), L(y))
  {
    RotlXor(x, y);
    RotlXorHigh(x, y);
    var p1x, p1y := Xor(x, Rotl2(x)), Xor(y, Rotl2(y));
    XorSwap(x, y, Rotl2(x), Rotl2(y));
    var p2x, p2y := Xor(p1x, Rotl10(x)), Xor(p1y, Rotl10(y));
    XorSwap(p1x, p1y, Rotl10(x), Rotl10(y));
    var p3x, p3y := Xor(p2x, Rotl18(x)), Xor(p2y, Rotl18(y));
    XorSwap(p2x, p2y, Rotl18(x), Rotl18(y));
    XorSwap(p3x, p3y, Rotl24(x), Rotl24(y));
  }

  lemma RotrXor(a: bv32, b: bv32)
    ensures Rotr8(Xor(a, b)) == Xor(Rotr8(a), Rotr8(b))
  {
  }

  lemma RotrRotl(t: bv32)
    ensures Rotl2(Rotr8(t)) == Rotr8(Rotl2(t))
    ensures Rotl10(Rotr8(t)) == Rotr8(Rotl10(t))
    ensures Rotl18(Rotr8(t)) == Rotr8(Rotl18(t))
    ensures Rotl24(Rotr8(t)) == Rotr8(Rotl24(t))
  {
  }

  /** L commutes with rotation by a byte. */
  lemma {:induction false} LRotr8(t: bv32)
    ensures L(Rotr8(t)) == Rotr8(L(t))
  {
    RotrRotl(t);
    var w1 := Xor(t, Rotl2(t));
    var w2 := Xor(w1, Rotl10(t));
    var w3 := Xor(w2, Rotl18(t));
    RotrXor(t, Rotl2(t));
    RotrXor(w1, Rotl10(t));
    RotrXor(w2, Rotl18(t));
    RotrXor(w3, Rotl24(t));
  }

  lemma RotrCompose(t: bv32)
    ensures Rotr16(t) == Rotr8(Rotr8(t))
    ensures Rotr24(t) == Rotr8(Rotr8(Rotr8(t)))
  {
  }

  lemma PackXor2(a: bv8, b: bv8)
    ensures Xor((a as bv32) << 24, Rotr8((b as bv32) << 24)) == ((a as bv32) << 24) | ((b as bv32) << 16)
  {
  }

  lemma {:induction false} PackXor3(a: bv8, b: bv8, c: bv8)
    ensures Xor(Xor((a as bv32) << 24, Rotr8((b as bv32) << 24)), Rotr16((c as bv32) << 24))
         == ((a as bv32) << 24) | ((b as bv32) << 16) | ((c as bv32) << 8)
  {
    PackXor2(a, b);
  }

  /** A packed word is the XOR of its bytes, each rotated down from the top. */
  lemma {:induction false} PackXor(a: bv8, b: bv8, c: bv8, d: bv8)
    ensures MakeUint32(a, b, c, d)
         == Xor(Xor(Xor((a as bv32) << 24, Rotr8((b as bv32) << 24)), Rotr16((c as bv32) << 24)),
              Rotr24((d as bv32) << 24))
  {
    PackXor3(a, b, c);
  }

  /** L of a packed word is the rotated XOR of L on each byte placed in the
      top position: the identity the table-driven T rests on. */
  lemma {:induction false} LOfPacked(s0: bv8, s1: bv8, s2: bv8, s3: bv8)
    ensures L(MakeUint32(s0, s1, s2, s3))
         == Xor(Xor(Xor(L((s0 as bv32) << 24), Rotr8(L((s1 as bv32) << 24))), Rotr16(L((s2 as bv32) << 24))),
              Rotr24(L((s3 as bv32) << 24)))
  {
    var a0, a1, a2, a3 := (s0 as bv32) << 24, (s1 as bv32) << 24, (s2 as bv32) << 24, (s3 as bv32) << 24;
    var r1, r2, r3 := Rotr8(a1), Rotr16(a2), Rotr24(a3);
    PackXor(s0, s1, s2, s3);
    LinearL(Xor(Xor(a0, r1), r2), r3);
    LinearL(Xor(a0, r1), r2);
    LinearL(a0, r1);
    RotrCompose(a2);
    RotrCompose(a3);
    RotrCompose(L(a2));
    RotrCompose(L(a3));
    LRotr8(a1);
    LRotr8(a2);
    LRotr8(Rotr8(a2));
    LRotr8(a3);
    LRotr8(Rotr8(a3));
    LRotr8(Rotr8(Rotr8(a3)));
  }

  lemma {:induction false} TableTBytes(g0: bv8, g1: bv8, g2: bv8, g3: bv8)
    ensures Xor(Xor(Xor(SboxT(g0), Rotr8(SboxT(g1))), Rotr16(SboxT(g2))), Rotr24(SboxT(g3)))
         == L(MakeUint32(Sbox(g0), Sbox(g1), Sbox(g2), Sbox(g3)))
  {
    SboxTIsL(g0);
    SboxTIsL(g1);
    SboxTIsL(g2);
    SboxTIsL(g3);
    LOfPacked(Sbox(g0), Sbox(g1), Sbox(g2), Sbox(g3));
  }
}
