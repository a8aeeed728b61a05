/** The scalar SM4 block cipher of sm4.cpp (GB/T 32907-2016).

    A block is 16 bytes, loaded as four big-endian 32-bit words B0..B3. Each
    of the 8 unrolled round groups `SM4_E<R>` performs four Feistel-like
    steps with round keys RK[4R..4R+3]. The groups are stated for any round
    function f, as the C++ template parameter F is; the cipher itself uses
    T_slow in groups 0 and 7 and the table-driven T in between. The model
    proves that this computes the standard's 32 rounds, that decryption
    inverts encryption, and that the two-block path agrees with the
    one-block path. XOR is written with the `Xor` function throughout. */
module Sm4 {
  import opened Wrappers
  import opened Sm4Tables
  import opened Sm4Round
  import opened LoadStore

  /** The four words of one block, in load order. */
  datatype Block = Block(b0: bv32, b1: bv32, b2: bv32, b3: bv32)

  /** The XOR of three words, the left operand of every round. */
  function Xor3(a: bv32, b: bv32, c: bv32): bv32
  {
    a ^ b ^ c
  }

  lemma Xor3Swap(a: bv32, b: bv32, c: bv32)
    ensures Xor3(a, b, c) == Xor3(c, b, a)
  {
  }

  lemma XorCancel(x: bv32, y: bv32)
    ensures Xor(Xor(x, y), y) == x
  {
  }

  /** The round function round group r uses: groups 0 and 7 use the slow T,
      the middle groups the table. */
  function RoundT(r: nat, x: bv32): bv32
  {
    if r == 0 || r == 7 then TSlow(x) else T(x)
  }

  /** The standard's round function, the same in every group. */
  function StandardT(r: nat, x: bv32): bv32
  {
    TSlow(x)
  }

  /** Every round group computes the standard's round function. */
  lemma RoundTIsStandard(r: nat, x: bv32)
    ensures RoundT(r, x) == StandardT(r, x)
  {
  }

  // ---------------------------------------------------------------------
  // Round groups

  /** `SM4_E<r>` on one block, with the group's round function f(r, .)
      (the template parameter F of the C++ code). Each step updates one
      word in place, so later steps see the words already updated. */
  function EncryptGroup(s: Block, rk: seq<bv32>, r: nat, f: (nat, bv32) -> bv32): Block
    requires |rk| == 32 && r < 8
  {
    var b0 := Xor(s.b0, f(r, Xor(Xor3(s.b1, s.b2, s.b3), rk[4 * r])));
    var b1 := Xor(s.b1, f(r, Xor(Xor3(s.b2, s.b3, b0), rk[4 * r + 1])));
    var b2 := Xor(s.b2, f(r, Xor(Xor3(s.b3, b0, b1), rk[4 * r + 2])));
    var b3 := Xor(s.b3, f(r, Xor(Xor3(b0, b1, b2), rk[4 * r + 3])));
    Block(b0, b1, b2, b3)
  }

  /** `SM4_D<r>` on one block: the same steps with the keys taken backwards. */
  function DecryptGroup(s: Block, rk: seq<bv32>, r: nat, f: (nat, bv32) -> bv32): Block
    requires |rk| == 32 && r < 8
  {
    var b0 := Xor(s.b0, f(r, Xor(Xor3(s.b1, s.b2, s.b3), rk[4 * r + 3])));
    var b1 := Xor(s.b1, f(r, Xor(Xor3(s.b2, s.b3, b0), rk[4 * r + 2])));
    var b2 := Xor(s.b2, f(r, Xor(Xor3(s.b3, b0, b1), rk[4 * r + 1])));
    var b3 := Xor(s.b3, f(r, Xor(Xor3(b0, b1, b2), rk[4 * r])));
    Block(b0, b1, b2, b3)
  }

  /** The word order of the output: B3, B2, B1, B0. */
  function Reverse(s: Block): (r: Block)
    ensures r.b0 == s.b3 && r.b1 == s.b2 && r.b2 == s.b1 && r.b3 == s.b0
  {
    Block(s.b3, s.b2, s.b1, s.b0)
  }

  /** One decryption group undoes the encryption group of the same index,
      on the word-reversed state, whatever the round function. */
  lemma {:induction false} DecryptGroupInverts(s: Block, rk: seq<bv32>, r: nat, f: (nat, bv32) -> bv32)
    requires |rk| == 32 && r < 8
    ensures DecryptGroup(Reverse(EncryptGroup(s, rk, r, f)), rk, r, f) == Reverse(s)
  {
    var e := EncryptGroup(s, rk, r, f);
    Xor3Swap(e.b0, e.b1, e.b2);
    XorCancel(s.b3, f(r, Xor(Xor3(e.b0, e.b1, e.b2), rk[4 * r + 3])));
    Xor3Swap(s.b3, e.b0, e.b1);
    XorCancel(s.b2, f(r, Xor(Xor3(s.b3, e.b0, e.b1), rk[4 * r + 2])));
    Xor3Swap(s.b2, s.b3, e.b0);
    XorCancel(s.b1, f(r, Xor(Xor3(s.b2, s.b3, e.b0), rk[4 * r + 1])));
    Xor3Swap(s.b1, s.b2, s.b3);
    XorCancel(s.b0, f(r, Xor(Xor3(s.b1, s.b2, s.b3), rk[4 * r])));
  }

  /** And the encryption group undoes the decryption group. */
  lemma {:induction false} EncryptGroupInverts(s: Block, rk: seq<bv32>, r: nat, f: (nat, bv32) -> bv32)
    requires |rk| == 32 && r < 8
    ensures EncryptGroup(Reverse(DecryptGroup(s, rk, r, f)), rk, r, f) == Reverse(s)
  {
    var d := DecryptGroup(s, rk, r, f);
    Xor3Swap(d.b0, d.b1, d.b2);
    XorCancel(s.b3, f(r, Xor(Xor3(d.b0, d.b1, d.b2), rk[4 * r])));
    Xor3Swap(s.b3, d.b0, d.b1);
    XorCancel(s.b2, f(r, Xor(Xor3(s.b3, d.b0, d.b1), rk[4 * r + 1])));
    Xor3Swap(s.b2, s.b3, d.b0);
    XorCancel(s.b1, f(r, Xor(Xor3(s.b2, s.b3, d.b0), rk[4 * r + 2])));
    Xor3Swap(s.b1, s.b2, s.b3);
    XorCancel(s.b0, f(r, Xor(Xor3(s.b1, s.b2, s.b3), rk[4 * r + 3])));
  }

  /** Round groups 0 .. n-1 of encryption. */
  function EncryptGroups(s: Block, rk: seq<bv32>, n: nat, f: (nat, bv32) -> bv32): Block
    requires |rk| == 32 && n <= 8
    decreases n
  {
    if n == 0 then s else EncryptGroup(EncryptGroups(s, rk, n - 1, f), rk, n - 1, f)
  }

  /** Round groups n-1 down to 0 of decryption. */
  function DecryptGroups(s: Block, rk: seq<bv32>, n: nat, f: (nat, bv32) -> bv32): Block
    requires |rk| == 32 && n <= 8
    decreases n
  {
    if n == 0 then s else DecryptGroups(DecryptGroup(s, rk, n - 1, f), rk, n - 1, f)
  }

  lemma {:induction false} DecryptGroupsInvert(s: Block, rk: seq<bv32>, n: nat, f: (nat, bv32) -> bv32)
    requires |rk| == 32 && n <= 8
    ensures DecryptGroups(Reverse(EncryptGroups(s, rk, n, f)), rk, n, f) == Reverse(s)
    decreases n
  {
    if n > 0 {
      DecryptGroupInverts(EncryptGroups(s, rk, n - 1, f), rk, n - 1, f);
      DecryptGroupsInvert(s, rk, n - 1, f);
    }
  }

  /** Decrypting n groups and then encrypting n groups restores the state. */
  lemma {:induction false} EncryptGroupsInvert(s: Block, rk: seq<bv32>, n: nat, f: (nat, bv32) -> bv32)
    requires |rk| == 32 && n <= 8
    ensures EncryptGroups(Reverse(DecryptGroups(s, rk, n, f)), rk, n, f) == Reverse(s)
    decreases n
  {
    if n > 0 {
      var d := DecryptGroup(s, rk, n - 1, f);
      EncryptGroupsInvert(d, rk, n - 1, f);
      EncryptGroupInverts(s, rk, n - 1, f);
    }
  }

  /** Groups run with round functions that agree give the same state. */
  lemma {:induction false} EncryptGroupsAgree(s: Block, rk: seq<bv32>, n: nat, f: (nat, bv32) -> bv32, g: (nat, bv32) -> bv32)
    requires |rk| == 32 && n <= 8
    requires forall r: nat, x: bv32 :: r < n ==> f(r, x) == g(r, x)
    ensures EncryptGroups(s, rk, n, f) == EncryptGroups(s, rk, n, g)
    decreases n
  {
    if n > 0 {
      EncryptGroupsAgree(s, rk, n - 1, f, g);
    }
  }

  /** The decryption groups likewise. */
  lemma {:induction false} DecryptGroupsAgree(s: Block, rk: seq<bv32>, n: nat, f: (nat, bv32) -> bv32, g: (nat, bv32) -> bv32)
    requires |rk| == 32 && n <= 8
    requires forall r: nat, x: bv32 :: r < n ==> f(r, x) == g(r, x)
    ensures DecryptGroups(s, rk, n, f) == DecryptGroups(s, rk, n, g)
    decreases n
  {
    if n > 0 {
      DecryptGroupsAgree(DecryptGroup(s, rk, n - 1, f), rk, n - 1, f, g);
    }
  }

  // ---------------------------------------------------------------------
  // The standard's round recurrence

  /** X_i of the recurrence
      X_{i+4} = X_i ^ f(i / 4, X_{i+1} ^ X_{i+2} ^ X_{i+3} ^ keys_i)
      from X_0 .. X_3 = x (section 7.1 of GB/T 32907-2016 for the cipher,
      section 7.3 for the key schedule); i / 4 is the round group. */
  function RoundWord(x: Block, keys: seq<bv32>, i: nat, f: (nat, bv32) -> bv32): bv32
    requires i <= |keys| + 3
    decreases i
  {
    if i < 4 then (if i == 0 then x.b0 else if i == 1 then x.b1 else if i == 2 then x.b2 else x.b3)
    else
      var j := i - 4;
      Xor(RoundWord(x, keys, j, f),
        f(j / 4, Xor(Xor3(RoundWord(x, keys, j + 1, f), RoundWord(x, keys, j + 2, f), RoundWord(x, keys, j + 3, f)), keys[j])))
  }

  /** X_j .. X_{j+3} as a state. */
  function RoundState(x: Block, keys: seq<bv32>, j: nat, f: (nat, bv32) -> bv32): (s: Block)
    requires j <= |keys|
    ensures j == 0 ==> s == x
  {
    Block(RoundWord(x, keys, j, f), RoundWord(x, keys, j + 1, f), RoundWord(x, keys, j + 2, f), RoundWord(x, keys, j + 3, f))
  }

  /** One round group is four steps of the recurrence. */
  lemma {:induction false} GroupRounds(x: Block, rk: seq<bv32>, r: nat, f: (nat, bv32) -> bv32)
    requires |rk| == 32 && r < 8
    ensures EncryptGroup(RoundState(x, rk, 4 * r, f), rk, r, f) == RoundState(x, rk, 4 * r + 4, f)
  {
    var i := 4 * r;
    assert (i + 1) / 4 == r && (i + 2) / 4 == r && (i + 3) / 4 == r && i / 4 == r;
  }

  /** After n groups the state holds X_{4n} .. X_{4n+3}. */
  predicate GroupsFollowRounds(x: Block, rk: seq<bv32>, n: nat, f: (nat, bv32) -> bv32)
    requires |rk| == 32 && n <= 8
  {
    EncryptGroups(x, rk, n, f) == RoundState(x, rk, 4 * n, f)
  }

  /** One more group extends the recurrence by four steps. */
  lemma {:induction false} RoundsStep(x: Block, rk: seq<bv32>, m: nat, f: (nat, bv32) -> bv32)
    requires |rk| == 32 && m < 8
    requires GroupsFollowRounds(x, rk, m, f)
    ensures GroupsFollowRounds(x, rk, m + 1, f)
  {
    GroupRounds(x, rk, m, f);
  }

  lemma {:induction false} AllRounds(x: Block, rk: seq<bv32>, n: nat, f: (nat, bv32) -> bv32)
    requires |rk| == 32 && n <= 8
    ensures GroupsFollowRounds(x, rk, n, f)
    decreases n
  {
    if n > 0 {
      AllRounds(x, rk, n - 1, f);
      RoundsStep(x, rk, n - 1, f);
    }
  }

  /** The unrolled groups compute the standard's recurrence: after n groups
      the state holds X_{4n} .. X_{4n+3}. */
  lemma EncryptGroupsRounds(x: Block, rk: seq<bv32>, n: nat, f: (nat, bv32) -> bv32)
    requires |rk| == 32 && n <= 8
    ensures EncryptGroups(x, rk, n, f) == RoundState(x, rk, 4 * n, f)
  {
    AllRounds(x, rk, n, f);
  }

  /** The keys in reverse order, as the standard's decryption uses them. */
  function ReverseKeys(rk: seq<bv32>): (r: seq<bv32>)
    ensures |r| == |rk|
    ensures forall i :: 0 <= i < |rk| ==> r[i] == rk[|rk| - 1 - i]
  {
    seq(|rk|, i requires 0 <= i < |rk| => rk[|rk| - 1 - i])
  }

  /** A decryption group is the encryption group 7 - r under the reversed
      keys, when the round function does not tell r from 7 - r. */
  lemma DecryptGroupAsEncrypt(s: Block, rk: seq<bv32>, r: nat, f: (nat, bv32) -> bv32)
    requires |rk| == 32 && r < 8
    requires forall x :: f(r, x) == f(7 - r, x)
    ensures DecryptGroup(s, rk, r, f) == EncryptGroup(s, ReverseKeys(rk), 7 - r, f)
  {
    var rev := ReverseKeys(rk);
    assert rev[4 * (7 - r)] == rk[4 * r + 3] && rev[4 * (7 - r) + 1] == rk[4 * r + 2];
    assert rev[4 * (7 - r) + 2] == rk[4 * r + 1] && rev[4 * (7 - r) + 3] == rk[4 * r];
  }

  /** The first m groups of encryption under the reversed keys are the
      last m groups of decryption. */
  lemma {:induction false} DecryptGroupsSuffix(s: Block, rk: seq<bv32>, m: nat, f: (nat, bv32) -> bv32)
    requires |rk| == 32 && m <= 8
    requires forall r: nat, x: bv32 :: r < 8 ==> f(r, x) == f(7 - r, x)
    ensures DecryptGroups(EncryptGroups(s, ReverseKeys(rk), m, f), rk, 8 - m, f) == DecryptGroups(s, rk, 8, f)
    decreases m
  {
    if m > 0 {
      var x := EncryptGroups(s, ReverseKeys(rk), m - 1, f);
      DecryptGroupsSuffix(s, rk, m - 1, f);
      DecryptGroupAsEncrypt(x, rk, 8 - m, f);
    }
  }

  /** Decryption with the groups in reverse is encryption with the round
      keys in reverse (section 7.2 of GB/T 32907-2016). */
  lemma DecryptGroupsReversedKeys(s: Block, rk: seq<bv32>, f: (nat, bv32) -> bv32)
    requires |rk| == 32
    requires forall r: nat, x: bv32 :: r < 8 ==> f(r, x) == f(7 - r, x)
    ensures DecryptGroups(s, rk, 8, f) == EncryptGroups(s, ReverseKeys(rk), 8, f)
  {
    DecryptGroupsSuffix(s, rk, 8, f);
  }

  // ---------------------------------------------------------------------
  // Bytes and blocks

  /** The four words B0..B3 of a 16-byte block, loaded big-endian. */
  function LoadBlock(bytes: seq<bv8>): Block
    requires |bytes| == 16
  {
    Block(LoadWord(bytes[0..4]), LoadWord(bytes[4..8]), LoadWord(bytes[8..12]), LoadWord(bytes[12..16]))
  }

  /** `store_be(out, B3, B2, B1, B0)`. */
  function StoreReversed(s: Block): (r: seq<bv8>)
    ensures |r| == 16
  {
    StoreWord(s.b3) + StoreWord(s.b2) + StoreWord(s.b1) + StoreWord(s.b0)
  }

  /** Loading what was stored in reverse order gives the reversed state. */
  lemma {:induction false} LoadStoreReversed(s: Block)
    ensures LoadBlock(StoreReversed(s)) == Reverse(s)
  {
    var bytes := StoreReversed(s);
    assert bytes[0..4] == StoreWord(s.b3) && bytes[4..8] == StoreWord(s.b2);
    assert bytes[8..12] == StoreWord(s.b1) && bytes[12..16] == StoreWord(s.b0);
    LoadStoreWord(s.b3);
    LoadStoreWord(s.b2);
    LoadStoreWord(s.b1);
    LoadStoreWord(s.b0);
  }

  /** Storing the reversed loaded state gives back the bytes. */
  lemma {:induction false} StoreLoadReversed(bytes: seq<bv8>)
    requires |bytes| == 16
    ensures StoreReversed(Reverse(LoadBlock(bytes))) == bytes
  {
    assert bytes == bytes[0..4] + bytes[4..8] + bytes[8..12] + bytes[12..16];
  }

  /** One block through the one-block loop body of `encrypt_n` (all eight
      `SM4_E` groups) or of `decrypt_n` (`SM4_D<7>` down to `SM4_D<0>`),
      with round function f. */
  function CryptBlock(rk: seq<bv32>, bytes: seq<bv8>, decrypt: bool, f: (nat, bv32) -> bv32): (r: seq<bv8>)
    requires |rk| == 32 && |bytes| == 16
    ensures |r| == 16
  {
    var s := LoadBlock(bytes);
    StoreReversed(if decrypt then DecryptGroups(s, rk, 8, f) else EncryptGroups(s, rk, 8, f))
  }

  /** Either direction undoes the other under the same round keys. */
  lemma {:induction false} CryptBlockInverts(rk: seq<bv32>, bytes: seq<bv8>, decrypt: bool, f: (nat, bv32) -> bv32)
    requires |rk| == 32 && |bytes| == 16
    ensures CryptBlock(rk, CryptBlock(rk, bytes, decrypt, f), !decrypt, f) == bytes
  {
    var s := LoadBlock(bytes);
    var t := if decrypt then DecryptGroups(s, rk, 8, f) else EncryptGroups(s, rk, 8, f);
    LoadStoreReversed(t);
    if decrypt {
      EncryptGroupsInvert(s, rk, 8, f);
    } else {
      DecryptGroupsInvert(s, rk, 8, f);
    }
    StoreLoadReversed(bytes);
  }

  /** The standard's encryption of one block: 32 rounds of the recurrence,
      then the reverse transform R(X_32, .., X_35) = (X_35, .., X_32). */
  function StandardEncrypt(rk: seq<bv32>, bytes: seq<bv8>): (r: seq<bv8>)
    requires |rk| == 32 && |bytes| == 16
    ensures |r| == 16
  {
    StoreReversed(RoundState(LoadBlock(bytes), rk, 32, StandardT))
  }

  /** The standard's decryption: the same with the round keys reversed. */
  function StandardDecrypt(rk: seq<bv32>, bytes: seq<bv8>): (r: seq<bv8>)
    requires |rk| == 32 && |bytes| == 16
    ensures |r| == 16
  {
    StandardEncrypt(ReverseKeys(rk), bytes)
  }

  /** RoundT is the standard's round function in every group. */
  lemma RoundTAgrees()
    ensures forall r: nat, x: bv32 :: r < 8 ==> RoundT(r, x) == StandardT(r, x)
  {
    forall r: nat, x: bv32 | r < 8
      ensures RoundT(r, x) == StandardT(r, x)
    {
      RoundTIsStandard(r, x);
    }
  }

  /** The C++ block functions, with T_slow in groups 0 and 7 and the table T
      in between, compute the standard's encryption. */
  lemma {:induction false} EncryptBlockStandard(rk: seq<bv32>, bytes: seq<bv8>)
    requires |rk| == 32 && |bytes| == 16
    ensures CryptBlock(rk, bytes, false, RoundT) == StandardEncrypt(rk, bytes)
  {
    var s := LoadBlock(bytes);
    RoundTAgrees();
    EncryptGroupsAgree(s, rk, 8, RoundT, StandardT);
    EncryptGroupsRounds(s, rk, 8, StandardT);
  }

  /** And the standard's decryption. */
  lemma {:induction false} DecryptBlockStandard(rk: seq<bv32>, bytes: seq<bv8>)
    requires |rk| == 32 && |bytes| == 16
    ensures CryptBlock(rk, bytes, true, RoundT) == StandardDecrypt(rk, bytes)
  {
    var s := LoadBlock(bytes);
    RoundTAgrees();
    DecryptGroupsAgree(s, rk, 8, RoundT, StandardT);
    DecryptGroupsReversedKeys(s, rk, StandardT);
    EncryptGroupsRounds(s, ReverseKeys(rk), 8, StandardT);
  }

  // ---------------------------------------------------------------------
  // The two-block path

  /** Two blocks side by side, as the unrolled loop keeps them. */
  datatype Pair = Pair(b: Block, c: Block)

  /** `SM4_E<r>` on two blocks: the steps of B and C interleaved, which is
      the single-block group on each block. */
  function EncryptGroup2(p: Pair, rk: seq<bv32>, r: nat, f: (nat, bv32) -> bv32): (q: Pair)
    requires |rk| == 32 && r < 8
    ensures q == Pair(EncryptGroup(p.b, rk, r, f), EncryptGroup(p.c, rk, r, f))
  {
    var b0 := Xor(p.b.b0, f(r, Xor(Xor3(p.b.b1, p.b.b2, p.b.b3), rk[4 * r])));
    var c0 := Xor(p.c.b0, f(r, Xor(Xor3(p.c.b1, p.c.b2, p.c.b3), rk[4 * r])));
    var b1 := Xor(p.b.b1, f(r, Xor(Xor3(p.b.b2, p.b.b3, b0), rk[4 * r + 1])));
    var c1 := Xor(p.c.b1, f(r, Xor(Xor3(p.c.b2, p.c.b3, c0), rk[4 * r + 1])));
    var b2 := Xor(p.b.b2, f(r, Xor(Xor3(p.b.b3, b0, b1), rk[4 * r + 2])));
    var c2 := Xor(p.c.b2, f(r, Xor(Xor3(p.c.b3, c0, c1), rk[4 * r + 2])));
    var b3 := Xor(p.b.b3, f(r, Xor(Xor3(b0, b1, b2), rk[4 * r + 3])));
    var c3 := Xor(p.c.b3, f(r, Xor(Xor3(c0, c1, c2), rk[4 * r + 3])));
    Pair(Block(b0, b1, b2, b3), Block(c0, c1, c2, c3))
  }

  /** `SM4_D<r>` on two blocks. */
  function DecryptGroup2(p: Pair, rk: seq<bv32>, r: nat, f: (nat, bv32) -> bv32): (q: Pair)
    requires |rk| == 32 && r < 8
    ensures q == Pair(DecryptGroup(p.b, rk, r, f), DecryptGroup(p.c, rk, r, f))
  {
    var b0 := Xor(p.b.b0, f(r, Xor(Xor3(p.b.b1, p.b.b2, p.b.b3), rk[4 * r + 3])));
    var c0 := Xor(p.c.b0, f(r, Xor(Xor3(p.c.b1, p.c.b2, p.c.b3), rk[4 * r + 3])));
    var b1 := Xor(p.b.b1, f(r, Xor(Xor3(p.b.b2, p.b.b3, b0), rk[4 * r + 2])));
    var c1 := Xor(p.c.b1, f(r, Xor(Xor3(p.c.b2, p.c.b3, c0), rk[4 * r + 2])));
    var b2 := Xor(p.b.b2, f(r, Xor(Xor3(p.b.b3, b0, b1), rk[4 * r + 1])));
    var c2 := Xor(p.c.b2, f(r, Xor(Xor3(p.c.b3, c0, c1), rk[4 * r + 1])));
    var b3 := Xor(p.b.b3, f(r, Xor(Xor3(b0, b1, b2), rk[4 * r])));
    var c3 := Xor(p.c.b3, f(r, Xor(Xor3(c0, c1, c2), rk[4 * r])));
    Pair(Block(b0, b1, b2, b3), Block(c0, c1, c2, c3))
  }

  function EncryptGroups2(p: Pair, rk: seq<bv32>, n: nat, f: (nat, bv32) -> bv32): Pair
    requires |rk| == 32 && n <= 8
    decreases n
  {
    if n == 0 then p else EncryptGroup2(EncryptGroups2(p, rk, n - 1, f), rk, n - 1, f)
  }

  function DecryptGroups2(p: Pair, rk: seq<bv32>, n: nat, f: (nat, bv32) -> bv32): Pair
    requires |rk| == 32 && n <= 8
    decreases n
  {
    if n == 0 then p else DecryptGroups2(DecryptGroup2(p, rk, n - 1, f), rk, n - 1, f)
  }

  /** The interleaved groups act on each block independently. */
  lemma {:induction false} EncryptGroups2Split(p: Pair, rk: seq<bv32>, n: nat, f: (nat, bv32) -> bv32)
    requires |rk| == 32 && n <= 8
    ensures EncryptGroups2(p, rk, n, f) == Pair(EncryptGroups(p.b, rk, n, f), EncryptGroups(p.c, rk, n, f))
    decreases n
  {
    if n > 0 {
      EncryptGroups2Split(p, rk, n - 1, f);
    }
  }

  lemma {:induction false} DecryptGroups2Split(p: Pair, rk: seq<bv32>, n: nat, f: (nat, bv32) -> bv32)
    requires |rk| == 32 && n <= 8
    ensures DecryptGroups2(p, rk, n, f) == Pair(DecryptGroups(p.b, rk, n, f), DecryptGroups(p.c, rk, n, f))
    decreases n
  {
    if n > 0 {
      DecryptGroups2Split(DecryptGroup2(p, rk, n - 1, f), rk, n - 1, f);
    }
  }

  /** The two-block loop body of `encrypt_n` / `decrypt_n` on 32 bytes. */
  function CryptPair(rk: seq<bv32>, bytes: seq<bv8>, decrypt: bool, f: (nat, bv32) -> bv32): (r: seq<bv8>)
    requires |rk| == 32 && |bytes| == 32
    ensures |r| == 32
  {
    var p := Pair(LoadBlock(bytes[..16]), LoadBlock(bytes[16..]));
    var q := if decrypt then DecryptGroups2(p, rk, 8, f) else EncryptGroups2(p, rk, 8, f);
    StoreReversed(q.b) + StoreReversed(q.c)
  }

  /** The two-block path gives the same bytes as the one-block path applied
      to each block. */
  lemma {:induction false} CryptPairAsBlocks(rk: seq<bv32>, bytes: seq<bv8>, decrypt: bool, f: (nat, bv32) -> bv32)
    requires |rk| == 32 && |bytes| == 32
    ensures CryptPair(rk, bytes, decrypt, f)
         == CryptBlock(rk, bytes[..16], decrypt, f) + CryptBlock(rk, bytes[16..], decrypt, f)
  {
    var p := Pair(LoadBlock(bytes[..16]), LoadBlock(bytes[16..]));
    if decrypt {
      DecryptGroups2Split(p, rk, 8, f);
    } else {
      EncryptGroups2Split(p, rk, 8, f);
    }
  }

  // ---------------------------------------------------------------------
  // Whole messages

  /** The reference for a run of blocks: each of the `blocks` 16-byte
      blocks through the block function g on its own, in order. */
  function EachBlock(g: seq<bv8> -> seq<bv8>, input: seq<bv8>, blocks: nat): (r: seq<bv8>)
    requires |input| == 16 * blocks
    ensures KeepsBlockSize(g) ==> |r| == |input|
    decreases blocks
  {
    if blocks == 0 then [] else g(input[..16]) + EachBlock(g, input[16..], blocks - 1)
  }

  /** g maps 16-byte blocks to 16-byte blocks. */
  ghost predicate KeepsBlockSize(g: seq<bv8> -> seq<bv8>)
  {
    forall b: seq<bv8> :: |b| == 16 ==> |g(b)| == 16
  }

  /** h undoes g on every 16-byte block. */
  ghost predicate UndoesBlocks(g: seq<bv8> -> seq<bv8>, h: seq<bv8> -> seq<bv8>)
  {
    KeepsBlockSize(g) && forall b: seq<bv8> :: |b| == 16 ==> h(g(b)) == b
  }

  /** pair processes 32 bytes as g does its two halves. */
  ghost predicate PairIsTwoBlocks(g: seq<bv8> -> seq<bv8>, pair: seq<bv8> -> seq<bv8>)
  {
    forall two: seq<bv8> :: |two| == 32 ==> pair(two) == g(two[..16]) + g(two[16..])
  }

  /** A 16-byte head and the rest are recovered from their concatenation. */
  lemma SplitHead(a: seq<bv8>, b: seq<bv8>)
    requires |a| == 16
    ensures (a + b)[..16] == a && (a + b)[16..] == b
  {
  }

  lemma JoinHead(s: seq<bv8>)
    requires |s| >= 16
    ensures s[..16] + s[16..] == s
  {
  }

  /** Block j of the output is g of block j of the input. */
  lemma {:induction false} EachBlockAt(g: seq<bv8> -> seq<bv8>, input: seq<bv8>, blocks: nat, j: nat)
    requires |input| == 16 * blocks && j < blocks && KeepsBlockSize(g)
    ensures EachBlock(g, input, blocks)[16 * j .. 16 * j + 16] == g(input[16 * j .. 16 * j + 16])
    decreases blocks
  {
    var rest := EachBlock(g, input[16..], blocks - 1);
    SplitHead(g(input[..16]), rest);
    if j > 0 {
      EachBlockAt(g, input[16..], blocks - 1, j - 1);
      assert input[16..][16 * (j - 1) .. 16 * (j - 1) + 16] == input[16 * j .. 16 * j + 16];
      assert (g(input[..16]) + rest)[16 * j .. 16 * j + 16] == rest[16 * (j - 1) .. 16 * (j - 1) + 16];
    }
  }

  /** Running the inverse block function over the output gives back the
      input. */
  lemma {:induction false} EachBlockUndone(g: seq<bv8> -> seq<bv8>, h: seq<bv8> -> seq<bv8>, input: seq<bv8>, blocks: nat)
    requires |input| == 16 * blocks && UndoesBlocks(g, h)
    ensures EachBlock(h, EachBlock(g, input, blocks), blocks) == input
    decreases blocks
  {
    if blocks > 0 {
      var head := g(input[..16]);
      var rest := EachBlock(g, input[16..], blocks - 1);
      UndoOne(g, h, input[..16]);
      SplitHead(head, rest);
      EachBlockUndone(g, h, input[16..], blocks - 1);
      UndoneJoin(h, head, rest, input, blocks);
    }
  }

  lemma UndoOne(g: seq<bv8> -> seq<bv8>, h: seq<bv8> -> seq<bv8>, b: seq<bv8>)
    requires UndoesBlocks(g, h) && |b| == 16
    ensures |g(b)| == 16 && h(g(b)) == b
  {
  }

  /** The inverse over head + rest, once both parts are undone. */
  lemma UndoneJoin(h: seq<bv8> -> seq<bv8>, head: seq<bv8>, rest: seq<bv8>, input: seq<bv8>, blocks: nat)
    requires blocks > 0 && |input| == 16 * blocks && |head| == 16 && |rest| == |input| - 16
    requires h(head) == input[..16] && EachBlock(h, rest, blocks - 1) == input[16..]
    ensures EachBlock(h, head + rest, blocks) == input
  {
    SplitHead(head, rest);
    JoinHead(input);
  }

  /** The loops of `encrypt_n` / `decrypt_n` on the scalar path: `pair` on
      two blocks at a time while at least two remain, then `g` on the single
      block that may be left. */
  function PairLoop(g: seq<bv8> -> seq<bv8>, pair: seq<bv8> -> seq<bv8>, input: seq<bv8>, blocks: nat): (r: seq<bv8>)
    requires |input| == 16 * blocks
    ensures blocks == 0 ==> r == []
    decreases blocks
  {
    if blocks >= 2 then pair(input[..32]) + PairLoop(g, pair, input[32..], blocks - 2)
    else if blocks == 1 then g(input)
    else []
  }

  /** Slicing facts for the first two blocks. */
  lemma TwoHeads(s: seq<bv8>)
    requires |s| >= 32
    ensures s[..16] == s[..32][..16] && s[16..][..16] == s[..32][16..] && s[16..][16..] == s[32..]
  {
  }

  /** When pair is g on both halves, the two loops together process each
      block on its own. */
  lemma {:induction false} PairLoopIsEachBlock(g: seq<bv8> -> seq<bv8>, pair: seq<bv8> -> seq<bv8>, input: seq<bv8>, blocks: nat)
    requires |input| == 16 * blocks && PairIsTwoBlocks(g, pair)
    ensures PairLoop(g, pair, input, blocks) == EachBlock(g, input, blocks)
    decreases blocks
  {
    if blocks >= 2 {
      PairLoopIsEachBlock(g, pair, input[32..], blocks - 2);
      TwoHeads(input);
    } else if blocks == 1 {
      OneBlock(g, input);
    }
  }

  lemma OneBlock(g: seq<bv8> -> seq<bv8>, input: seq<bv8>)
    requires |input| == 16
    ensures PairLoop(g, g, input, 1) == EachBlock(g, input, 1)
  {
    assert input[..16] == input;
    assert EachBlock(g, input[16..], 0) == [];
  }

  // ---------------------------------------------------------------------
  // The SM4 block functions

  /** The one-block path as a function on byte strings. */
  function BlockFn(rk: seq<bv32>, decrypt: bool, f: (nat, bv32) -> bv32): seq<bv8> -> seq<bv8>
    requires |rk| == 32
  {
    b => if |b| == 16 then CryptBlock(rk, b, decrypt, f) else b
  }

  /** The two-block path as a function on byte strings. */
  function PairFn(rk: seq<bv32>, decrypt: bool, f: (nat, bv32) -> bv32): seq<bv8> -> seq<bv8>
    requires |rk| == 32
  {
    two => if |two| == 32 then CryptPair(rk, two, decrypt, f) else two
  }

  lemma BlockFnUndone(rk: seq<bv32>, decrypt: bool, f: (nat, bv32) -> bv32)
    requires |rk| == 32
    ensures UndoesBlocks(BlockFn(rk, decrypt, f), BlockFn(rk, !decrypt, f))
  {
    forall b: seq<bv8> | |b| == 16
      ensures BlockFn(rk, !decrypt, f)(BlockFn(rk, decrypt, f)(b)) == b
    {
      CryptBlockInverts(rk, b, decrypt, f);
    }
  }

  lemma PairFnIsTwoBlocks(rk: seq<bv32>, decrypt: bool, f: (nat, bv32) -> bv32)
    requires |rk| == 32
    ensures PairIsTwoBlocks(BlockFn(rk, decrypt, f), PairFn(rk, decrypt, f))
  {
    forall two: seq<bv8> | |two| == 32
      ensures PairFn(rk, decrypt, f)(two) == BlockFn(rk, decrypt, f)(two[..16]) + BlockFn(rk, decrypt, f)(two[16..])
    {
      CryptPairAsBlocks(rk, two, decrypt, f);
    }
  }

  // ---------------------------------------------------------------------
  // The cipher object

  /** The key state: the round keys, empty until a key is set. */
  datatype Sm4 = Sm4(rk: seq<bv32>)

  /** `has_keying_material`. */
  predicate HasKeyingMaterial(c: Sm4)
  {
    |c.rk| != 0
  }

  /** `clear`: `zap` frees the round keys. */
  function Clear(c: Sm4): (r: Sm4)
    ensures !HasKeyingMaterial(r)
  {
    Sm4([])
  }

  /** `encrypt_n` (decrypt false) or `decrypt_n` (decrypt true) on
      `blocks` whole blocks: Key_Not_Set before a key is set, otherwise the
      scalar loops with the round functions of the C++ code. */
  function ProcessN(c: Sm4, input: seq<bv8>, blocks: nat, decrypt: bool): (r: Result<seq<bv8>>)
    requires |c.rk| == 0 || |c.rk| == 32
    requires |input| == 16 * blocks
    ensures r.Failure? <==> !HasKeyingMaterial(c)
    ensures r.Failure? ==> r.error == KeyNotSet
    ensures r.Success? ==> r.value == EachBlock(BlockFn(c.rk, decrypt, RoundT), input, blocks)
  {
    if !HasKeyingMaterial(c) then Failure(KeyNotSet)
    else
      PairFnIsTwoBlocks(c.rk, decrypt, RoundT);
      PairLoopIsEachBlock(BlockFn(c.rk, decrypt, RoundT), PairFn(c.rk, decrypt, RoundT), input, blocks);
      Success(PairLoop(BlockFn(c.rk, decrypt, RoundT), PairFn(c.rk, decrypt, RoundT), input, blocks))
  }

  /** `decrypt_n` after `encrypt_n` under the same key gives back the input,
      and the other way round. */
  lemma ProcessNInverts(c: Sm4, input: seq<bv8>, blocks: nat, decrypt: bool)
    requires |c.rk| == 32 && |input| == 16 * blocks
    ensures ProcessN(c, input, blocks, decrypt).Success?
    ensures ProcessN(c, ProcessN(c, input, blocks, decrypt).value, blocks, !decrypt) == Success(input)
  {
    BlockFnUndone(c.rk, decrypt, RoundT);
    EachBlockUndone(BlockFn(c.rk, decrypt, RoundT), BlockFn(c.rk, !decrypt, RoundT), input, blocks);
  }

  /** The one-block path keeps blocks 16 bytes long. */
  lemma BlockFnKeepsSize(rk: seq<bv32>, decrypt: bool, f: (nat, bv32) -> bv32)
    requires |rk| == 32
    ensures KeepsBlockSize(BlockFn(rk, decrypt, f))
  {
  }

  /** The one-block path is the standard's encryption or decryption. */
  lemma BlockFnStandard(rk: seq<bv32>, decrypt: bool, b: seq<bv8>)
    requires |rk| == 32 && |b| == 16
    ensures BlockFn(rk, decrypt, RoundT)(b)
         == (if decrypt then StandardDecrypt(rk, b) else StandardEncrypt(rk, b))
  {
    if decrypt {
      DecryptBlockStandard(rk, b);
    } else {
      EncryptBlockStandard(rk, b);
    }
  }

  /** Block j of the scalar loops' output is the standard's encryption or
      decryption of block j of the input. */
  lemma EachBlockStandard(rk: seq<bv32>, input: seq<bv8>, blocks: nat, decrypt: bool, j: nat)
    requires |rk| == 32 && |input| == 16 * blocks && j < blocks
    ensures EachBlock(BlockFn(rk, decrypt, RoundT), input, blocks)[16 * j .. 16 * j + 16]
         == (if decrypt then StandardDecrypt(rk, input[16 * j .. 16 * j + 16])
             else StandardEncrypt(rk, input[16 * j .. 16 * j + 16]))
  {
    BlockFnKeepsSize(rk, decrypt, RoundT);
    EachBlockAt(BlockFn(rk, decrypt, RoundT), input, blocks, j);
    BlockFnStandard(rk, decrypt, input[16 * j .. 16 * j + 16]);
  }

  // ---------------------------------------------------------------------
  // Key schedule

  /** The system parameter FK. */
  const FK: seq<bv32> := [0xa3b1bac6, 0x56aa3350, 0x677d9197, 0xb27022dc]

  /** The 32 fixed parameters CK. */
  const CK: seq<bv32> := [
    0x00070E15, 0x1C232A31, 0x383F464D, 0x545B6269, 0x70777E85, 0x8C939AA1, 0xA8AFB6BD,
    0xC4CBD2D9, 0xE0E7EEF5, 0xFC030A11, 0x181F262D, 0x343B4249, 0x50575E65, 0x6C737A81,
    0x888F969D, 0xA4ABB2B9, 0xC0C7CED5, 0xDCE3EAF1, 0xF8FF060D, 0x141B2229, 0x30373E45,
    0x4C535A61, 0x686F767D, 0x848B9299, 0xA0A7AEB5, 0xBCC3CAD1, 0xD8DFE6ED, 0xF4FB0209,
    0x10171E25, 0x2C333A41, 0x484F565D, 0x646B7279]

  /** The key schedule's round function: T' in every round. */
  function KeyT(r: nat, x: bv32): bv32
  {
    TPrime(x)
  }

  /** K_0 .. K_3: the key words XOR FK. */
  function KeyStart(key: seq<bv8>): Block
    requires |key| == 16
  {
    var s := LoadBlock(key);
    Block(Xor(s.b0, FK[0]), Xor(s.b1, FK[1]), Xor(s.b2, FK[2]), Xor(s.b3, FK[3]))
  }

  /** The standard's round keys rk_i = K_{i+4} (section 7.3 of
      GB/T 32907-2016): the recurrence with T' and the constants CK. */
  function StandardRoundKeys(key: seq<bv8>): (rk: seq<bv32>)
    requires |key| == 16
    ensures |rk| == 32
  {
    seq(32, i requires 0 <= i < 32 => RoundWord(KeyStart(key), CK, i + 4, KeyT))
  }

  /** Round i of the key schedule on K_i .. K_{i+3} gives K_{i+4}. */
  lemma KeyStep(s: Block, i: nat, a: bv32, b: bv32, c: bv32, d: bv32)
    requires i < 32
    requires a == RoundWord(s, CK, i, KeyT) && b == RoundWord(s, CK, i + 1, KeyT)
    requires c == RoundWord(s, CK, i + 2, KeyT) && d == RoundWord(s, CK, i + 3, KeyT)
    ensures Xor(a, TPrime(Xor(Xor3(b, c, d), CK[i]))) == RoundWord(s, CK, i + 4, KeyT)
  {
  }

  /** Overwriting K[i % 4] moves the four-word window on by one. */
  lemma BufferStep(k: seq<bv32>, i: nat, x: bv32)
    requires |k| == 4
    ensures k[i % 4 := x][(i + 4) % 4] == x
    ensures k[i % 4 := x][(i + 1) % 4] == k[(i + 1) % 4]
    ensures k[i % 4 := x][(i + 2) % 4] == k[(i + 2) % 4]
    ensures k[i % 4 := x][(i + 3) % 4] == k[(i + 3) % 4]
  {
  }

  /** The buffer holds K_i .. K_{i+3}, K_j at index j % 4. */
  ghost predicate KeyWindow(k: seq<bv32>, s: Block, i: nat)
  {
    |k| == 4 && i <= 32
    && k[i % 4] == RoundWord(s, CK, i, KeyT) && k[(i + 1) % 4] == RoundWord(s, CK, i + 1, KeyT)
    && k[(i + 2) % 4] == RoundWord(s, CK, i + 2, KeyT) && k[(i + 3) % 4] == RoundWord(s, CK, i + 3, KeyT)
  }

  /** The first i round keys are K_4 .. K_{i+3}. */
  ghost predicate KeysSoFar(rk: seq<bv32>, s: Block, i: nat)
  {
    |rk| == i && i <= 32 && forall j :: 0 <= j < i ==> rk[j] == RoundWord(s, CK, j + 4, KeyT)
  }

  /** One pass of the key schedule loop keeps both. */
  lemma KeyRound(k: seq<bv32>, rk: seq<bv32>, s: Block, i: nat, x: bv32)
    requires i < 32 && KeyWindow(k, s, i) && KeysSoFar(rk, s, i)
    requires x == Xor(k[i % 4], TPrime(Xor(Xor3(k[(i + 1) % 4], k[(i + 2) % 4], k[(i + 3) % 4]), CK[i])))
    ensures KeyWindow(k[i % 4 := x], s, i + 1) && KeysSoFar(rk + [x], s, i + 1)
  {
    KeyStep(s, i, k[i % 4], k[(i + 1) % 4], k[(i + 2) % 4], k[(i + 3) % 4]);
    KeyRoundWindow(k, s, i, x);
    KeyRoundKeys(rk, s, i, x);
  }

  lemma KeyRoundWindow(k: seq<bv32>, s: Block, i: nat, x: bv32)
    requires i < 32 && KeyWindow(k, s, i) && x == RoundWord(s, CK, i + 4, KeyT)
    ensures KeyWindow(k[i % 4 := x], s, i + 1)
  {
    BufferStep(k, i, x);
  }

  lemma KeyRoundKeys(rk: seq<bv32>, s: Block, i: nat, x: bv32)
    requires i < 32 && KeysSoFar(rk, s, i) && x == RoundWord(s, CK, i + 4, KeyT)
    ensures KeysSoFar(rk + [x], s, i + 1)
  {
  }

  /** Words listed one by one are the recurrence's words K_4 .. K_35. */
  lemma RoundWordsListed(rk: seq<bv32>, x: Block, keys: seq<bv32>, f: (nat, bv32) -> bv32)
    requires |keys| == 32 && |rk| == 32
    requires forall j :: 0 <= j < 32 ==> rk[j] == RoundWord(x, keys, j + 4, f)
    ensures rk == seq(32, j requires 0 <= j < 32 => RoundWord(x, keys, j + 4, f))
  {
    var listed := seq(32, j requires 0 <= j < 32 => RoundWord(x, keys, j + 4, f));
    assert forall j | 0 <= j < 32 :: rk[j] == listed[j];
  }

  lemma KeysDone(rk: seq<bv32>, key: seq<bv8>)
    requires |key| == 16 && KeysSoFar(rk, KeyStart(key), 32)
    ensures rk == StandardRoundKeys(key)
  {
    RoundWordsListed(rk, KeyStart(key), CK, KeyT);
  }

  /** `key_schedule`: the rolling four-word buffer K of the C++ code, where
      K[i % 4] is overwritten by K_{i+4} in round i. The block cipher
      interface admits only 16-byte keys. */
  method KeySchedule(key: seq<bv8>) returns (c: Sm4)
    requires |key| == 16
    ensures |c.rk| == 32 && HasKeyingMaterial(c)
    ensures c.rk == StandardRoundKeys(key)
  {
    var s := KeyStart(key);
    var k := [s.b0, s.b1, s.b2, s.b3];
    var rk: seq<bv32> := [];
    var i := 0;
    while i != 32
      invariant 0 <= i <= 32 && KeyWindow(k, s, i) && KeysSoFar(rk, s, i)
    {
      var x := Xor(k[i % 4], TPrime(Xor(Xor3(k[(i + 1) % 4], k[(i + 2) % 4], k[(i + 3) % 4]), CK[i])));
      KeyRound(k, rk, s, i, x);
      k := k[i % 4 := x];
      rk := rk + [x];
      i := i + 1;
    }
    KeysDone(rk, key);
    c := Sm4(rk);
  }
}
