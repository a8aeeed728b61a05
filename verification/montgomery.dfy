/** Montgomery reduction in product-scanning form (bigint_monty_redc_generic).

    The three-word accumulator `word3` is an unbounded natural here; its
    `add`, `mul`, `monty_step` and `extract` operations are given by their
    arithmetic meaning. The proof runs over column sums: column c of the
    product q*p collects every q[j]*p[k] with j + k == c. */
module Montgomery {
  import opened Words
  import opened Wrappers

  // ---------------------------------------------------------------------
  // The word3 accumulator

  /** monty_step: pick u from the low word, add u*p0, and shift one word out.
      When pDash == -p0^-1 mod b the shifted-out word is zero. */
  function MontyStep(acc: nat, p0: Word, pDash: Word): (r: (Word, nat))
    ensures (p0 * pDash) % BASE == BASE - 1 ==> r.1 * BASE == acc + r.0 * p0
  {
    var u := ((acc % BASE) * pDash) % BASE;
    MontyStepExact(acc, p0, pDash, u);
    (u, (acc + u * p0) / BASE)
  }

  /** extract: hand out the low word and shift it away. */
  function Extract(acc: nat): (r: (Word, nat))
    ensures r.1 * BASE + r.0 == acc
  {
    (acc % BASE, acc / BASE)
  }

  /** p0 * pDash == -1 (mod b): pDash is the Montgomery constant of p. */
  predicate MontyInverse(p: seq<Word>, pDash: Word)
  {
    |p| > 0 && (p[0] * pDash) % BASE == BASE - 1
  }

  lemma MontyStepExact(a: nat, p0: nat, pDash: nat, u: nat)
    requires u == ((a % BASE) * pDash) % BASE
    ensures (p0 * pDash) % BASE == BASE - 1 ==> (a + u * p0) % BASE == 0
  {
    if (p0 * pDash) % BASE == BASE - 1 {
      var B := BASE;
      var lo := a % B;
      var k1 := (lo * pDash) / B;
      var k2 := (p0 * pDash) / B;
      assert a == (a / B) * B + lo;
      assert u == lo * pDash - k1 * B;
      assert p0 * pDash == k2 * B + (B - 1);
      var m := lo * k2 + lo - k1 * p0 + a / B;
      assert a + u * p0 == m * B by {
        calc {
          a + u * p0;
          (a / B) * B + lo + (lo * pDash - k1 * B) * p0;
          (a / B) * B + lo + lo * (p0 * pDash) - k1 * p0 * B;
          (a / B) * B + lo + lo * (k2 * B + (B - 1)) - k1 * p0 * B;
          m * B;
        }
      }
      ModAddMultiple(m, B, 0);
    }
  }

  // ---------------------------------------------------------------------
  // Column sums

  /** p[k], or 0 outside p. */
  function PAt(p: seq<Word>, k: int): Word
  {
    if 0 <= k < |p| then p[k] else 0
  }

  /** Column c of q*p: the sum of q[j]*p[c-j] over the words of q. */
  function Col(q: seq<Word>, p: seq<Word>, c: int): nat
  {
    if |q| == 0 then 0 else Col(q[..|q| - 1], p, c) + q[|q| - 1] * PAt(p, c - (|q| - 1))
  }

  /** The first c columns of q*p, each weighted by its power of b. */
  function ColSum(q: seq<Word>, p: seq<Word>, c: nat): nat
  {
    if c == 0 then 0 else ColSum(q, p, c - 1) + Col(q, p, c - 1) * Pow(BASE, c - 1)
  }

  /** The first c columns of p shifted up by m words. */
  function Shift(p: seq<Word>, m: nat, c: nat): nat
  {
    if c == 0 then 0 else Shift(p, m, c - 1) + PAt(p, c - 1 - m) * Pow(BASE, c - 1)
  }

  /** The plain loop of mul_rev_range's comment: the sum of ws[j]*p[i-j] for j < t. */
  function RevSum(ws: seq<Word>, p: seq<Word>, i: nat, t: nat): nat
    requires t <= |ws| && t <= i < |p|
  {
    if t == 0 then 0 else RevSum(ws, p, i, t - 1) + (ws[t - 1] as nat) * p[i - (t - 1)]
  }

  function Clamp(k: int, n: nat): nat
  {
    if k < 0 then 0 else if k > n then n else k
  }

  lemma ColAppend(q: seq<Word>, x: Word, p: seq<Word>, c: int)
    ensures Col(q + [x], p, c) == Col(q, p, c) + x * PAt(p, c - |q|)
  {
    assert (q + [x])[..|q|] == q;
  }

  /** The inductive step of ColSumAppend, on the values involved. */
  lemma ColSumAppendStep(lhs: int, a: int, b: int, rhsCs: int, rhsSh: int,
                         cs: int, sh: int, col: int, pa: int, w: int, x: int)
    requires lhs == a + b * w && a == cs + x * sh && b == col + x * pa
    requires rhsCs == cs + col * w && rhsSh == sh + pa * w
    ensures lhs == rhsCs + x * rhsSh
  {
    assert (cs + x * sh) + (col + x * pa) * w == (cs + col * w) + x * (sh + pa * w);
  }

  lemma {:induction false} ColSumAppend(q: seq<Word>, x: Word, p: seq<Word>, c: nat)
    ensures ColSum(q + [x], p, c) == ColSum(q, p, c) + x * Shift(p, |q|, c)
  {
    if c > 0 {
      var q' := q + [x];
      ColSumAppend(q, x, p, c - 1);
      ColAppend(q, x, p, c - 1);
      ColSumAppendStep(ColSum(q', p, c), ColSum(q', p, c - 1), Col(q', p, c - 1), ColSum(q, p, c), Shift(p, |q|, c),
                       ColSum(q, p, c - 1), Shift(p, |q|, c - 1), Col(q, p, c - 1), PAt(p, c - 1 - |q|),
                       Pow(BASE, c - 1), x);
    }
  }

  /** A shifted copy of p is worth b^m times the part of p it has reached. */
  lemma {:induction false} ShiftVal(p: seq<Word>, m: nat, c: nat)
    ensures Shift(p, m, c) == Pow(BASE, m) * Val(p[..Clamp(c - m, |p|)])
  {
    if c == 0 {
      assert p[..0] == [];
    } else {
      ShiftVal(p, m, c - 1);
      var k := c - 1 - m;
      if 0 <= k < |p| {
        assert p[..k + 1][..k] == p[..k];
        assert Val(p[..k + 1]) == Val(p[..k]) + p[k] * Pow(BASE, k);
        PowAdd(BASE, m, k);
        ShiftStep(Pow(BASE, m), Val(p[..k]), p[k], Pow(BASE, k));
      }
    }
  }

  lemma ShiftStep(pm: int, v: int, w: int, pk: int)
    ensures pm * v + w * (pm * pk) == pm * (v + w * pk)
  {
  }

  lemma {:induction false} ColSumNil(p: seq<Word>, c: nat)
    ensures ColSum([], p, c) == 0
  {
    if c > 0 {
      ColSumNil(p, c - 1);
    }
  }

  /** Columns below |q| do not see a word appended to q. */
  lemma ColSumPrefix(q: seq<Word>, x: Word, p: seq<Word>, c: nat)
    requires c <= |q|
    ensures ColSum(q + [x], p, c) == ColSum(q, p, c)
  {
    ColSumAppend(q, x, p, c);
    ShiftVal(p, |q|, c);
    assert p[..0] == [];
  }

  /** Product scanning is multiplication: all columns of q*p add up to Val(q)*Val(p). */
  lemma {:induction false} ProductByColumns(q: seq<Word>, p: seq<Word>, c: nat)
    requires |q| + |p| <= c + 1
    ensures ColSum(q, p, c) == Val(q) * Val(p)
  {
    if |q| == 0 {
      ColSumNil(p, c);
    } else {
      var q', x := q[..|q| - 1], q[|q| - 1];
      assert q == q' + [x];
      ProductByColumns(q', p, c);
      ColSumAppend(q', x, p, c);
      ShiftVal(p, |q'|, c);
      assert p[..Clamp(c - |q'|, |p|)] == p;
      ProductStep(Val(q'), x, Pow(BASE, |q'|), Val(p));
    }
  }

  lemma ProductStep(v: int, x: int, pw: int, vp: int)
    ensures v * vp + x * (pw * vp) == (v + x * pw) * vp
  {
  }

  /** The plain loop computes a column over the words of ws it has read. */
  lemma {:induction false} RevSumCol(ws: seq<Word>, p: seq<Word>, i: nat, t: nat)
    requires t <= |ws| && t <= i < |p|
    ensures RevSum(ws, p, i, t) == Col(ws[..t], p, i)
  {
    if t > 0 {
      RevSumCol(ws, p, i, t - 1);
      assert ws[..t][..t - 1] == ws[..t - 1];
    }
  }

  lemma {:induction false} ColConcat(a: seq<Word>, b: seq<Word>, p: seq<Word>, c: int)
    ensures Col(a + b, p, c) == Col(a, p, c) + Col(b, p, c - |a|)
    decreases |b|
  {
    if |b| == 0 {
      assert a + b == a;
    } else {
      var b', y := b[..|b| - 1], b[|b| - 1];
      assert a + b == (a + b') + [y];
      assert b == b' + [y];
      ColConcat(a, b', p, c);
      ColAppend(a + b', y, p, c);
      ColAppend(b', y, p, c - |a|);
    }
  }

  /** Columns beyond the top of the product are empty. */
  lemma {:induction false} ColHigh(a: seq<Word>, p: seq<Word>, c: int)
    requires c >= |a| + |p| - 1
    ensures Col(a, p, c) == 0
  {
    if |a| > 0 {
      ColHigh(a[..|a| - 1], p, c);
    }
  }

  lemma {:induction false} ColShiftP(b: seq<Word>, p: seq<Word>, i: nat, c: int)
    requires i <= |p| && c >= |b| - 1
    ensures Col(b, p[i..], c) == Col(b, p, c + i)
  {
    if |b| > 0 {
      ColShiftP(b[..|b| - 1], p, i, c);
    }
  }

  /** The call mul_rev_range(accum, &ws[i+1], &p[i], n-(i+1)) adds column n+i. */
  lemma Loop2Col(q: seq<Word>, p: seq<Word>, i: nat)
    requires |q| == |p| && i + 1 < |p|
    ensures RevSum(q[i + 1..], p[i..], |p| - i - 1, |p| - i - 1) == Col(q, p, |p| + i)
  {
    var n, m := |p|, |p| - i - 1;
    var hi := q[i + 1..];
    RevSumCol(hi, p[i..], m, m);
    assert hi[..m] == hi;
    ColShiftP(hi, p, i, m);
    assert q == q[..i + 1] + hi;
    ColConcat(q[..i + 1], hi, p, n + i);
    ColHigh(q[..i + 1], p, n + i);
  }

  // ---------------------------------------------------------------------
  // mul_rev_range

  /** The unrolling width mul_rev_range picks for `remaining` products. */
  function BlockSize(remaining: nat): (r: nat)
    requires remaining > 0
    ensures r in {1, 2, 4, 8, 16} && r <= remaining
  {
    if remaining >= 16 then 16
    else if remaining >= 8 then 8
    else if remaining >= 4 then 4
    else if remaining >= 2 then 2
    else 1
  }

  /** The unrolled loop adds exactly the sum of its plain-loop comment. */
  method MulRevRange(acc0: nat, ws: seq<Word>, p: seq<Word>, i: nat) returns (acc: nat)
    requires i <= |ws| && i < |p|
    ensures acc == acc0 + RevSum(ws, p, i, i)
  {
    acc := acc0;
    var j := 0;
    while j < i
      invariant j <= i
      invariant acc == acc0 + RevSum(ws, p, i, j)
    {
      var remaining := i - j;
      var step := BlockSize(remaining);
      // one unrolled block: accum.mul(ws[j + t], p[remaining - t]) for t < step
      var t := 0;
      while t < step
        invariant t <= step
        invariant acc == acc0 + RevSum(ws, p, i, j + t)
      {
        acc := acc + (ws[j + t] as nat) * p[remaining - t];
        t := t + 1;
      }
      j := j + step;
    }
  }

  // ---------------------------------------------------------------------
  // bigint_monty_maybe_sub

  /** Subtract y from the (n+1)-word value x0:x unless that borrows. */
  function MaybeSub(x0: Word, x: seq<Word>, y: seq<Word>): (r: seq<Word>)
    requires |x| == |y|
    ensures |r| == |x|
    ensures x0 * Pow(BASE, |y|) + Val(x) < 2 * Val(y) ==>
              Val(r) == (x0 * Pow(BASE, |y|) + Val(x)) % Val(y)
  {
    var n := |y|;
    // word-wise x - y, with the borrow out of the top word
    var diff := (Val(x) - Val(y)) % Pow(BASE, n);
    var borrow := if Val(x) < Val(y) then 1 else 0;
    ValBound(x);
    ValBound(y);
    // the final borrow: x0 - borrow wraps around
    if x0 < borrow then
      KeepWindow(x0 * Pow(BASE, n) + Val(x), Val(y), Val(x), x0);
      x
    else
      ValToWords(diff, n);
      SubWindow(x0 * Pow(BASE, n) + Val(x), Val(y), Val(x), x0, Pow(BASE, n), diff);
      ToWords(diff, n)
  }

  /** No final borrow: x0 == 0 and x < y, so x is already reduced. */
  lemma KeepWindow(X: int, Y: int, vx: int, x0: int)
    requires x0 == 0 && X == x0 + vx && 0 <= vx < Y
    ensures X % Y == vx
  {
    DivModUnique(X, Y, 0, vx);
  }

  /** The word-wise difference is X - Y when Y <= X < 2Y and Y < b^n. */
  lemma SubWindow(X: int, Y: int, vx: int, x0: int, bn: int, diff: int)
    requires X == x0 * bn + vx && 0 <= vx < bn && 0 <= Y < bn && x0 >= 0
    requires vx >= Y || x0 >= 1
    requires diff == (vx - Y) % bn
    ensures X < 2 * Y ==> diff % bn == X % Y && diff < bn
  {
    if X < 2 * Y {
      if x0 >= 2 {
        MulLeMono(2, x0, bn);
      }
      SubWindowTop(X, Y, vx, x0, bn, diff);
    }
  }

  /** SubWindow once the top part x0 is known to be 0 or 1. */
  lemma SubWindowTop(X: int, Y: int, vx: int, x0: int, bn: int, diff: int)
    requires x0 == 0 || x0 == 1
    requires X == x0 * bn + vx && 0 <= vx < bn && 0 <= Y < bn && X < 2 * Y
    requires vx >= Y || x0 >= 1
    requires diff == (vx - Y) % bn
    ensures diff % bn == X % Y && diff < bn
  {
    if x0 == 0 {
      DivModUnique(vx - Y, bn, 0, vx - Y);
    } else {
      DivModUnique(vx - Y, bn, -1, vx - Y + bn);
    }
    DivModUnique(diff, bn, 0, diff);
    DivModUnique(X, Y, 1, X - Y);
  }

  // ---------------------------------------------------------------------
  // bigint_monty_redc_generic

  /** One step of the first loop: column i is complete once monty_step adds u*p0. */
  lemma Loop1Step(ws: seq<Word>, z: seq<Word>, p: seq<Word>, i: nat, acc: nat, acc2: nat, u: Word)
    requires i < |ws| && i < |z| && i < |p|
    requires acc * Pow(BASE, i) == ColSum(ws[..i], p, i) + Val(z[..i])
    requires acc2 * BASE == acc + RevSum(ws, p, i, i) + z[i] + u * p[0]
    ensures acc2 * Pow(BASE, i + 1) == ColSum(ws[i := u][..i + 1], p, i + 1) + Val(z[..i + 1])
  {
    var ws' := ws[i := u];
    assert ws'[..i + 1] == ws[..i] + [u];
    RevSumCol(ws, p, i, i);
    var R := Col(ws[..i], p, i);
    ColSumPrefix(ws[..i], u, p, i);
    ColAppend(ws[..i], u, p, i);
    assert Col(ws'[..i + 1], p, i) == R + u * p[0];
    assert z[..i + 1][..i] == z[..i];
    assert Val(z[..i + 1]) == Val(z[..i]) + z[i] * Pow(BASE, i);
    ColumnStep(acc, acc2, BASE, Pow(BASE, i), ColSum(ws[..i], p, i), Val(z[..i]), R + u * p[0], z[i]);
  }

  lemma ColumnStep(a: int, a2: int, b: int, pw: int, s: int, zv: int, col: int, zi: int)
    requires a * pw == s + zv
    requires a2 * b == a + col + zi
    ensures a2 * (b * pw) == s + col * pw + zv + zi * pw
  {
    calc {
      a2 * (b * pw);
      (a2 * b) * pw;
      (a + col + zi) * pw;
      a * pw + col * pw + zi * pw;
    }
  }

  /** After i columns of the second loop: acc and the low words written so
      far account for columns n .. n+i-1 of z + q*p. */
  ghost predicate Loop2Inv(ws: seq<Word>, q: seq<Word>, z: seq<Word>, p: seq<Word>, i: nat, acc: nat)
    requires |ws| == |p| && |q| == |p| && 2 * |p| <= |z| && i <= |p|
  {
    acc * Pow(BASE, |p| + i) + Val(ws[..i]) * Pow(BASE, |p|) == ColSum(q, p, |p| + i) + Val(z[..|p| + i])
  }

  /** One step of the second loop: column n+i is complete; its low word is extracted into ws[i]. */
  lemma Loop2Step(ws: seq<Word>, q: seq<Word>, z: seq<Word>, p: seq<Word>, i: nat,
                  acc: nat, acc2: nat, e: Word)
    requires |ws| == |p| && |q| == |p| && 2 * |p| <= |z| && i < |p|
    requires Loop2Inv(ws, q, z, p, i, acc)
    requires acc2 * BASE + e == acc + Col(q, p, |p| + i) + z[|p| + i]
    ensures Loop2Inv(ws[i := e], q, z, p, i + 1, acc2)
  {
    Loop2Facts(ws, q, z, p, i, e);
    ExtractStep(acc, acc2, e, BASE, Pow(BASE, |p| + i), Pow(BASE, |p| + i + 1), Pow(BASE, i), Pow(BASE, |p|),
                Val(ws[..i]), Val(ws[i := e][..i + 1]), ColSum(q, p, |p| + i), ColSum(q, p, |p| + i + 1),
                Val(z[..|p| + i]), Val(z[..|p| + i + 1]), Col(q, p, |p| + i), z[|p| + i]);
  }

  /** The definitional unfoldings one column of the second loop needs. */
  lemma Loop2Facts(ws: seq<Word>, q: seq<Word>, z: seq<Word>, p: seq<Word>, i: nat, e: Word)
    requires |ws| == |p| && 2 * |p| <= |z| && i < |p|
    ensures Val(ws[i := e][..i + 1]) == Val(ws[..i]) + e * Pow(BASE, i)
    ensures Val(z[..|p| + i + 1]) == Val(z[..|p| + i]) + z[|p| + i] * Pow(BASE, |p| + i)
    ensures ColSum(q, p, |p| + i + 1) == ColSum(q, p, |p| + i) + Col(q, p, |p| + i) * Pow(BASE, |p| + i)
    ensures Pow(BASE, |p| + i + 1) == BASE * Pow(BASE, |p| + i)
    ensures Pow(BASE, |p| + i) == Pow(BASE, |p|) * Pow(BASE, i)
  {
    assert ws[i := e][..i] == ws[..i];
    ValPrefixStep(ws[i := e], i);
    ValPrefixStep(z, |p| + i);
    PowAdd(BASE, |p|, i);
  }

  lemma ColSumStep(q: seq<Word>, p: seq<Word>, c: nat)
    ensures ColSum(q, p, c + 1) == ColSum(q, p, c) + Col(q, p, c) * Pow(BASE, c)
  {
  }

  lemma ExtractStep(a: int, a2: int, e: int, b: int, p1: int, p1': int, pi: int, pn: int,
                    w: int, w': int, s: int, s': int, zv: int, zv': int, col: int, zi: int)
    requires a * p1 + w * pn == s + zv
    requires a2 * b + e == a + col + zi
    requires p1 == pn * pi && p1' == b * p1
    requires w' == w + e * pi && s' == s + col * p1 && zv' == zv + zi * p1
    ensures a2 * p1' + w' * pn == s' + zv'
  {
    calc {
      a2 * p1' + w' * pn;
      (a2 * b) * p1 + w * pn + e * (pn * pi);
      (a2 * b + e) * p1 + w * pn;
      (a + col + zi) * p1 + w * pn;
      a * p1 + w * pn + col * p1 + zi * p1;
    }
  }

  /** The Montgomery product scanning loops followed by the final subtraction:
      r < p and r * b^n == z (mod p), whenever pDash is the Montgomery
      constant of p and z < p * b^n. Only z[0..2n) is read. */
  method MontyRedc(z: seq<Word>, p: seq<Word>, pDash: Word) returns (res: Result<seq<Word>>)
    ensures res.Failure? <==> |z| < 2 * |p| || |p| == 0
    ensures res.Failure? ==> res.error == InvalidArgument
    ensures res.Success? ==> |res.value| == |p|
    ensures res.Success? && MontyInverse(p, pDash) && Val(z[..2 * |p|]) < Val(p) * Pow(BASE, |p|) ==>
              Val(res.value) < Val(p) &&
              (Val(res.value) * Pow(BASE, |p|)) % Val(p) == Val(z[..2 * |p|]) % Val(p)
  {
    if !(|z| >= 2 * |p| && |p| > 0) {
      return Failure(InvalidArgument);
    }
    var n := |p|;
    ghost var good := MontyInverse(p, pDash);
    var ws, acc := RedcFirstLoop(z, p, pDash);
    // the quotient digits q = ws[0..n); the second loop overwrites them from the bottom
    var q := ws;
    ws, acc := RedcSecondLoop(z, p, q, acc, good);
    var ex := Extract(acc + z[2 * n - 1]);
    var top := ws[n - 1 := ex.0];
    // w1 is the top word of the result; it is not stored in the workspace
    var ex2 := Extract(ex.1);
    var w1 := ex2.0;
    var r := MaybeSub(w1, top, p);
    if good && Val(z[..2 * n]) < Val(p) * Pow(BASE, n) {
      RedcTail(ws, q, z, p, acc, ex.1, ex.0, ex2.1, w1);
    }
    return Success(r);
  }

  /** The last column and the final subtraction finish the proof. */
  lemma RedcTail(ws: seq<Word>, q: seq<Word>, z: seq<Word>, p: seq<Word>,
                 acc: nat, acc2: nat, e: Word, a3: nat, w1: Word)
    requires |ws| == |p| && |q| == |p| && 2 * |p| <= |z| && |p| > 0
    requires acc * Pow(BASE, 2 * |p| - 1) + Val(ws[..|p| - 1]) * Pow(BASE, |p|)
               == ColSum(q, p, 2 * |p| - 1) + Val(z[..2 * |p| - 1])
    requires acc2 * BASE + e == acc + z[2 * |p| - 1]
    requires a3 * BASE + w1 == acc2
    requires Val(z[..2 * |p|]) < Val(p) * Pow(BASE, |p|)
    ensures Val(MaybeSub(w1, ws[|p| - 1 := e], p)) < Val(p)
    ensures (Val(MaybeSub(w1, ws[|p| - 1 := e], p)) * Pow(BASE, |p|)) % Val(p) == Val(z[..2 * |p|]) % Val(p)
  {
    var n := |p|;
    ColHigh(q, p, 2 * n - 1);
    Loop2Step(ws, q, z, p, n - 1, acc, acc2, e);
    var top := ws[n - 1 := e];
    assert top[..n] == top;
    assert z[..2 * n] == z[..n + (n - 1) + 1];
    ProductByColumns(q, p, 2 * n);
    FinalBound(top, w1, a3, acc2, q, z[..2 * n], p);
  }

  /** The first loop of the Montgomery product: it picks the quotient digits
      q[0..n) so that z[0..n) + q*p vanishes modulo b^n, leaving the carry. */
  method RedcFirstLoop(z: seq<Word>, p: seq<Word>, pDash: Word) returns (ws: seq<Word>, acc: nat)
    requires |z| >= 2 * |p| && |p| > 0
    ensures |ws| == |p|
    ensures MontyInverse(p, pDash) ==> acc * Pow(BASE, |p|) == ColSum(ws, p, |p|) + Val(z[..|p|])
  {
    var n := |p|;
    ghost var good := MontyInverse(p, pDash);
    ws := Zeros(n);
    acc := 0;

    acc := acc + z[0];
    var st := MontyStep(acc, p[0], pDash);
    if good {
      Loop1Step(ws, z, p, 0, 0, st.1, st.0);
    }
    ws, acc := ws[0 := st.0], st.1;

    var i := 1;
    while i != n
      invariant 1 <= i <= n && |ws| == n
      invariant good ==> acc * Pow(BASE, i) == ColSum(ws[..i], p, i) + Val(z[..i])
    {
      var a1: nat := MulRevRange(acc, ws, p, i);
      a1 := a1 + z[i];
      st := MontyStep(a1, p[0], pDash);
      if good {
        Loop1Step(ws, z, p, i, acc, st.1, st.0);
      }
      ws, acc := ws[i := st.0], st.1;
      i := i + 1;
    }
    assert ws[..n] == ws;
  }

  /** The second loop: columns n .. 2n-2 of z + q*p, each column's low word
      written over the quotient digit it no longer needs. */
  method RedcSecondLoop(z: seq<Word>, p: seq<Word>, q: seq<Word>, acc0: nat, ghost good: bool)
    returns (ws: seq<Word>, acc: nat)
    requires |z| >= 2 * |p| && |p| > 0 && |q| == |p|
    requires good ==> acc0 * Pow(BASE, |p|) == ColSum(q, p, |p|) + Val(z[..|p|])
    ensures |ws| == |p| && ws[|p| - 1..] == q[|p| - 1..]
    ensures good ==> acc * Pow(BASE, 2 * |p| - 1) + Val(ws[..|p| - 1]) * Pow(BASE, |p|)
                       == ColSum(q, p, 2 * |p| - 1) + Val(z[..2 * |p| - 1])
  {
    var n := |p|;
    ws, acc := q, acc0;
    assert ws[..0] == [];
    var i := 0;
    while i != n - 1
      invariant 0 <= i <= n - 1 && |ws| == n
      invariant ws[i..] == q[i..]
      invariant good ==> Loop2Inv(ws, q, z, p, i, acc)
    {
      assert ws[i + 1..] == q[i + 1..];
      var a1: nat := MulRevRange(acc, ws[i + 1..], p[i..], n - (i + 1));
      Loop2Col(q, p, i);
      a1 := a1 + z[n + i];
      var ex := Extract(a1);
      if good {
        Loop2Step(ws, q, z, p, i, acc, ex.1, ex.0);
      }
      ws, acc := ws[i := ex.0], ex.1;
      i := i + 1;
    }
  }

  /** After the loops, x = ws + w1*b^n satisfies x * b^n == z + q*p and x < 2p. */
  lemma FinalBound(ws: seq<Word>, w1: Word, a3: nat, acc: nat, q: seq<Word>, z: seq<Word>, p: seq<Word>)
    requires |ws| == |p| == |q| && |z| == 2 * |p| && |p| > 0
    requires a3 * BASE + w1 == acc
    requires acc * Pow(BASE, 2 * |p|) + Val(ws) * Pow(BASE, |p|) == Val(q) * Val(p) + Val(z)
    requires Val(z) < Val(p) * Pow(BASE, |p|)
    ensures Val(MaybeSub(w1, ws, p)) < Val(p)
    ensures (Val(MaybeSub(w1, ws, p)) * Pow(BASE, |p|)) % Val(p) == Val(z) % Val(p)
  {
    var x := FinalValue(ws, w1, a3, acc, q, z, p);
    FinalReduced(w1, ws, p, x);
    ModCongruence(x, Val(MaybeSub(w1, ws, p)), Val(p), Pow(BASE, |p|), Val(q), Val(z));
  }

  /** Below 2p, the final subtraction leaves x mod p. */
  lemma FinalReduced(w1: Word, ws: seq<Word>, p: seq<Word>, x: nat)
    requires |ws| == |p|
    requires x == w1 * Pow(BASE, |p|) + Val(ws) && x < 2 * Val(p)
    ensures Val(p) > 0
    ensures Val(MaybeSub(w1, ws, p)) == x % Val(p) < Val(p)
  {
  }

  /** x = w1:ws is below 2p and x * b^n is z + q*p. */
  lemma FinalValue(ws: seq<Word>, w1: Word, a3: nat, acc: nat, q: seq<Word>, z: seq<Word>, p: seq<Word>)
    returns (x: nat)
    requires |ws| == |p| == |q| && |z| == 2 * |p| && |p| > 0
    requires a3 * BASE + w1 == acc
    requires acc * Pow(BASE, 2 * |p|) + Val(ws) * Pow(BASE, |p|) == Val(q) * Val(p) + Val(z)
    requires Val(z) < Val(p) * Pow(BASE, |p|)
    ensures x == w1 * Pow(BASE, |p|) + Val(ws)
    ensures x < 2 * Val(p)
    ensures x * Pow(BASE, |p|) == Val(q) * Val(p) + Val(z)
  {
    FinalSizes(q, p);
    x := FinalArith(acc, a3, w1, Val(ws), Pow(BASE, |p|), Pow(BASE, 2 * |p|), BASE, Val(p), Val(q), Val(z));
  }

  lemma FinalSizes(q: seq<Word>, p: seq<Word>)
    requires |q| == |p|
    ensures Val(q) < Pow(BASE, |p|) && Val(p) < Pow(BASE, |p|)
    ensures Pow(BASE, 2 * |p|) == Pow(BASE, |p|) * Pow(BASE, |p|)
  {
    ValBound(q);
    ValBound(p);
    PowDouble(|p|);
  }

  /** The top word a3 is zero and x = w1:ws is below 2p. */
  lemma FinalArith(acc: nat, a3: nat, w1: nat, v: nat, bn: nat, b2n: nat, b: nat, pv: nat, qv: nat, zv: nat)
    returns (x: nat)
    requires bn > 0 && b > 1 && qv < bn && pv < bn && b2n == bn * bn
    requires acc == a3 * b + w1 && acc * b2n + v * bn == qv * pv + zv
    requires zv < pv * bn
    ensures x == w1 * bn + v
    ensures x < 2 * pv
    ensures x * bn == qv * pv + zv
  {
    x := w1 * bn + v;
    var big := a3 * (b * bn) + x;
    Regroup(a3, b, w1, bn, v);
    assert big * bn == qv * pv + zv;
    MulLeMono(qv, bn, pv);
    assert qv * pv + zv < (2 * pv) * bn;
    CancelLess(big, 2 * pv, bn);
    if a3 > 0 {
      MulLeMono(1, a3, b * bn);
      MulLeMono(2, b, bn);
    }
    assert a3 == 0;
    assert big == x;
  }

  lemma Regroup(a3: int, b: int, w1: int, bn: int, v: int)
    ensures (a3 * b + w1) * (bn * bn) + v * bn == (a3 * (b * bn) + (w1 * bn + v)) * bn
  {
  }

  lemma CancelLess(x: nat, y: nat, c: nat)
    requires x * c < y * c
    ensures x < y
  {
    if x >= y {
      MulLeMono(y, x, c);
    }
  }

  lemma ModCongruence(x: nat, r: nat, pv: nat, bn: nat, qv: nat, zv: nat)
    requires pv > 0 && x * bn == qv * pv + zv && r == x % pv
    ensures (r * bn) % pv == zv % pv
  {
    MulMod(x, bn, pv);
    ModAddMultiple(qv, pv, zv);
  }
}
