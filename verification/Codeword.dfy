// Strings of the RS(36,32) code: 32 data symbols followed by 4 check symbols, the symbol at
// index k being the coefficient of x^(35-k).  A codeword vanishes at alpha^0 .. alpha^3.
module Codeword {
  import opened Bytes
  import opened GF256
  import opened Poly

  const LENGTH: nat := 36
  const DATA: nat := 32

  ghost predicate IsCodeword(w: seq<byte>) {
    |w| == LENGTH && forall j | 0 <= j < 4 :: Eval(Exp(j), w) == 0
  }

  // ----- the table-driven remainder -----

  // The four bytes of the code's 32-bit r, most significant first.
  datatype Rem = Rem(r3: byte, r2: byte, r1: byte, r0: byte) {
    function Bytes(): seq<byte> { [r3, r2, r1, r0] }
  }

  // t_rem[i]: i * x^4 modulo (x-1)(x-2)(x-4)(x-8).
  function TRem(i: byte): Rem {
    Rem(Mul(i, 0x0f), Mul(i, 0x36), Mul(i, 0x78), Mul(i, 0x40))
  }

  // t_rem[r >> 24] ^ (r << 8), with the symbol s brought in at the low end.
  function RemStep(r: Rem, s: byte): Rem {
    var t := TRem(r.r3);
    Rem(Xor(t.r3, r.r2), Xor(t.r2, r.r1), Xor(t.r1, r.r0), Xor(t.r0, s))
  }

  // The value of r after all the symbols of s.
  function Remainder(s: seq<byte>): Rem
    requires |s| >= 4
  {
    if |s| == 4 then Rem(s[0], s[1], s[2], s[3])
    else RemStep(Remainder(s[..|s| - 1]), s[|s| - 1])
  }

  // What ecc_block computes from the 32 data symbols.
  function Ecc(data: seq<byte>): Rem
    requires |data| == DATA
  {
    Remainder(data + [0, 0, 0, 0])
  }

  // ----- the generator polynomial -----

  lemma GeneratorNibbles()
    ensures XorNat(1, 15) == 14 && XorNat(2, 15) == 13 && XorNat(4, 15) == 11 && XorNat(8, 15) == 7
    ensures XorNat(14, 6) == 8 && XorNat(10, 6) == 12 && XorNat(12, 6) == 10 && XorNat(8, 6) == 14
    ensures XorNat(1, 3) == 2 && XorNat(2, 3) == 1
    ensures XorNat(3, 7) == 4 && XorNat(5, 7) == 2 && XorNat(6, 7) == 1
  {}
  lemma GeneratorSums()
    ensures Xor(1, 0x0f) == 0x0e && Xor(2, 0x0f) == 0x0d && Xor(4, 0x0f) == 0x0b && Xor(8, 0x0f) == 0x07
    ensures Xor(0x0e, 0x36) == 0x38 && Xor(0x1a, 0x36) == 0x2c && Xor(0x2c, 0x36) == 0x1a && Xor(0x38, 0x36) == 0x0e
    ensures Xor(0x38, 0x78) == 0x40 && Xor(0x58, 0x78) == 0x20 && Xor(0x68, 0x78) == 0x10 && Xor(0x70, 0x78) == 0x08
  {
    hide XorNat;
    GeneratorNibbles();
    XorZero(3); XorZero(8); XorZero(7);
    XorNibble(0, 14, 3, 6); XorNibble(1, 10, 3, 6); XorNibble(2, 12, 3, 6); XorNibble(3, 8, 3, 6);
    XorNibble(3, 8, 7, 8); XorNibble(5, 8, 7, 8); XorNibble(6, 8, 7, 8); XorNibble(7, 0, 7, 8);
  }

  lemma MulByAlpha(x: byte)
    ensures Mul(2, x) == XTime(x) && Mul(4, x) == XTime(XTime(x)) && Mul(8, x) == XTime(XTime(XTime(x)))
  {
    hide Mul;
    MulOne(x);
    MulXTimeLeft(1, x); MulXTimeLeft(2, x); MulXTimeLeft(4, x);
  }

  lemma EvalFour(z: byte, a: byte, b: byte, c: byte, d: byte)
    ensures Eval(z, [a, b, c, d]) == Xor(Mul(z, Xor(Mul(z, Xor(Mul(z, a), b)), c)), d)
  {
    hide Xor, Mul;
    EvalPush(z, [], a); EvalPush(z, [a], b); EvalPush(z, [a, b], c); EvalPush(z, [a, b, c], d);
    assert [] + [a] == [a] && [a] + [b] == [a, b] && [a, b] + [c] == [a, b, c] && [a, b, c] + [d] == [a, b, c, d];
    MulZero(z); XorZero(a);
  }

  lemma Roots()
    ensures Exp(0) == 1 && Exp(1) == 2 && Exp(2) == 4 && Exp(3) == 8
    ensures Distinct([Exp(0), Exp(1), Exp(2), Exp(3)])
  {
    XTimeSmall(1); XTimeSmall(2); XTimeSmall(4);
  }

  // x^4 + 15x^3 + 54x^2 + 120x + 64 vanishes at the four roots.
  lemma GeneratorRoots(j: nat)
    requires j < 4
    ensures Eval(Exp(j), [Xor(Exp(j), 0x0f), 0x36, 0x78, 0x40]) == 0
  {
    hide Xor, Mul, XTime, Exp, Eval;
    Roots();
    GeneratorSums();
    var z := Exp(j);
    EvalFour(z, Xor(z, 0x0f), 0x36, 0x78, 0x40);
    XorZero(0x40);
    if j == 0 {
      MulOne(0x0e); MulOne(0x38); MulOne(0x40);
    } else if j == 1 {
      MulByAlpha(0x0d); MulByAlpha(0x2c); MulByAlpha(0x20);
      XTimeSmall(0x0d); XTimeSmall(0x2c); XTimeSmall(0x20);
    } else if j == 2 {
      MulByAlpha(0x0b); MulByAlpha(0x1a); MulByAlpha(0x10);
      XTimeSmall(0x0b); XTimeSmall(0x16); XTimeSmall(0x1a); XTimeSmall(0x34); XTimeSmall(0x10); XTimeSmall(0x20);
    } else {
      MulByAlpha(0x07); MulByAlpha(0x0e); MulByAlpha(0x08);
      XTimeSmall(0x07); XTimeSmall(0x0e); XTimeSmall(0x1c); XTimeSmall(0x38);
      XTimeSmall(0x08); XTimeSmall(0x10); XTimeSmall(0x20);
    }
  }

  // One step of the remainder is multiplication by x and addition of s, at each root.
  lemma RemStepValue(j: nat, r: Rem, s: byte)
    requires j < 4
    ensures Eval(Exp(j), RemStep(r, s).Bytes()) == Xor(Mul(Exp(j), Eval(Exp(j), r.Bytes())), s)
  {
    hide Xor, Mul, Exp, Eval;
    var z, a := Exp(j), r.r3;
    var t, low := TRem(a).Bytes(), [r.r2, r.r1, r.r0, s];
    assert RemStep(r, s).Bytes() == Sum(t, low);
    EvalSum(z, t, low);
    // z * r(z) + s = value of [z*a, 0, 0, 0] + low
    var head := [Mul(z, a), 0, 0, 0];
    assert Eval(z, Sum(head, low)) == Xor(Mul(z, Eval(z, r.Bytes())), s) by {
      XorZero(r.r1); XorZero(r.r0); XorZero(s);
      assert Sum(head, low) == [Xor(Mul(z, a), r.r2), r.r1, r.r0, s];
      EvalFour(z, Xor(Mul(z, a), r.r2), r.r1, r.r0, s);
      EvalFour(z, a, r.r2, r.r1, r.r0);
    }
    EvalSum(z, head, low);
    // t(z) = z^4 * a, because the generator vanishes at z
    var g := [Xor(z, 0x0f), 0x36, 0x78, 0x40];
    assert Scale(a, g) == Sum(head, t) by {
      MulXorRight(a, z, 0x0f); MulComm(a, z);
      XorZero(Mul(a, 0x36)); XorZero(Mul(a, 0x78)); XorZero(Mul(a, 0x40));
    }
    GeneratorRoots(j);
    EvalScale(z, a, g); MulZero(a);
    EvalSum(z, head, t);
    XorCancel(Eval(z, head), Eval(z, t));
  }

  lemma {:induction false} RemainderValue(j: nat, s: seq<byte>)
    requires j < 4 && |s| >= 4
    ensures Eval(Exp(j), Remainder(s).Bytes()) == Eval(Exp(j), s)
    decreases |s|
  {
    hide Xor, Mul, Exp, Eval, RemStep;
    if |s| == 4 {
      assert s == Remainder(s).Bytes();
    } else {
      var n := |s| - 1;
      RemainderValue(j, s[..n]);
      RemStepValue(j, Remainder(s[..n]), s[n]);
      assert s == s[..n] + [s[n]];
      EvalPush(Exp(j), s[..n], s[n]);
    }
  }

  // The value at a root of a whole string is that of remainder plus stored check symbols.
  lemma SyndromeIsDifference(j: nat, w: seq<byte>)
    requires j < 4 && |w| == LENGTH
    ensures Eval(Exp(j), w) == Eval(Exp(j), Sum(Ecc(w[..DATA]).Bytes(), w[DATA..]))
  {
    hide Xor, Mul, Exp, Eval, Remainder;
    var z, d, p := Exp(j), w[..DATA], w[DATA..];
    var zeros := [0, 0, 0, 0];
    var front := seq(DATA, i => 0);
    RemainderValue(j, d + zeros);
    assert w == Sum(d + zeros, front + p) by {
      forall i | 0 <= i < LENGTH ensures Sum(d + zeros, front + p)[i] == w[i] { XorZero(w[i]); }
    }
    EvalSum(z, d + zeros, front + p);
    EvalLeadingZeros(z, DATA, p);
    assert seq(DATA, i => 0) == front;
    EvalSum(z, Ecc(d).Bytes(), p);
  }

  lemma {:induction false} EvalLeadingZeros(z: byte, n: nat, p: seq<byte>)
    ensures Eval(z, seq(n, i => 0) + p) == Eval(z, p)
    decreases |p|
  {
    hide Xor, Mul;
    var front := seq(n, i => 0);
    if p == [] {
      assert front + p == front;
      EvalZeros(z, front);
    } else {
      var m := |p| - 1;
      assert (front + p)[..n + m] == front + p[..m];
      EvalLeadingZeros(z, n, p[..m]);
      assert seq(n, i => 0) == front;
    }
  }

  // The comparison rs_decode_string makes first: the stored check symbols equal the recomputed
  // ones exactly when the string vanishes at all four roots.
  lemma FastCheckIsSlowCheck(w: seq<byte>)
    requires |w| == LENGTH
    ensures Ecc(w[..DATA]).Bytes() == w[DATA..] <==> IsCodeword(w)
  {
    hide Xor, Mul, Exp, Eval, Ecc, Distinct;
    var e, p := Ecc(w[..DATA]).Bytes(), w[DATA..];
    var diff := Sum(e, p);
    forall j | 0 <= j < 4 ensures Eval(Exp(j), w) == Eval(Exp(j), diff) { SyndromeIsDifference(j, w); }
    forall i | 0 <= i < 4 ensures diff[i] == 0 <==> e[i] == p[i] { XorCancel(e[i], p[i]); }
    if e == p {
      forall j | 0 <= j < 4 ensures Eval(Exp(j), w) == 0 { EvalZeros(Exp(j), diff); }
    }
    if IsCodeword(w) {
      Roots();
      ManyRootsZero(diff, [Exp(0), Exp(1), Exp(2), Exp(3)]);
      assert forall i | 0 <= i < 4 :: e[i] == p[i];
    }
  }

  // What rs_encode_string leaves behind.
  function EncodeString(w: seq<byte>): (r: seq<byte>)
    requires |w| == LENGTH
    ensures |r| == LENGTH && r[..DATA] == w[..DATA]
  {
    w[..DATA] + Ecc(w[..DATA]).Bytes()
  }

  // Encoding produces the one codeword with the given data symbols.
  lemma EncodeIsTheCodeword(w: seq<byte>, c: seq<byte>)
    requires |w| == LENGTH
    ensures IsCodeword(EncodeString(w))
    ensures IsCodeword(c) && c[..DATA] == w[..DATA] ==> c == EncodeString(w)
  {
    hide Eval, Exp, Ecc;
    var r := EncodeString(w);
    assert r[DATA..] == Ecc(r[..DATA]).Bytes();
    FastCheckIsSlowCheck(r);
    if IsCodeword(c) && c[..DATA] == w[..DATA] {
      FastCheckIsSlowCheck(c);
      assert c == c[..DATA] + c[DATA..];
    }
  }
}
