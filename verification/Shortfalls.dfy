// Pairs of wrong symbols that rs_decode_string does not undo, on any codeword at all.
module Shortfalls {
  import opened Bytes
  import opened GF256
  import opened Tables
  import opened Poly
  import opened Codeword
  import opened KeyEquation
  import opened BerlekampRuns
  import opened ErrorAlgebra
  import opened Decoder
  import opened Corrections
  import opened TwoErrors
  import opened Outcomes

  // Of the error values at two given positions, exactly one is found when both are wrong by it.
  lemma {:induction false} CoincidenceIsOneValue(p: nat, q: nat, e: byte)
    requires p < LENGTH && q < LENGTH && p != q
    ensures Xor(Exp(p), Exp(q)) != 0
    ensures Coincidence(p, q, e) <==> e == Mul(Mul(Exp(p), Exp(q)), Inv(Xor(Exp(p), Exp(q))))
  {
    hide Xor, Mul, Exp, Inv;
    DistinctLocators(p, q);
    var s, t := Xor(Exp(p), Exp(q)), Mul(Exp(p), Exp(q));
    MulInv(s);
    MulAssoc(e, s, Inv(s)); MulComm(e, 1); MulOne(e);
    MulAssoc(t, Inv(s), s); MulComm(t, 1); MulOne(t);
  }

  // Both symbols wrong by 1 in the two last positions: the decoder gives up.
  lemma {:induction false} EqualErrorsNotFound(c: seq<byte>)
    requires |c| == LENGTH && IsCodeword(c)
    ensures var w := Flip(Flip(c, 0, 1), 1, 1); Decode(w) == (-1, w)
  {
    hide Xor, Mul, Exp, IsCodeword, Decode, Flip;
    Roots();
    WholeSums();
    MulOne(3); MulOne(2);
    assert !Coincidence(0, 1, 1);
    TwoErrorsExact(c, 0, 1, 1, 1);
  }

  // The sum for error 0x51 at position 2, next to an error at position 0, is 256: it is stored as
  // 0, and the symbol is not restored although 2 is returned.
  lemma {:induction false} SumWraps()
    ensures Wraps(2, 0, 0x51)
  {
    hide Xor, Mul, Exp, TLog, XTime;
    Roots();
    WholeSums();
    MulXorLeft(4, 1, 0x51); MulComm(5, 0x51);
    MulByAlpha(0x51); MulOne(0x51);
    XTimeIsDouble(0x51); XTimeIsDouble(0xa2);
    ExpAdd(3, 506);
    ExpPeriod(509);
    TLogOfExp(254);
  }

  lemma SmallSums()
    ensures XorNat(1, 2) == 3 && XorNat(4, 1) == 5 && XorNat(5, 5) == 0 && XorNat(9, 1) == 8
  {}

  lemma WholeSums()
    ensures Xor(1, 2) == 3 && Xor(4, 1) == 5 && Xor(0x59, 0x51) == 8
  {
    SmallSums();
    XorNibble(5, 9, 5, 1);
  }

  lemma {:induction false} WrappedSumNotRestored(c: seq<byte>, f: byte)
    requires |c| == LENGTH && IsCodeword(c) && f != 0 && f != 0x51
    ensures var d := Decode(Flip(Flip(c, 0, f), 2, 0x51)); d.0 == 2 && d.1 != c
  {
    hide Xor, Mul, Exp, IsCodeword, Decode, Flip, Wraps, Coincidence;
    SumWraps();
    TwoErrorsExact(c, 0, f, 2, 0x51);
    TwoErrorsUndone(c, 0, f, 2, 0x51);
  }

  // ----- more than two wrong symbols -----

  // Errors 1, 14, 56 and 65 in the last four symbols.
  function FourErrors(): (e: seq<byte>)
    ensures |e| == LENGTH
  {
    seq(DATA, i => 0) + [1, 14, 56, 65]
  }

  lemma FourNibbles()
    ensures XorNat(1, 14) == 15 && XorNat(2, 14) == 12 && XorNat(4, 14) == 10 && XorNat(8, 14) == 6
    ensures XorNat(15, 8) == 7 && XorNat(3, 4) == 7 && XorNat(7, 1) == 6 && XorNat(1, 3) == 2 && XorNat(2, 3) == 1
  {}

  lemma FourSums()
    ensures Xor(1, 14) == 15 && Xor(15, 56) == 55 && Xor(55, 65) == 118
    ensures Xor(2, 14) == 12 && Xor(24, 56) == 32 && Xor(4, 14) == 10 && Xor(40, 56) == 16
    ensures Xor(8, 14) == 6 && Xor(48, 56) == 8 && Xor(64, 65) == 1
  {
    hide XorNat;
    FourNibbles();
    XorZero(3); XorZero(8); XorZero(4); XorZero(1);
    XorNibble(0, 15, 3, 8); XorNibble(3, 7, 4, 1); XorNibble(1, 8, 3, 8); XorNibble(2, 8, 3, 8);
    XorNibble(3, 0, 3, 8); XorNibble(4, 0, 4, 1);
  }

  lemma {:induction false} FourValues(j: nat)
    requires j < 4
    ensures Eval(Exp(j), [1, 14, 56, 65]) == if j == 0 then 118 else 1
  {
    hide Xor, Mul, XTime, Exp, Eval;
    Roots();
    FourSums();
    EvalFour(Exp(j), 1, 14, 56, 65);
    if j == 0 {
      MulOne(1); MulOne(15); MulOne(55);
    } else if j == 1 {
      MulByAlpha(1); MulByAlpha(12); MulByAlpha(32);
      XTimeSmall(1); XTimeSmall(12); XTimeSmall(32);
    } else if j == 2 {
      MulByAlpha(1); MulByAlpha(10); MulByAlpha(16);
      XTimeSmall(1); XTimeSmall(2); XTimeSmall(10); XTimeSmall(20); XTimeSmall(16); XTimeSmall(32);
    } else {
      MulByAlpha(1); MulByAlpha(6); MulByAlpha(8);
      XTimeSmall(1); XTimeSmall(2); XTimeSmall(4); XTimeSmall(6); XTimeSmall(12); XTimeSmall(24);
      XTimeSmall(8); XTimeSmall(16); XTimeSmall(32);
    }
  }

  lemma {:induction false} FourSyndromes(c: seq<byte>)
    requires |c| == LENGTH && IsCodeword(c)
    ensures Syndromes(Sum(c, FourErrors())) == [1, 118, 1, 1, 1]
  {
    hide Xor, Exp, Eval, Syndromes;
    var w := Sum(c, FourErrors());
    SyndromeDef(w);
    forall j | 0 <= j < 4 ensures Eval(Exp(j), w) == if j == 0 then 118 else 1 {
      EvalSum(Exp(j), c, FourErrors());
      EvalLeadingZeros(Exp(j), DATA, [1, 14, 56, 65]);
      assert FourErrors() == seq(DATA, i => 0) + [1, 14, 56, 65];
      FourValues(j);
      XorZero(Eval(Exp(j), FourErrors()));
    }
    assert Eval(Exp(1), w) == 1 && Eval(Exp(2), w) == 1 && Eval(Exp(3), w) == 1;
  }

  // They are taken for a single one: 1 is returned, and what is left is no codeword.
  lemma {:induction false} FourTakenForOne(c: seq<byte>)
    requires |c| == LENGTH && IsCodeword(c)
    ensures var d := Decode(Sum(c, FourErrors())); d.0 == 1 && !IsCodeword(d.1)
  {
    hide Xor, Mul, Exp, Run, Syndromes, Eval, Conv, Decode, FourErrors, IsCodeword;
    var w := Sum(c, FourErrors());
    var syn := Syndromes(w);
    FourSyndromes(c);
    MulOne(118); MulOne(1); MulZero(118); MulZero(1); XorZero(1);
    XorCancel(118, 1);
    SecondErrorShows(syn);
    QuadraticRun(syn);
    FinalEquations(4, syn);
    var sigma := Run(4, syn).sigma;
    SumSolved(syn[3], Mul(sigma[1], syn[2]), Mul(sigma[2], syn[1]));
    SumSolved(syn[4], Mul(sigma[1], syn[3]), Mul(sigma[2], syn[2]));
    UniqueLocator(118, 1, 1, 1, 1, 0, sigma[1], sigma[2]);
    Roots();
    assert LocatesOne(Locator(w), 0);
    assert !IsCodeword(w) by { if IsCodeword(w) { CodewordValues(w); SyndromeDef(w); } }
    DecodeOutcome(w);
    OneIsRight(w);
  }
}
