// What rs_decode_string returns and leaves for any string at all, by the locator its run ends with.
module Outcomes {
  import opened Bytes
  import opened GF256
  import opened Tables
  import opened Poly
  import opened Codeword
  import opened KeyEquation
  import opened BerlekampRuns
  import opened ErrorAlgebra
  import opened Decoder
  import opened Corrections
  import opened TwoErrors

  ghost function Locator(w: seq<byte>): (sigma: seq<byte>)
    requires |w| == LENGTH
    ensures |sigma| == 5
  {
    Run(4, Syndromes(w)).sigma
  }

  ghost function Evaluator4(w: seq<byte>): (omega: seq<byte>)
    requires |w| == LENGTH
    ensures |omega| == 5
  {
    Run(4, Syndromes(w)).omega
  }

  // The locator is 1 + X*x for the locator X of a position of the string.
  ghost predicate LocatesOne(sigma: seq<byte>, p: nat) {
    Below(sigma, 2) && sigma[0] == 1 && sigma[1] == Exp(p)
  }

  lemma {:induction false} DecodeSteps(w: seq<byte>)
    requires |w| == LENGTH
    ensures Locator(w)[0] == 1 && Evaluator4(w)[0] == 1
    ensures Decode(w) == if IsCodeword(w) then (0, w) else Correct(w, Locator(w), Evaluator4(w))
  {
    hide Eval, Exp, Run, Ecc, Correct, Syndromes;
    FastCheckIsSlowCheck(w);
    KeyEquationAlways(4, Syndromes(w));
  }

  // 0 is returned for codewords only; 1 exactly for a locator of one position of the string, 2
  // exactly for one of two, which may be the same; and in all other cases -1, with the string as it was.
  lemma {:induction false} DecodeOutcome(w: seq<byte>)
    requires |w| == LENGTH
    ensures var (e, v) := Decode(w);
      && (e == 0 <==> IsCodeword(w))
      && (e == 1 <==> !IsCodeword(w) && exists p :: 0 <= p < LENGTH && LocatesOne(Locator(w), p))
      && (e == 2 <==> !IsCodeword(w) && exists p, q :: 0 <= p <= q < LENGTH && Locates(Locator(w), p, q))
      && (e == 0 || e == 1 || e == 2 || e == -1)
      && (e == 0 || e == -1 ==> v == w)
  {
    hide IsCodeword, Run, Syndromes, Locator, Evaluator4, Correct, LocatesOne, Locates, Flip;
    DecodeSteps(w);
    var sigma, omega := Locator(w), Evaluator4(w);
    CorrectRange(w, sigma, omega);
    if exists p :: 0 <= p < LENGTH && LocatesOne(sigma, p) {
      var p :| 0 <= p < LENGTH && LocatesOne(sigma, p);
      CorrectOne(w, sigma, omega, p);
    }
    if exists p, q :: 0 <= p <= q < LENGTH && Locates(sigma, p, q) {
      var p, q :| 0 <= p <= q < LENGTH && Locates(sigma, p, q);
      CorrectAt(w, sigma, omega, p, q);
    }
    if !IsCodeword(w) && Decode(w).0 == 1 { OneIsLocated(w, sigma, omega); }
    if !IsCodeword(w) && Decode(w).0 == 2 { TwoAreLocated(w, sigma, omega); }
  }

  lemma CorrectRange(w: seq<byte>, sigma: seq<byte>, omega: seq<byte>)
    requires |w| == LENGTH && |sigma| == 5 && |omega| == 5 && sigma[0] == 1
    ensures var (e, v) := Correct(w, sigma, omega); (e == -1 && v == w) || e == 1 || e == 2
  {
    hide TLog, FirstRoot, ErrorValue, Flip, Xor;
  }

  lemma {:induction false} CorrectOne(w: seq<byte>, sigma: seq<byte>, omega: seq<byte>, p: nat)
    requires |w| == LENGTH && |omega| == 5 && p < LENGTH && LocatesOne(sigma, p)
    ensures Correct(w, sigma, omega) == (1, Flip(w, p, Xor(Exp(p), omega[1])))
  {
    hide Exp, TLog, Xor, Flip, Correct;
    TLogOfExp(p);
    CorrectLinear(w, sigma, omega);
  }

  lemma {:induction false} OneIsLocated(w: seq<byte>, sigma: seq<byte>, omega: seq<byte>)
    requires |w| == LENGTH && |sigma| == 5 && |omega| == 5 && sigma[0] == 1 && Correct(w, sigma, omega).0 == 1
    ensures exists p :: 0 <= p < LENGTH && LocatesOne(sigma, p)
  {
    hide Exp, TLog, Xor, Flip, FirstRoot, ErrorValue;
    ExpEnds1();
    TLogIsLog(sigma[1]);
    assert LocatesOne(sigma, TLog(sigma[1]));
  }

  lemma {:induction false} TwoAreLocated(w: seq<byte>, sigma: seq<byte>, omega: seq<byte>)
    requires |w| == LENGTH && |sigma| == 5 && |omega| == 5 && sigma[0] == 1 && Correct(w, sigma, omega).0 == 2
    ensures exists p, q :: 0 <= p <= q < LENGTH && Locates(sigma, p, q)
  {
    hide Exp, TLog, Xor, Mul, Flip, FirstRoot, ErrorValue, SigmaAt;
    ExpEnds1();
    var p := FirstRoot(sigma, 0);
    FirstRootIsFirst(sigma, 0);
    var d := TLog(sigma[2]) - p;
    var q := if d < 0 then d + 255 else d;
    OtherRoot(sigma, p, q);
    LocatesBoth(sigma, p, q);
    if p <= q { assert Locates(sigma, p, q); } else { assert Locates(sigma, q, p); }
  }

  // The second position the code computes belongs to the other root.
  lemma {:induction false} OtherRoot(sigma: seq<byte>, p: nat, q: nat)
    requires |sigma| == 5 && sigma[0] == 1 && sigma[2] != 0 && p < LENGTH && q < LENGTH && SigmaAt(sigma, p) == 0
    requires p + q == TLog(sigma[2]) || p + q == TLog(sigma[2]) + 255
    ensures sigma[1] == Xor(Exp(p), Exp(q)) && sigma[2] == Mul(Exp(p), Exp(q))
  {
    hide Xor, Mul, Exp, TLog, TExp, SigmaAt;
    TLogIsLog(sigma[2]);
    ExpAdd(p, q);
    PeriodMore(TLog(sigma[2]));
    var x, y := Exp(p), Exp(q);
    SigmaValue(sigma, p);
    MulZero(Mul(x, x));
    SumSolved(Mul(x, x), Mul(sigma[1], x), sigma[2]);
    // x*x = s1*x + x*y, so x = s1 + y
    MulComm(x, y);
    MulXorLeft(sigma[1], y, x);
    ExpInverse(p);
    SameFactor(x, Xor(sigma[1], y), x);
    XorCancel(sigma[1], y);
  }

  lemma PeriodMore(n: nat)
    ensures Exp(n + 255) == Exp(n)
  {
    hide Exp;
    ExpPeriod(n + 255); ExpPeriod(n);
    assert (n + 255) % 255 == n % 255;
  }

  lemma LocatesBoth(sigma: seq<byte>, p: nat, q: nat)
    requires |sigma| == 5 && sigma[0] == 1 && sigma[3] == 0 && sigma[4] == 0
    requires sigma[1] == Xor(Exp(p), Exp(q)) && sigma[2] == Mul(Exp(p), Exp(q))
    ensures Locates(sigma, p, q) && Locates(sigma, q, p)
  {
    hide Exp, Xor, Mul;
    XorComm(Exp(p), Exp(q)); MulComm(Exp(p), Exp(q));
  }

  // What is changed: one symbol by the first syndrome, or the two located symbols by their computed
  // error values; no other.
  lemma {:induction false} DecodeChanges(w: seq<byte>, p: nat, q: nat)
    requires |w| == LENGTH && !IsCodeword(w) && p <= q < LENGTH
    ensures LocatesOne(Locator(w), p) ==> Decode(w) == (1, Flip(w, p, Syndromes(w)[1]))
    ensures Locates(Locator(w), p, q) ==>
              var omega := Evaluator4(w);
              Decode(w) == (2, Flip(Flip(w, p, ErrorValue(omega, p, q)), q, ErrorValue(omega, q, p)))
  {
    hide IsCodeword, Run, Syndromes, Correct, Exp, Xor, Mul, ErrorValue, Flip;
    DecodeSteps(w);
    var sigma, omega := Locator(w), Evaluator4(w);
    if LocatesOne(sigma, p) {
      CorrectOne(w, sigma, omega, p);
      FinalEquations(4, Syndromes(w));
      XorComm(Syndromes(w)[1], sigma[1]);
      XorComm(sigma[1], Xor(sigma[1], Syndromes(w)[1]));
      XorComm(sigma[1], Syndromes(w)[1]);
      XorCancel(Syndromes(w)[1], sigma[1]);
    }
    if Locates(sigma, p, q) {
      CorrectAt(w, sigma, omega, p, q);
    }
  }

  // ----- when the string left after a return value of 1 is a codeword -----

  // tau after two steps has a coefficient at x.
  lemma {:induction false} TauAfterTwo(syn: seq<byte>)
    requires |syn| == 5 && syn[0] == 1 && syn[1] != 0
    ensures Run(2, syn).tau[1] != 0
  {
    hide Conv, Xor, Mul, Inv;
    FirstDelta(syn);
    var one := Run(1, syn);
    RunStep(1, syn); RunStep(2, syn);
    MulInv(syn[1]); MulOne(Inv(syn[1])); MulOne(syn[1]); XorZero(syn[1]);
    var delta := Conv(one.sigma, syn, 2);
    if delta != 0 {
      MulInv(delta);
      MulNonzero(syn[1], Inv(delta));
    }
  }

  // When the linear locator of step 2 stands at step 3 but not at step 4, the run ends cubic.
  lemma {:induction false} LateDelta(syn: seq<byte>)
    requires |syn| == 5 && syn[0] == 1 && syn[1] != 0
    requires Conv(Run(2, syn).sigma, syn, 3) == 0 && Conv(Run(2, syn).sigma, syn, 4) != 0
    ensures Run(4, syn).sigma[3] != 0
  {
    hide Conv, Xor, Mul, Run, AddScaled, Step;
    SecondStep(syn);
    TauAfterTwo(syn);
    var two, three := Run(2, syn), Run(3, syn);
    RunStep(3, syn); RunStep(4, syn);
    ZeroDelta(3, syn, two);
    StepDegrees(3, syn, two, 2, 2);
    TauShifted(syn, two);
    CubicStep(syn, three);
  }

  lemma TauShifted(syn: seq<byte>, st: State)
    requires |syn| == 5 && Shaped(st) && Conv(st.sigma, syn, 3) == 0
    ensures Step(3, syn, st).tau[2] == st.tau[1]
  {
    hide Conv, AddScaled;
  }

  // The third discrepancy shows exactly when the syndromes are not in geometric progression.
  lemma {:induction false} GeometricStart(syn: seq<byte>)
    requires |syn| == 5 && syn[0] == 1 && syn[1] != 0 && Mul(syn[1], syn[3]) == Mul(syn[2], syn[2])
    ensures Conv(Run(2, syn).sigma, syn, 3) == 0
  {
    hide Xor, Mul, Run, Conv;
    SecondStep(syn);
    FinalEquations(2, syn);
    var s := Run(2, syn).sigma[1];
    ConvValues(Run(2, syn).sigma, syn);
    XorZero(Xor(syn[2], Mul(s, syn[1])));
    XorCancel(syn[2], Mul(s, syn[1]));
    MulZero(syn[1]);
    XorZero(Xor(syn[3], Mul(s, syn[2])));
    // s1*s3 = s2*s2 = s1*(s*s2)
    MulAssoc(s, syn[1], syn[2]);
    MulSwap(syn[1], s, syn[2]);
    MulComm(syn[1], syn[3]); MulComm(syn[1], Mul(s, syn[2]));
    SameFactor(syn[3], Mul(s, syn[2]), syn[1]);
    XorCancel(syn[3], Mul(s, syn[2]));
  }

  // The string with one symbol changed by the first syndrome is a codeword when the others follow.
  lemma {:induction false} OneFlipped(w: seq<byte>, p: nat)
    requires |w| == LENGTH && p < LENGTH
    ensures var syn, x := Syndromes(w), Exp(p);
      IsCodeword(Flip(w, p, syn[1])) <==>
      syn[2] == Mul(x, syn[1]) && syn[3] == Mul(Mul(x, x), syn[1]) && syn[4] == Mul(Mul(x, Mul(x, x)), syn[1])
  {
    hide Exp, Eval, Xor, Mul, Flip, Syndromes, Pow;
    var syn, x := Syndromes(w), Exp(p);
    SyndromeDef(w);
    FirstPowers(x);
    MulOne(syn[1]); XorZero(syn[1]);
    FlippedValue(w, p, syn[1], 0); FlippedValue(w, p, syn[1], 1);
    FlippedValue(w, p, syn[1], 2); FlippedValue(w, p, syn[1], 3);
    XorCancel(syn[2], Mul(x, syn[1]));
    XorCancel(syn[3], Mul(Mul(x, x), syn[1]));
    XorCancel(syn[4], Mul(Mul(x, Mul(x, x)), syn[1]));
    assert IsCodeword(Flip(w, p, syn[1])) <==> forall j | 0 <= j < 4 :: Eval(Exp(j), Flip(w, p, syn[1])) == 0;
  }

  lemma Squares(x: byte, s: byte)
    ensures Mul(s, Mul(Mul(x, x), s)) == Mul(Mul(x, s), Mul(x, s))
  {
    hide *;
    MulAssoc(x, x, s);
    MulSwap(s, x, Mul(x, s));
    MulAssoc(x, s, Mul(x, s));
  }

  // The key equation of a linear locator whose evaluator is linear too.
  lemma {:induction false} Progression(syn: seq<byte>, x: byte)
    requires |syn| == 5 && Xor(Xor(syn[2], Mul(x, syn[1])), 0) == 0
    requires Xor(Xor(syn[3], Mul(x, syn[2])), 0) == 0 && Xor(Xor(syn[4], Mul(x, syn[3])), 0) == 0
    ensures syn[2] == Mul(x, syn[1]) && syn[3] == Mul(Mul(x, x), syn[1]) && syn[4] == Mul(Mul(x, Mul(x, x)), syn[1])
  {
    hide *;
    XorZero(Xor(syn[2], Mul(x, syn[1]))); XorCancel(syn[2], Mul(x, syn[1]));
    XorZero(Xor(syn[3], Mul(x, syn[2]))); XorCancel(syn[3], Mul(x, syn[2]));
    XorZero(Xor(syn[4], Mul(x, syn[3]))); XorCancel(syn[4], Mul(x, syn[3]));
    MulAssoc(x, x, syn[1]);
    MulAssoc(x, Mul(x, x), syn[1]);
  }

  // A return value of 1 promises a codeword if and only if the first three syndromes are in
  // geometric progression, and the first is not zero.
  lemma {:induction false} OneIsRight(w: seq<byte>)
    requires |w| == LENGTH && Decode(w).0 == 1
    ensures var syn := Syndromes(w);
      IsCodeword(Decode(w).1) <==> syn[1] != 0 && Mul(syn[1], syn[3]) == Mul(syn[2], syn[2])
  {
    hide IsCodeword, Run, Syndromes, Decode, Exp, Xor, Mul, Flip, Locates, Conv;
    DecodeOutcome(w);
    var syn, sigma := Syndromes(w), Locator(w);
    var p :| 0 <= p < LENGTH && LocatesOne(sigma, p);
    DecodeChanges(w, p, p);
    FinalEquations(4, syn);
    OneFlipped(w, p);
    Squares(Exp(p), syn[1]);
    FlipTwice(w, p, 0, 0);
    if syn[1] != 0 && Mul(syn[1], syn[3]) == Mul(syn[2], syn[2]) {
      GeometricStart(syn);
      SecondStep(syn);
      if Conv(Run(2, syn).sigma, syn, 4) != 0 { LateDelta(syn); }
      LinearRun(syn);
      MulZero(syn[1]); MulZero(syn[2]);
      Progression(syn, Exp(p));
    }
  }
}
