// What rs_decode_string does to a codeword with one or two wrong symbols.
module Corrections {
  import opened Bytes
  import opened GF256
  import opened Tables
  import opened Poly
  import opened Codeword
  import opened KeyEquation
  import opened BerlekampRuns
  import opened Decoder

  // ----- syndromes of a damaged codeword -----

  lemma FlippedValue(w: seq<byte>, p: nat, e: byte, j: nat)
    requires |w| == LENGTH && p < LENGTH
    ensures Eval(Exp(j), Flip(w, p, e)) == Xor(Eval(Exp(j), w), Mul(Pow(Exp(p), j), e))
  {
    hide Eval, Xor, Mul, Exp, Pow;
    EvalChange(Exp(j), w, LENGTH - 1 - p, e);
    PowExp(j, p); PowExp(p, j);
    assert j * p == p * j;
    MulComm(e, Pow(Exp(p), j));
  }

  lemma FirstPowers(x: byte)
    ensures Pow(x, 0) == 1 && Pow(x, 1) == x && Pow(x, 2) == Mul(x, x) && Pow(x, 3) == Mul(x, Mul(x, x))
  {
    hide Mul;
    MulOne(x);
    assert Pow(x, 1) == Mul(x, Pow(x, 0));
    assert Pow(x, 2) == Mul(x, Pow(x, 1));
    assert Pow(x, 3) == Mul(x, Pow(x, 2));
  }

  lemma {:induction false} OneErrorSyndromes(c: seq<byte>, p: nat, e: byte)
    requires |c| == LENGTH && IsCodeword(c) && p < LENGTH
    ensures var x := Exp(p); var syn := Syndromes(Flip(c, p, e));
      && syn[1] == e && syn[2] == Mul(x, e) && syn[3] == Mul(Mul(x, x), e) && syn[4] == Mul(Mul(x, x), Mul(x, e))
  {
    hide *;
    var x := Exp(p);
    SyndromeDef(Flip(c, p, e));
    CodewordValues(c);
    FlippedValue(c, p, e, 0); FlippedValue(c, p, e, 1); FlippedValue(c, p, e, 2); FlippedValue(c, p, e, 3);
    FirstPowers(x);
    MulOne(e); XorZero(e); XorZero(Mul(x, e)); XorZero(Mul(Mul(x, x), e)); XorZero(Mul(Mul(x, Mul(x, x)), e));
    MulComm(x, Mul(x, x));
    MulAssoc(Mul(x, x), x, e);
  }

  lemma SyndromeDef(w: seq<byte>)
    requires |w| == LENGTH
    ensures var syn := Syndromes(w);
      && |syn| == 5 && syn[0] == 1 && syn[1] == Eval(Exp(0), w) && syn[2] == Eval(Exp(1), w)
      && syn[3] == Eval(Exp(2), w) && syn[4] == Eval(Exp(3), w)
  {}

  lemma CodewordValues(c: seq<byte>)
    requires IsCodeword(c)
    ensures |c| == LENGTH && Eval(Exp(0), c) == 0 && Eval(Exp(1), c) == 0 && Eval(Exp(2), c) == 0
            && Eval(Exp(3), c) == 0
  {
    hide Eval, Exp;
  }

  lemma {:induction false} TwoErrorSyndromes(c: seq<byte>, p: nat, e: byte, q: nat, f: byte)
    requires |c| == LENGTH && IsCodeword(c) && p < LENGTH && q < LENGTH
    ensures var x, y := Exp(p), Exp(q); var syn := Syndromes(Flip(Flip(c, p, e), q, f));
      && syn[1] == Xor(e, f)
      && syn[2] == Xor(Mul(x, e), Mul(y, f))
      && syn[3] == Xor(Mul(Mul(x, x), e), Mul(Mul(y, y), f))
      && syn[4] == Xor(Mul(Mul(x, x), Mul(x, e)), Mul(Mul(y, y), Mul(y, f)))
  {
    hide *;
    OneErrorSyndromes(c, p, e);
    var w := Flip(c, p, e);
    var y := Exp(q);
    SyndromeDef(w); SyndromeDef(Flip(w, q, f));
    FlippedValue(w, q, f, 0); FlippedValue(w, q, f, 1); FlippedValue(w, q, f, 2); FlippedValue(w, q, f, 3);
    FirstPowers(y);
    MulOne(f);
    MulComm(y, Mul(y, y));
    MulAssoc(Mul(y, y), y, f);
  }

  // ----- flips -----

  lemma FlipTwice(w: seq<byte>, p: nat, e: byte, f: byte)
    requires |w| == LENGTH && p < LENGTH
    ensures Flip(Flip(w, p, e), p, f) == Flip(w, p, Xor(e, f))
    ensures Flip(w, p, 0) == w
  {
    hide Xor;
    XorAssoc(w[LENGTH - 1 - p], e, f);
    XorZero(w[LENGTH - 1 - p]);
  }

  lemma FlipOrder(w: seq<byte>, p: nat, e: byte, q: nat, f: byte)
    requires |w| == LENGTH && p < LENGTH && q < LENGTH
    ensures Flip(Flip(w, p, e), q, f) == Flip(Flip(w, q, f), p, e)
  {
    hide Xor;
    if p == q {
      FlipTwice(w, p, e, f); FlipTwice(w, p, f, e); XorComm(e, f);
    }
  }

  // ----- one error -----

  // Any one wrong symbol, check symbols included, is put right, and 1 is returned.
  lemma {:induction false} OneError(c: seq<byte>, p: nat, e: byte)
    requires |c| == LENGTH && IsCodeword(c) && p < LENGTH && e != 0
    ensures Decode(Flip(c, p, e)) == (1, c)
  {
    hide Xor, Mul, Exp, Run, Conv, Eval, IsCodeword, Flip, Ecc, TLog, TExp, Syndromes;
    var w := Flip(c, p, e);
    var syn := Syndromes(w);
    var x := Exp(p);
    OneErrorSyndromes(c, p, e);
    NotACodeword(w);
    SecondStep(syn);
    var two := Run(2, syn);
    FinalEquations(2, syn);
    // the locator after two steps is 1 + x*X
    XorZero(Xor(syn[2], Mul(two.sigma[1], e)));
    XorZero(two.sigma[2]);
    XorCancel(syn[2], Mul(two.sigma[1], e));
    SameFactor(two.sigma[1], x, e);
    OneErrorDeltas(syn, two.sigma, x, e);
    LinearRun(syn);
    TLogOfExp(p);
    ExpEnds1();
    XorComm(e, x);
    XorAssoc(x, x, e); XorZero(x); XorZero(e);
    FlipTwice(c, p, e, e);
    CorrectLinear(w, Run(4, syn).sigma, Run(4, syn).omega);
  }

  lemma {:induction false} CorrectLinear(w: seq<byte>, sigma: seq<byte>, omega: seq<byte>)
    requires |w| == LENGTH && |sigma| == 5 && |omega| == 5 && sigma[0] == 1 && Below(sigma, 2)
    requires sigma[1] != 0 && TLog(sigma[1]) < LENGTH
    ensures Correct(w, sigma, omega) == (1, Flip(w, TLog(sigma[1]), Xor(sigma[1], omega[1])))
  {
    hide Xor, Flip, CorrectTwo;
  }

  lemma ExpEnds1()
    ensures TLog(1) == 0
  {}

  lemma {:induction false} SameFactor(s: byte, x: byte, e: byte)
    requires e != 0 && Mul(x, e) == Mul(s, e)
    ensures s == x
  {
    hide *;
    MulXorLeft(s, x, e);
    XorZero(Mul(s, e));
    MulNonzero(Xor(s, x), e);
    XorCancel(s, x);
  }

  // A string that is not a codeword fails the comparison and is corrected.
  lemma {:induction false} NotACodeword(w: seq<byte>)
    requires |w| == LENGTH && (Syndromes(w)[1] != 0 || Syndromes(w)[2] != 0)
    ensures Decode(w) == (KeyEquationAlways(4, Syndromes(w));
                          Correct(w, Run(4, Syndromes(w)).sigma, Run(4, Syndromes(w)).omega))
  {
    hide Eval, Exp, Run, Ecc, Correct;
    FastCheckIsSlowCheck(w);
    SyndromeDef(w);
  }

  lemma {:induction false} OneErrorDeltas(syn: seq<byte>, sigma: seq<byte>, x: byte, e: byte)
    requires |syn| == 5 && syn[0] == 1 && Below(sigma, 2) && sigma[0] == 1 && sigma[1] == x
    requires syn[2] == Mul(x, e) && syn[3] == Mul(Mul(x, x), e) && syn[4] == Mul(Mul(x, x), Mul(x, e))
    ensures Conv(sigma, syn, 3) == 0 && Conv(sigma, syn, 4) == 0
  {
    hide Xor, Mul, Conv;
    ConvValues(sigma, syn);
    MulAssoc(x, x, e);
    MulAssoc(x, x, Mul(x, e));
    MulZero(syn[1]); MulZero(syn[2]);
    XorZero(syn[3]); XorZero(syn[4]); XorZero(0);
  }
}
