// The exact result of rs_decode_string on a codeword with two wrong symbols.
module TwoErrors {
  import opened Bytes
  import opened GF256
  import opened Tables
  import opened Poly
  import opened Codeword
  import opened KeyEquation
  import opened BerlekampRuns
  import opened ErrorAlgebra
  import opened Decoder
  import opened Corrections

  // ----- the logarithm formulas of the root search and of the error values -----

  lemma TimesPower(v: byte, n: nat)
    requires v != 0 && TLog(v) + n < 768
    ensures TExp(TLog(v) + n) == Mul(v, Exp(n))
  {
    hide *;
    TLogIsLog(v);
    TExpIsExp(TLog(v) + n);
    ExpAdd(TLog(v), n);
  }

  lemma TLogBound(v: byte)
    ensures TLog(v) < 255
  {
    hide TLog;
    if v != 0 { TLogIsLog(v); } else { TLogOfZero(); }
  }

  lemma TLogOfZero()
    ensures TLog(0) == 0
  {}

  lemma {:induction false} SigmaValue(sigma: seq<byte>, r: nat)
    requires |sigma| == 5 && r < 256 && sigma[0] == 1 && sigma[2] != 0
    ensures Mul(Mul(Exp(r), Exp(r)), SigmaAt(sigma, r)) ==
            Xor(Xor(Mul(Exp(r), Exp(r)), Mul(sigma[1], Exp(r))), sigma[2])
  {
    hide Xor, Mul, Exp, TLog, TExp;
    TLogBound(sigma[1]); TLogBound(sigma[2]);
    var n := 255 - r;
    if sigma[1] != 0 { TimesPower(sigma[1], n); } else { MulZero(Exp(n)); }
    TimesPower(sigma[2], 2 * n);
    ExpAdd(n, n);
    ExpInverse(r);
    ReversedQuadratic(Exp(r), Exp(n), sigma[1], sigma[2]);
  }

  lemma {:induction false} OmegaValue(omega: seq<byte>, r: nat)
    requires |omega| == 5 && r < 256 && omega[0] == 1
    ensures Mul(Mul(Exp(r), Exp(r)), OmegaAt(omega, r)) ==
            Xor(Xor(Mul(Exp(r), Exp(r)), Mul(omega[1], Exp(r))), omega[2])
  {
    hide Xor, Mul, Exp, TLog, TExp;
    TLogBound(omega[1]); TLogBound(omega[2]);
    var n := 255 - r;
    if omega[1] != 0 { TimesPower(omega[1], n); } else { MulZero(Exp(n)); }
    if omega[2] != 0 { TimesPower(omega[2], 2 * n); } else { MulZero(Mul(Exp(n), Exp(n))); }
    ExpAdd(n, n);
    ExpInverse(r);
    ReversedQuadratic(Exp(r), Exp(n), omega[1], omega[2]);
  }

  // ----- the root search -----

  ghost predicate Locates(sigma: seq<byte>, p: nat, q: nat) {
    && Below(sigma, 3) && sigma[0] == 1
    && sigma[1] == Xor(Exp(p), Exp(q)) && sigma[2] == Mul(Exp(p), Exp(q))
  }

  lemma {:induction false} LocatorCoefficients(p: nat, q: nat)
    requires p < q < LENGTH
    ensures Exp(p) != Exp(q) && Xor(Exp(p), Exp(q)) != 0 && Mul(Exp(p), Exp(q)) != 0
  {
    hide Xor, Mul, Exp, TLog;
    DistinctLocators(p, q);
    XorCancel(Exp(p), Exp(q));
    ProductOfLocators(p, q);
  }

  lemma {:induction false} ProductOfLocators(p: nat, q: nat)
    requires p < LENGTH && q < LENGTH
    ensures Mul(Exp(p), Exp(q)) != 0 && TLog(Mul(Exp(p), Exp(q))) == p + q
  {
    hide Mul, Exp, TLog;
    ExpAdd(p, q);
    TLogOfExp(p + q);
  }

  lemma {:induction false} RootsAreErrors(sigma: seq<byte>, p: nat, q: nat, r: nat)
    requires p < LENGTH && q < LENGTH && Locates(sigma, p, q) && r < 255
    ensures SigmaAt(sigma, r) == 0 <==> r == p || r == q
  {
    hide Xor, Mul, Exp, SigmaAt;
    ProductOfLocators(p, q);
    var z := Exp(r);
    SigmaValue(sigma, r);
    Factored(z, Exp(p), Exp(q));
    MulNonzero(Mul(z, z), SigmaAt(sigma, r));
    ExpInverse(r); MulNonzero(z, z);
    MulNonzero(Xor(z, Exp(p)), Xor(z, Exp(q)));
    XorCancel(z, Exp(p)); XorCancel(z, Exp(q));
    if z == Exp(p) { ExpInjective(r, p); }
    if z == Exp(q) { ExpInjective(r, q); }
  }

  lemma {:induction false} SearchFinds(sigma: seq<byte>, p: nat, q: nat)
    requires p <= q < LENGTH && Locates(sigma, p, q)
    ensures FirstRoot(sigma, 0) == p
  {
    hide SigmaAt, Exp, Xor, Mul, FirstRoot;
    var r := FirstRoot(sigma, 0);
    FirstRootIsFirst(sigma, 0);
    RootsAreErrors(sigma, p, q, p);
    FirstRootIsLeast(sigma, p);
    RootsAreErrors(sigma, p, q, r);
  }

  lemma {:induction false} FirstRootIsLeast(sigma: seq<byte>, p: nat)
    requires |sigma| == 5 && p < 256 && SigmaAt(sigma, p) == 0
    ensures FirstRoot(sigma, 0) <= p && SigmaAt(sigma, FirstRoot(sigma, 0)) == 0
  {
    hide SigmaAt, FirstRoot;
    FirstRootIsFirst(sigma, 0);
  }

  // ----- the error values -----

  // The value of the error evaluator at the inverse of position p.
  function Magnitude(p: nat, q: nat, e: byte): byte
    requires p < LENGTH
  {
    Mul(Mul(e, Xor(Exp(p), Exp(q))), Exp(510 - 2 * p))
  }

  // Whether the sum of its logarithm and the position leaves the byte it is stored in.
  predicate Wraps(p: nat, q: nat, e: byte)
    requires p < LENGTH
  {
    TLog(Magnitude(p, q, e)) + p > 255
  }

  ghost predicate Evaluates(omega: seq<byte>, p: nat, q: nat, e: byte)
    requires |omega| == 5
  {
    && omega[0] == 1
    && Xor(Xor(Mul(Exp(p), Exp(p)), Mul(omega[1], Exp(p))), omega[2]) == Mul(e, Xor(Exp(p), Exp(q)))
  }

  lemma {:induction false} OmegaIsMagnitude(omega: seq<byte>, p: nat, q: nat, e: byte)
    requires p < LENGTH && |omega| == 5 && Evaluates(omega, p, q, e)
    ensures OmegaAt(omega, p) == Magnitude(p, q, e)
    ensures Mul(Mul(Exp(p), Exp(p)), OmegaAt(omega, p)) == Mul(e, Xor(Exp(p), Exp(q)))
  {
    hide Xor, Mul, Exp, OmegaAt;
    var v, m, n := OmegaAt(omega, p), Mul(e, Xor(Exp(p), Exp(q))), Exp(510 - 2 * p);
    var xx := Mul(Exp(p), Exp(p));
    OmegaValue(omega, p);
    ExpAdd(p, p);
    ExpAdd(2 * p, 510 - 2 * p);
    ExpPeriod(510); ExpZero();
    // v = v * (xx * n) = m * n
    MulComm(xx, v);
    MulAssoc(v, xx, n);
    MulOne(v);
  }

  // (1 + y/x) * x = x + y.
  lemma {:induction false} Divisor(p: nat, q: nat)
    requires p < LENGTH && q < LENGTH
    ensures Mul(Xor(1, TExp(255 + q - p)), Exp(p)) == Xor(Exp(p), Exp(q))
  {
    hide Xor, Mul, Exp, TExp;
    TExpIsExp(255 + q - p);
    MulXorLeft(1, Exp(255 + q - p), Exp(p));
    MulOne(Exp(p));
    ExpAdd(255 + q - p, p);
    ExpPeriod(255 + q); ExpPeriod(q);
  }

  // The code's value r satisfies r * (x+y) = e * (x+y) when its stored sum fits, and
  // 2r in place of r when it wraps: the byte is then off by a factor of alpha.
  lemma {:induction false} ErrorValueExact(omega: seq<byte>, p: nat, q: nat, e: byte)
    requires p < LENGTH && q < LENGTH && p != q && e != 0
    requires |omega| == 5 && Evaluates(omega, p, q, e)
    ensures !Wraps(p, q, e) ==> ErrorValue(omega, p, q) == e
    ensures Wraps(p, q, e) ==> Mul(2, ErrorValue(omega, p, q)) == e && ErrorValue(omega, p, q) != e
  {
    hide Xor, Mul, Exp, TExp, TLog, OmegaAt, Magnitude;
    OmegaIsMagnitude(omega, p, q, e);
    DistinctLocators(p, q);
    Divisor(p, q);
    var v, k, a := OmegaAt(omega, p), Xor(1, TExp(255 + q - p)), Xor(Exp(p), Exp(q));
    MulZero(Exp(p)); MulNonzero(e, a);
    MulZero(Mul(Exp(p), Exp(p)));
    TLogBound(v); TLogBound(k);
    var t, div := TLog(v) + p, TLog(k);
    ExpQuotient(v, k, p, e, a);
    if t <= 255 {
      assert ErrorValue(omega, p, q) == TExp(255 + t - div);
      TExpIsExp(255 + t - div);
    } else {
      assert t % 256 == t - 256;
      var r := ErrorValue(omega, p, q);
      assert r == TExp(t - 1 - div);
      TExpIsExp(t - 1 - div);
      ExpAdd(1, t - 1 - div);
      ExpPeriod(t - div); ExpPeriod(255 + t - div);
      assert (255 + t - div) % 255 == (t - div) % 255;
      Roots();
      assert Mul(2, r) == e;
      TwiceDiffers(r);
      MulZero(2);
    }
  }

  lemma {:induction false} DistinctLocators(p: nat, q: nat)
    requires p < LENGTH && q < LENGTH && p != q
    ensures Xor(Exp(p), Exp(q)) != 0
  {
    hide Xor, Exp;
    if Exp(p) == Exp(q) { ExpInjective(p, q); }
    XorCancel(Exp(p), Exp(q));
  }

  lemma {:induction false} TwiceDiffers(r: byte)
    ensures r != 0 ==> Mul(2, r) != r
  {
    hide Xor, Mul;
    MulXorLeft(2, 1, r);
    MulOne(r);
    XorCancel(Mul(2, r), r);
    XorCancel(2, 1);
    MulNonzero(Xor(2, 1), r);
  }

  // v*x/k = e, in exponents, when v*x^2 = e*a and k*x = a.
  lemma {:induction false} ExpQuotient(v: byte, k: byte, p: nat, e: byte, a: byte)
    requires p < LENGTH && v != 0 && k != 0 && a != 0
    requires Mul(Mul(Exp(p), Exp(p)), v) == Mul(e, a) && Mul(k, Exp(p)) == a
    ensures TLog(v) < 255 && TLog(k) < 255 && Exp(255 + (TLog(v) + p) - TLog(k)) == e
  {
    hide Xor, Mul, Exp, TLog;
    TLogIsLog(v); TLogIsLog(k);
    var n := 255 + (TLog(v) + p) - TLog(k);
    var r, x := Exp(n), Exp(p);
    // r*k = v*x
    ExpAdd(n, TLog(k));
    ExpAdd(TLog(v), p);
    ExpPeriod(255 + (TLog(v) + p)); ExpPeriod(TLog(v) + p);
    assert (255 + (TLog(v) + p)) % 255 == (TLog(v) + p) % 255;
    assert Mul(r, k) == Mul(v, x);
    // r*a = (r*k)*x = v*x*x = e*a
    MulAssoc(r, k, x);
    MulAssoc(v, x, x);
    MulComm(v, Mul(x, x));
    MulComm(r, a); MulComm(e, a);
    SameFactor(r, e, a);
  }

  // ----- putting it together -----

  // The final arrays of a run that ends in the true locator.
  ghost predicate EndsInLocator(syn: seq<byte>, p: nat, q: nat)
    requires |syn| == 5
  {
    Locates(Run(4, syn).sigma, p, q)
  }

  lemma {:induction false} EvaluatorOfRun(c: seq<byte>, p: nat, e: byte, q: nat, f: byte)
    requires |c| == LENGTH && IsCodeword(c) && p < LENGTH && q < LENGTH
    requires EndsInLocator(Syndromes(Flip(Flip(c, p, e), q, f)), p, q)
    ensures var omega := Run(4, Syndromes(Flip(Flip(c, p, e), q, f))).omega;
            Evaluates(omega, p, q, e) && Evaluates(omega, q, p, f)
  {
    hide Xor, Mul, Exp, Run, Syndromes, Flip, Eval, IsCodeword;
    var x, y := Exp(p), Exp(q);
    var syn := Syndromes(Flip(Flip(c, p, e), q, f));
    TwoErrorSyndromes(c, p, e, q, f);
    FinalEquations(4, syn);
    var w1, w2 := Run(4, syn).omega[1], Run(4, syn).omega[2];
    XorComm(syn[1], Xor(x, y));
    Evaluator(x, y, e, f, syn[1], syn[2], w1, w2);
    XorComm(x, y); MulComm(x, y); XorComm(e, f); XorComm(Mul(x, e), Mul(y, f));
    Evaluator(y, x, f, e, syn[1], syn[2], w1, w2);
  }

  // The string the decoder leaves when it locates both errors.
  function Repaired(c: seq<byte>, p: nat, e: byte, q: nat, f: byte, r: byte, s: byte): seq<byte>
    requires |c| == LENGTH && p < LENGTH && q < LENGTH
  {
    Flip(Flip(c, p, Xor(e, r)), q, Xor(f, s))
  }

  // The symbol at a position is restored exactly when its stored sum does not wrap.
  ghost predicate RestoredWhereNotWrapped(c: seq<byte>, p: nat, e: byte, q: nat, f: byte, w: seq<byte>)
    requires |c| == LENGTH && p < LENGTH && q < LENGTH
  {
    && |w| == LENGTH
    && (w[LENGTH - 1 - p] == c[LENGTH - 1 - p] <==> !Wraps(p, q, e))
    && (w[LENGTH - 1 - q] == c[LENGTH - 1 - q] <==> !Wraps(q, p, f))
    && forall k | 0 <= k < LENGTH && k != LENGTH - 1 - p && k != LENGTH - 1 - q :: w[k] == c[k]
  }

  lemma {:induction false} RepairExact(c: seq<byte>, p: nat, e: byte, q: nat, f: byte, r: byte, s: byte)
    requires |c| == LENGTH && p < LENGTH && q < LENGTH && p != q
    requires r == e <==> !Wraps(p, q, e)
    requires s == f <==> !Wraps(q, p, f)
    ensures RestoredWhereNotWrapped(c, p, e, q, f, Repaired(c, p, e, q, f, r, s))
  {
    hide Xor, Wraps;
    var cp, cq := c[LENGTH - 1 - p], c[LENGTH - 1 - q];
    XorCancel(e, r); XorCancel(f, s);
    XorZero(cp); XorZero(cq);
    XorComm(cp, Xor(e, r)); XorCancel(Xor(e, r), cp);
    XorComm(cq, Xor(f, s)); XorCancel(Xor(f, s), cq);
    SameSum(cp, Xor(e, r)); SameSum(cq, Xor(f, s));
  }

  lemma {:induction false} SameSum(a: byte, b: byte)
    ensures Xor(a, b) == a <==> b == 0
  {
    hide Xor;
    XorZero(a); XorZero(b);
    XorAssoc(a, a, b);
  }

  lemma {:induction false} CorrectLocated(c: seq<byte>, p: nat, e: byte, q: nat, f: byte)
    requires |c| == LENGTH && IsCodeword(c) && p < q < LENGTH && e != 0 && f != 0
    requires EndsInLocator(Syndromes(Flip(Flip(c, p, e), q, f)), p, q)
    requires Syndromes(Flip(Flip(c, p, e), q, f))[1] != 0 || Syndromes(Flip(Flip(c, p, e), q, f))[2] != 0
    ensures var d := Decode(Flip(Flip(c, p, e), q, f)); d.0 == 2 && RestoredWhereNotWrapped(c, p, e, q, f, d.1)
  {
    hide Xor, Mul, Exp, Run, Syndromes, Flip, Eval, IsCodeword, FirstRoot, TLog, TExp, ErrorValue, Wraps, Decode,
         Repaired,
         RestoredWhereNotWrapped, Correct, CorrectTwo;
    var w := Flip(Flip(c, p, e), q, f);
    var syn := Syndromes(w);
    var sigma, omega := Run(4, syn).sigma, Run(4, syn).omega;
    NotACodeword(w);
    EvaluatorOfRun(c, p, e, q, f);
    ErrorValueExact(omega, p, q, e);
    ErrorValueExact(omega, q, p, f);
    var r, s := ErrorValue(omega, p, q), ErrorValue(omega, q, p);
    CorrectAt(w, sigma, omega, p, q);
    FlipsMerge(c, p, e, q, f, r, s);
    RepairExact(c, p, e, q, f, r, s);
  }

  lemma {:induction false} CorrectAt(w: seq<byte>, sigma: seq<byte>, omega: seq<byte>, p: nat, q: nat)
    requires |w| == LENGTH && |omega| == 5 && p <= q < LENGTH && Locates(sigma, p, q)
    ensures Correct(w, sigma, omega) == (2, Flip(Flip(w, p, ErrorValue(omega, p, q)), q, ErrorValue(omega, q, p)))
  {
    hide Xor, Mul, Exp, FirstRoot, TLog, ErrorValue, Flip;
    ProductOfLocators(p, q);
    SearchFinds(sigma, p, q);
    ExpEnds1();
  }

  lemma {:induction false} FlipsMerge(c: seq<byte>, p: nat, e: byte, q: nat, f: byte, r: byte, s: byte)
    requires |c| == LENGTH && p < LENGTH && q < LENGTH
    ensures Flip(Flip(Flip(Flip(c, p, e), q, f), p, r), q, s) == Repaired(c, p, e, q, f, r, s)
  {
    hide Xor, Flip;
    FlipOrder(Flip(c, p, e), q, f, p, r);
    FlipTwice(c, p, e, r);
    FlipTwice(Flip(c, p, Xor(e, r)), q, f, s);
  }

  // With different error values the run always ends in the true locator.
  lemma {:induction false} DifferentValuesLocate(c: seq<byte>, p: nat, e: byte, q: nat, f: byte)
    requires |c| == LENGTH && IsCodeword(c) && p < q < LENGTH && e != 0 && f != 0 && e != f
    ensures var syn := Syndromes(Flip(Flip(c, p, e), q, f)); syn[1] != 0 && EndsInLocator(syn, p, q)
  {
    hide Xor, Mul, Exp, Run, Syndromes, Flip, Eval, IsCodeword, Conv;
    var x, y := Exp(p), Exp(q);
    var syn := Syndromes(Flip(Flip(c, p, e), q, f));
    TwoErrorSyndromes(c, p, e, q, f);
    LocatorCoefficients(p, q);
    XorCancel(e, f);
    Nonsingular(x, y, e, f, syn[1], syn[2], syn[3]);
    TwoRecurrence(x, y, e, f, syn[1], syn[2], syn[3]);
    MulAssoc(x, x, e); MulAssoc(y, y, f);
    TwoRecurrence(x, y, Mul(x, e), Mul(y, f), syn[2], syn[3], syn[4]);
    SecondErrorShows(syn);
    QuadraticRun(syn);
    FinalEquations(4, syn);
    var sigma := Run(4, syn).sigma;
    SumSolved(syn[3], Mul(sigma[1], syn[2]), Mul(sigma[2], syn[1]));
    SumSolved(syn[4], Mul(sigma[1], syn[3]), Mul(sigma[2], syn[2]));
    UniqueLocator(syn[1], syn[2], syn[3], syn[4], Xor(x, y), Mul(x, y), sigma[1], sigma[2]);
  }

  lemma {:induction false} SumSolved(a: byte, b: byte, c: byte)
    requires Xor(Xor(a, b), c) == 0
    ensures a == Xor(b, c)
  {
    hide Xor;
    XorAssoc(a, b, c);
    XorCancel(a, Xor(b, c));
  }

  // A nonsingular system leaves a nonzero delta at step 3.
  lemma {:induction false} SecondErrorShows(syn: seq<byte>)
    requires |syn| == 5 && syn[0] == 1 && syn[1] != 0
    requires Xor(Mul(syn[1], syn[3]), Mul(syn[2], syn[2])) != 0
    ensures Conv(Run(2, syn).sigma, syn, 3) != 0
  {
    hide Xor, Mul, Run, Conv;
    SecondStep(syn);
    FinalEquations(2, syn);
    var s := Run(2, syn).sigma[1];
    ConvValues(Run(2, syn).sigma, syn);
    XorZero(Xor(syn[2], Mul(s, syn[1])));
    XorCancel(syn[2], Mul(s, syn[1]));
    MulZero(syn[1]);
    XorZero(Xor(syn[3], Mul(s, syn[2])));
    if Conv(Run(2, syn).sigma, syn, 3) == 0 {
      XorCancel(syn[3], Mul(s, syn[2]));
      MulSwap(syn[1], s, syn[2]);
      MulAssoc(s, syn[1], syn[2]);
      MulZero(0);
      XorZero(Mul(syn[2], syn[2]));
    }
  }

  // ----- equal error values -----

  // Equal values cancel in the first syndrome, and the run of a zero first syndrome takes
  // method b at steps 2 and 3.  It reaches the true locator only by coincidence.
  predicate Coincidence(p: nat, q: nat, e: byte) {
    Mul(e, Xor(Exp(p), Exp(q))) == Mul(Exp(p), Exp(q))
  }

  lemma {:induction false} EqualSyndromes(c: seq<byte>, p: nat, e: byte, q: nat)
    requires |c| == LENGTH && IsCodeword(c) && p < q < LENGTH && e != 0
    ensures var x, y := Exp(p), Exp(q); var syn := Syndromes(Flip(Flip(c, p, e), q, e));
      && syn[1] == 0 && syn[2] == Mul(e, Xor(x, y)) && syn[2] != 0 && syn[3] != 0
      && syn[3] == Mul(Xor(x, y), syn[2])
      && syn[4] == Xor(Mul(Xor(x, y), syn[3]), Mul(Mul(x, y), syn[2]))
  {
    hide Xor, Mul, Exp, Syndromes, Flip, Eval, IsCodeword;
    var x, y := Exp(p), Exp(q);
    var syn := Syndromes(Flip(Flip(c, p, e), q, e));
    TwoErrorSyndromes(c, p, e, q, e);
    LocatorCoefficients(p, q);
    XorZero(e);
    MulXorRight(e, x, y); MulComm(e, x); MulComm(e, y);
    TwoRecurrence(x, y, e, e, syn[1], syn[2], syn[3]);
    MulZero(Mul(x, y)); XorZero(Mul(Xor(x, y), syn[2]));
    MulAssoc(x, x, e); MulAssoc(y, y, e);
    TwoRecurrence(x, y, Mul(x, e), Mul(y, e), syn[2], syn[3], syn[4]);
    MulNonzero(e, Xor(x, y)); MulNonzero(Xor(x, y), syn[2]);
  }

  // After step 3 the locator has the right sum and syn[2] in place of the product.
  lemma {:induction false} EqualValuesRun(c: seq<byte>, p: nat, e: byte, q: nat)
    requires |c| == LENGTH && IsCodeword(c) && p < q < LENGTH && e != 0
    ensures var syn := Syndromes(Flip(Flip(c, p, e), q, e));
      && (Coincidence(p, q, e) ==> EndsInLocator(syn, p, q))
      && (!Coincidence(p, q, e) ==> Run(4, syn).sigma[3] != 0)
  {
    hide Xor, Mul, Exp, Run, Syndromes, Flip, Eval, IsCodeword, Conv, Step;
    var a, b := Xor(Exp(p), Exp(q)), Mul(Exp(p), Exp(q));
    var syn := Syndromes(Flip(Flip(c, p, e), q, e));
    EqualSyndromes(c, p, e, q);
    ZeroSumRun(syn);
    var st := Run(3, syn);
    FinalEquations(3, syn);
    SameFactor(st.sigma[1], a, syn[2]);
    ConvValues(st.sigma, syn);
    RunStep(4, syn);
    // delta = s4 + a*s3 + s2*s2 = (b + s2)*s2
    var delta := Conv(st.sigma, syn, 4);
    FourthDelta(a, b, syn[2], syn[3]);
    assert delta == Mul(Xor(b, syn[2]), syn[2]);
    MulNonzero(Xor(b, syn[2]), syn[2]);
    XorCancel(b, syn[2]);
    if Coincidence(p, q, e) {
      ZeroDelta(4, syn, st);
    } else {
      CubicStep(syn, st);
    }
  }

  lemma {:induction false} FourthDelta(a: byte, b: byte, s2: byte, s3: byte)
    ensures Xor(Xor(Xor(Mul(a, s3), Mul(b, s2)), Mul(a, s3)), Mul(s2, s2)) == Mul(Xor(b, s2), s2)
  {
    hide Xor, Mul;
    MulXorLeft(b, s2, s2);
    var u, v, w := Mul(a, s3), Mul(b, s2), Mul(s2, s2);
    XorBits();
    ByBits(Xor(Xor(Xor(u, v), u), w), Xor(v, w));
  }

  lemma {:induction false} EqualValuesFail(c: seq<byte>, p: nat, e: byte, q: nat)
    requires |c| == LENGTH && IsCodeword(c) && p < q < LENGTH && e != 0 && !Coincidence(p, q, e)
    ensures var w := Flip(Flip(c, p, e), q, e); Decode(w) == (-1, w)
  {
    hide Xor, Mul, Exp, Run, Syndromes, Flip, Eval, IsCodeword, Decode, CorrectTwo, Coincidence;
    var w := Flip(Flip(c, p, e), q, e);
    EqualSyndromes(c, p, e, q);
    EqualValuesRun(c, p, e, q);
    NotACodeword(w);
  }

  // ----- the exact result -----

  // Two wrong symbols are located, and 2 returned, exactly when their error values differ or
  // happen to satisfy the coincidence; otherwise -1 is returned and nothing is changed.  Each
  // located symbol is restored exactly when its stored sum does not wrap.
  lemma {:induction false} TwoErrorsExact(c: seq<byte>, p: nat, e: byte, q: nat, f: byte)
    requires |c| == LENGTH && IsCodeword(c) && p < q < LENGTH && e != 0 && f != 0
    ensures var w := Flip(Flip(c, p, e), q, f); var d := Decode(w);
      if e != f || Coincidence(p, q, e)
      then d.0 == 2 && RestoredWhereNotWrapped(c, p, e, q, f, d.1)
      else d == (-1, w)
  {
    hide Xor, Mul, Exp, Run, Syndromes, Flip, Eval, IsCodeword, Decode, Wraps, Coincidence, RestoredWhereNotWrapped;
    if e != f {
      DifferentValuesLocate(c, p, e, q, f);
      CorrectLocated(c, p, e, q, f);
    } else if Coincidence(p, q, e) {
      EqualSyndromes(c, p, e, q);
      EqualValuesRun(c, p, e, q);
      CorrectLocated(c, p, e, q, f);
    } else {
      EqualValuesFail(c, p, e, q);
    }
  }

  // So two errors are undone exactly when neither sum wraps (and they are located at all).
  lemma {:induction false} TwoErrorsUndone(c: seq<byte>, p: nat, e: byte, q: nat, f: byte)
    requires |c| == LENGTH && IsCodeword(c) && p < q < LENGTH && e != 0 && f != 0
    ensures Decode(Flip(Flip(c, p, e), q, f)).1 == c <==>
            (e != f || Coincidence(p, q, e)) && !Wraps(p, q, e) && !Wraps(q, p, f)
  {
    hide Xor, Mul, Exp, Eval, IsCodeword, Decode, Wraps, Coincidence;
    TwoErrorsExact(c, p, e, q, f);
    var w := Flip(Flip(c, p, e), q, f);
    var i := LENGTH - 1 - p;
    SameSum(c[i], e);
    assert w[i] != c[i];
  }
}
