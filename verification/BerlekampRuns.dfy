// Where the five-element arrays can be nonzero along a run, and which update each step takes.
module BerlekampRuns {
  import opened Bytes
  import opened GF256
  import opened Tables
  import opened KeyEquation

  ghost predicate Below(v: seq<byte>, n: nat) {
    |v| == 5 && forall i | n <= i < 5 :: v[i] == 0
  }

  // sigma and omega vanish from n on; tau and gamma from m on.
  ghost predicate Degrees(st: State, n: nat, m: nat) {
    Below(st.sigma, n) && Below(st.omega, n) && Below(st.tau, m) && Below(st.gamma, m)
  }

  lemma ShiftBelow(l: nat, v: seq<byte>, m: nat)
    requires Below(v, m)
    ensures Below(Shift(l, v), m + 1)
  {}

  lemma AddScaledBelow(l: nat, v: seq<byte>, k: byte, u: seq<byte>, n: nat)
    requires Below(v, n) && Below(u, n)
    ensures Below(AddScaled(l, v, k, u), n)
  {
    hide Xor, Mul;
    MulZero(k); XorZero(0);
  }

  lemma DividedBelow(l: nat, v: seq<byte>, k: byte, u: seq<byte>, n: nat)
    requires k != 0 && Below(v, n) && Below(u, n)
    ensures Below(Divided(l, v, k, u), n)
  {
    hide Mul, Inv;
    MulZero(Inv(k));
  }

  function Max(a: nat, b: nat): nat { if a < b then b else a }

  lemma StepDegrees(l: nat, syn: seq<byte>, st: State, n: nat, m: nat)
    requires 1 <= l < 5 && |syn| == 5 && Degrees(st, n, m)
    ensures var a := TakesA(l, Conv(st.sigma, syn, l), st.d, st.b);
            Degrees(Step(l, syn, st), Max(n, m + 1), if a then m + 1 else Max(n, m))
  {
    hide Shift, AddScaled, Divided, Conv;
    var delta := Conv(st.sigma, syn, l);
    ShiftBelow(l, st.tau, m); ShiftBelow(l, st.gamma, m);
    AddScaledBelow(l, st.sigma, delta, Shift(l, st.tau), Max(n, m + 1));
    AddScaledBelow(l, st.omega, delta, Shift(l, st.gamma), Max(n, m + 1));
    if delta != 0 {
      DividedBelow(l, st.sigma, delta, st.tau, Max(n, m));
      DividedBelow(l, st.omega, delta, st.gamma, Max(n, m));
    }
  }

  // A step with delta = 0 leaves sigma and omega alone.
  lemma ZeroDelta(l: nat, syn: seq<byte>, st: State)
    requires 1 <= l < 5 && |syn| == 5 && Shaped(st) && Conv(st.sigma, syn, l) == 0
    ensures Step(l, syn, st).sigma == st.sigma && Step(l, syn, st).omega == st.omega
    ensures TakesA(l, 0, st.d, st.b)
  {
    hide Xor, Mul, Shift;
    var tau, gamma := Shift(l, st.tau), Shift(l, st.gamma);
    forall i | 0 <= i < 5
      ensures Xor(st.sigma[i], Mul(tau[i], 0)) == st.sigma[i] && Xor(st.omega[i], Mul(gamma[i], 0)) == st.omega[i]
    {
      MulZero(tau[i]); MulZero(gamma[i]);
      XorZero(st.sigma[i]); XorZero(st.omega[i]);
    }
  }

  // The products of sigma = [1, s1, s2, 0, 0] with the syndromes, written out.
  lemma ConvValues(sigma: seq<byte>, syn: seq<byte>)
    requires |syn| == 5 && syn[0] == 1 && Below(sigma, 3) && sigma[0] == 1
    ensures Conv(sigma, syn, 1) == Xor(syn[1], sigma[1])
    ensures Conv(sigma, syn, 2) == Xor(Xor(syn[2], Mul(sigma[1], syn[1])), sigma[2])
    ensures Conv(sigma, syn, 3) == Xor(Xor(syn[3], Mul(sigma[1], syn[2])), Mul(sigma[2], syn[1]))
    ensures Conv(sigma, syn, 4) == Xor(Xor(syn[4], Mul(sigma[1], syn[3])), Mul(sigma[2], syn[2]))
  {
    forall k | 1 <= k < 5 ensures ConvTo(sigma, syn, k, 2) == Xor(syn[k], Mul(sigma[1], syn[k - 1])) {
      ConvTwo(sigma, syn, k);
    }
    hide Xor, Mul;
    MulOne(sigma[1]); MulOne(sigma[2]);
    ConvRest(sigma, syn, 3, 4); ConvRest(sigma, syn, 4, 5);
  }

  lemma ConvTwo(sigma: seq<byte>, syn: seq<byte>, k: nat)
    requires |syn| == 5 && |sigma| == 5 && sigma[0] == 1 && 1 <= k < 5
    ensures ConvTo(sigma, syn, k, 2) == Xor(syn[k], Mul(sigma[1], syn[k - 1]))
  {
    hide Xor, Mul;
    assert ConvTo(sigma, syn, k, 1) == Xor(ConvTo(sigma, syn, k, 0), Mul(sigma[0], syn[k]));
    MulOne(syn[k]); XorZero(syn[k]);
  }

  lemma {:induction false} ConvRest(sigma: seq<byte>, syn: seq<byte>, k: nat, n: nat)
    requires |syn| == 5 && Below(sigma, 3) && 3 <= n <= k + 1 <= 5
    ensures ConvTo(sigma, syn, k, n) == ConvTo(sigma, syn, k, 3)
    decreases n
  {
    hide Xor, Mul;
    if n > 3 {
      ConvRest(sigma, syn, k, n - 1);
      MulZero(syn[k - n + 1]);
      XorZero(ConvTo(sigma, syn, k, 3));
    }
  }

  // ----- runs with a nonzero first syndrome -----

  lemma FirstStep(syn: seq<byte>)
    requires |syn| == 5 && syn[0] == 1 && syn[1] != 0
    ensures var r := Run(1, syn); Degrees(r, 2, 1) && r.d == 1 && r.b
  {
    hide Step, Shift, Divided, AddScaled, Conv;
    FirstDelta(syn);
    StepDegrees(1, syn, Start(), 1, 1);
    StepMethod(1, syn, Start());
  }

  lemma {:induction false} FirstDelta(syn: seq<byte>)
    requires |syn| == 5 && syn[0] == 1
    ensures Run(0, syn) == Start() && Conv(Start().sigma, syn, 1) == syn[1]
  {
    ConvValues(Start().sigma, syn);
    XorZero(syn[1]);
  }

  lemma StepMethod(l: nat, syn: seq<byte>, st: State)
    requires 1 <= l < 5 && |syn| == 5 && Shaped(st)
    ensures var a := TakesA(l, Conv(st.sigma, syn, l), st.d, st.b);
            var r := Step(l, syn, st);
            r.d == (if a then st.d else l - st.d) && r.b == (if a then st.b else !st.b)
  {
    hide Conv, AddScaled, Divided, Shift;
  }

  lemma SecondStep(syn: seq<byte>)
    requires |syn| == 5 && syn[0] == 1 && syn[1] != 0
    ensures var r := Run(2, syn); Degrees(r, 2, 2) && r.d == 1
  {
    hide Step, Conv;
    FirstStep(syn);
    StepDegrees(2, syn, Run(1, syn), 2, 1);
    StepMethod(2, syn, Run(1, syn));
  }

  // If a second error shows at step 3, the run ends with a quadratic locator.
  lemma QuadraticRun(syn: seq<byte>)
    requires |syn| == 5 && syn[0] == 1 && syn[1] != 0 && Conv(Run(2, syn).sigma, syn, 3) != 0
    ensures Degrees(Run(4, syn), 3, 3)
  {
    hide Step, Conv;
    SecondStep(syn);
    StepDegrees(3, syn, Run(2, syn), 2, 2);
    assert Degrees(Run(3, syn), 3, 2);
    StepDegrees(4, syn, Run(3, syn), 3, 2);
  }

  // If none shows at steps 3 and 4, it ends with the linear one of step 2.
  lemma LinearRun(syn: seq<byte>)
    requires |syn| == 5 && syn[0] == 1 && syn[1] != 0
    requires Conv(Run(2, syn).sigma, syn, 3) == 0 && Conv(Run(2, syn).sigma, syn, 4) == 0
    ensures Run(4, syn).sigma == Run(2, syn).sigma && Run(4, syn).omega == Run(2, syn).omega
    ensures Below(Run(4, syn).sigma, 2)
  {
    hide Step, Conv;
    SecondStep(syn);
    ZeroDelta(3, syn, Run(2, syn));
    ZeroDelta(4, syn, Run(3, syn));
  }

  // The key equation of a final state whose arrays vanish from 3 on, written out.
  lemma FinalEquations(l: nat, syn: seq<byte>)
    requires |syn| == 5 && syn[0] == 1 && l < 5 && Below(Run(l, syn).sigma, 3)
    ensures var r := Run(l, syn);
      && r.sigma[0] == 1 && r.omega[0] == 1
      && (l >= 1 ==> r.omega[1] == Xor(syn[1], r.sigma[1]))
      && (l >= 2 ==> r.omega[2] == Xor(Xor(syn[2], Mul(r.sigma[1], syn[1])), r.sigma[2]))
      && (l >= 3 ==> r.omega[3] == Xor(Xor(syn[3], Mul(r.sigma[1], syn[2])), Mul(r.sigma[2], syn[1])))
      && (l >= 4 ==> r.omega[4] == Xor(Xor(syn[4], Mul(r.sigma[1], syn[3])), Mul(r.sigma[2], syn[2])))
  {
    hide Run, Conv, Xor, Mul;
    KeyEquationAlways(l, syn);
    ConvValues(Run(l, syn).sigma, syn);
    var r := Run(l, syn);
    if l >= 1 { assert Conv(r.sigma, syn, 1) == r.omega[1]; }
    if l >= 2 { assert Conv(r.sigma, syn, 2) == r.omega[2]; }
    if l >= 3 { assert Conv(r.sigma, syn, 3) == r.omega[3]; }
    if l >= 4 { assert Conv(r.sigma, syn, 4) == r.omega[4]; }
  }

  // ----- runs whose first syndrome is zero -----

  // With syn[1] = 0, step 2 and (if syn[3] is not 0) step 3 both take method b.
  lemma {:induction false} ZeroSumRun(syn: seq<byte>)
    requires |syn| == 5 && syn[0] == 1 && syn[1] == 0 && syn[2] != 0 && syn[3] != 0
    ensures var r := Run(3, syn); Degrees(r, 3, 3) && r.d == 1 && r.tau[2] != 0 && Below(r.omega, 2)
    ensures Run(3, syn).sigma[2] == syn[2] && Mul(Run(3, syn).sigma[1], syn[2]) == syn[3]
  {
    hide Step, Conv, Shift, AddScaled, Divided, Xor, Mul;
    ZeroSumTwo(syn);
    var st := Run(2, syn);
    KeyEquationAlways(2, syn);
    ConvValues(st.sigma, syn);
    MulZero(syn[2]); MulZero(st.sigma[2]); XorZero(syn[3]);
    assert Conv(st.sigma, syn, 3) == syn[3];
    StepDegrees(3, syn, st, 3, 1);
    StepMethod(3, syn, st);
    ZeroSumOmega(syn);
    var r := Run(3, syn);
    FinalEquations(3, syn);
    MulZero(r.sigma[1]); MulZero(r.sigma[2]);
    XorZero(syn[2]); XorCancel(syn[2], r.sigma[2]);
    XorZero(Xor(syn[3], Mul(r.sigma[1], syn[2])));
    XorCancel(syn[3], Mul(r.sigma[1], syn[2]));
    DividedTail(syn);
  }

  lemma {:induction false} ZeroSumTwo(syn: seq<byte>)
    requires |syn| == 5 && syn[0] == 1 && syn[1] == 0 && syn[2] != 0
    ensures var r := Run(2, syn);
      Degrees(r, 3, 1) && r.d == 2 && r.b && r.sigma[1] == 0 && r.sigma[2] == syn[2] && Below(r.omega, 1)
  {
    hide Step, Conv, Xor, Mul;
    FirstDelta(syn);
    ZeroDelta(1, syn, Start());
    StepMethod(1, syn, Start());
    var st := Run(1, syn);
    assert Below(st.gamma, 0) && Below(st.tau, 2) by { ZeroSumOne(syn); }
    ConvValues(st.sigma, syn);
    MulZero(0); XorZero(syn[2]);
    assert Conv(st.sigma, syn, 2) == syn[2];
    StepMethod(2, syn, st);
    ZeroSumTwoArrays(syn);
    FinalEquations(2, syn);
    var r := Run(2, syn);
    XorZero(r.sigma[1]);
    MulZero(r.sigma[1]); XorCancel(syn[2], r.sigma[2]);
  }

  lemma {:induction false} ZeroSumOne(syn: seq<byte>)
    requires |syn| == 5 && syn[0] == 1 && syn[1] == 0
    ensures var r := Run(1, syn); Below(r.gamma, 0) && Below(r.tau, 2) && Below(r.sigma, 1) && Below(r.omega, 1)
  {
    hide Conv, Xor, Mul;
    FirstDelta(syn);
    ZeroDelta(1, syn, Start());
  }

  lemma ZeroSumTwoArrays(syn: seq<byte>)
    requires |syn| == 5 && syn[0] == 1 && syn[1] == 0
    requires Conv(Run(1, syn).sigma, syn, 2) != 0 && Run(1, syn).d == 0
    ensures var r := Run(2, syn); Degrees(r, 3, 1) && Below(r.omega, 1)
  {
    hide Conv, Xor, Mul, Inv, Run;
    var st := Run(1, syn);
    assert Run(2, syn) == Step(2, syn, st) by { RunStep(2, syn); }
    ZeroSumOne(syn);
    var delta := Conv(st.sigma, syn, 2);
    StepDegrees(2, syn, st, 1, 2);
    AddScaledBelow(2, st.omega, delta, Shift(2, st.gamma), 1);
    DividedPrefix(st.sigma, delta, st.tau);
    DividedBelow(2, st.omega, delta, st.gamma, 1);
  }

  lemma RunStep(l: nat, syn: seq<byte>)
    requires 1 <= l < 5 && |syn| == 5
    ensures Run(l, syn) == Step(l, syn, Run(l - 1, syn))
  {}

  // tau = x divided away: only its entry below 2 could survive, and it is overwritten.
  lemma DividedPrefix(v: seq<byte>, k: byte, u: seq<byte>)
    requires k != 0 && Below(v, 1) && Below(u, 2)
    ensures Below(Divided(2, v, k, u), 1)
  {
    hide Mul, Inv;
    MulZero(Inv(k));
  }

  lemma {:induction false} ZeroSumOmega(syn: seq<byte>)
    requires |syn| == 5 && Degrees(Run(2, syn), 3, 1) && Below(Run(2, syn).omega, 1)
    ensures Below(Run(3, syn).omega, 2)
  {
    hide Conv, Xor, Mul, Inv, Run, Shift, AddScaled, Divided;
    var st := Run(2, syn);
    RunStep(3, syn);
    ShiftBelow(3, st.gamma, 1);
    AddScaledBelow(3, st.omega, Conv(st.sigma, syn, 3), Shift(3, st.gamma), 2);
  }

  lemma {:induction false} DividedTail(syn: seq<byte>)
    requires |syn| == 5
    requires var st := Run(2, syn); st.sigma[2] != 0 && !TakesA(3, Conv(st.sigma, syn, 3), st.d, st.b)
    ensures Run(3, syn).tau[2] != 0
  {
    hide Conv, Xor, Mul, Inv, Run, Shift, AddScaled;
    var st := Run(2, syn);
    var delta := Conv(st.sigma, syn, 3);
    RunStep(3, syn);
    MulInv(delta);
    MulNonzero(st.sigma[2], Inv(delta));
  }

  // A nonzero delta at step 4 of such a run makes the locator cubic.
  lemma CubicStep(syn: seq<byte>, st: State)
    requires |syn| == 5 && Degrees(st, 3, 3) && st.tau[2] != 0 && Conv(st.sigma, syn, 4) != 0
    ensures Step(4, syn, st).sigma[3] != 0
  {
    hide Conv, Xor, Mul, Inv;
    var delta := Conv(st.sigma, syn, 4);
    MulNonzero(st.tau[2], delta);
    XorZero(Mul(st.tau[2], delta));
  }
}
