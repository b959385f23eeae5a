// The Berlekamp-Massey loop of rs_decode_string on the five-element arrays of the code, as a
// function of the syndrome polynomial, and the key equation every step of it keeps.
module KeyEquation {
  import opened Bytes
  import opened GF256
  import opened Tables

  // The coefficient of x^k in a*b, summing the first n of its products.
  function ConvTo(a: seq<byte>, b: seq<byte>, k: nat, n: nat): byte
    requires |a| == 5 && |b| == 5 && n <= k + 1 <= 5
  {
    if n == 0 then 0 else Xor(ConvTo(a, b, k, n - 1), Mul(a[n - 1], b[k - n + 1]))
  }

  function Conv(a: seq<byte>, b: seq<byte>, k: nat): byte
    requires |a| == 5 && |b| == 5 && k < 5
  {
    ConvTo(a, b, k, k + 1)
  }

  datatype State = State(sigma: seq<byte>, omega: seq<byte>, tau: seq<byte>, gamma: seq<byte>, d: int, b: bool)

  ghost predicate Shaped(st: State) {
    |st.sigma| == 5 && |st.omega| == 5 && |st.tau| == 5 && |st.gamma| == 5
  }

  function Start(): State {
    State([1, 0, 0, 0, 0], [1, 0, 0, 0, 0], [1, 0, 0, 0, 0], [0, 0, 0, 0, 0], 0, false)
  }

  // v multiplied by x, on the entries up to l.
  function Shift(l: nat, v: seq<byte>): (r: seq<byte>)
    requires |v| == 5
    ensures |r| == 5
  {
    seq(5, i requires 0 <= i < 5 => if i == 0 then 0 else if i <= l then v[i - 1] else v[i])
  }

  // v + k*u on the entries 1..l.
  function AddScaled(l: nat, v: seq<byte>, k: byte, u: seq<byte>): (r: seq<byte>)
    requires |v| == 5 && |u| == 5
    ensures |r| == 5
  {
    seq(5, i requires 0 <= i < 5 => if 1 <= i <= l then Xor(v[i], Mul(u[i], k)) else v[i])
  }

  // v/k on the entries below l; the others keep what u has there.
  function Divided(l: nat, v: seq<byte>, k: byte, u: seq<byte>): (r: seq<byte>)
    requires |v| == 5 && |u| == 5 && k != 0
    ensures |r| == 5
  {
    seq(5, i requires 0 <= i < 5 => if i < l then Mul(v[i], Inv(k)) else u[i])
  }

  predicate TakesA(l: nat, delta: byte, d: int, b: bool) {
    var limit := (l + 1) / 2;
    delta == 0 || d > limit || (d == limit && l % 2 == 1 && !b)
  }

  function Step(l: nat, syn: seq<byte>, st: State): (r: State)
    requires 1 <= l < 5 && |syn| == 5
    requires |st.sigma| == 5 && |st.omega| == 5 && |st.tau| == 5 && |st.gamma| == 5
    ensures |r.sigma| == 5 && |r.omega| == 5 && |r.tau| == 5 && |r.gamma| == 5
  {
    var delta := Conv(st.sigma, syn, l);
    var tau, gamma := Shift(l, st.tau), Shift(l, st.gamma);
    var sigma, omega := AddScaled(l, st.sigma, delta, tau), AddScaled(l, st.omega, delta, gamma);
    if TakesA(l, delta, st.d, st.b) then
      State(sigma, omega, tau, gamma, st.d, st.b)
    else
      State(sigma, omega, Divided(l, st.sigma, delta, st.tau), Divided(l, st.omega, delta, st.gamma), l - st.d, !st.b)
  }

  // The state after steps 1..l.
  function Run(l: nat, syn: seq<byte>): (r: State)
    requires l < 5 && |syn| == 5
    ensures |r.sigma| == 5 && |r.omega| == 5 && |r.tau| == 5 && |r.gamma| == 5
  {
    if l == 0 then Start() else Step(l, syn, Run(l - 1, syn))
  }

  // ----- the key equation -----

  // (1+S)*sigma = omega and (1+S)*tau = gamma + x^l, both modulo x^(l+1).
  ghost predicate KeyEquation(l: nat, syn: seq<byte>, st: State) {
    && l < 5 && |syn| == 5 && Shaped(st)
    && (forall k | 0 <= k <= l :: Conv(st.sigma, syn, k) == st.omega[k])
    && (forall k | 0 <= k <= l :: Conv(st.tau, syn, k) == Xor(st.gamma[k], if k == l then 1 else 0))
  }

  ghost predicate Bounded(l: nat, st: State) {
    && Shaped(st) && st.sigma[0] == 1 && st.omega[0] == 1
    && forall i | l < i < 5 :: st.sigma[i] == 0 && st.omega[i] == 0 && st.tau[i] == 0 && st.gamma[i] == 0
  }

  lemma {:induction false} ConvAdd(a: seq<byte>, u: seq<byte>, c: byte, r: seq<byte>, b: seq<byte>, k: nat, n: nat)
    requires |a| == 5 && |u| == 5 && |r| == 5 && |b| == 5 && n <= k + 1 <= 5
    requires forall i | 0 <= i < n :: r[i] == Xor(a[i], Mul(u[i], c))
    ensures ConvTo(r, b, k, n) == Xor(ConvTo(a, b, k, n), Mul(c, ConvTo(u, b, k, n)))
    decreases n
  {
    hide Xor, Mul;
    if n == 0 {
      MulZero(c); XorZero(0);
    } else {
      ConvAdd(a, u, c, r, b, k, n - 1);
      var x, y, s := a[n - 1], u[n - 1], b[k - n + 1];
      MulXorLeft(x, Mul(y, c), s);
      MulComm(y, c);
      MulAssoc(c, y, s);
      MulXorRight(c, ConvTo(u, b, k, n - 1), Mul(y, s));
      XorSwap(ConvTo(a, b, k, n - 1), Mul(c, ConvTo(u, b, k, n - 1)), Mul(x, s), Mul(c, Mul(y, s)));
    }
  }

  lemma {:induction false} ConvScale(a: seq<byte>, c: byte, r: seq<byte>, b: seq<byte>, k: nat, n: nat)
    requires |a| == 5 && |r| == 5 && |b| == 5 && n <= k + 1 <= 5
    requires forall i | 0 <= i < n :: r[i] == Mul(a[i], c)
    ensures ConvTo(r, b, k, n) == Mul(c, ConvTo(a, b, k, n))
    decreases n
  {
    hide Xor, Mul;
    if n == 0 {
      MulZero(c);
    } else {
      ConvScale(a, c, r, b, k, n - 1);
      var x, s := a[n - 1], b[k - n + 1];
      MulComm(x, c);
      MulAssoc(c, x, s);
      MulXorRight(c, ConvTo(a, b, k, n - 1), Mul(x, s));
    }
  }

  lemma {:induction false} ConvShift(l: nat, v: seq<byte>, b: seq<byte>, k: nat, n: nat)
    requires |v| == 5 && |b| == 5 && n <= k <= l < 5
    ensures ConvTo(Shift(l, v), b, k, n + 1) == if n == 0 then 0 else ConvTo(v, b, k - 1, n)
    decreases n
  {
    hide Xor, Mul;
    if n == 0 {
      MulZero(b[k]); XorZero(0);
      assert ConvTo(Shift(l, v), b, k, 0) == 0;
    } else {
      ConvShift(l, v, b, k, n - 1);
      XorZero(0);
    }
  }

  // Every step keeps the key equation, whichever update it takes.
  lemma KeyEquationStep(l: nat, syn: seq<byte>, st: State)
    requires 1 <= l < 5 && KeyEquation(l - 1, syn, st) && Bounded(l - 1, st)
    ensures KeyEquation(l, syn, Step(l, syn, st)) && Bounded(l, Step(l, syn, st))
  {
    hide Xor, Mul, Conv, ConvTo, Inv;
    var r := Step(l, syn, st);
    var delta := Conv(st.sigma, syn, l);
    var tau, gamma := Shift(l, st.tau), Shift(l, st.gamma);
    forall k | 0 <= k <= l ensures Conv(tau, syn, k) == Xor(gamma[k], if k == l then 1 else 0) {
      ShiftedTau(l, syn, st, k);
    }
    forall k | 0 <= k <= l ensures Conv(r.sigma, syn, k) == r.omega[k] {
      SigmaCoefficient(l, syn, st, k);
    }
    if !TakesA(l, delta, st.d, st.b) {
      forall k | 0 <= k <= l ensures Conv(r.tau, syn, k) == Xor(r.gamma[k], if k == l then 1 else 0) {
        DividedTau(l, syn, st, k);
      }
    }
  }

  lemma ShiftedTau(l: nat, syn: seq<byte>, st: State, k: nat)
    requires 1 <= l < 5 && k <= l && KeyEquation(l - 1, syn, st)
    ensures Conv(Shift(l, st.tau), syn, k) == Xor(Shift(l, st.gamma)[k], if k == l then 1 else 0)
  {
    hide Xor, Mul, ConvTo;
    ConvShift(l, st.tau, syn, k, k);
    if k == 0 {
      XorZero(0);
    } else {
      assert Conv(st.tau, syn, k - 1) == Xor(st.gamma[k - 1], if k - 1 == l - 1 then 1 else 0);
    }
  }

  lemma SigmaCoefficient(l: nat, syn: seq<byte>, st: State, k: nat)
    requires 1 <= l < 5 && k <= l && KeyEquation(l - 1, syn, st) && Bounded(l - 1, st)
    ensures Conv(Step(l, syn, st).sigma, syn, k) == Step(l, syn, st).omega[k]
  {
    hide Xor, Mul, ConvTo, Inv;
    var delta := Conv(st.sigma, syn, l);
    var tau, gamma := Shift(l, st.tau), Shift(l, st.gamma);
    var sigma := AddScaled(l, st.sigma, delta, tau);
    assert sigma[0] == Xor(st.sigma[0], Mul(tau[0], delta)) by { MulZero(delta); XorZero(1); }
    ConvAdd(st.sigma, tau, delta, sigma, syn, k, k + 1);
    ShiftedTau(l, syn, st, k);
    var g := gamma[k];
    MulComm(delta, g);
    if k < l {
      assert Conv(st.sigma, syn, k) == st.omega[k];
      XorZero(g);
      if k == 0 { MulZero(delta); XorZero(st.omega[0]); }
    } else {
      assert st.omega[l] == 0;
      MulXorRight(delta, g, 1);
      MulOne(delta);
      XorComm(Mul(delta, g), delta);
      XorAssoc(delta, delta, Mul(delta, g));
      XorZero(delta); XorZero(Mul(g, delta));
    }
  }

  lemma DividedTau(l: nat, syn: seq<byte>, st: State, k: nat)
    requires 1 <= l < 5 && k <= l && KeyEquation(l - 1, syn, st) && Bounded(l - 1, st)
    requires Conv(st.sigma, syn, l) != 0
    ensures Conv(Divided(l, st.sigma, Conv(st.sigma, syn, l), st.tau), syn, k) ==
            Xor(Divided(l, st.omega, Conv(st.sigma, syn, l), st.gamma)[k], if k == l then 1 else 0)
  {
    hide Xor, Mul, ConvTo, Inv;
    var delta := Conv(st.sigma, syn, l);
    var i := Inv(delta);
    MulInv(delta);
    MulZero(i);
    ConvScale(st.sigma, i, Divided(l, st.sigma, delta, st.tau), syn, k, k + 1);
    if k < l {
      MulComm(i, st.omega[k]);
      XorZero(Mul(st.omega[k], i));
    } else {
      XorZero(1);
    }
  }

  // After every number of steps, for every received string.
  lemma {:induction false} KeyEquationAlways(l: nat, syn: seq<byte>)
    requires l < 5 && |syn| == 5 && syn[0] == 1
    ensures KeyEquation(l, syn, Run(l, syn)) && Bounded(l, Run(l, syn))
  {
    hide Xor, Mul, Step;
    if l == 0 {
      MulOne(1); XorZero(1); XorZero(0);
      assert ConvTo([1, 0, 0, 0, 0], syn, 0, 0) == 0;
    } else {
      KeyEquationAlways(l - 1, syn);
      KeyEquationStep(l, syn, Run(l - 1, syn));
    }
  }
}
