// src/rs.c in its own form: loops over the sector buffer and over the five-element arrays,
// each method tied to the function it computes.
module Sector {
  import opened Bytes
  import opened GF256
  import opened Tables
  import opened Poly
  import opened Codeword
  import opened KeyEquation
  import opened BerlekampRuns
  import opened Decoder
  import opened Corrections
  import opened TwoErrors
  import opened Product

  // The cell of the k-th symbol of a string that starts at off and advances by step.
  function Index(off: nat, step: nat, k: nat): nat { off + k * step }

  ghost predicate Fits(m: seq<byte>, off: nat, step: nat) {
    0 < step && Index(off, step, 35) < |m|
  }

  lemma IndexOrder(off: nat, step: nat, j: nat, k: nat)
    requires 0 < step && j < k
    ensures Index(off, step, j) < Index(off, step, k)
  {
    assert k * step == j * step + (k - j) * step;
    assert (k - j) * step > 0;
  }

  lemma IndexBound(m: seq<byte>, off: nat, step: nat, k: nat)
    requires Fits(m, off, step) && k < 36
    ensures Index(off, step, k) < |m|
  {
    if k < 35 { IndexOrder(off, step, k, 35); }
  }

  function String(m: seq<byte>, off: nat, step: nat): (w: seq<byte>)
    requires Fits(m, off, step)
    ensures |w| == LENGTH
  {
    seq(36, k requires 0 <= k < 36 => IndexBound(m, off, step, k); m[Index(off, step, k)])
  }

  ghost predicate OnString(i: int, off: nat, step: nat) {
    exists k: nat | k < 36 :: i == Index(off, step, k)
  }

  // n is m with the string replaced by w and every other cell kept.
  ghost predicate Replaces(m: seq<byte>, n: seq<byte>, off: nat, step: nat, w: seq<byte>) {
    && |n| == |m| && Fits(m, off, step) && String(n, off, step) == w
    && forall i | 0 <= i < |m| && !OnString(i, off, step) :: n[i] == m[i]
  }

  // Writing one symbol of a string changes that symbol only.
  lemma StringUpdate(m: seq<byte>, off: nat, step: nat, k: nat, v: byte)
    requires Fits(m, off, step) && k < 36
    ensures Index(off, step, k) < |m| && Fits(m[Index(off, step, k) := v], off, step)
    ensures String(m[Index(off, step, k) := v], off, step) == String(m, off, step)[k := v]
  {
    hide Index;
    IndexBound(m, off, step, k);
    var n := m[Index(off, step, k) := v];
    assert Fits(n, off, step);
    forall j | 0 <= j < 36 ensures String(n, off, step)[j] == String(m, off, step)[k := v][j] {
      IndexBound(m, off, step, j);
      if j < k { IndexOrder(off, step, j, k); } else if k < j { IndexOrder(off, step, k, j); }
    }
  }

  lemma ReplacesUpdate(m: seq<byte>, n: seq<byte>, off: nat, step: nat, w: seq<byte>, k: nat, v: byte)
    requires Replaces(m, n, off, step, w) && k < 36
    ensures Index(off, step, k) < |m| && Replaces(m, n[Index(off, step, k) := v], off, step, w[k := v])
  {
    hide Index, String;
    StringUpdate(n, off, step, k, v);
    assert OnString(Index(off, step, k), off, step);
  }

  lemma IndexNext(off: nat, step: nat, k: nat)
    ensures Index(off, step, k) + step == Index(off, step, k + 1)
  {
    assert (k + 1) * step == k * step + step;
  }

  // ----- ecc_block and rs_encode_string -----

  // ecc_block's string: data symbols, then the four zeros it shifts in.
  ghost function Padded(w: seq<byte>): (d: seq<byte>)
    requires |w| == LENGTH
    ensures |d| == 36
    ensures forall i | 0 <= i < 36 :: d[i] == if i < 32 then w[i] else 0
  {
    w[..DATA] + [0, 0, 0, 0]
  }

  lemma EccEnd(w: seq<byte>)
    requires |w| == LENGTH
    ensures Remainder(Padded(w)[..36]) == Ecc(w[..DATA])
  {
    hide Remainder;
    assert Padded(w)[..36] == Padded(w);
  }

  lemma EccStep(w: seq<byte>, i: nat)
    requires |w| == LENGTH && 4 <= i < 36
    ensures Remainder(Padded(w)[..i + 1]) ==
            RemStep(Remainder(Padded(w)[..i]), if i < 32 then w[i] else 0)
  {
    hide RemStep;
    assert Padded(w)[..i + 1][..i] == Padded(w)[..i];
  }

  method EccBlock(a: array<byte>, off: nat, step: nat) returns (r: Rem)
    requires Fits(a[..], off, step)
    ensures r == Ecc(String(a[..], off, step)[..DATA])
  {
    hide Index, Remainder, Ecc, Xor, Mul;
    ghost var w := String(a[..], off, step);
    forall k | 0 <= k < 36 ensures Index(off, step, k) < a.Length && a[Index(off, step, k)] == w[k] {
      IndexBound(a[..], off, step, k);
    }
    var s := Index(off, step, 0);
    r := Rem(a[s], a[Index(off, step, 1)], a[Index(off, step, 2)], a[Index(off, step, 3)]);
    RemainderStart(w);
    s := Index(off, step, 4);
    for i := 4 to 36
      invariant i <= 32 ==> s == Index(off, step, i)
      invariant r == Remainder(Padded(w)[..i])
    {
      EccStep(w, i);
      var t := TRem(r.r3);
      r := Rem(Xor(t.r3, r.r2), Xor(t.r2, r.r1), Xor(t.r1, r.r0), t.r0);
      if i < 32 {
        r := r.(r0 := Xor(r.r0, a[s]));
        IndexNext(off, step, i);
        s := s + step;
      } else {
        XorZero(t.r0);
      }
    }
    EccEnd(w);
  }

  lemma RemainderStart(w: seq<byte>)
    requires |w| == LENGTH
    ensures Remainder(Padded(w)[..4]) == Rem(w[0], w[1], w[2], w[3])
  {}

  method RsEncodeString(a: array<byte>, off: nat, step: nat)
    requires Fits(a[..], off, step)
    modifies a
    ensures Replaces(old(a[..]), a[..], off, step, Codeword.EncodeString(old(String(a[..], off, step))))
  {
    hide Index, Remainder, Ecc, Replaces, String;
    ghost var m := a[..];
    ghost var w := String(m, off, step);
    var ecc := EccBlock(a, off, step);
    ReplacesItself(m, off, step);
    WriteSymbol(a, off, step, m, w, 32, ecc.r3);
    WriteSymbol(a, off, step, m, w[32 := ecc.r3], 33, ecc.r2);
    WriteSymbol(a, off, step, m, w[32 := ecc.r3][33 := ecc.r2], 34, ecc.r1);
    WriteSymbol(a, off, step, m, w[32 := ecc.r3][33 := ecc.r2][34 := ecc.r1], 35, ecc.r0);
    EncodeBySymbols(w);
  }

  lemma ReplacesItself(m: seq<byte>, off: nat, step: nat)
    requires Fits(m, off, step)
    ensures Replaces(m, m, off, step, String(m, off, step))
  {}

  lemma EncodeBySymbols(w: seq<byte>)
    requires |w| == LENGTH
    ensures var ecc := Ecc(w[..DATA]);
            w[32 := ecc.r3][33 := ecc.r2][34 := ecc.r1][35 := ecc.r0] == Codeword.EncodeString(w)
  {
    hide Ecc;
  }

  // Cell k of a string is set to v, on a buffer m whose string has become w.
  method WriteSymbol(a: array<byte>, off: nat, step: nat, ghost m: seq<byte>, ghost w: seq<byte>, k: nat, v: byte)
    requires Replaces(m, a[..], off, step, w) && k < 36 && |w| == LENGTH
    modifies a
    ensures Replaces(m, a[..], off, step, w[k := v])
  {
    hide Index, Replaces, String;
    ReplacesUpdate(m, a[..], off, step, w, k, v);
    assert |m| == a.Length by { ReplacesLength(m, a[..], off, step, w); }
    a[Index(off, step, k)] := v;
  }

  lemma ReplacesLength(m: seq<byte>, n: seq<byte>, off: nat, step: nat, w: seq<byte>)
    requires Replaces(m, n, off, step, w)
    ensures |n| == |m|
  {}

  // ----- the syndromes of rs_decode_string -----

  // A new leading coefficient adds a multiple of a power.
  lemma {:induction false} EvalCons(z: byte, c: byte, p: seq<byte>)
    ensures Eval(z, [c] + p) == Xor(Eval(z, p), Mul(c, Pow(z, |p|)))
  {
    hide Xor, Mul;
    if p == [] {
      assert [c] + p == [] + [c];
      EvalPush(z, [], c);
      MulZero(z); MulOne(c); XorComm(0, c);
    } else {
      var n := |p| - 1;
      EvalCons(z, c, p[..n]);
      assert [c] + p == ([c] + p[..n]) + [p[n]];
      EvalPush(z, [c] + p[..n], p[n]);
      MulXorRight(z, Eval(z, p[..n]), Mul(c, Pow(z, n)));
      MulSwap(z, c, Pow(z, n));
      XorSwap(Mul(z, Eval(z, p[..n])), Mul(z, Mul(c, Pow(z, n))), p[n], 0);
      XorZero(p[n]); XorZero(Mul(z, Mul(c, Pow(z, n))));
    }
  }

  // One turn of the syndrome loop, for the sum of the i last symbols.
  lemma {:induction false} SyndromeTurn(w: seq<byte>, j: nat, i: nat, n: nat)
    requires |w| == LENGTH && i < 36 && j < 4 && n == j * i && n < 512
    ensures TLog(w[35 - i]) < 255
    ensures var v := w[35 - i]; var s := Eval(Exp(j), w[36 - i..]);
            Eval(Exp(j), w[36 - (i + 1)..]) == if v == 0 then s else Xor(s, TExp(TLog(v) + n))
  {
    hide Xor, Mul, Exp, TExp, TLog, Eval;
    var v := w[35 - i];
    TLogBound(v);
    assert w[36 - (i + 1)..] == [v] + w[36 - i..];
    EvalCons(Exp(j), v, w[36 - i..]);
    PowExp(j, i);
    if v == 0 {
      MulZero(Pow(Exp(j), i)); XorZero(Eval(Exp(j), w[36 - i..]));
    } else {
      TLogIsLog(v);
      TimesPower(v, n);
    }
  }

  method Syndrome(a: array<byte>, off: nat, step: nat) returns (syn: array<byte>)
    requires Fits(a[..], off, step)
    ensures fresh(syn) && syn[..] == Syndromes(String(a[..], off, step))
  {
    hide Index, Xor, Mul, Exp, TExp, TLog, Eval;
    ghost var m := a[..];
    ghost var w := String(m, off, step);
    forall k | 0 <= k < 36 ensures Index(off, step, k) < a.Length && m[Index(off, step, k)] == w[k] {
      IndexBound(m, off, step, k);
    }
    syn := new byte[5](_ => 0);
    syn[0] := 1;
    NoSymbols(w);
    for i := 0 to 36
      invariant a[..] == m
      invariant syn[0] == 1
      invariant syn[1] == Eval(Exp(0), w[36 - i..]) && syn[2] == Eval(Exp(1), w[36 - i..])
      invariant syn[3] == Eval(Exp(2), w[36 - i..]) && syn[4] == Eval(Exp(3), w[36 - i..])
    {
      SyndromeTurn(w, 0, i, 0); SyndromeTurn(w, 1, i, i); SyndromeTurn(w, 2, i, 2 * i); SyndromeTurn(w, 3, i, 3 * i);
      var v := a[Index(off, step, 35 - i)];
      assert v == w[35 - i];
      if v != 0 {
        TExpOfTLog(v);
        syn[1] := Xor(syn[1], v);
        var lv: nat := TLog(v);
        syn[2] := Xor(syn[2], TExp(lv + i));
        syn[3] := Xor(syn[3], TExp(lv + 2 * i));
        syn[4] := Xor(syn[4], TExp(lv + 3 * i));
      }
    }
    assert w[0..] == w;
    SyndromeDef(w);
    assert syn[..] == Syndromes(w);
  }

  lemma NoSymbols(w: seq<byte>)
    requires |w| == LENGTH
    ensures forall j: nat :: Eval(Exp(j), w[36 - 0..]) == 0
  {
    hide Exp;
    assert w[36..] == [];
  }

  lemma TExpOfTLog(v: byte)
    requires v != 0
    ensures TLog(v) < 255 && TExp(TLog(v)) == v
  {
    hide TExp, TLog, Exp;
    TLogIsLog(v);
    TExpIsExp(TLog(v));
  }

  // ----- the Berlekamp-Massey loop -----

  method Delta(sigma: array<byte>, syn: array<byte>, l: nat) returns (delta: byte)
    requires sigma.Length == 5 && syn.Length == 5 && l < 5
    ensures delta == Conv(sigma[..], syn[..], l)
  {
    hide Xor, Mul, TExp, TLog;
    delta := 0;
    for i := 0 to l + 1
      invariant delta == ConvTo(sigma[..], syn[..], l, i)
    {
      if sigma[i] != 0 && syn[l - i] != 0 {
        MulByLogs(sigma[i], syn[l - i]);
        TLogIsLog(sigma[i]); TLogIsLog(syn[l - i]);
        delta := Xor(delta, TExp(TLog(sigma[i]) + TLog(syn[l - i])));
      } else {
        MulZero(sigma[i]); MulZero(syn[l - i]); XorZero(delta);
      }
    }
  }

  method MultiplyByX(v: array<byte>, l: nat)
    requires v.Length == 5 && l < 5
    modifies v
    ensures v[..] == Shift(l, old(v[..]))
  {
    for i := 0 to l
      invariant forall k | 0 <= k < 5 :: v[k] == if l - i < k <= l then old(v[k - 1]) else old(v[k])
    {
      v[l - i] := v[l - i - 1];
    }
    v[0] := 0;
    assert v[..] == Shift(l, old(v[..]));
  }

  // The inner statements of method a: entries 1 to l of v get delta times those of u added.
  method AddMultiple(v: array<byte>, u: array<byte>, delta: byte, l: nat)
    requires v.Length == 5 && u.Length == 5 && l < 5 && delta != 0 && v != u
    modifies v
    ensures v[..] == AddScaled(l, old(v[..]), delta, u[..])
  {
    hide Xor, Mul, TExp, TLog;
    TLogIsLog(delta);
    var ldelta := TLog(delta);
    for i := 1 to l + 1
      invariant forall k | 0 <= k < 5 :: v[k] == if 1 <= k < i then Xor(old(v[k]), Mul(u[k], delta)) else old(v[k])
    {
      if u[i] != 0 {
        MulByLogs(u[i], delta);
        TLogIsLog(u[i]);
        v[i] := Xor(v[i], TExp(TLog(u[i]) + ldelta));
      } else {
        MulZero(delta); XorZero(v[i]);
      }
    }
  }

  lemma AddNothing(l: nat, v: seq<byte>, u: seq<byte>)
    requires |v| == 5 && |u| == 5
    ensures AddScaled(l, v, 0, u) == v
  {
    hide Xor, Mul;
    forall i | 0 <= i < 5 ensures Xor(v[i], Mul(u[i], 0)) == v[i] { MulZero(u[i]); XorZero(v[i]); }
  }

  method UpdateA(sigma: array<byte>, omega: array<byte>, tau: array<byte>, gamma: array<byte>, delta: byte, l: nat)
    requires sigma.Length == 5 && omega.Length == 5 && tau.Length == 5 && gamma.Length == 5 && l < 5
    requires sigma != omega && sigma != tau && sigma != gamma && omega != tau && omega != gamma && tau != gamma
    modifies sigma, omega, tau, gamma
    ensures tau[..] == Shift(l, old(tau[..])) && gamma[..] == Shift(l, old(gamma[..]))
    ensures sigma[..] == AddScaled(l, old(sigma[..]), delta, Shift(l, old(tau[..])))
    ensures omega[..] == AddScaled(l, old(omega[..]), delta, Shift(l, old(gamma[..])))
  {
    hide Xor, Mul, AddScaled, Shift;
    MultiplyByX(tau, l);
    MultiplyByX(gamma, l);
    if delta != 0 {
      AddMultiple(sigma, tau, delta, l);
      AddMultiple(omega, gamma, delta, l);
    } else {
      AddNothing(l, sigma[..], tau[..]);
      AddNothing(l, omega[..], gamma[..]);
    }
  }

  // The loop of method b on one of its two pairs of arrays, from l downwards: v[i] takes in u[i-1]
  // and u[i-1] is overwritten by the quotient of v[i-1], which is still the old one.
  method UpdateB(v: array<byte>, u: array<byte>, delta: byte, l: nat)
    requires v.Length == 5 && u.Length == 5 && 1 <= l < 5 && delta != 0 && v != u
    modifies v, u
    ensures v[..] == AddScaled(l, old(v[..]), delta, Shift(l, old(u[..])))
    ensures u[..] == Divided(l, old(v[..]), delta, old(u[..]))
  {
    hide Xor, Mul, TExp, TLog, Inv;
    TLogIsLog(delta);
    var ldelta := TLog(delta);
    var ildelta := 255 - ldelta;
    var i := l;
    while i > 0
      invariant 0 <= i <= l
      invariant forall k | 0 <= k < 5 ::
        v[k] == if i < k <= l then Xor(old(v[k]), Mul(old(u[k - 1]), delta)) else old(v[k])
      invariant forall k | 0 <= k < 5 :: u[k] == if i <= k < l then Mul(old(v[k]), Inv(delta)) else old(u[k])
    {
      assert v[i] == old(v[i]) && u[i - 1] == old(u[i - 1]) && v[i - 1] == old(v[i - 1]);
      if u[i - 1] != 0 {
        MulByLogs(u[i - 1], delta);
        TLogIsLog(u[i - 1]);
        v[i] := Xor(v[i], TExp(TLog(u[i - 1]) + ldelta));
      } else {
        MulZero(delta); XorZero(v[i]);
      }
      if v[i - 1] != 0 {
        DivByLogs(v[i - 1], delta);
        TLogIsLog(v[i - 1]);
        u[i - 1] := TExp(TLog(v[i - 1]) + ildelta);
      } else {
        MulZero(Inv(delta));
        u[i - 1] := 0;
      }
      i := i - 1;
    }
    assert v[..] == AddScaled(l, old(v[..]), delta, Shift(l, old(u[..])));
    assert u[..] == Divided(l, old(v[..]), delta, old(u[..]));
  }

  // One turn of the loop over l.
  method BerlekampStep(syn: array<byte>, sigma: array<byte>, omega: array<byte>, tau: array<byte>,
                       gamma: array<byte>, d: int, b: bool, l: nat) returns (d': int, b': bool)
    requires syn.Length == 5 && sigma.Length == 5 && omega.Length == 5 && tau.Length == 5 && gamma.Length == 5
    requires sigma != omega && sigma != tau && sigma != gamma && omega != tau && omega != gamma && tau != gamma
    requires syn != sigma && syn != omega && syn != tau && syn != gamma && 1 <= l < 5
    modifies sigma, omega, tau, gamma
    ensures State(sigma[..], omega[..], tau[..], gamma[..], d', b') ==
            Step(l, syn[..], old(State(sigma[..], omega[..], tau[..], gamma[..], d, b)))
  {
    hide Conv, AddScaled, Shift, Divided, Step;
    ghost var st := State(sigma[..], omega[..], tau[..], gamma[..], d, b);
    var delta := Delta(sigma, syn, l);
    var limit := (l + 1) / 2;
    var exact := l % 2 == 1;
    if delta == 0 || d > limit || (d == limit && exact && !b) {
      StepIsA(l, syn[..], st);
      d', b' := d, b;
      UpdateA(sigma, omega, tau, gamma, delta, l);
    } else {
      StepIsB(l, syn[..], st);
      d', b' := l - d, !b;
      UpdateB(sigma, tau, delta, l);
      UpdateB(omega, gamma, delta, l);
    }
  }

  method BerlekampMassey(syn: array<byte>) returns (sigma: array<byte>, omega: array<byte>)
    requires syn.Length == 5
    ensures fresh(sigma) && fresh(omega) && sigma.Length == 5 && omega.Length == 5
    ensures sigma[..] == Run(4, syn[..]).sigma && omega[..] == Run(4, syn[..]).omega
  {
    hide Step, Run;
    ghost var s := syn[..];
    sigma := new byte[5](_ => 0);
    omega := new byte[5](_ => 0);
    var tau := new byte[5](_ => 0);
    var gamma := new byte[5](_ => 0);
    sigma[0], omega[0], tau[0] := 1, 1, 1;
    var d, b := 0, false;
    RunStart(s);
    assert State(sigma[..], omega[..], tau[..], gamma[..], d, b) == Start();
    for l := 1 to 5
      invariant syn[..] == s
      invariant Run(l - 1, s) == State(sigma[..], omega[..], tau[..], gamma[..], d, b)
    {
      RunStep(l, s);
      d, b := BerlekampStep(syn, sigma, omega, tau, gamma, d, b, l);
    }
  }

  lemma RunStart(syn: seq<byte>)
    requires |syn| == 5
    ensures Run(0, syn) == Start()
  {}

  lemma StepIsA(l: nat, syn: seq<byte>, st: State)
    requires 1 <= l < 5 && |syn| == 5 && Shaped(st) && TakesA(l, Conv(st.sigma, syn, l), st.d, st.b)
    ensures var delta := Conv(st.sigma, syn, l);
      Step(l, syn, st) == State(AddScaled(l, st.sigma, delta, Shift(l, st.tau)),
                                AddScaled(l, st.omega, delta, Shift(l, st.gamma)),
                                Shift(l, st.tau), Shift(l, st.gamma), st.d, st.b)
  {
    hide Conv, AddScaled, Shift, Divided;
  }

  lemma StepIsB(l: nat, syn: seq<byte>, st: State)
    requires 1 <= l < 5 && |syn| == 5 && Shaped(st) && !TakesA(l, Conv(st.sigma, syn, l), st.d, st.b)
    ensures var delta := Conv(st.sigma, syn, l);
      Step(l, syn, st) == State(AddScaled(l, st.sigma, delta, Shift(l, st.tau)),
                                AddScaled(l, st.omega, delta, Shift(l, st.gamma)),
                                Divided(l, st.sigma, delta, st.tau), Divided(l, st.omega, delta, st.gamma),
                                l - st.d, !st.b)
  {
    hide Conv, AddScaled, Shift, Divided;
  }

  // ----- roots and error values -----

  method RootSearch(sigma: array<byte>) returns (p: nat)
    requires sigma.Length == 5
    ensures p == FirstRoot(sigma[..], 0)
  {
    hide Xor, TExp, TLog;
    p := 0;
    var ls1, ls2 := TLog(sigma[1]), TLog(sigma[2]);
    TLogBound(sigma[1]); TLogBound(sigma[2]);
    while p < 256
      invariant p <= 256 && FirstRoot(sigma[..], 0) == FirstRoot(sigma[..], p)
    {
      var res := sigma[0];
      if sigma[1] != 0 {
        res := Xor(res, TExp(255 - p + ls1));
      } else {
        XorZero(res);
      }
      res := Xor(res, TExp(2 * (255 - p) + ls2));
      assert res == SigmaAt(sigma[..], p);
      if res == 0 { break; }
      p := p + 1;
    }
  }

  method ErrorAt(omega: array<byte>, p: nat, q: nat) returns (err: byte)
    requires omega.Length == 5 && p < LENGTH && q < LENGTH
    ensures err == ErrorValue(omega[..], p, q)
  {
    hide Xor, TExp, TLog;
    TLogBound(omega[1]); TLogBound(omega[2]);
    err := omega[0];
    if omega[1] != 0 {
      err := Xor(err, TExp(TLog(omega[1]) + 255 - p));
    } else {
      XorZero(err);
    }
    if omega[2] != 0 {
      err := Xor(err, TExp(TLog(omega[2]) + 2 * (255 - p)));
    } else {
      XorZero(err);
    }
    assert err == OmegaAt(omega[..], p);
    err := (TLog(err) + p) % 256;
    var div := TLog(Xor(1, TExp(255 + q - p)));
    TLogBound(Xor(1, TExp(255 + q - p)));
    err := TExp(255 + err - div);
  }

  // ----- rs_decode_string -----

  // The error value is added to the symbol at position p.
  method FlipSymbol(a: array<byte>, off: nat, step: nat, ghost m: seq<byte>, ghost w: seq<byte>, p: nat, e: byte)
    requires Replaces(m, a[..], off, step, w) && p < LENGTH && |w| == LENGTH
    modifies a
    ensures Replaces(m, a[..], off, step, Flip(w, p, e))
  {
    hide Index, Replaces, Xor;
    SymbolRead(m, a[..], off, step, w, LENGTH - 1 - p);
    var v := a[Index(off, step, LENGTH - 1 - p)];
    WriteSymbol(a, off, step, m, w, LENGTH - 1 - p, Xor(v, e));
  }

  lemma SymbolRead(m: seq<byte>, n: seq<byte>, off: nat, step: nat, w: seq<byte>, k: nat)
    requires Replaces(m, n, off, step, w) && k < 36
    ensures Index(off, step, k) < |n| && |w| == LENGTH && n[Index(off, step, k)] == w[k]
  {
    hide Index;
    IndexBound(n, off, step, k);
  }

  method RsDecodeString(a: array<byte>, off: nat, step: nat) returns (e: int)
    requires Fits(a[..], off, step)
    modifies a
    ensures e == Decode(old(String(a[..], off, step))).0
    ensures Replaces(old(a[..]), a[..], off, step, Decode(old(String(a[..], off, step))).1)
  {
    hide Index, Ecc, Xor, Mul, TExp, TLog, FirstRoot, ErrorValue, Run, Replaces, Flip, Syndromes, String;
    ghost var m := a[..];
    ghost var w := String(m, off, step);
    ReplacesItself(m, off, step);
    var ecc := EccBlock(a, off, step);
    SymbolRead(m, m, off, step, w, 32); SymbolRead(m, m, off, step, w, 33);
    SymbolRead(m, m, off, step, w, 34); SymbolRead(m, m, off, step, w, 35);
    var refEcc := Rem(a[Index(off, step, 32)], a[Index(off, step, 33)], a[Index(off, step, 34)],
      a[Index(off, step, 35)]);
    CompareBytes(w, ecc, refEcc);
    if refEcc == ecc {
      DecodeUnchanged(w);
      return 0;
    }
    var syn := Syndrome(a, off, step);
    var sigma, omega := BerlekampMassey(syn);
    KeyEquationAlways(4, Syndromes(w));
    DecodeCorrects(w);
    if sigma[3] != 0 || sigma[4] != 0 {
      return -1;
    }
    if sigma[2] != 0 && sigma[0] != 0 {
      e := CorrectPair(a, off, step, sigma, omega, m, w);
    } else if sigma[1] != 0 && sigma[0] != 0 {
      var epos := TLog(sigma[1]) - TLog(sigma[0]);
      ExpEnds1(); TLogBound(sigma[1]);
      if epos > 35 {
        return -1;
      }
      var err := Xor(sigma[1], omega[1]);
      FlipSymbol(a, off, step, m, w, epos, err);
      return 1;
    } else {
      return -1;
    }
  }

  method CorrectPair(a: array<byte>, off: nat, step: nat, sigma: array<byte>, omega: array<byte>,
                     ghost m: seq<byte>, ghost w: seq<byte>) returns (e: int)
    requires |w| == LENGTH && Replaces(m, a[..], off, step, w) && a != sigma && a != omega
    requires sigma.Length == 5 && omega.Length == 5 && sigma[0] == 1 && sigma[2] != 0
    modifies a
    ensures e == CorrectTwo(w, sigma[..], omega[..]).0
    ensures Replaces(m, a[..], off, step, CorrectTwo(w, sigma[..], omega[..]).1)
  {
    hide Index, Xor, Mul, TExp, TLog, FirstRoot, ErrorValue, Replaces, Flip;
    var p1 := RootSearch(sigma);
    if p1 > 35 {
      return -1;
    }
    ExpEnds1(); TLogBound(sigma[2]);
    var d := TLog(sigma[2]) - p1 - TLog(sigma[0]);
    if d < 0 { d := d + 255; }
    if d > 35 {
      return -1;
    }
    var err1 := ErrorAt(omega, p1, d);
    var err2 := ErrorAt(omega, d, p1);
    FlipSymbol(a, off, step, m, w, p1, err1);
    FlipSymbol(a, off, step, m, Flip(w, p1, err1), d, err2);
    return 2;
  }

  lemma CompareBytes(w: seq<byte>, ecc: Rem, r: Rem)
    requires |w| == LENGTH && r == Rem(w[32], w[33], w[34], w[35])
    ensures r == ecc <==> ecc.Bytes() == w[DATA..]
  {
    assert w[DATA..] == r.Bytes();
    if ecc.Bytes() == r.Bytes() {
      assert ecc.Bytes()[0] == r.r3 && ecc.Bytes()[1] == r.r2 && ecc.Bytes()[2] == r.r1 && ecc.Bytes()[3] == r.r0;
    }
  }

  lemma DecodeUnchanged(w: seq<byte>)
    requires |w| == LENGTH && Ecc(w[..DATA]).Bytes() == w[DATA..]
    ensures Decode(w) == (0, w)
  {
    hide Ecc, Correct;
  }

  lemma DecodeCorrects(w: seq<byte>)
    requires |w| == LENGTH && Ecc(w[..DATA]).Bytes() != w[DATA..] && Run(4, Syndromes(w)).sigma[0] == 1
    ensures Decode(w) == Correct(w, Run(4, Syndromes(w)).sigma, Run(4, Syndromes(w)).omega)
  {
    hide Ecc, Correct, Syndromes, Run;
  }

  // ----- rows and columns of the buffer -----

  lemma RowIsString(m: seq<byte>, r: nat)
    requires |m| == CELLS && r < 36
    ensures Fits(m, 36 * r, 1) && String(m, 36 * r, 1) == Row(m, r)
  {}

  lemma ColIsString(m: seq<byte>, c: nat)
    requires |m| == CELLS && c < 36
    ensures Fits(m, c, 36) && String(m, c, 36) == Col(m, c)
  {}

  lemma RowReplaced(m: seq<byte>, n: seq<byte>, r: nat, w: seq<byte>)
    requires |m| == CELLS && r < 36 && Replaces(m, n, 36 * r, 1, w)
    ensures |n| == CELLS && |w| == LENGTH && n == PutRow(m, r, w)
  {
    RowIsString(n, r);
    forall i | 0 <= i < CELLS ensures n[i] == PutRow(m, r, w)[i] {
      if i / 36 == r {
        assert Row(n, r)[i % 36] == n[i];
      } else {
        assert !OnString(i, 36 * r, 1);
      }
    }
  }

  lemma ColReplaced(m: seq<byte>, n: seq<byte>, c: nat, w: seq<byte>)
    requires |m| == CELLS && c < 36 && Replaces(m, n, c, 36, w)
    ensures |n| == CELLS && |w| == LENGTH && n == PutCol(m, c, w)
  {
    ColIsString(n, c);
    forall i | 0 <= i < CELLS ensures n[i] == PutCol(m, c, w)[i] {
      if i % 36 == c {
        assert Col(n, c)[i / 36] == n[i];
      } else {
        assert !OnString(i, c, 36);
      }
    }
  }

  // memmove(sector + dst, sector + src, n): the source is read before it is overwritten.
  method MemMove(a: array<byte>, dst: nat, src: nat, n: nat)
    requires dst + n <= a.Length && src + n <= a.Length
    modifies a
    ensures forall k | 0 <= k < a.Length :: a[k] == old(a[if dst <= k < dst + n then src + (k - dst) else k])
  {
    forall k | 0 <= k < n {
      a[dst + k] := a[src + k];
    }
  }

  // ----- rs_encode -----

  // Column i encoded: it becomes a codeword, other columns and all data cells stay.
  lemma {:induction false} ColumnEncoded(m: seq<byte>, i: nat)
    requires |m| == CELLS && i < 32
    ensures var n := PutCol(m, i, Codeword.EncodeString(Col(m, i)));
      && IsCodeword(Col(n, i))
      && (forall c | 0 <= c < 36 && c != i :: Col(n, c) == Col(m, c))
      && (forall r, c | 0 <= r < 32 && 0 <= c < 36 :: Cell(n, r, c) == Cell(m, r, c))
  {
    hide IsCodeword, Ecc, PutCol;
    var w := Codeword.EncodeString(Col(m, i));
    EncodeIsTheCodeword(Col(m, i), w);
    var n := PutCol(m, i, w);
    forall r, c | 0 <= r < 36 && 0 <= c < 36 ensures Cell(n, r, c) == if c == i then w[r] else Cell(m, r, c) {
      PutColCells(m, i, w, r, c);
    }
    assert Col(n, i) == w;
    forall r | 0 <= r < 32 ensures w[r] == Cell(m, r, i) {
      assert w[..DATA][r] == Col(m, i)[..DATA][r];
    }
  }

  // Row i encoded: it becomes a codeword, other rows and the first 32 columns stay.
  lemma {:induction false} RowEncoded(m: seq<byte>, i: nat)
    requires |m| == CELLS && i < 36
    ensures var n := PutRow(m, i, Codeword.EncodeString(Row(m, i)));
      && IsCodeword(Row(n, i))
      && (forall r | 0 <= r < 36 && r != i :: Row(n, r) == Row(m, r))
      && (forall c | 0 <= c < 32 :: Col(n, c) == Col(m, c))
  {
    hide IsCodeword, Ecc, PutRow;
    var w := Codeword.EncodeString(Row(m, i));
    EncodeIsTheCodeword(Row(m, i), w);
    var n := PutRow(m, i, w);
    forall r, c | 0 <= r < 36 && 0 <= c < 36 ensures Cell(n, r, c) == if r == i then w[c] else Cell(m, r, c) {
      PutRowCells(m, i, w, r, c);
    }
    assert Row(n, i) == w;
    forall c | 0 <= c < 32 ensures w[c] == Cell(m, i, c) {
      assert w[..DATA][c] == Row(m, i)[..DATA][c];
    }
  }

  ghost predicate HoldsData(m: seq<byte>, data: seq<byte>) {
    |m| == CELLS && |data| == BYTES && forall r, c | 0 <= r < 32 && 0 <= c < 32 :: Cell(m, r, c) == data[32 * r + c]
  }

  method SpreadRows(a: array<byte>)
    requires a.Length == CELLS
    modifies a
    ensures HoldsData(a[..], old(a[..BYTES]))
  {
    var i := 31;
    while i > 0
      invariant 0 <= i <= 31
      invariant forall j | 0 <= j < 32 * (i + 1) :: a[j] == old(a[j])
      invariant forall r, c | i < r < 32 && 0 <= c < 32 :: Cell(a[..], r, c) == old(a[32 * r + c])
    {
      label L:
      MemMove(a, 36 * i, 32 * i, 32);
      forall r, c | i - 1 < r < 32 && 0 <= c < 32 ensures Cell(a[..], r, c) == old(a[32 * r + c]) {
        if r > i {
          assert Cell(old@L(a[..]), r, c) == old(a[32 * r + c]);
        } else {
          assert a[36 * i + c] == old@L(a[32 * i + c]);
        }
      }
      i := i - 1;
    }
  }

  method EncodeColumns(a: array<byte>, ghost data: seq<byte>)
    requires a.Length == CELLS && HoldsData(a[..], data)
    modifies a
    ensures HoldsData(a[..], data) && forall c | 0 <= c < 32 :: IsCodeword(Col(a[..], c))
  {
    hide IsCodeword, Replaces, String, PutCol, Fits, Codeword.EncodeString;
    for i := 0 to 32
      invariant HoldsData(a[..], data)
      invariant forall c | 0 <= c < i :: IsCodeword(Col(a[..], c))
    {
      ghost var m := a[..];
      ColIsString(m, i);
      RsEncodeString(a, i, 36);
      ColReplaced(m, a[..], i, Codeword.EncodeString(Col(m, i)));
      ColumnEncoded(m, i);
    }
  }

  method EncodeRows(a: array<byte>, ghost data: seq<byte>)
    requires a.Length == CELLS && HoldsData(a[..], data)
    requires forall c | 0 <= c < 32 :: IsCodeword(Col(a[..], c))
    modifies a
    ensures HoldsData(a[..], data) && forall c | 0 <= c < 32 :: IsCodeword(Col(a[..], c))
    ensures forall r | 0 <= r < 36 :: IsCodeword(Row(a[..], r))
  {
    hide IsCodeword, Replaces, String, PutRow, Fits, Codeword.EncodeString;
    for i := 0 to 36
      invariant HoldsData(a[..], data) && forall c | 0 <= c < 32 :: IsCodeword(Col(a[..], c))
      invariant forall r | 0 <= r < i :: IsCodeword(Row(a[..], r))
    {
      ghost var m := a[..];
      RowIsString(m, i);
      RsEncodeString(a, 36 * i, 1);
      RowReplaced(m, a[..], i, Codeword.EncodeString(Row(m, i)));
      RowEncoded(m, i);
      DataKept(m, a[..], data);
    }
  }

  lemma DataKept(m: seq<byte>, n: seq<byte>, data: seq<byte>)
    requires HoldsData(m, data) && |n| == CELLS && forall c | 0 <= c < 32 :: Col(n, c) == Col(m, c)
    ensures HoldsData(n, data)
  {
    forall r, c | 0 <= r < 32 && 0 <= c < 32 ensures Cell(n, r, c) == data[32 * r + c] {
      assert Col(n, c)[r] == Col(m, c)[r];
      assert Cell(m, r, c) == data[32 * r + c];
    }
  }

  // The whole buffer becomes the encoded sector of its first 1024 bytes.
  method RsEncode(a: array<byte>)
    requires a.Length == CELLS
    modifies a
    ensures IsEncoded(a[..], old(a[..BYTES]))
    ensures forall i | 0 <= i < BYTES :: a[36 * (i / 32) + i % 32] == old(a[..])[i]
  {
    hide IsCodeword;
    ghost var data := a[..BYTES];
    SpreadRows(a);
    EncodeColumns(a, data);
    EncodeRows(a, data);
    CheckColumns(a[..]);
    CellsAt(a[..], data);
  }

  // Where the data lies: 32 bytes at the beginning of each row.
  lemma CellsAt(m: seq<byte>, data: seq<byte>)
    requires IsEncoded(m, data)
    ensures forall i | 0 <= i < BYTES :: m[36 * (i / 32) + i % 32] == data[i]
  {
    hide IsCodeword;
    forall i: nat | i < BYTES ensures m[36 * (i / 32) + i % 32] == data[i] {
      assert Cell(m, i / 32, i % 32) == data[i];
    }
  }

  // ----- rs_decode -----

  method DecodeAllRows(a: array<byte>) returns (ecount: int)
    requires a.Length == CELLS
    modifies a
    ensures (ecount, a[..]) == DecodeRows(old(a[..]), 36)
  {
    hide Decode, Replaces, String, PutRow, Fits;
    ghost var m0 := a[..];
    ecount := 0;
    for i := 0 to 36
      invariant (ecount, a[..]) == DecodeRows(m0, i)
    {
      ghost var m := a[..];
      RowIsString(m, i);
      var e := RsDecodeString(a, 36 * i, 1);
      RowReplaced(m, a[..], i, Decode(Row(m, i)).1);
      if e != -1 {
        ecount := ecount + e;
      }
    }
  }

  // Cell j once rows below i have been moved up.
  function CompactedTo(m: seq<byte>, i: nat, j: nat): byte
    requires |m| == CELLS && j < CELLS && i <= 32
  {
    if j < 32 * i then m[36 * (j / 32) + j % 32] else m[j]
  }

  lemma CompactedNext(m: seq<byte>, i: nat, j: nat)
    requires |m| == CELLS && j < CELLS && 1 <= i < 32
    ensures CompactedTo(m, i + 1, j) ==
            CompactedTo(m, i, if 32 * i <= j < 32 * (i + 1) then 36 * i + (j - 32 * i) else j)
  {
    if 32 * i <= j < 32 * (i + 1) {
      assert j / 32 == i && j % 32 == j - 32 * i;
    }
  }

  lemma CompactedStart(m: seq<byte>)
    requires |m| == CELLS
    ensures forall j | 0 <= j < CELLS :: m[j] == CompactedTo(m, 1, j)
  {}

  lemma CompactedAll(m: seq<byte>)
    requires |m| == CELLS
    ensures forall j | 0 <= j < CELLS :: Compact(m)[j] == CompactedTo(m, 32, j)
  {}

  method CompactRows(a: array<byte>)
    requires a.Length == CELLS
    modifies a
    ensures a[..] == Compact(old(a[..]))
  {
    hide CompactedTo, Compact;
    ghost var m := a[..];
    CompactedStart(m);
    for i := 1 to 32
      invariant forall j | 0 <= j < CELLS :: a[j] == CompactedTo(m, i, j)
    {
      ghost var n := a[..];
      MemMove(a, i * 32, i * 36, 32);
      forall j | 0 <= j < CELLS ensures a[j] == CompactedTo(m, i + 1, j) {
        var src := if 32 * i <= j < 32 * (i + 1) then 36 * i + (j - 32 * i) else j;
        assert a[j] == n[src];
        CompactedNext(m, i, j);
      }
    }
    CompactedAll(m);
    assert a[..] == Compact(m);
  }

  method RsDecode(a: array<byte>) returns (ecount: int, ghost rows: seq<byte>)
    requires a.Length == CELLS
    modifies a
    ensures (ecount, a[..]) == DecodeSector(old(a[..]))
    ensures Reported(old(a[..]), rows, ecount, a[..])
  {
    hide Decode, DecodeRows, Replaces, String, PutCol, Fits, Compact, Reported;
    ecount := DecodeAllRows(a);
    rows := a[..];
    RowsDecoded(old(a[..]), 36);
    SectorExact(old(a[..]), rows);
    ghost var goal := DecodeColumns(a[..], 0, ecount);
    for i := 0 to 32
      invariant DecodeColumns(a[..], i, ecount) == goal
    {
      ghost var m := a[..];
      ColIsString(m, i);
      var e := RsDecodeString(a, i, 36);
      ColReplaced(m, a[..], i, Decode(Col(m, i)).1);
      if e == -1 {
        return -1, rows;
      }
      ecount := ecount + e;
    }
    CompactRows(a);
  }

  // Encoding a sector and decoding it gives its data back, with nothing to correct.
  method EncodeThenDecode(a: array<byte>) returns (ecount: int)
    requires a.Length == CELLS
    modifies a
    ensures ecount == 0 && a[..BYTES] == old(a[..BYTES])
  {
    hide IsEncoded, DecodeSector;
    RsEncode(a);
    EncodedDecodes(a[..], old(a[..BYTES]));
    ghost var rows;
    ecount, rows := RsDecode(a);
    assert a[..BYTES] == a[..][..BYTES];
  }
}
