// Polynomials over the field, highest coefficient first, valued by Horner's rule.
module Poly {
  import opened Bytes
  import opened GF256
  import opened Tables

  function Eval(z: byte, p: seq<byte>): byte {
    if p == [] then 0 else Xor(Mul(z, Eval(z, p[..|p| - 1])), p[|p| - 1])
  }

  function Sum(p: seq<byte>, q: seq<byte>): (r: seq<byte>)
    requires |p| == |q|
  {
    seq(|p|, i requires 0 <= i < |p| => Xor(p[i], q[i]))
  }

  function Scale(k: byte, p: seq<byte>): (r: seq<byte>) {
    seq(|p|, i requires 0 <= i < |p| => Mul(k, p[i]))
  }

  lemma EvalPush(z: byte, p: seq<byte>, c: byte)
    ensures Eval(z, p + [c]) == Xor(Mul(z, Eval(z, p)), c)
  {
    assert (p + [c])[..|p|] == p;
  }

  lemma {:induction false} EvalSum(z: byte, p: seq<byte>, q: seq<byte>)
    requires |p| == |q|
    ensures Eval(z, Sum(p, q)) == Xor(Eval(z, p), Eval(z, q))
  {
    hide Xor, Mul;
    if p == [] {
      XorZero(0);
    } else {
      var n := |p| - 1;
      EvalSum(z, p[..n], q[..n]);
      assert Sum(p, q)[..n] == Sum(p[..n], q[..n]);
      MulXorRight(z, Eval(z, p[..n]), Eval(z, q[..n]));
      XorSwap(Mul(z, Eval(z, p[..n])), Mul(z, Eval(z, q[..n])), p[n], q[n]);
    }
  }

  lemma {:induction false} EvalScale(z: byte, k: byte, p: seq<byte>)
    ensures Eval(z, Scale(k, p)) == Mul(k, Eval(z, p))
  {
    hide Xor, Mul;
    if p == [] {
      MulZero(k);
    } else {
      var n := |p| - 1;
      EvalScale(z, k, p[..n]);
      assert Scale(k, p)[..n] == Scale(k, p[..n]);
      MulSwap(z, k, Eval(z, p[..n]));
      MulXorRight(k, Mul(z, Eval(z, p[..n])), p[n]);
    }
  }

  lemma {:induction false} EvalZeros(z: byte, p: seq<byte>)
    requires forall i | 0 <= i < |p| :: p[i] == 0
    ensures Eval(z, p) == 0
  {
    hide Xor, Mul;
    if p != [] {
      EvalZeros(z, p[..|p| - 1]);
      MulZero(z);
      XorZero(0);
    }
  }

  function Pow(z: byte, k: nat): byte { if k == 0 then 1 else Mul(z, Pow(z, k - 1)) }

  lemma {:induction false} PowExp(j: nat, k: nat)
    ensures j * k >= 0 && Pow(Exp(j), k) == Exp(j * k)
    decreases k
  {
    hide *;
    if k == 0 {
      PowZero(Exp(j));
      ExpZero();
    } else {
      assert j * k == j + j * (k - 1);
      PowExp(j, k - 1);
      PowSuc(Exp(j), k - 1);
      ExpAdd(j, j * (k - 1));
    }
  }

  lemma PowZero(z: byte)
    ensures Pow(z, 0) == 1
  {}

  lemma PowSuc(z: byte, k: nat)
    ensures Pow(z, k + 1) == Mul(z, Pow(z, k))
  {}

  lemma ExpZero()
    ensures Exp(0) == 1
  {}

  // Changing one coefficient by e changes the value at z by e times a power of z.
  lemma {:induction false} EvalChange(z: byte, p: seq<byte>, i: nat, e: byte)
    requires i < |p|
    ensures Eval(z, p[i := Xor(p[i], e)]) == Xor(Eval(z, p), Mul(e, Pow(z, |p| - 1 - i)))
    decreases |p|
  {
    hide Xor, Mul;
    var n := |p| - 1;
    var q := p[i := Xor(p[i], e)];
    if i == n {
      assert q[..n] == p[..n];
      MulOne(e);
      XorAssoc(Mul(z, Eval(z, p[..n])), p[n], e);
    } else {
      assert q[..n] == p[..n][i := Xor(p[i], e)];
      EvalChange(z, p[..n], i, e);
      var t := Pow(z, n - 1 - i);
      MulXorRight(z, Eval(z, p[..n]), Mul(e, t));
      MulSwap(z, e, t);
      XorSwap(Mul(z, Eval(z, p[..n])), Mul(z, Mul(e, t)), p[n], 0);
      XorZero(p[n]);
      XorZero(Mul(z, Mul(e, t)));
    }
  }

  // ----- a polynomial with as many roots as coefficients is zero -----

  // The quotient of p by (x - u): its coefficients are the Horner values along the way.
  function Quotient(u: byte, p: seq<byte>): (q: seq<byte>)
    requires p != []
    ensures |q| == |p| - 1
  {
    seq(|p| - 1, i requires 0 <= i < |p| - 1 => Eval(u, p[..i + 1]))
  }

  lemma {:induction false} Division(u: byte, v: byte, p: seq<byte>)
    requires p != []
    ensures Eval(v, p) == Xor(Mul(Xor(v, u), Eval(v, Quotient(u, p))), Eval(u, p))
  {
    hide Xor, Mul;
    var n := |p| - 1;
    var q := Quotient(u, p);
    if n == 0 {
      assert p[..0] == [];
      MulZero(v); MulZero(u); MulZero(Xor(v, u)); XorZero(p[0]);
    } else {
      Division(u, v, p[..n]);
      assert q[..n - 1] == Quotient(u, p[..n]) by {
        forall i | 0 <= i < n - 1 ensures q[i] == Eval(u, p[..n][..i + 1]) {
          assert p[..n][..i + 1] == p[..i + 1];
        }
      }
      var a, b := Eval(v, q[..n - 1]), Eval(u, p[..n]);
      assert q[n - 1] == b;
      DivisionStep(u, v, a, b, p[n]);
    }
  }

  lemma DivisionStep(u: byte, v: byte, a: byte, b: byte, c: byte)
    ensures Xor(Mul(v, Xor(Mul(Xor(v, u), a), b)), c) ==
            Xor(Mul(Xor(v, u), Xor(Mul(v, a), b)), Xor(Mul(u, b), c))
  {
    hide *;
    var s := Mul(Xor(v, u), Mul(v, a));
    MulXorRight(v, Mul(Xor(v, u), a), b);
    MulSwap(v, Xor(v, u), a);
    MulXorRight(Xor(v, u), Mul(v, a), b);
    MulXorLeft(v, u, b);
    XorBits();
    ByBits(Xor(Xor(s, Mul(v, b)), c), Xor(Xor(s, Xor(Mul(v, b), Mul(u, b))), Xor(Mul(u, b), c)));
  }

  ghost predicate Distinct(zs: seq<byte>) {
    forall i, j | 0 <= i < j < |zs| :: zs[i] != zs[j]
  }

  lemma {:induction false} ManyRootsZero(p: seq<byte>, zs: seq<byte>)
    requires |zs| == |p| && Distinct(zs)
    requires forall i | 0 <= i < |zs| :: Eval(zs[i], p) == 0
    ensures forall i | 0 <= i < |p| :: p[i] == 0
    decreases |p|
  {
    hide Xor, Mul, Eval;
    if p != [] {
      var u := zs[0];
      var q := Quotient(u, p);
      forall i | 0 <= i < |q| ensures Eval(zs[1..][i], q) == 0 {
        var v := zs[i + 1];
        Division(u, v, p);
        XorZero(Mul(Xor(v, u), Eval(v, q)));
        XorCancel(v, u);
        MulNonzero(Xor(v, u), Eval(v, q));
      }
      ManyRootsZero(q, zs[1..]);
      forall i | 0 <= i < |p| ensures p[i] == 0 {
        if i < |p| - 1 { assert q[i] == 0; } else { assert p[..i + 1] == p; }
        if i > 0 { assert q[i - 1] == 0; }
        LastCoefficient(u, p, i);
      }
    }
  }

  lemma LastCoefficient(u: byte, p: seq<byte>, i: nat)
    requires i < |p| && Eval(u, p[..i + 1]) == 0 && (i > 0 ==> Eval(u, p[..i]) == 0)
    ensures p[i] == 0
  {
    hide Xor, Mul;
    assert p[..i + 1][..i] == p[..i];
    MulZero(u);
    XorZero(p[i]);
  }
}
