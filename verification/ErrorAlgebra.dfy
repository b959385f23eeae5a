// The algebra of one and two errors: what the syndromes, the locator and the evaluator are.
module ErrorAlgebra {
  import opened Bytes
  import opened GF256
  import opened Tables

  // c0 + c1*y + c2*y^2 times x^2, for y = 1/x.
  lemma ReversedQuadratic(x: byte, y: byte, c1: byte, c2: byte)
    requires Mul(x, y) == 1
    ensures Mul(Mul(x, x), Xor(Xor(1, Mul(c1, y)), Mul(c2, Mul(y, y)))) ==
            Xor(Xor(Mul(x, x), Mul(c1, x)), c2)
  {
    hide *;
    var xx := Mul(x, x);
    MulXorRight(xx, Xor(1, Mul(c1, y)), Mul(c2, Mul(y, y)));
    MulXorRight(xx, 1, Mul(c1, y));
    MulOne(xx); MulOne(x); MulOne(c2); MulOne(1);
    // xx * (c1*y) = c1*x
    MulSwap(xx, c1, y);
    MulAssoc(x, x, y);
    // xx * (c2*yy) = c2
    MulSwap(xx, c2, Mul(y, y));
    MulAssoc(xx, y, y);
  }

  // x^2 + (x1+x2)*x + x1*x2 = (x+x1)*(x+x2).
  lemma Factored(x: byte, x1: byte, x2: byte)
    ensures Xor(Xor(Mul(x, x), Mul(Xor(x1, x2), x)), Mul(x1, x2)) == Mul(Xor(x, x1), Xor(x, x2))
  {
    hide *;
    MulXorLeft(x, x1, Xor(x, x2));
    MulXorRight(x, x, x2);
    MulXorRight(x1, x, x2);
    MulXorLeft(x1, x2, x);
    MulComm(x2, x);
    var l := Xor(Xor(Mul(x, x), Xor(Mul(x1, x), Mul(x, x2))), Mul(x1, x2));
    var r := Xor(Xor(Mul(x, x), Mul(x, x2)), Xor(Mul(x1, x), Mul(x1, x2)));
    XorBits();
    ByBits(l, r);
  }

  // x1 is a root of x^2 + (x1+x2)*x + x1*x2.
  lemma OwnRoot(x1: byte, x2: byte)
    ensures Mul(x1, x1) == Xor(Mul(Xor(x1, x2), x1), Mul(x1, x2))
  {
    hide *;
    Factored(x1, x1, x2);
    XorZero(x1);
    MulZero(Xor(x1, x2));
    XorAssoc(Mul(x1, x1), Mul(Xor(x1, x2), x1), Mul(x1, x2));
    XorCancel(Mul(x1, x1), Xor(Mul(Xor(x1, x2), x1), Mul(x1, x2)));
  }

  // One error's syndromes follow the recurrence of any quadratic its locator is a root of.
  lemma Recurrence(x: byte, a: byte, b: byte, t: byte)
    requires Mul(x, x) == Xor(Mul(a, x), b)
    ensures Mul(Mul(x, x), t) == Xor(Mul(a, Mul(x, t)), Mul(b, t))
  {
    hide *;
    MulXorLeft(Mul(a, x), b, t);
    MulAssoc(a, x, t);
  }

  // s3 = a*s2 + b*s1 when s1 = t1+t2, s2 = x1*t1+x2*t2, s3 = x1^2*t1+x2^2*t2.
  lemma TwoRecurrence(x1: byte, x2: byte, t1: byte, t2: byte, s1: byte, s2: byte, s3: byte)
    requires s1 == Xor(t1, t2) && s2 == Xor(Mul(x1, t1), Mul(x2, t2))
    requires s3 == Xor(Mul(Mul(x1, x1), t1), Mul(Mul(x2, x2), t2))
    ensures s3 == Xor(Mul(Xor(x1, x2), s2), Mul(Mul(x1, x2), s1))
  {
    hide *;
    var a, b := Xor(x1, x2), Mul(x1, x2);
    OwnRoot(x1, x2); OwnRoot(x2, x1);
    XorComm(x1, x2); MulComm(x1, x2);
    Recurrence(x1, a, b, t1); Recurrence(x2, a, b, t2);
    MulXorRight(a, Mul(x1, t1), Mul(x2, t2));
    MulXorRight(b, t1, t2);
    XorSwap(Mul(a, Mul(x1, t1)), Mul(b, t1), Mul(a, Mul(x2, t2)), Mul(b, t2));
  }

  // s1*x2 + s2 = (x1+x2)*t1.
  lemma Separated(x1: byte, x2: byte, t1: byte, t2: byte)
    ensures Xor(Mul(Xor(t1, t2), x2), Xor(Mul(x1, t1), Mul(x2, t2))) == Mul(t1, Xor(x1, x2))
  {
    hide *;
    MulXorLeft(t1, t2, x2);
    MulComm(t2, x2); MulComm(x1, t1);
    MulXorRight(t1, x1, x2);
    var u, v, w := Mul(t1, x2), Mul(x2, t2), Mul(t1, x1);
    XorBits();
    ByBits(Xor(Xor(u, v), Xor(w, v)), Xor(w, u));
  }

  // s1*s3 + s2^2 = e1*e2*(x1+x2)^2: two distinct nonzero errors never give a singular system.
  lemma Nonsingular(x1: byte, x2: byte, t1: byte, t2: byte, s1: byte, s2: byte, s3: byte)
    requires x1 != x2 && t1 != 0 && t2 != 0
    requires s1 == Xor(t1, t2) && s2 == Xor(Mul(x1, t1), Mul(x2, t2))
    requires s3 == Xor(Mul(Mul(x1, x1), t1), Mul(Mul(x2, x2), t2))
    ensures Xor(Mul(s1, s3), Mul(s2, s2)) != 0
  {
    hide *;
    var a := Xor(x1, x2);
    var m1 := Mul(t1, a);
    var m2 := Mul(t2, a);
    XorComm(x1, x2); XorComm(t1, t2); XorComm(Mul(x1, t1), Mul(x2, t2));
    Separated(x1, x2, t1, t2);                       // s1*x2 + s2 = m1
    Separated(x2, x1, t2, t1);                       // s1*x1 + s2 = m2
    Separated(x1, x2, Mul(x1, t1), Mul(x2, t2));     // s2*x2 + s3 = x1*m1
    MulAssoc(x1, x1, t1); MulAssoc(x2, x2, t2); MulAssoc(x1, t1, a);
    assert Xor(Mul(s2, x2), s3) == Mul(x1, m1);
    // s1*s3 + s2*s2 = s1*(x1*m1) + s2*m1
    XorCancel(Mul(s2, x2), s3); XorCancel(Mul(s1, x2), s2);
    var k := Mul(s1, Mul(s2, x2));
    assert Mul(s1, Mul(x1, m1)) == Xor(k, Mul(s1, s3)) by { MulXorRight(s1, Mul(s2, x2), s3); }
    assert Mul(s2, m1) == Xor(k, Mul(s2, s2)) by {
      MulXorRight(s2, Mul(s1, x2), s2);
      MulSwap(s2, s1, x2);
    }
    var f, g := Mul(s1, s3), Mul(s2, s2);
    XorBits();
    ByBits(Xor(Xor(k, f), Xor(k, g)), Xor(f, g));
    // = (s1*x1 + s2)*m1 = m2*m1
    MulAssoc(s1, x1, m1);
    MulXorLeft(Mul(s1, x1), s2, m1);
    XorCancel(x1, x2);
    MulNonzero(t1, a); MulNonzero(t2, a); MulNonzero(m2, m1);
  }

  // A nonsingular 2x2 system has one solution: the locator is what the key equation leaves.
  lemma {:induction false} UniqueLocator(s1: byte, s2: byte, s3: byte, s4: byte, p1: byte, p2: byte, q1: byte, q2: byte)
    requires Xor(Mul(s1, s3), Mul(s2, s2)) != 0
    requires s3 == Xor(Mul(p1, s2), Mul(p2, s1)) && s4 == Xor(Mul(p1, s3), Mul(p2, s2))
    requires s3 == Xor(Mul(q1, s2), Mul(q2, s1)) && s4 == Xor(Mul(q1, s3), Mul(q2, s2))
    ensures p1 == q1 && p2 == q2
  {
    hide *;
    var u, v := Xor(p1, q1), Xor(p2, q2);
    assert u == 0 && v == 0 by {
      Difference(p1, p2, q1, q2, s2, s1);
      Difference(p1, p2, q1, q2, s3, s2);
      Eliminated(u, v, s1, s2, s3);
    }
    XorCancel(p1, q1); XorCancel(p2, q2);
  }

  lemma {:induction false} Eliminated(u: byte, v: byte, s1: byte, s2: byte, s3: byte)
    requires Xor(Mul(s1, s3), Mul(s2, s2)) != 0
    requires Mul(u, s2) == Mul(v, s1) && Mul(u, s3) == Mul(v, s2)
    ensures u == 0 && v == 0
  {
    hide *;
    var us, vs := Mul(s2, Mul(u, s2)), Mul(s2, Mul(v, s1));
    assert Mul(u, Mul(s1, s3)) == vs by {
      MulSwap(u, s1, s3);
      MulSwap(s1, v, s2); MulSwap(s2, v, s1); MulComm(s1, s2);
    }
    assert Mul(u, Mul(s2, s2)) == us by { MulSwap(u, s2, s2); }
    MulXorRight(u, Mul(s1, s3), Mul(s2, s2));
    XorZero(us);
    MulNonzero(u, Xor(Mul(s1, s3), Mul(s2, s2)));
    assert u == 0;
    NonzeroFactor(v, s1, s2, s3);
  }

  lemma NonzeroFactor(v: byte, s1: byte, s2: byte, s3: byte)
    requires Xor(Mul(s1, s3), Mul(s2, s2)) != 0
    requires Mul(v, s1) == Mul(0, s2) && Mul(v, s2) == Mul(0, s3)
    ensures v == 0
  {
    hide *;
    MulZero(s2); MulZero(s3);
    XorZero(0);
    MulNonzero(v, s1); MulNonzero(v, s2);
  }

  lemma Difference(p1: byte, p2: byte, q1: byte, q2: byte, x: byte, y: byte)
    requires Xor(Mul(p1, x), Mul(p2, y)) == Xor(Mul(q1, x), Mul(q2, y))
    ensures Mul(Xor(p1, q1), x) == Mul(Xor(p2, q2), y)
  {
    hide *;
    MulXorLeft(p1, q1, x);
    MulXorLeft(p2, q2, y);
    var a, b, c, d := Mul(p1, x), Mul(p2, y), Mul(q1, x), Mul(q2, y);
    XorBits();
    forall i: nat ensures Bit(Xor(a, c), i) == Bit(Xor(b, d), i) {
      assert Bit(Xor(a, b), i) == Bit(Xor(c, d), i);
    }
    ByBits(Xor(a, c), Xor(b, d));
  }

  // The evaluator at the inverse of x1: x1^2 + w1*x1 + w2 = e1*(x1+x2).
  lemma Evaluator(x1: byte, x2: byte, t1: byte, t2: byte, s1: byte, s2: byte, w1: byte, w2: byte)
    requires s1 == Xor(t1, t2) && s2 == Xor(Mul(x1, t1), Mul(x2, t2))
    requires w1 == Xor(Xor(x1, x2), s1)
    requires w2 == Xor(Xor(s2, Mul(Xor(x1, x2), s1)), Mul(x1, x2))
    ensures Xor(Xor(Mul(x1, x1), Mul(w1, x1)), w2) == Mul(t1, Xor(x1, x2))
  {
    hide *;
    var a, b := Xor(x1, x2), Mul(x1, x2);
    OwnRoot(x1, x2);
    Separated(x1, x2, t1, t2);
    MulXorLeft(a, s1, x1);
    MulXorLeft(x1, x2, s1);
    MulComm(s1, x1); MulComm(s1, x2);
    var p, q, r := Mul(a, x1), Mul(x1, s1), Mul(x2, s1);
    XorBits();
    ByBits(Xor(Xor(Xor(p, b), Xor(p, q)), Xor(Xor(s2, Xor(q, r)), b)), Xor(r, s2));
  }
}
