// The field GF(2^8) with reduction polynomial x^8 + x^4 + x^3 + x^2 + 1 (0x11d), built from
// the bits of a byte: exclusive or is addition, XTime is multiplication by x, and Mul is
// shift-and-add multiplication.  Everything the codec needs of the field is proved here.
module GF256 {
  import opened Bytes

  function Bit(a: nat, i: nat): bool { if i == 0 then a % 2 == 1 else Bit(a / 2, i - 1) }

  function Pow2(w: nat): nat { if w == 0 then 1 else 2 * Pow2(w - 1) }

  function XorNat(a: nat, b: nat): nat
    decreases a + b
  {
    if a == 0 && b == 0 then 0
    else (if a % 2 == b % 2 then 0 else 1) + 2 * XorNat(a / 2, b / 2)
  }

  lemma XorNatHalf(a: nat, b: nat)
    ensures XorNat(a, b) / 2 == XorNat(a / 2, b / 2)
    ensures (XorNat(a, b) % 2 == 1) == (a % 2 != b % 2)
  {}

  lemma {:induction false} XorNatBit(a: nat, b: nat, i: nat)
    ensures Bit(XorNat(a, b), i) == (Bit(a, i) != Bit(b, i))
    decreases i
  {
    XorNatHalf(a, b);
    if i > 0 { XorNatBit(a / 2, b / 2, i - 1); }
  }

  lemma {:induction false} XorNatBound(w: nat, a: nat, b: nat)
    requires a < Pow2(w) && b < Pow2(w)
    ensures XorNat(a, b) < Pow2(w)
    decreases w
  {
    if w > 0 { XorNatBound(w - 1, a / 2, b / 2); }
  }

  // Two numbers with the same bits are equal: the way every sum identity below is proved.
  lemma {:induction false} ByBits(a: nat, b: nat)
    requires forall i: nat :: Bit(a, i) == Bit(b, i)
    ensures a == b
    decreases a + b
  {
    if a + b != 0 {
      assert Bit(a, 0) == Bit(b, 0);
      forall i: nat ensures Bit(a / 2, i) == Bit(b / 2, i) {
        assert Bit(a, i + 1) == Bit(b, i + 1);
      }
      ByBits(a / 2, b / 2);
    }
  }

  lemma {:induction false} ZeroBit(i: nat)
    ensures !Bit(0, i)
  {
    if i > 0 { ZeroBit(i - 1); }
  }

  // The C operator ^ on bytes, which is addition in the field.
  function Xor(a: byte, b: byte): byte {
    XorNatBound(8, a, b);
    XorNat(a, b)
  }

  lemma XorBits()
    ensures forall a: byte, b: byte, i: nat {:trigger Bit(Xor(a, b), i)} ::
              Bit(Xor(a, b), i) == (Bit(a, i) != Bit(b, i))
    ensures forall i: nat {:trigger Bit(0, i)} :: !Bit(0, i)
  {
    forall a: byte, b: byte, i: nat ensures Bit(Xor(a, b), i) == (Bit(a, i) != Bit(b, i)) {
      XorNatBit(a, b, i);
    }
    forall i: nat ensures !Bit(0, i) { ZeroBit(i); }
  }

  lemma XorComm(a: byte, b: byte)
    ensures Xor(a, b) == Xor(b, a)
  {
    hide Xor, Bit;
    XorBits();
    ByBits(Xor(a, b), Xor(b, a));
  }

  lemma XorAssoc(a: byte, b: byte, c: byte)
    ensures Xor(Xor(a, b), c) == Xor(a, Xor(b, c))
  {
    hide Xor, Bit;
    XorBits();
    ByBits(Xor(Xor(a, b), c), Xor(a, Xor(b, c)));
  }

  lemma XorZero(a: byte)
    ensures Xor(a, 0) == a && Xor(0, a) == a && Xor(a, a) == 0
  {
    hide Xor, Bit;
    XorBits();
    ByBits(Xor(a, 0), a);
    ByBits(Xor(0, a), a);
    ByBits(Xor(a, a), 0);
  }

  lemma XorCancel(a: byte, b: byte)
    ensures Xor(a, b) == 0 <==> a == b
    ensures Xor(Xor(a, b), b) == a
  {
    hide Xor;
    XorZero(a); XorZero(b); XorAssoc(a, b, b);
  }

  lemma XorSwap(a: byte, b: byte, c: byte, d: byte)
    ensures Xor(Xor(a, b), Xor(c, d)) == Xor(Xor(a, c), Xor(b, d))
  {
    hide Xor, Bit;
    XorBits();
    ByBits(Xor(Xor(a, b), Xor(c, d)), Xor(Xor(a, c), Xor(b, d)));
  }

  // Multiplication by x modulo x^8+x^4+x^3+x^2+1.
  function XTime(a: byte): byte {
    if a < 128 then 2 * a else Xor(2 * (a - 128), 0x1d)
  }

  lemma {:induction false} ClearTop(w: nat, a: nat, i: nat)
    requires Pow2(w) <= a < 2 * Pow2(w)
    ensures Bit(a - Pow2(w), i) == (i != w && Bit(a, i))
    ensures Bit(a, w)
    decreases w
  {
    if w == 0 {
      ZeroBit(i);
      if i > 0 { ZeroBit(i - 1); }
    } else {
      assert (a - Pow2(w)) / 2 == a / 2 - Pow2(w - 1);
      ClearTop(w - 1, a / 2, if i == 0 then 0 else i - 1);
    }
  }

  lemma {:induction false} HighBit(w: nat, a: nat)
    requires a < Pow2(w)
    ensures !Bit(a, w)
  {
    if w > 0 { HighBit(w - 1, a / 2); }
  }

  lemma DoubleBit(a: nat, i: nat)
    ensures Bit(2 * a, i) == (i > 0 && Bit(a, i - 1))
  {}

  lemma XTimeBit(a: byte, i: nat)
    ensures Bit(XTime(a), i) == ((i > 0 && i != 8 && Bit(a, i - 1)) != (Bit(a, 7) && Bit(0x1d, i)))
  {
    hide Bit, Xor;
    assert Pow2(7) == 128;
    if a < 128 {
      HighBit(7, a);
      DoubleBit(a, i);
      if i == 8 { HighBit(8, 2 * a) by { assert Pow2(8) == 256; } }
    } else {
      XorBits();
      DoubleBit(a - 128, i);
      ClearTop(7, a, if i == 0 then 0 else i - 1);
    }
  }

  lemma XTimeXor(a: byte, b: byte)
    ensures XTime(Xor(a, b)) == Xor(XTime(a), XTime(b))
  {
    hide Xor, XTime, Bit;
    forall i: nat ensures Bit(XTime(Xor(a, b)), i) == Bit(Xor(XTime(a), XTime(b)), i) {
      XorBits();
      XTimeBit(a, i); XTimeBit(b, i); XTimeBit(Xor(a, b), i);
    }
    ByBits(XTime(Xor(a, b)), Xor(XTime(a), XTime(b)));
  }

  function Mul(a: byte, b: byte): byte
    decreases b
  {
    if b == 0 then 0 else Xor(if b % 2 == 1 then a else 0, Mul(XTime(a), b / 2))
  }

  lemma {:induction false} MulXorLeft(a: byte, c: byte, b: byte)
    ensures Mul(Xor(a, c), b) == Xor(Mul(a, b), Mul(c, b))
    decreases b
  {
    hide Xor, XTime;
    if b == 0 {
      XorZero(0);
    } else {
      XTimeXor(a, c);
      MulXorLeft(XTime(a), XTime(c), b / 2);
      var k := b % 2 == 1;
      if !k { XorZero(0); }
      XorSwap(if k then a else 0, if k then c else 0, Mul(XTime(a), b / 2), Mul(XTime(c), b / 2));
    }
  }

  lemma XTimeSmall(a: byte)
    requires a < 128
    ensures XTime(a) == 2 * a
  {}

  lemma {:induction false} MulXTimeLeft(a: byte, b: byte)
    ensures Mul(XTime(a), b) == XTime(Mul(a, b))
    decreases b
  {
    hide Xor, XTime;
    XTimeSmall(0);
    if b != 0 {
      MulXTimeLeft(XTime(a), b / 2);
      XTimeXor(if b % 2 == 1 then a else 0, Mul(XTime(a), b / 2));
    }
  }

  lemma {:induction false} MulZero(a: byte)
    ensures Mul(0, a) == 0 && Mul(a, 0) == 0
    decreases a
  {
    hide Xor, XTime;
    if a != 0 {
      XTimeSmall(0);
      XorZero(0);
      MulZero(a / 2);
    }
  }

  lemma {:induction false} MulOne(a: byte)
    ensures Mul(1, a) == a && Mul(a, 1) == a
    decreases a
  {
    hide Xor, XTime;
    if a == 0 {
      MulZero(1);
    } else {
      MulOne(a / 2);
      MulXTimeLeft(1, a / 2);
      XTimeSmall(a / 2);
      XorEven(a % 2, a / 2);
      XorZero(a);
      MulZero(XTime(a));
    }
  }

  lemma XorEven(b: byte, h: byte)
    requires b < 2 && h < 128
    ensures Xor(b, 2 * h) == b + 2 * h
  {
    XorZero(h);
    XorNatHalf(b, 2 * h);
  }

  lemma {:induction false} MulComm(a: byte, b: byte)
    ensures Mul(a, b) == Mul(b, a)
    decreases b
  {
    hide Xor, XTime;
    if b == 0 {
      MulZero(a);
    } else {
      var h := b / 2;
      MulXTimeLeft(a, h);
      MulComm(a, h);
      MulXTimeLeft(h, a);
      XTimeSmall(h);
      XorEven(b % 2, h);
      MulXorLeft(b % 2, 2 * h, a);
      MulZero(a);
      MulOne(a);
    }
  }

  lemma MulXorRight(a: byte, b: byte, c: byte)
    ensures Mul(a, Xor(b, c)) == Xor(Mul(a, b), Mul(a, c))
  {
    hide Xor, Mul;
    MulComm(a, Xor(b, c)); MulComm(a, b); MulComm(a, c);
    MulXorLeft(b, c, a);
  }

  lemma MulXTimeRight(a: byte, b: byte)
    ensures Mul(a, XTime(b)) == XTime(Mul(a, b))
  {
    hide Xor, XTime, Mul;
    MulComm(a, XTime(b)); MulComm(a, b);
    MulXTimeLeft(b, a);
  }

  lemma {:induction false} MulAssoc(a: byte, b: byte, c: byte)
    ensures Mul(Mul(a, b), c) == Mul(a, Mul(b, c))
    decreases c
  {
    hide Xor, XTime;
    if c == 0 {
      MulZero(a);
    } else {
      var h := c / 2;
      var low := if c % 2 == 1 then b else 0;
      MulXTimeLeft(Mul(a, b), h);
      MulXTimeLeft(b, h);
      MulAssoc(a, b, h);
      MulXTimeRight(a, Mul(b, h));
      MulXorRight(a, low, XTime(Mul(b, h)));
      MulZero(a);
    }
  }

  lemma MulSwap(a: byte, b: byte, c: byte)
    ensures Mul(a, Mul(b, c)) == Mul(b, Mul(a, c))
  {
    hide *;
    MulAssoc(a, b, c); MulComm(a, b); MulAssoc(b, a, c);
  }

  // ----- powers of alpha = 2 -----

  function Exp(n: nat): byte { if n == 0 then 1 else XTime(Exp(n - 1)) }

  lemma {:induction false} ExpAdd(m: nat, n: nat)
    ensures Exp(m + n) == Mul(Exp(m), Exp(n))
    decreases n
  {
    hide XTime, Mul;
    if n == 0 {
      MulOne(Exp(m));
    } else {
      ExpAdd(m, n - 1);
      MulXTimeRight(Exp(m), Exp(n - 1));
    }
  }

  lemma XorNatDigit(k: nat, b: nat, j: nat, c: nat)
    requires b < 2 && c < 2
    ensures XorNat(2 * k + b, 2 * j + c) == (if b == c then 0 else 1) + 2 * XorNat(k, j)
  {}

  lemma Xor1dDigits(q: nat, b3: nat, b2: nat, b1: nat, b0: nat)
    requires q < 8 && b3 < 2 && b2 < 2 && b1 < 2 && b0 < 2
    ensures Xor(32 * q + 16 * b3 + 8 * b2 + 4 * b1 + 2 * b0, 0x1d) ==
            32 * q + 16 * (1 - b3) + 8 * (1 - b2) + 4 * (1 - b1) + 2 * b0 + 1
  {
    hide XorNat;
    XorZero(q);
    XorNatDigit(q, b3, 0, 1);
    XorNatDigit(2 * q + b3, b2, 1, 1);
    XorNatDigit(4 * q + 2 * b3 + b2, b1, 3, 1);
    XorNatDigit(8 * q + 4 * b3 + 2 * b2 + b1, b0, 7, 0);
    XorNatDigit(16 * q + 8 * b3 + 4 * b2 + 2 * b1 + b0, 0, 14, 1);
  }
  lemma Xor1d(q: nat, r: nat)
    requires q < 8 && r < 16
    ensures Xor(32 * q + 2 * r, 0x1d) == 32 * q + 1 + 2 * (if r % 2 == 0 then 14 - r else 16 - r)
  {
    hide Xor;
    var b3 := if r >= 8 then 1 else 0;
    var r3 := r - 8 * b3;
    var b2 := if r3 >= 4 then 1 else 0;
    var r2 := r3 - 4 * b2;
    var b1 := if r2 >= 2 then 1 else 0;
    Xor1dDigits(q, b3, b2, b1, r2 - 2 * b1);
  }

  lemma XorPair(a: nat, x: nat, b: nat, y: nat)
    requires x < 4 && y < 4
    ensures XorNat(4 * a + x, 4 * b + y) == 4 * XorNat(a, b) + XorNat(x, y)
  {
    hide XorNat;
    XorNatDigit(2 * a + x / 2, x % 2, 2 * b + y / 2, y % 2);
    XorNatDigit(a, x / 2, b, y / 2);
    XorNatDigit(x / 2, x % 2, y / 2, y % 2);
    XorNatDigit(0, x / 2, 0, y / 2);
    XorZero(0);
  }
  lemma XorNibble(a: nat, x: nat, b: nat, y: nat)
    requires x < 16 && y < 16
    ensures XorNat(16 * a + x, 16 * b + y) == 16 * XorNat(a, b) + XorNat(x, y)
  {
    hide XorNat;
    XorPair(4 * a + x / 4, x % 4, 4 * b + y / 4, y % 4);
    XorPair(a, x / 4, b, y / 4);
    XorPair(x / 4, x % 4, y / 4, y % 4);
  }
}
