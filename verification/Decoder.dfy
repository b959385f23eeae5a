// rs_decode_string as a function of the 36 symbols of a string: its return value and the
// string it leaves behind.
module Decoder {
  import opened Bytes
  import opened GF256
  import opened Tables
  import opened Poly
  import opened Codeword
  import opened KeyEquation

  // syn[0] = 1 and syn[i] is the value at alpha^(i-1).
  function Syndromes(w: seq<byte>): (syn: seq<byte>)
    requires |w| == LENGTH
    ensures |syn| == 5 && syn[0] == 1
  {
    [1, Eval(Exp(0), w), Eval(Exp(1), w), Eval(Exp(2), w), Eval(Exp(3), w)]
  }

  // sigma at alpha^-p, as the root search forms it from logarithms.
  function SigmaAt(sigma: seq<byte>, p: nat): byte
    requires |sigma| == 5 && p < 256
  {
    Xor(Xor(sigma[0], if sigma[1] != 0 then TExp(255 - p + TLog(sigma[1])) else 0),
        TExp(2 * (255 - p) + TLog(sigma[2])))
  }

  // The first position from p on whose inverse is a root, or 256.
  function FirstRoot(sigma: seq<byte>, p: nat): nat
    requires |sigma| == 5 && p <= 256
    decreases 256 - p
  {
    if p == 256 || SigmaAt(sigma, p) == 0 then p else FirstRoot(sigma, p + 1)
  }

  lemma {:induction false} FirstRootIsFirst(sigma: seq<byte>, p: nat)
    requires |sigma| == 5 && p <= 256
    ensures p <= FirstRoot(sigma, p) <= 256
    ensures FirstRoot(sigma, p) < 256 ==> SigmaAt(sigma, FirstRoot(sigma, p)) == 0
    ensures forall q | p <= q < FirstRoot(sigma, p) :: SigmaAt(sigma, q) != 0
    decreases 256 - p
  {
    hide SigmaAt;
    if p != 256 && SigmaAt(sigma, p) != 0 {
      FirstRootIsFirst(sigma, p + 1);
    }
  }

  // omega at alpha^-p.
  function OmegaAt(omega: seq<byte>, p: nat): byte
    requires |omega| == 5 && p < 256
  {
    Xor(Xor(omega[0], if omega[1] != 0 then TExp(TLog(omega[1]) + 255 - p) else 0),
        if omega[2] != 0 then TExp(TLog(omega[2]) + 2 * (255 - p)) else 0)
  }

  // The logarithm and position are added in a byte, so the sum is kept modulo 256.
  function StoredSum(omega: seq<byte>, p: nat): nat
    requires |omega| == 5 && p < 256
  {
    (TLog(OmegaAt(omega, p)) + p) % 256
  }

  // The error value at position p when the other error is at position q.
  function ErrorValue(omega: seq<byte>, p: nat, q: nat): byte
    requires |omega| == 5 && p < LENGTH && q < LENGTH
  {
    var div := TLog(Xor(1, TExp(255 + q - p)));
    TExp(255 + StoredSum(omega, p) - div)
  }

  function Flip(w: seq<byte>, p: nat, e: byte): (r: seq<byte>)
    requires |w| == LENGTH && p < LENGTH
    ensures |r| == LENGTH
  {
    w[LENGTH - 1 - p := Xor(w[LENGTH - 1 - p], e)]
  }

  function CorrectTwo(w: seq<byte>, sigma: seq<byte>, omega: seq<byte>): (r: (int, seq<byte>))
    requires |w| == LENGTH && |sigma| == 5 && |omega| == 5 && sigma[0] == 1 && sigma[2] != 0
    ensures |r.1| == LENGTH
  {
    var p1 := FirstRoot(sigma, 0);
    if p1 > 35 then (-1, w) else
    var d := TLog(sigma[2]) - p1 - TLog(sigma[0]);
    var p2 := if d < 0 then d + 255 else d;
    if p2 > 35 then (-1, w) else
    (2, Flip(Flip(w, p1, ErrorValue(omega, p1, p2)), p2, ErrorValue(omega, p2, p1)))
  }

  function Correct(w: seq<byte>, sigma: seq<byte>, omega: seq<byte>): (r: (int, seq<byte>))
    requires |w| == LENGTH && |sigma| == 5 && |omega| == 5 && sigma[0] == 1
    ensures |r.1| == LENGTH
  {
    if sigma[3] != 0 || sigma[4] != 0 then (-1, w)
    else if sigma[2] != 0 && sigma[0] != 0 then CorrectTwo(w, sigma, omega)
    else if sigma[1] != 0 && sigma[0] != 0 then
      var p := TLog(sigma[1]) - TLog(sigma[0]);
      if p > 35 then (-1, w) else (1, Flip(w, p, Xor(sigma[1], omega[1])))
    else (-1, w)
  }

  function Decode(w: seq<byte>): (r: (int, seq<byte>))
    requires |w| == LENGTH
    ensures |r.1| == LENGTH
  {
    if Ecc(w[..DATA]).Bytes() == w[DATA..] then (0, w)
    else
      KeyEquationAlways(4, Syndromes(w));
      var st := Run(4, Syndromes(w));
      Correct(w, st.sigma, st.omega)
  }
}
