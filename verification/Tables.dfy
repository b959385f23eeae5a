module Tables {
  import opened Bytes
  import opened GF256

  datatype TableRow = TableRow(e0: byte, e1: byte, e2: byte, e3: byte, e4: byte, e5: byte, e6: byte, e7: byte,
                               e8: byte, e9: byte, ea: byte, eb: byte, ec: byte, ed: byte, ee: byte, ef: byte)

  function ExpRow(k: nat): TableRow
    requires k < 16
  {
    if k == 0 then
      TableRow(0x01, 0x02, 0x04, 0x08, 0x10, 0x20, 0x40, 0x80, 0x1d, 0x3a, 0x74, 0xe8, 0xcd, 0x87, 0x13, 0x26)
    else if k == 1 then
      TableRow(0x4c, 0x98, 0x2d, 0x5a, 0xb4, 0x75, 0xea, 0xc9, 0x8f, 0x03, 0x06, 0x0c, 0x18, 0x30, 0x60, 0xc0)
    else if k == 2 then
      TableRow(0x9d, 0x27, 0x4e, 0x9c, 0x25, 0x4a, 0x94, 0x35, 0x6a, 0xd4, 0xb5, 0x77, 0xee, 0xc1, 0x9f, 0x23)
    else if k == 3 then
      TableRow(0x46, 0x8c, 0x05, 0x0a, 0x14, 0x28, 0x50, 0xa0, 0x5d, 0xba, 0x69, 0xd2, 0xb9, 0x6f, 0xde, 0xa1)
    else if k == 4 then
      TableRow(0x5f, 0xbe, 0x61, 0xc2, 0x99, 0x2f, 0x5e, 0xbc, 0x65, 0xca, 0x89, 0x0f, 0x1e, 0x3c, 0x78, 0xf0)
    else if k == 5 then
      TableRow(0xfd, 0xe7, 0xd3, 0xbb, 0x6b, 0xd6, 0xb1, 0x7f, 0xfe, 0xe1, 0xdf, 0xa3, 0x5b, 0xb6, 0x71, 0xe2)
    else if k == 6 then
      TableRow(0xd9, 0xaf, 0x43, 0x86, 0x11, 0x22, 0x44, 0x88, 0x0d, 0x1a, 0x34, 0x68, 0xd0, 0xbd, 0x67, 0xce)
    else if k == 7 then
      TableRow(0x81, 0x1f, 0x3e, 0x7c, 0xf8, 0xed, 0xc7, 0x93, 0x3b, 0x76, 0xec, 0xc5, 0x97, 0x33, 0x66, 0xcc)
    else if k == 8 then
      TableRow(0x85, 0x17, 0x2e, 0x5c, 0xb8, 0x6d, 0xda, 0xa9, 0x4f, 0x9e, 0x21, 0x42, 0x84, 0x15, 0x2a, 0x54)
    else if k == 9 then
      TableRow(0xa8, 0x4d, 0x9a, 0x29, 0x52, 0xa4, 0x55, 0xaa, 0x49, 0x92, 0x39, 0x72, 0xe4, 0xd5, 0xb7, 0x73)
    else if k == 10 then
      TableRow(0xe6, 0xd1, 0xbf, 0x63, 0xc6, 0x91, 0x3f, 0x7e, 0xfc, 0xe5, 0xd7, 0xb3, 0x7b, 0xf6, 0xf1, 0xff)
    else if k == 11 then
      TableRow(0xe3, 0xdb, 0xab, 0x4b, 0x96, 0x31, 0x62, 0xc4, 0x95, 0x37, 0x6e, 0xdc, 0xa5, 0x57, 0xae, 0x41)
    else if k == 12 then
      TableRow(0x82, 0x19, 0x32, 0x64, 0xc8, 0x8d, 0x07, 0x0e, 0x1c, 0x38, 0x70, 0xe0, 0xdd, 0xa7, 0x53, 0xa6)
    else if k == 13 then
      TableRow(0x51, 0xa2, 0x59, 0xb2, 0x79, 0xf2, 0xf9, 0xef, 0xc3, 0x9b, 0x2b, 0x56, 0xac, 0x45, 0x8a, 0x09)
    else if k == 14 then
      TableRow(0x12, 0x24, 0x48, 0x90, 0x3d, 0x7a, 0xf4, 0xf5, 0xf7, 0xf3, 0xfb, 0xeb, 0xcb, 0x8b, 0x0b, 0x16)
    else TableRow(0x2c, 0x58, 0xb0, 0x7d, 0xfa, 0xe9, 0xcf, 0x83, 0x1b, 0x36, 0x6c, 0xd8, 0xad, 0x47, 0x8e, 0x01)
  }

  function LogRow(k: nat): TableRow
    requires k < 16
  {
    if k == 0 then
      TableRow(0x00, 0x00, 0x01, 0x19, 0x02, 0x32, 0x1a, 0xc6, 0x03, 0xdf, 0x33, 0xee, 0x1b, 0x68, 0xc7, 0x4b)
    else if k == 1 then
      TableRow(0x04, 0x64, 0xe0, 0x0e, 0x34, 0x8d, 0xef, 0x81, 0x1c, 0xc1, 0x69, 0xf8, 0xc8, 0x08, 0x4c, 0x71)
    else if k == 2 then
      TableRow(0x05, 0x8a, 0x65, 0x2f, 0xe1, 0x24, 0x0f, 0x21, 0x35, 0x93, 0x8e, 0xda, 0xf0, 0x12, 0x82, 0x45)
    else if k == 3 then
      TableRow(0x1d, 0xb5, 0xc2, 0x7d, 0x6a, 0x27, 0xf9, 0xb9, 0xc9, 0x9a, 0x09, 0x78, 0x4d, 0xe4, 0x72, 0xa6)
    else if k == 4 then
      TableRow(0x06, 0xbf, 0x8b, 0x62, 0x66, 0xdd, 0x30, 0xfd, 0xe2, 0x98, 0x25, 0xb3, 0x10, 0x91, 0x22, 0x88)
    else if k == 5 then
      TableRow(0x36, 0xd0, 0x94, 0xce, 0x8f, 0x96, 0xdb, 0xbd, 0xf1, 0xd2, 0x13, 0x5c, 0x83, 0x38, 0x46, 0x40)
    else if k == 6 then
      TableRow(0x1e, 0x42, 0xb6, 0xa3, 0xc3, 0x48, 0x7e, 0x6e, 0x6b, 0x3a, 0x28, 0x54, 0xfa, 0x85, 0xba, 0x3d)
    else if k == 7 then
      TableRow(0xca, 0x5e, 0x9b, 0x9f, 0x0a, 0x15, 0x79, 0x2b, 0x4e, 0xd4, 0xe5, 0xac, 0x73, 0xf3, 0xa7, 0x57)
    else if k == 8 then
      TableRow(0x07, 0x70, 0xc0, 0xf7, 0x8c, 0x80, 0x63, 0x0d, 0x67, 0x4a, 0xde, 0xed, 0x31, 0xc5, 0xfe, 0x18)
    else if k == 9 then
      TableRow(0xe3, 0xa5, 0x99, 0x77, 0x26, 0xb8, 0xb4, 0x7c, 0x11, 0x44, 0x92, 0xd9, 0x23, 0x20, 0x89, 0x2e)
    else if k == 10 then
      TableRow(0x37, 0x3f, 0xd1, 0x5b, 0x95, 0xbc, 0xcf, 0xcd, 0x90, 0x87, 0x97, 0xb2, 0xdc, 0xfc, 0xbe, 0x61)
    else if k == 11 then
      TableRow(0xf2, 0x56, 0xd3, 0xab, 0x14, 0x2a, 0x5d, 0x9e, 0x84, 0x3c, 0x39, 0x53, 0x47, 0x6d, 0x41, 0xa2)
    else if k == 12 then
      TableRow(0x1f, 0x2d, 0x43, 0xd8, 0xb7, 0x7b, 0xa4, 0x76, 0xc4, 0x17, 0x49, 0xec, 0x7f, 0x0c, 0x6f, 0xf6)
    else if k == 13 then
      TableRow(0x6c, 0xa1, 0x3b, 0x52, 0x29, 0x9d, 0x55, 0xaa, 0xfb, 0x60, 0x86, 0xb1, 0xbb, 0xcc, 0x3e, 0x5a)
    else if k == 14 then
      TableRow(0xcb, 0x59, 0x5f, 0xb0, 0x9c, 0xa9, 0xa0, 0x51, 0x0b, 0xf5, 0x16, 0xeb, 0x7a, 0x75, 0x2c, 0xd7)
    else TableRow(0x4f, 0xae, 0xd5, 0xe9, 0xe6, 0xe7, 0xad, 0xe8, 0x74, 0xd6, 0xf4, 0xea, 0xa8, 0x50, 0x58, 0xaf)
  }

  function At(r: TableRow, j: nat): byte
    requires j < 16
  {
    if j == 0 then r.e0
    else if j == 1 then r.e1
    else if j == 2 then r.e2
    else if j == 3 then r.e3
    else if j == 4 then r.e4
    else if j == 5 then r.e5
    else if j == 6 then r.e6
    else if j == 7 then r.e7
    else if j == 8 then r.e8
    else if j == 9 then r.e9
    else if j == 10 then r.ea
    else if j == 11 then r.eb
    else if j == 12 then r.ec
    else if j == 13 then r.ed
    else if j == 14 then r.ee
    else r.ef
  }

  // What XTime does, as arithmetic on literals: the form in which the table rows are checked.
  function Double(a: byte): byte {
    if a < 128 then 2 * a
    else 32 * ((a - 128) / 16) + 1 + 2 * (if a % 2 == 0 then 14 - a % 16 else 16 - a % 16)
  }

  lemma XTimeIsDouble(a: byte)
    ensures XTime(a) == Double(a)
  {
    hide Xor;
    if a >= 128 {
      assert a - 128 == 16 * ((a - 128) / 16) + a % 16;
      Xor1d((a - 128) / 16, a % 16);
    }
  }

  function ExpAt(n: byte): byte { At(ExpRow(n / 16), n % 16) }

  function LogAt(v: byte): byte { At(LogRow(v / 16), v % 16) }

  // t_exp: 768 entries, the first 255 of them repeated.
  function TExp(i: nat): byte
    requires i < 768
  {
    ExpAt(i % 255)
  }

  // t_log: the code stores 0 for the byte 0, which has no logarithm.
  function TLog(v: byte): byte { LogAt(v) }

  // ----- the literals, checked against each other -----

  predicate RowDoubles(r: TableRow) {
    && r.e1 == Double(r.e0)
    && r.e2 == Double(r.e1)
    && r.e3 == Double(r.e2)
    && r.e4 == Double(r.e3)
    && r.e5 == Double(r.e4)
    && r.e6 == Double(r.e5)
    && r.e7 == Double(r.e6)
    && r.e8 == Double(r.e7)
    && r.e9 == Double(r.e8)
    && r.ea == Double(r.e9)
    && r.eb == Double(r.ea)
    && r.ec == Double(r.eb)
    && r.ed == Double(r.ec)
    && r.ee == Double(r.ed)
    && r.ef == Double(r.ee)
  }

  // Rows continue each other, and the value 1 appears at the two ends of the period only.
  predicate ExpLinkOk(k: nat)
    requires k < 16
  {
    var r := ExpRow(k);
    && (k < 15 ==> ExpRow(k + 1).e0 == Double(r.ef))
    && (k == 0 || r.e0 != 1) && r.e1 != 1 && r.e2 != 1 && r.e3 != 1 && r.e4 != 1 && r.e5 != 1
    && r.e6 != 1 && r.e7 != 1 && r.e8 != 1 && r.e9 != 1 && r.ea != 1 && r.eb != 1
    && r.ec != 1 && r.ed != 1 && r.ee != 1 && (k == 15 || r.ef != 1)
  }

  // The literal logarithms of the bytes 16 * k to 16 * k + 15, of all but 0.
  predicate LogsOk(k: nat)
    requires k < 16
  {
    var r := LogRow(k);
    && (k == 0 || ExpAt(r.e0) == 16 * k)
    && ExpAt(r.e1) == 16 * k + 1
    && ExpAt(r.e2) == 16 * k + 2
    && ExpAt(r.e3) == 16 * k + 3
    && ExpAt(r.e4) == 16 * k + 4
    && ExpAt(r.e5) == 16 * k + 5
    && ExpAt(r.e6) == 16 * k + 6
    && ExpAt(r.e7) == 16 * k + 7
    && ExpAt(r.e8) == 16 * k + 8
    && ExpAt(r.e9) == 16 * k + 9
    && ExpAt(r.ea) == 16 * k + 10
    && ExpAt(r.eb) == 16 * k + 11
    && ExpAt(r.ec) == 16 * k + 12
    && ExpAt(r.ed) == 16 * k + 13
    && ExpAt(r.ee) == 16 * k + 14
    && ExpAt(r.ef) == 16 * k + 15
  }

  // One column of a table at a time.
  lemma ExpColumn1(k: nat) requires k < 16 ensures ExpRow(k).e1 == Double(ExpRow(k).e0) {}
  lemma ExpColumn2(k: nat) requires k < 16 ensures ExpRow(k).e2 == Double(ExpRow(k).e1) {}
  lemma ExpColumn3(k: nat) requires k < 16 ensures ExpRow(k).e3 == Double(ExpRow(k).e2) {}
  lemma ExpColumn4(k: nat) requires k < 16 ensures ExpRow(k).e4 == Double(ExpRow(k).e3) {}
  lemma ExpColumn5(k: nat) requires k < 16 ensures ExpRow(k).e5 == Double(ExpRow(k).e4) {}
  lemma ExpColumn6(k: nat) requires k < 16 ensures ExpRow(k).e6 == Double(ExpRow(k).e5) {}
  lemma ExpColumn7(k: nat) requires k < 16 ensures ExpRow(k).e7 == Double(ExpRow(k).e6) {}
  lemma ExpColumn8(k: nat) requires k < 16 ensures ExpRow(k).e8 == Double(ExpRow(k).e7) {}
  lemma ExpColumn9(k: nat) requires k < 16 ensures ExpRow(k).e9 == Double(ExpRow(k).e8) {}
  lemma ExpColumn10(k: nat) requires k < 16 ensures ExpRow(k).ea == Double(ExpRow(k).e9) {}
  lemma ExpColumn11(k: nat) requires k < 16 ensures ExpRow(k).eb == Double(ExpRow(k).ea) {}
  lemma ExpColumn12(k: nat) requires k < 16 ensures ExpRow(k).ec == Double(ExpRow(k).eb) {}
  lemma ExpColumn13(k: nat) requires k < 16 ensures ExpRow(k).ed == Double(ExpRow(k).ec) {}
  lemma ExpColumn14(k: nat) requires k < 16 ensures ExpRow(k).ee == Double(ExpRow(k).ed) {}
  lemma ExpColumn15(k: nat) requires k < 16 ensures ExpRow(k).ef == Double(ExpRow(k).ee) {}

  lemma ExpLinks(k: nat)
    requires k < 16
    ensures ExpLinkOk(k)
  {}

  lemma LogColumn0(k: nat) requires k < 16 ensures k == 0 || ExpAt(LogRow(k).e0) == 16 * k {}
  lemma LogColumn1(k: nat) requires k < 16 ensures ExpAt(LogRow(k).e1) == 16 * k + 1 {}
  lemma LogColumn2(k: nat) requires k < 16 ensures ExpAt(LogRow(k).e2) == 16 * k + 2 {}
  lemma LogColumn3(k: nat) requires k < 16 ensures ExpAt(LogRow(k).e3) == 16 * k + 3 {}
  lemma LogColumn4(k: nat) requires k < 16 ensures ExpAt(LogRow(k).e4) == 16 * k + 4 {}
  lemma LogColumn5(k: nat) requires k < 16 ensures ExpAt(LogRow(k).e5) == 16 * k + 5 {}
  lemma LogColumn6(k: nat) requires k < 16 ensures ExpAt(LogRow(k).e6) == 16 * k + 6 {}
  lemma LogColumn7(k: nat) requires k < 16 ensures ExpAt(LogRow(k).e7) == 16 * k + 7 {}
  lemma LogColumn8(k: nat) requires k < 16 ensures ExpAt(LogRow(k).e8) == 16 * k + 8 {}
  lemma LogColumn9(k: nat) requires k < 16 ensures ExpAt(LogRow(k).e9) == 16 * k + 9 {}
  lemma LogColumn10(k: nat) requires k < 16 ensures ExpAt(LogRow(k).ea) == 16 * k + 10 {}
  lemma LogColumn11(k: nat) requires k < 16 ensures ExpAt(LogRow(k).eb) == 16 * k + 11 {}
  lemma LogColumn12(k: nat) requires k < 16 ensures ExpAt(LogRow(k).ec) == 16 * k + 12 {}
  lemma LogColumn13(k: nat) requires k < 16 ensures ExpAt(LogRow(k).ed) == 16 * k + 13 {}
  lemma LogColumn14(k: nat) requires k < 16 ensures ExpAt(LogRow(k).ee) == 16 * k + 14 {}
  lemma LogColumn15(k: nat) requires k < 16 ensures ExpAt(LogRow(k).ef) == 16 * k + 15 {}

  lemma ExpRows(k: nat)
    requires k < 16
    ensures RowDoubles(ExpRow(k)) && ExpLinkOk(k)
  {
    hide ExpRow, Double, ExpLinkOk;
    ExpLinks(k);
    ExpColumn1(k);
    ExpColumn2(k);
    ExpColumn3(k);
    ExpColumn4(k);
    ExpColumn5(k);
    ExpColumn6(k);
    ExpColumn7(k);
    ExpColumn8(k);
    ExpColumn9(k);
    ExpColumn10(k);
    ExpColumn11(k);
    ExpColumn12(k);
    ExpColumn13(k);
    ExpColumn14(k);
    ExpColumn15(k);
  }

  lemma LogRows(k: nat)
    requires k < 16
    ensures LogsOk(k)
  {
    hide ExpAt, LogRow;
    LogColumn0(k);
    LogColumn1(k);
    LogColumn2(k);
    LogColumn3(k);
    LogColumn4(k);
    LogColumn5(k);
    LogColumn6(k);
    LogColumn7(k);
    LogColumn8(k);
    LogColumn9(k);
    LogColumn10(k);
    LogColumn11(k);
    LogColumn12(k);
    LogColumn13(k);
    LogColumn14(k);
    LogColumn15(k);
  }

  // ----- what the tables mean -----

  lemma ExpAtStep(n: byte)
    requires n < 255
    ensures ExpAt(n + 1) == Double(ExpAt(n))
    ensures n > 0 ==> ExpAt(n) != 1
  {
    hide ExpRow, Double;
    ExpRows(n / 16);
    if n % 16 == 15 {
      assert (n + 1) / 16 == n / 16 + 1 && (n + 1) % 16 == 0;
    } else {
      assert (n + 1) / 16 == n / 16 && (n + 1) % 16 == n % 16 + 1;
    }
  }

  lemma {:induction false} ExpTable(n: byte)
    ensures Exp(n) == ExpAt(n)
  {
    hide XTime;
    if n == 0 {
      ExpRows(0);
    } else {
      ExpTable(n - 1);
      XTimeIsDouble(Exp(n - 1));
      ExpAtStep(n - 1);
    }
  }

  lemma ExpEnds()
    ensures ExpAt(0) == 1 && ExpAt(255) == 1 && LogAt(1) == 0
  {}

  lemma {:induction false} ExpPeriod(n: nat)
    ensures Exp(n) == Exp(n % 255)
  {
    hide *;
    if n >= 255 {
      ExpPeriod(n - 255);
      assert (n - 255) % 255 == n % 255;
      ExpTable(255); ExpEnds();
      ExpAdd(n - 255, 255);
      MulOne(Exp(n - 255));
    }
  }

  // t_exp[i] is alpha^i for every index the code can form.
  lemma TExpIsExp(i: nat)
    requires i < 768
    ensures TExp(i) == Exp(i)
  {
    hide Exp, ExpAt;
    ExpPeriod(i);
    ExpTable(i % 255);
  }

  lemma ExpInverse(n: nat)
    requires n <= 255
    ensures Mul(Exp(n), Exp(255 - n)) == 1 && Exp(n) != 0
  {
    hide Exp, ExpAt, Mul;
    ExpAdd(n, 255 - n);
    ExpTable(255); ExpEnds();
    MulZero(Exp(255 - n));
  }

  lemma {:induction false} ExpInjective(a: nat, b: nat)
    requires a < 255 && b < 255 && Exp(a) == Exp(b)
    ensures a == b
  {
    hide Exp, ExpAt, Mul;
    if a > b {
      ExpInjective(b, a);
    } else if a < b {
      ExpInverse(a);
      ExpAdd(b, 255 - a);
      ExpPeriod(255 + b - a);
      ExpTable(b - a);
      ExpAtStep(b - a);
    }
  }

  // t_log inverts alpha^n on the nonzero bytes, and is inverted by it.
  lemma TLogIsLog(v: byte)
    requires v != 0
    ensures TLog(v) < 255 && Exp(TLog(v)) == v
  {
    hide Exp, ExpAt, LogRow;
    LogRows(v / 16);
    assert ExpAt(TLog(v)) == v;
    ExpTable(TLog(v));
    ExpEnds();
  }

  lemma TLogOfExp(n: nat)
    requires n < 255
    ensures TLog(Exp(n)) == n && Exp(n) != 0
  {
    hide Exp, ExpAt, LogAt;
    ExpInverse(n);
    TLogIsLog(Exp(n));
    ExpInjective(TLog(Exp(n)), n);
  }

  // The code multiplies nonzero bytes by adding logarithms.
  lemma MulByLogs(a: byte, b: byte)
    requires a != 0 && b != 0
    ensures TExp(TLog(a) + TLog(b)) == Mul(a, b)
  {
    hide Exp, Mul, TExp, TLog;
    TLogIsLog(a); TLogIsLog(b);
    TExpIsExp(TLog(a) + TLog(b));
    ExpAdd(TLog(a), TLog(b));
  }

  // ----- division -----

  function Inv(a: byte): byte
    requires a != 0
  {
    TLogIsLog(a);
    Exp(255 - TLog(a))
  }

  lemma MulInv(a: byte)
    requires a != 0
    ensures Mul(a, Inv(a)) == 1 && Mul(Inv(a), a) == 1 && Inv(a) != 0
  {
    hide Exp, Mul, TLog;
    TLogIsLog(a);
    ExpInverse(TLog(a));
    ExpInverse(255 - TLog(a));
    MulComm(a, Inv(a));
  }

  lemma MulNonzero(a: byte, b: byte)
    ensures Mul(a, b) == 0 <==> a == 0 || b == 0
  {
    hide Mul, Inv;
    MulZero(a); MulZero(b);
    if a != 0 && Mul(a, b) == 0 {
      MulInv(a);
      MulAssoc(Inv(a), a, b);
      MulOne(b);
      MulZero(Inv(a));
    }
  }

  // The code's division by delta: t_exp[t_log[a] + (t_log[delta] ^ 255)].
  lemma DivByLogs(a: byte, delta: byte)
    requires a != 0 && delta != 0
    ensures TLog(delta) < 255
    ensures TExp(TLog(a) + (255 - TLog(delta))) == Mul(a, Inv(delta))
  {
    hide Exp, Mul, TExp, TLog;
    TLogIsLog(a); TLogIsLog(delta);
    TExpIsExp(TLog(a) + (255 - TLog(delta)));
    ExpAdd(TLog(a), 255 - TLog(delta));
  }
}
