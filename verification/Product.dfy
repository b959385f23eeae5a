// The 36 x 36 product code of a sector: every row and every column is a codeword.
module Product {
  import opened Bytes
  import opened GF256
  import opened Tables
  import opened Poly
  import opened Codeword
  import opened KeyEquation
  import opened Decoder
  import opened Corrections

  const CELLS: nat := 1296
  const BYTES: nat := 1024

  function Cell(m: seq<byte>, r: nat, c: nat): byte
    requires |m| == CELLS && r < 36 && c < 36
  {
    m[36 * r + c]
  }

  function Row(m: seq<byte>, r: nat): (w: seq<byte>)
    requires |m| == CELLS && r < 36
    ensures |w| == LENGTH
  {
    seq(36, c requires 0 <= c < 36 => Cell(m, r, c))
  }

  function Col(m: seq<byte>, c: nat): (w: seq<byte>)
    requires |m| == CELLS && c < 36
    ensures |w| == LENGTH
  {
    seq(36, r requires 0 <= r < 36 => Cell(m, r, c))
  }

  function PutRow(m: seq<byte>, r: nat, w: seq<byte>): (n: seq<byte>)
    requires |m| == CELLS && |w| == LENGTH
    ensures |n| == CELLS
  {
    seq(CELLS, i requires 0 <= i < CELLS => if i / 36 == r then w[i % 36] else m[i])
  }

  function PutCol(m: seq<byte>, c: nat, w: seq<byte>): (n: seq<byte>)
    requires |m| == CELLS && |w| == LENGTH
    ensures |n| == CELLS
  {
    seq(CELLS, i requires 0 <= i < CELLS => if i % 36 == c then w[i / 36] else m[i])
  }

  lemma PutRowCells(m: seq<byte>, r: nat, w: seq<byte>, r': nat, c': nat)
    requires |m| == CELLS && |w| == LENGTH && r' < 36 && c' < 36
    ensures Cell(PutRow(m, r, w), r', c') == if r' == r then w[c'] else Cell(m, r', c')
  {
    assert (36 * r' + c') / 36 == r' && (36 * r' + c') % 36 == c';
  }

  lemma PutColCells(m: seq<byte>, c: nat, w: seq<byte>, r': nat, c': nat)
    requires |m| == CELLS && |w| == LENGTH && r' < 36 && c' < 36
    ensures Cell(PutCol(m, c, w), r', c') == if c' == c then w[r'] else Cell(m, r', c')
  {
    assert (36 * r' + c') / 36 == r' && (36 * r' + c') % 36 == c';
  }

  // The sector an encoder must produce for the given 1024 bytes.
  ghost predicate IsEncoded(m: seq<byte>, data: seq<byte>) {
    && |m| == CELLS && |data| == BYTES
    && (forall r | 0 <= r < 36 :: IsCodeword(Row(m, r)))
    && (forall c | 0 <= c < 36 :: IsCodeword(Col(m, c)))
    && (forall r, c | 0 <= r < 32 && 0 <= c < 32 :: Cell(m, r, c) == data[32 * r + c])
  }

  // ----- the check columns are codewords although nobody encodes them -----

  // The value at z of each column, as a string.
  function ColumnValues(m: seq<byte>, z: byte, n: nat): (v: seq<byte>)
    requires |m| == CELLS && n <= 36
    ensures |v| == LENGTH
  {
    seq(36, c requires 0 <= c < 36 => Eval(z, Col(m, c)[..n]))
  }

  lemma {:induction false} ColumnValuesStep(m: seq<byte>, z: byte, n: nat)
    requires |m| == CELLS && n < 36
    ensures ColumnValues(m, z, n + 1) == Sum(Scale(z, ColumnValues(m, z, n)), Row(m, n))
  {
    hide Xor, Mul, Eval;
    var l, r := ColumnValues(m, z, n + 1), Sum(Scale(z, ColumnValues(m, z, n)), Row(m, n));
    forall c | 0 <= c < 36 ensures l[c] == r[c] {
      var w := Col(m, c);
      assert w[..n + 1] == w[..n] + [w[n]];
      EvalPush(z, w[..n], w[n]);
    }
  }

  // If all rows are codewords, so is the string of the column values: it is a combination of rows.
  lemma {:induction false} ColumnValuesVanish(m: seq<byte>, z: byte, n: nat, j: nat)
    requires |m| == CELLS && n <= 36 && j < 4
    requires forall r | 0 <= r < n :: IsCodeword(Row(m, r))
    ensures Eval(Exp(j), ColumnValues(m, z, n)) == 0
    decreases n
  {
    hide Xor, Mul, Eval, Exp;
    if n == 0 {
      forall c | 0 <= c < 36 ensures ColumnValues(m, z, 0)[c] == 0 {
        assert Col(m, c)[..0] == [];
        EvalZeros(z, []);
      }
      EvalZeros(Exp(j), ColumnValues(m, z, 0));
    } else {
      ColumnValuesVanish(m, z, n - 1, j);
      ColumnValuesStep(m, z, n - 1);
      var v := ColumnValues(m, z, n - 1);
      EvalSum(Exp(j), Scale(z, v), Row(m, n - 1));
      EvalScale(Exp(j), z, v);
      MulZero(z); XorZero(0);
    }
  }

  lemma {:induction false} CheckColumns(m: seq<byte>)
    requires |m| == CELLS
    requires forall r | 0 <= r < 36 :: IsCodeword(Row(m, r))
    requires forall c | 0 <= c < 32 :: IsCodeword(Col(m, c))
    ensures forall c | 0 <= c < 36 :: IsCodeword(Col(m, c))
  {
    hide Xor, Mul, Eval, Exp;
    forall c, j | 0 <= c < 36 && 0 <= j < 4 ensures Eval(Exp(j), Col(m, c)) == 0 {
      CheckColumnValue(m, c, j);
    }
  }

  lemma {:induction false} CheckColumnValue(m: seq<byte>, c: nat, j: nat)
    requires |m| == CELLS && c < 36 && j < 4
    requires forall r | 0 <= r < 36 :: IsCodeword(Row(m, r))
    requires forall c | 0 <= c < 32 :: IsCodeword(Col(m, c))
    ensures Eval(Exp(j), Col(m, c)) == 0
  {
    hide Xor, Mul, Eval, Exp, Ecc;
    var z := Exp(j);
    var v := ColumnValues(m, z, 36);
    forall k | 0 <= k < 4 ensures Eval(Exp(k), v) == 0 { ColumnValuesVanish(m, z, 36, k); }
    forall c | 0 <= c < 36 ensures v[c] == Eval(z, Col(m, c)) { assert Col(m, c)[..36] == Col(m, c); }
    var zeros := seq(36, i => 0);
    forall i | 0 <= i < 32 ensures v[i] == zeros[i] { assert IsCodeword(Col(m, i)); }
    forall k | 0 <= k < 4 ensures Eval(Exp(k), zeros) == 0 { EvalZeros(Exp(k), zeros); }
    assert IsCodeword(v) && IsCodeword(zeros);
    assert v[..DATA] == zeros[..DATA];
    EncodeIsTheCodeword(zeros, v); EncodeIsTheCodeword(zeros, zeros);
    assert v == zeros;
    assert v[c] == 0;
  }

  // ----- what rs_decode does, as a function of the buffer -----

  function DecodeRows(m: seq<byte>, n: nat): (r: (int, seq<byte>))
    requires |m| == CELLS && n <= 36
    ensures |r.1| == CELLS
  {
    if n == 0 then (0, m)
    else
      var (count, m') := DecodeRows(m, n - 1);
      var (e, w) := Decode(Row(m', n - 1));
      (if e != -1 then count + e else count, PutRow(m', n - 1, w))
  }

  // The data bytes of the 32 data rows moved together at the front.
  function Compact(m: seq<byte>): (r: seq<byte>)
    requires |m| == CELLS
    ensures |r| == CELLS
  {
    seq(CELLS, i requires 0 <= i < CELLS => if i < BYTES then m[36 * (i / 32) + i % 32] else m[i])
  }

  function DecodeColumns(m: seq<byte>, c: nat, count: int): (r: (int, seq<byte>))
    requires |m| == CELLS && c <= 32
    ensures |r.1| == CELLS
    decreases 32 - c
  {
    if c == 32 then (count, Compact(m))
    else
      var (e, w) := Decode(Col(m, c));
      var m' := PutCol(m, c, w);
      if e == -1 then (-1, m') else DecodeColumns(m', c + 1, count + e)
  }

  function DecodeSector(m: seq<byte>): (r: (int, seq<byte>))
    requires |m| == CELLS
    ensures |r.1| == CELLS
  {
    var (count, m') := DecodeRows(m, 36);
    DecodeColumns(m', 0, count)
  }

  // ----- decoding a damaged sector -----

  // w is c with at most one wrong symbol.
  ghost predicate OneOff(c: seq<byte>, w: seq<byte>) {
    && |c| == LENGTH && |w| == LENGTH
    && exists p | 0 <= p < LENGTH :: EqualExcept(c, w, p)
  }

  ghost predicate EqualExcept(c: seq<byte>, w: seq<byte>, p: nat)
    requires |c| == LENGTH && |w| == LENGTH
  {
    forall k | 0 <= k < LENGTH && k != p :: w[k] == c[k]
  }

  lemma {:induction false} OneOffDecodes(c: seq<byte>, w: seq<byte>)
    requires |c| == LENGTH && IsCodeword(c) && OneOff(c, w)
    ensures Decode(w) == (if w == c then 0 else 1, c)
  {
    hide Xor, Mul, Eval, Exp, IsCodeword, Correct;
    var k :| 0 <= k < LENGTH && EqualExcept(c, w, k);
    var p := LENGTH - 1 - k;
    var e := Xor(c[k], w[k]);
    XorAssoc(c[k], c[k], w[k]); XorZero(c[k]); XorZero(w[k]); XorCancel(c[k], w[k]);
    assert w == Flip(c, p, e);
    if w != c {
      assert e != 0;
      OneError(c, p, e);
    } else {
      FastCheckIsSlowCheck(w);
    }
  }

  // The rows the row decoder puts right, all but row b.
  ghost predicate RowsRepairable(enc: seq<byte>, m: seq<byte>, b: nat) {
    && |enc| == CELLS && |m| == CELLS
    && forall r | 0 <= r < 36 && r != b :: Decode(Row(m, r)).1 == Row(enc, r)
  }

  lemma DecodeRange(w: seq<byte>)
    requires |w| == LENGTH
    ensures -1 <= Decode(w).0 <= 2
  {
    hide Xor, Mul, Eval, Exp, Ecc, Run, FirstRoot, ErrorValue, TLog, Flip;
  }

  lemma {:induction false} RowsDecoded(m: seq<byte>, n: nat)
    requires |m| == CELLS && n <= 36
    ensures DecodeRows(m, n).0 >= 0
    ensures forall r | 0 <= r < 36 ::
              Row(DecodeRows(m, n).1, r) == if r < n then Decode(Row(m, r)).1 else Row(m, r)
    decreases n
  {
    hide Decode, PutRow;
    if n > 0 {
      RowsDecoded(m, n - 1);
      var m' := DecodeRows(m, n - 1).1;
      var (e, w) := Decode(Row(m', n - 1));
      DecodeRange(Row(m', n - 1));
      assert Row(m', n - 1) == Row(m, n - 1);
      forall r | 0 <= r < 36 ensures Row(PutRow(m', n - 1, w), r) == if r == n - 1 then w else Row(m', r) {
        forall c | 0 <= c < 36
          ensures Cell(PutRow(m', n - 1, w), r, c) == if r == n - 1 then w[c] else Cell(m', r, c)
        {
          PutRowCells(m', n - 1, w, r, c);
        }
      }
    }
  }

  // Columns that agree with the encoded ones except in row b are put right, one after another.
  lemma {:induction false} ColumnsDecoded(enc: seq<byte>, m: seq<byte>, b: nat, c: nat, count: int)
    requires |enc| == CELLS && |m| == CELLS && b < 36 && c <= 32 && count >= 0
    requires forall k | 0 <= k < 32 :: IsCodeword(Col(enc, k))
    requires forall r, k | 0 <= r < 36 && 0 <= k < 32 && (r != b || k < c) :: Cell(m, r, k) == Cell(enc, r, k)
    ensures DecodeColumns(m, c, count).0 >= 0
    ensures forall i | 0 <= i < BYTES :: DecodeColumns(m, c, count).1[i] == Cell(enc, i / 32, i % 32)
    decreases 32 - c
  {
    hide Decode, PutCol, IsCodeword;
    if c == 32 {
      forall i | 0 <= i < BYTES ensures Compact(m)[i] == Cell(enc, i / 32, i % 32) {
        assert Cell(m, i / 32, i % 32) == Cell(enc, i / 32, i % 32);
      }
    } else {
      var good, bad := Col(enc, c), Col(m, c);
      assert EqualExcept(good, bad, b) by {
        forall k | 0 <= k < LENGTH && k != b ensures bad[k] == good[k] {
          assert Cell(m, k, c) == Cell(enc, k, c);
        }
      }
      OneOffDecodes(good, bad);
      var m' := PutCol(m, c, good);
      forall r, k | 0 <= r < 36 && 0 <= k < 32 && (r != b || k < c + 1) ensures Cell(m', r, k) == Cell(enc, r, k) {
        PutColCells(m, c, good, r, k);
      }
      ColumnsDecoded(enc, m', b, c + 1, count + Decode(bad).0);
    }
  }

  // Every row but one repairable, that one damaged in any way: the data comes back.
  lemma {:induction false} ProductDecodes(enc: seq<byte>, data: seq<byte>, m: seq<byte>, b: nat)
    requires IsEncoded(enc, data) && b < 36 && RowsRepairable(enc, m, b)
    ensures DecodeSector(m).0 >= 0 && DecodeSector(m).1[..BYTES] == data
  {
    hide Decode, IsCodeword, DecodeRows, DecodeColumns;
    RowsDecoded(m, 36);
    var (count, m') := DecodeRows(m, 36);
    forall r, k | 0 <= r < 36 && 0 <= k < 32 && r != b ensures Cell(m', r, k) == Cell(enc, r, k) {
      assert Row(m', r)[k] == Row(enc, r)[k];
    }
    ColumnsDecoded(enc, m', b, 0, count);
    var out := DecodeSector(m).1;
    forall i | 0 <= i < BYTES ensures out[i] == data[i] {
      var r, k := i / 32, i % 32;
      assert i == 32 * r + k;
      assert Cell(enc, r, k) == data[32 * r + k];
    }
  }

  // In particular when every row but one has at most one wrong byte.
  lemma {:induction false} BurstDecodes(enc: seq<byte>, data: seq<byte>, m: seq<byte>, b: nat)
    requires IsEncoded(enc, data) && |m| == CELLS && b < 36
    requires forall r | 0 <= r < 36 && r != b :: OneOff(Row(enc, r), Row(m, r))
    ensures DecodeSector(m).0 >= 0 && DecodeSector(m).1[..BYTES] == data
  {
    hide Decode, IsCodeword, DecodeSector;
    forall r | 0 <= r < 36 && r != b ensures Decode(Row(m, r)).1 == Row(enc, r) {
      OneOffDecodes(Row(enc, r), Row(m, r));
    }
    ProductDecodes(enc, data, m, b);
  }

  // ----- what is returned, for any sector at all -----

  // rows is m after the row pass: each row as the string decoder leaves it.
  ghost predicate AfterRows(m: seq<byte>, rows: seq<byte>) {
    |m| == CELLS && |rows| == CELLS && forall r | 0 <= r < 36 :: Row(rows, r) == Decode(Row(m, r)).1
  }

  // The symbols corrected in the first n rows, an uncorrectable row counting none, and in the
  // columns from c on.
  function RowCount(m: seq<byte>, n: nat): int
    requires |m| == CELLS && n <= 36
  {
    if n == 0 then 0
    else RowCount(m, n - 1) + (if Decode(Row(m, n - 1)).0 == -1 then 0 else Decode(Row(m, n - 1)).0)
  }

  function ColumnCount(m: seq<byte>, c: nat): int
    requires |m| == CELLS && c <= 32
    decreases 32 - c
  {
    if c == 32 then 0 else Decode(Col(m, c)).0 + ColumnCount(m, c + 1)
  }

  // The first column from c on that cannot be corrected, or 32.
  function FirstFailure(m: seq<byte>, c: nat): nat
    requires |m| == CELLS && c <= 32
    decreases 32 - c
  {
    if c == 32 || Decode(Col(m, c)).0 == -1 then c else FirstFailure(m, c + 1)
  }

  lemma {:induction false} FirstFailureIsFirst(m: seq<byte>, c: nat)
    requires |m| == CELLS && c <= 32
    ensures c <= FirstFailure(m, c) <= 32
    ensures FirstFailure(m, c) < 32 ==> Decode(Col(m, FirstFailure(m, c))).0 == -1
    ensures forall k | c <= k < FirstFailure(m, c) :: Decode(Col(m, k)).0 != -1
    decreases 32 - c
  {
    hide Decode, Col;
    if c < 32 && Decode(Col(m, c)).0 != -1 { FirstFailureIsFirst(m, c + 1); }
  }

  lemma {:induction false} RowsCounted(m: seq<byte>, n: nat)
    requires |m| == CELLS && n <= 36
    ensures DecodeRows(m, n).0 == RowCount(m, n) >= 0
    decreases n
  {
    hide Decode, PutRow, Row;
    if n > 0 {
      RowsCounted(m, n - 1);
      RowsDecoded(m, n - 1);
      DecodeRange(Row(m, n - 1));
    }
  }

  // Putting a column changes that column alone.
  lemma PutColCols(m: seq<byte>, c: nat, w: seq<byte>, k: nat)
    requires |m| == CELLS && |w| == LENGTH && c < 36 && k < 36
    ensures Col(PutCol(m, c, w), k) == if k == c then w else Col(m, k)
  {
    hide PutCol;
    forall r | 0 <= r < 36 ensures Cell(PutCol(m, c, w), r, k) == if k == c then w[r] else Cell(m, r, k) {
      PutColCells(m, c, w, r, k);
    }
  }

  lemma {:induction false} SameColumns(m: seq<byte>, n: seq<byte>, c: nat)
    requires |m| == CELLS && |n| == CELLS && c <= 32 && forall k | c <= k < 32 :: Col(m, k) == Col(n, k)
    ensures ColumnCount(m, c) == ColumnCount(n, c) && FirstFailure(m, c) == FirstFailure(n, c)
    decreases 32 - c
  {
    hide Decode, Col;
    if c < 32 { SameColumns(m, n, c + 1); }
  }

  // The column pass from column c on: it fails at the first column that cannot be corrected, and
  // leaves the columns after it alone; otherwise every column is corrected and counted.
  lemma {:induction false} ColumnsExact(m: seq<byte>, c: nat, count: int)
    requires |m| == CELLS && c <= 32 && count >= 0
    ensures var d, f := DecodeColumns(m, c, count), FirstFailure(m, c);
      if f < 32 then
        && d.0 == -1
        && forall k | 0 <= k < 36 :: Col(d.1, k) == if c <= k <= f then Decode(Col(m, k)).1 else Col(m, k)
      else
        && d.0 == count + ColumnCount(m, c) >= 0
        && forall i | 0 <= i < BYTES ::
             d.1[i] == if i % 32 < c then Col(m, i % 32)[i / 32] else Decode(Col(m, i % 32)).1[i / 32]
    decreases 32 - c
  {
    hide Decode, PutCol, Col, Compact;
    if c == 32 {
      CompactColumns(m);
    } else {
      var (e, w) := Decode(Col(m, c));
      var m' := PutCol(m, c, w);
      DecodeRange(Col(m, c));
      forall k | 0 <= k < 36 ensures Col(m', k) == if k == c then w else Col(m, k) { PutColCols(m, c, w, k); }
      if e != -1 {
        ColumnsExact(m', c + 1, count + e);
        SameColumns(m', m, c + 1);
        FirstFailureIsFirst(m, c + 1);
      }
    }
  }

  lemma CompactColumns(m: seq<byte>)
    requires |m| == CELLS
    ensures forall i | 0 <= i < BYTES :: Compact(m)[i] == Col(m, i % 32)[i / 32]
  {}

  // What is returned and left for a sector m whose row pass ends in rows: -1 if and only if some
  // data column cannot be corrected then, with the columns up to the first such decoded in place;
  // otherwise the number of symbols corrected in all rows and data columns, with the data bytes
  // those of the decoded columns.
  ghost predicate Reported(m: seq<byte>, rows: seq<byte>, ecount: int, out: seq<byte>) {
    && AfterRows(m, rows) && |out| == CELLS
    && (ecount == -1 <==> exists c | 0 <= c < 32 :: Decode(Col(rows, c)).0 == -1)
    && (if ecount == -1 then
          forall k | 0 <= k < 36 ::
            Col(out, k) == if k <= FirstFailure(rows, 0) then Decode(Col(rows, k)).1 else Col(rows, k)
        else
          && ecount == RowCount(m, 36) + ColumnCount(rows, 0)
          && forall i | 0 <= i < BYTES :: out[i] == Decode(Col(rows, i % 32)).1[i / 32])
  }

  lemma {:induction false} SectorExact(m: seq<byte>, rows: seq<byte>)
    requires AfterRows(m, rows)
    ensures Reported(m, rows, DecodeSector(m).0, DecodeSector(m).1)
  {
    hide Decode, Row, Col, DecodeRows, DecodeColumns, RowCount, ColumnCount, FirstFailure;
    RowsDecoded(m, 36);
    RowsCounted(m, 36);
    var (count, m') := DecodeRows(m, 36);
    SameRows(m', rows);
    ColumnsExact(rows, 0, count);
    FirstFailureIsFirst(rows, 0);
  }

  lemma SameRows(m: seq<byte>, n: seq<byte>)
    requires |m| == CELLS && |n| == CELLS && forall r | 0 <= r < 36 :: Row(m, r) == Row(n, r)
    ensures m == n
  {
    forall i | 0 <= i < CELLS ensures m[i] == n[i] {
      assert i == 36 * (i / 36) + i % 36;
      assert Row(m, i / 36)[i % 36] == Row(n, i / 36)[i % 36];
    }
  }

  // ----- decoding an undamaged sector -----

  lemma {:induction false} CleanRows(m: seq<byte>, n: nat)
    requires |m| == CELLS && n <= 36
    requires forall r | 0 <= r < 36 :: Decode(Row(m, r)) == (0, Row(m, r))
    ensures DecodeRows(m, n) == (0, m)
    decreases n
  {
    hide Decode, PutRow;
    if n > 0 {
      CleanRows(m, n - 1);
      PutRowSame(m, n - 1);
    }
  }

  lemma PutRowSame(m: seq<byte>, r: nat)
    requires |m| == CELLS && r < 36
    ensures PutRow(m, r, Row(m, r)) == m
  {
    forall i | 0 <= i < CELLS ensures PutRow(m, r, Row(m, r))[i] == m[i] {
      assert i == 36 * (i / 36) + i % 36;
    }
  }

  lemma PutColSame(m: seq<byte>, c: nat)
    requires |m| == CELLS && c < 36
    ensures PutCol(m, c, Col(m, c)) == m
  {
    forall i | 0 <= i < CELLS ensures PutCol(m, c, Col(m, c))[i] == m[i] {
      assert i == 36 * (i / 36) + i % 36;
    }
  }

  lemma {:induction false} CleanColumns(m: seq<byte>, c: nat)
    requires |m| == CELLS && c <= 32
    requires forall k | 0 <= k < 32 :: Decode(Col(m, k)) == (0, Col(m, k))
    ensures DecodeColumns(m, c, 0) == (0, Compact(m))
    decreases 32 - c
  {
    hide Decode, PutCol, Compact;
    if c < 32 {
      PutColSame(m, c);
      CleanColumns(m, c + 1);
    }
  }

  // Decoding what was encoded corrects nothing and gives the bytes back.
  lemma {:induction false} EncodedDecodes(enc: seq<byte>, data: seq<byte>)
    requires IsEncoded(enc, data)
    ensures DecodeSector(enc).0 == 0 && DecodeSector(enc).1[..BYTES] == data
  {
    hide Decode, IsCodeword, DecodeColumns;
    forall r | 0 <= r < 36 ensures Decode(Row(enc, r)) == (0, Row(enc, r)) { CleanCodeword(Row(enc, r)); }
    forall c | 0 <= c < 32 ensures Decode(Col(enc, c)) == (0, Col(enc, c)) { CleanCodeword(Col(enc, c)); }
    CleanRows(enc, 36);
    CleanColumns(enc, 0);
    forall i | 0 <= i < BYTES ensures Compact(enc)[i] == data[i] {
      var r, k := i / 32, i % 32;
      assert i == 32 * r + k;
      assert Cell(enc, r, k) == data[32 * r + k];
    }
  }

  lemma {:induction false} CleanCodeword(c: seq<byte>)
    requires |c| == LENGTH && IsCodeword(c)
    ensures Decode(c) == (0, c)
  {
    hide Eval, Exp, Ecc, Correct;
    FastCheckIsSlowCheck(c);
  }

  // The encoded sector is determined by its data.
  lemma {:induction false} EncodedIsUnique(m: seq<byte>, n: seq<byte>, data: seq<byte>)
    requires IsEncoded(m, data) && IsEncoded(n, data)
    ensures m == n
  {
    hide IsCodeword;
    forall r | 0 <= r < 32 ensures Row(m, r) == Row(n, r) {
      SameData(Row(m, r), Row(n, r));
    }
    forall c | 0 <= c < 36 ensures Col(m, c) == Col(n, c) {
      forall k | 0 <= k < 32 ensures Col(m, c)[k] == Col(n, c)[k] {
        assert Row(m, k)[c] == Row(n, k)[c];
      }
      SameData(Col(m, c), Col(n, c));
    }
    forall i | 0 <= i < CELLS ensures m[i] == n[i] {
      assert i == 36 * (i / 36) + i % 36;
      assert Col(m, i % 36)[i / 36] == Col(n, i % 36)[i / 36];
    }
  }

  lemma {:induction false} SameData(v: seq<byte>, w: seq<byte>)
    requires |v| == LENGTH && |w| == LENGTH && IsCodeword(v) && IsCodeword(w)
    requires forall k | 0 <= k < 32 :: v[k] == w[k]
    ensures v == w
  {
    hide IsCodeword, Codeword.EncodeString;
    assert v[..DATA] == w[..DATA];
    EncodeIsTheCodeword(v, v); EncodeIsTheCodeword(v, w);
  }
}
