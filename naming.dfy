/** Die naming: a grid cell (C, R) and the user-chosen naming origin give one
    of eighteen die-type labels, repeating every 3 columns and every 6 rows,
    the row pattern running upward. Both front ends carry the same code. */
module DieNaming {
  import opened Basics

  /** The label table, in the order the report prints it. */
  const DieNames: seq<string> := [
    "0:No_NP", "1:MX_2x2", "2:MX_3x3", "3:MX_4x4", "4:32x16", " :Test1",
    "5:Oval", "6:2x2", "7:3x3", "8:4x4", "9:100x4", " :Test2",
    "A:D130", "B:D140", "C:D150", "D:D160", "E:D170", " :Test3"
  ]
  const NumCols := 3
  const NumRows := 6

  /** The index `Die_C * NUM_ROWS + Die_R` before the final reduction modulo
      the table length; it always lies inside the table. */
  function RawIndex(c: int, r: int, shift: Cell): (i: int)
    ensures 0 <= i < |DieNames|
  {
    var dieC := (c - shift.0) % NumCols;
    var dieR := NumRows - 1 - (r - shift.1) % NumRows;
    dieC * NumRows + dieR
  }

  /** The table index actually used, `die_index % len(DIE_NAMES)`. */
  function NameIndex(c: int, r: int, shift: Cell): nat {
    RawIndex(c, r, shift) % |DieNames|
  }

  function DieName(c: int, r: int, shift: Cell): (name: string)
    ensures name in DieNames
  {
    DieNames[NameIndex(c, r, shift)]
  }

  /** The final reduction modulo the table length never wraps. */
  lemma NameIndexNeverWraps(c: int, r: int, shift: Cell)
    ensures NameIndex(c, r, shift) == RawIndex(c, r, shift)
    ensures NameIndex(c, r, shift) == ((c - shift.0) % NumCols) * NumRows + (NumRows - 1 - (r - shift.1) % NumRows)
  {
  }

  lemma {:induction false} PeriodicInColumns(c: int, r: int, shift: Cell, k: int)
    ensures DieName(c + NumCols * k, r, shift) == DieName(c, r, shift)
  {
    var a := c - shift.0;
    assert c + NumCols * k - shift.0 == a + NumCols * k;
    assert (a + NumCols * k) % NumCols == a % NumCols;
    assert NameIndex(c + NumCols * k, r, shift) == NameIndex(c, r, shift);
  }

  lemma {:induction false} PeriodicInRows(c: int, r: int, shift: Cell, k: int)
    ensures DieName(c, r + NumRows * k, shift) == DieName(c, r, shift)
  {
    var a := r - shift.1;
    assert r + NumRows * k - shift.1 == a + NumRows * k;
    assert (a + NumRows * k) % NumRows == a % NumRows;
    assert NameIndex(c, r + NumRows * k, shift) == NameIndex(c, r, shift);
  }

  /** The cell picked as the naming origin is always the sixth label. */
  lemma OriginNamedTest1(shift: Cell)
    ensures NameIndex(shift.0, shift.1, shift) == 5
    ensures DieName(shift.0, shift.1, shift) == DieNames[5] == " :Test1"
  {
  }

  /** The block of 3 x 6 cells whose lower-left corner is (c0, r0). */
  predicate InBlock(c: int, r: int, c0: int, r0: int) {
    c0 <= c < c0 + NumCols && r0 <= r < r0 + NumRows
  }

  /** The cell of block (c0, r0) that carries label index i. */
  function BlockCell(i: int, shift: Cell, c0: int, r0: int): Cell
    requires 0 <= i < |DieNames|
  {
    var col := i / NumRows;
    var raw := NumRows - 1 - i % NumRows;
    (c0 + (shift.0 + col - c0) % NumCols, r0 + (shift.1 + raw - r0) % NumRows)
  }

  /** Every label appears in every 3 x 6 block: BlockCell finds it. */
  lemma {:induction false} BlockCoversAllLabels(i: int, shift: Cell, c0: int, r0: int)
    requires 0 <= i < |DieNames|
    ensures InBlock(BlockCell(i, shift, c0, r0).0, BlockCell(i, shift, c0, r0).1, c0, r0)
    ensures NameIndex(BlockCell(i, shift, c0, r0).0, BlockCell(i, shift, c0, r0).1, shift) == i
  {
    var cell := BlockCell(i, shift, c0, r0);
    var col := i / NumRows;
    var raw := NumRows - 1 - i % NumRows;
    assert cell.0 - shift.0 == (c0 - shift.0) + (shift.0 + col - c0) % NumCols;
    assert cell.1 - shift.1 == (r0 - shift.1) + (shift.1 + raw - r0) % NumRows;
    assert i == col * NumRows + i % NumRows;
  }

  /** No two cells of one 3 x 6 block share a label: together with
      BlockCoversAllLabels, naming is a bijection from a block onto the table. */
  lemma {:induction false} BlockNamesInjective(c1: int, r1: int, c2: int, r2: int, shift: Cell, c0: int, r0: int)
    requires InBlock(c1, r1, c0, r0) && InBlock(c2, r2, c0, r0)
    requires NameIndex(c1, r1, shift) == NameIndex(c2, r2, shift)
    ensures c1 == c2 && r1 == r2
  {
    var dc1, dc2 := (c1 - shift.0) % NumCols, (c2 - shift.0) % NumCols;
    var dr1, dr2 := (r1 - shift.1) % NumRows, (r2 - shift.1) % NumRows;
    assert dc1 * NumRows + (NumRows - 1 - dr1) == dc2 * NumRows + (NumRows - 1 - dr2);
    assert dc1 == dc2 && dr1 == dr2;
  }

  /** The eighteen labels are pairwise different, so the report's histogram,
      a dictionary keyed by label, has one key per table index. */
  lemma DieNamesDistinct()
    ensures forall i, j :: 0 <= i < j < |DieNames| ==> DieNames[i] != DieNames[j]
  {
  }
}
