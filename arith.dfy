/** Index arithmetic of a row-major buffer: cell (r, c) of a grid with `cols`
    columns lives at offset r * cols + c. */
module Arith {

  lemma MulMonotone(a: nat, b: nat, n: nat)
    requires a <= b
    ensures a * n <= b * n
  {
  }

  /** The offset of an in-bounds cell lies inside the buffer, and so does the
      whole of its row. */
  lemma RowBound(r: nat, rows: nat, cols: nat)
    requires r < rows
    ensures r * cols + cols <= rows * cols
  {
    MulMonotone(r + 1, rows, cols);
    assert (r + 1) * cols == r * cols + cols;
  }

  /** Distinct cells have distinct offsets. */
  lemma OffsetInjective(r1: nat, c1: nat, r2: nat, c2: nat, cols: nat)
    requires c1 < cols && c2 < cols
    requires r1 * cols + c1 == r2 * cols + c2
    ensures r1 == r2 && c1 == c2
  {
    if r1 < r2 {
      RowBound(r1, r2, cols);
    } else if r2 < r1 {
      RowBound(r2, r1, cols);
    }
  }

  /** Division and remainder by `cols` recover the cell of an offset. */
  lemma OffsetSplit(r: nat, c: nat, cols: nat)
    requires c < cols
    ensures (r * cols + c) / cols == r && (r * cols + c) % cols == c
  {
    var i := r * cols + c;
    var q, m := i / cols, i % cols;
    assert i == q * cols + m;
    OffsetInjective(q, m, r, c, cols);
  }

  /** Every offset below cols * rows belongs to some cell. */
  lemma OffsetCell(i: nat, rows: nat, cols: nat)
    requires i < rows * cols
    ensures cols > 0 && i / cols < rows && i % cols < cols
    ensures i == (i / cols) * cols + i % cols
  {
    if i / cols >= rows {
      MulMonotone(rows, i / cols, cols);
    }
  }

  /** The overflow guard `cols > max / rows` of the C code rejects exactly the
      products that do not fit below `max`. */
  lemma DivGuard(rows: nat, cols: nat, max: nat)
    requires rows > 0
    ensures cols <= max / rows <==> rows * cols <= max
  {
    var q, m := max / rows, max % rows;
    assert max == rows * q + m && m < rows;
    if cols <= q {
      MulMonotone(cols, q, rows);
    } else {
      MulMonotone(q + 1, cols, rows);
      assert (q + 1) * rows == rows * q + rows;
    }
  }

  /** An offset at or past the start of row r lies in row r or later. */
  lemma OffsetRowAtLeast(i: nat, r: nat, cols: nat)
    requires cols > 0 && r * cols <= i
    ensures r <= i / cols
  {
    var q, m := i / cols, i % cols;
    assert i == q * cols + m;
    if q < r {
      MulMonotone(q + 1, r, cols);
    }
  }
}
