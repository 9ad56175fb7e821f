/** tui_frame_t: a rows x cols grid of bytes kept in one row-major heap buffer,
    updated in place. Each method is specified by the function of the same
    operation in Grids. */
module Frames {
  import opened Wrappers
  import opened Ascii
  import opened Arith
  import opened Grids

  class Frame {
    var rows: nat
    var cols: nat
    var cells: array<Byte>

    ghost predicate Valid()
      reads this
    {
      ValidDims(rows, cols) && cells.Length == rows * cols
    }

    /** The frame as a value. */
    ghost function Model(): Grid
      reads this, cells
    {
      Grid(rows, cols, cells[..])
    }

    /** The successful allocation of tui_frame_new: calloc'd cells. */
    constructor Init(rows: nat, cols: nat)
      requires ValidDims(rows, cols)
      ensures Valid() && fresh(cells)
      ensures Some(Model()) == Grids.New(rows, cols)
    {
      this.rows := rows;
      this.cols := cols;
      cells := new Byte[rows * cols](_ => NUL);
      new;
      assert cells[..] == Grids.New(rows, cols).value.cells;
    }

    /** tui_frame_new. `alloc` reports whether malloc and calloc succeed. */
    static method New(rows: nat, cols: nat, alloc: bool) returns (f: Frame?)
      ensures f == null <==> Grids.New(rows, cols).None? || !alloc
      ensures f != null ==> fresh(f) && fresh(f.cells) && f.Valid()
      ensures f != null ==> Some(f.Model()) == Grids.New(rows, cols)
    {
      if rows == 0 || cols == 0 || cols > SIZE_MAX / rows {
        return null;
      }
      if !alloc {
        return null;
      }
      f := new Frame.Init(rows, cols);
    }

    /** tui_frame_set_char. */
    method SetChar(r: nat, c: nat, ch: Byte) returns (status: int)
      requires Valid()
      modifies cells
      ensures Valid()
      ensures (status, Model()) == Grids.Set(old(Model()), r, c, ch)
    {
      if r >= rows || c >= cols {
        return -1;
      }
      RowBound(r, rows, cols);
      cells[r * cols + c] := Sanitize(ch);
      return 0;
    }

    /** tui_frame_clear: memset of all rows * cols cells with `ch`. */
    method Clear(ch: Byte)
      requires Valid()
      modifies cells
      ensures Valid()
      ensures Model() == Grids.Clear(old(Model()), ch)
    {
      var n := rows * cols;
      var i := 0;
      while i < n
        invariant 0 <= i <= n
        invariant forall k :: 0 <= k < i ==> cells[k] == ch
      {
        cells[i] := ch;
        i := i + 1;
      }
    }

    /** tui_frame_resize: builds a zeroed buffer of the new size, copies the
        first min(old, new) bytes of each of the first min(old, new) rows, and
        swaps it in. `alloc` reports whether calloc succeeds. */
    method Resize(newRows: nat, newCols: nat, alloc: bool) returns (status: int)
      requires Valid()
      modifies this
      ensures Valid()
      ensures status == 0 <==> Grids.Resize(old(Model()), newRows, newCols).Some? && alloc
      ensures status == 0 ==> fresh(cells) && Model() == Grids.Resize(old(Model()), newRows, newCols).value
      ensures status != 0 ==> status == -1 && rows == old(rows) && cols == old(cols) && cells == old(cells)
    {
      if newRows == 0 || newCols == 0 || newCols > SIZE_MAX / newRows {
        return -1;
      }
      if !alloc {
        return -1;
      }
      var newCells := new Byte[newRows * newCols](_ => NUL);
      CopyOverlap(newCells, newRows, newCols, cells, rows, cols);
      cells := newCells;
      rows := newRows;
      cols := newCols;
      return 0;
    }
  }

  /** The copy loop of tui_frame_resize: the first min(old, new) bytes of
      each of the first min(old, new) rows of `src` go to the same row and
      column of the zeroed buffer `dst`. */
  method CopyOverlap(dst: array<Byte>, newRows: nat, newCols: nat, src: array<Byte>, rows: nat, cols: nat)
    requires dst != src && ValidDims(newRows, newCols) && ValidDims(rows, cols)
    requires dst.Length == newRows * newCols && src.Length == rows * cols
    requires forall i :: 0 <= i < dst.Length ==> dst[i] == NUL
    modifies dst
    ensures dst[..] == Grids.Resize(Grid(rows, cols, src[..]), newRows, newCols).value.cells
  {
    ghost var g := Grid(rows, cols, src[..]);
    var total := newRows * newCols;
    var minr := if newRows < rows then newRows else rows;
    var minc := if newCols < cols then newCols else cols;
    var r := 0;
    while r < minr
      invariant 0 <= r <= minr
      invariant forall i :: 0 <= i < total ==>
        dst[i] == if i < r * newCols then Resized(g, newRows, newCols, i) else NUL
    {
      RowBound(r, newRows, newCols);
      RowBound(r, rows, cols);
      MemCopy(dst, r * newCols, src, r * cols, minc);
      forall i | r * newCols <= i < r * newCols + newCols
        ensures dst[i] == Resized(g, newRows, newCols, i)
      {
        ResizedRow(g, newRows, newCols, r, i);
      }
      assert (r + 1) * newCols == r * newCols + newCols;
      r := r + 1;
    }
    if minr < newRows {
      forall i | minr * newCols <= i < total
        ensures Resized(g, newRows, newCols, i) == NUL
      {
        ResizedTail(g, newRows, newCols, i);
      }
    }
    assert dst[..] == Grids.Resize(g, newRows, newCols).value.cells;
  }

  /** memcpy(dst + dstAt, src + srcAt, n) between two distinct buffers. */
  method MemCopy(dst: array<Byte>, dstAt: nat, src: array<Byte>, srcAt: nat, n: nat)
    requires dst != src
    requires dstAt + n <= dst.Length && srcAt + n <= src.Length
    modifies dst
    ensures forall i :: 0 <= i < dst.Length ==>
      dst[i] == if dstAt <= i < dstAt + n then src[srcAt + (i - dstAt)] else old(dst[i])
  {
    var k := 0;
    while k < n
      invariant 0 <= k <= n
      invariant forall i :: 0 <= i < dst.Length ==>
        dst[i] == if dstAt <= i < dstAt + k then src[srcAt + (i - dstAt)] else old(dst[i])
    {
      dst[dstAt + k] := src[srcAt + k];
      k := k + 1;
    }
  }
}
