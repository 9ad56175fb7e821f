/** The value of a tui_frame_t: its dimensions and its row-major cell buffer,
    and the frame operations of inc/tui.h stated as functions on that value.
    The class Frames.Frame performs the same operations in place. */
module Grids {
  import opened Wrappers
  import opened Ascii
  import opened Arith

  /** SIZE_MAX of a 64-bit size_t. */
  const SIZE_MAX: nat := 0xFFFF_FFFF_FFFF_FFFF

  /** The guard of tui_frame_new and tui_frame_resize. */
  predicate ValidDims(rows: nat, cols: nat) {
    rows != 0 && cols != 0 && cols <= SIZE_MAX / rows
  }

  /** The guard admits exactly the non-empty grids whose cell count fits in a size_t. */
  lemma ValidDimsNoOverflow(rows: nat, cols: nat)
    ensures ValidDims(rows, cols) <==> 0 < rows && 0 < cols && rows * cols <= SIZE_MAX
  {
    if rows > 0 {
      DivGuard(rows, cols, SIZE_MAX);
    }
  }

  datatype Grid = Grid(rows: nat, cols: nat, cells: seq<Byte>) {
    predicate Valid() {
      ValidDims(rows, cols) && |cells| == rows * cols
    }
  }

  /** tui_frame_get_char: the stored byte, or '\0' outside the grid. */
  function Get(g: Grid, r: nat, c: nat): (ch: Byte)
    requires g.Valid()
    ensures !(r < g.rows && c < g.cols) ==> ch == NUL
  {
    if r < g.rows && c < g.cols then
      RowBound(r, g.rows, g.cols);
      g.cells[r * g.cols + c]
    else
      NUL
  }

  /** tui_frame_new: fails on a zero or overflowing dimension, otherwise
      (calloc) every cell is '\0'. */
  function New(rows: nat, cols: nat): (res: Option<Grid>)
    ensures res.None? <==> !ValidDims(rows, cols)
    ensures res.Some? ==> res.value.Valid() && res.value.rows == rows && res.value.cols == cols
  {
    if ValidDims(rows, cols) then Some(Grid(rows, cols, seq(rows * cols, _ => NUL))) else None
  }

  lemma NewAllNul(rows: nat, cols: nat, r: nat, c: nat)
    requires ValidDims(rows, cols)
    ensures Get(New(rows, cols).value, r, c) == NUL
  {
    if r < rows && c < cols {
      RowBound(r, rows, cols);
    }
  }

  /** tui_frame_set_char: status 0 and the sanitised byte stored at an
      in-bounds cell, status -1 and nothing changed otherwise. */
  function Set(g: Grid, r: nat, c: nat, ch: Byte): (res: (int, Grid))
    requires g.Valid()
    ensures res.1.Valid() && res.1.rows == g.rows && res.1.cols == g.cols
    ensures res.0 == 0 <==> r < g.rows && c < g.cols
    ensures res.0 == 0 || (res.0 == -1 && res.1 == g)
  {
    if r < g.rows && c < g.cols then
      RowBound(r, g.rows, g.cols);
      (0, g.(cells := g.cells[r * g.cols + c := Sanitize(ch)]))
    else
      (-1, g)
  }

  /** Reading any cell after a write: the written cell holds the sanitised
      byte, every other cell is as before. */
  lemma SetThenGet(g: Grid, r: nat, c: nat, ch: Byte, r': nat, c': nat)
    requires g.Valid()
    ensures Get(Set(g, r, c, ch).1, r', c') ==
            if r' == r && c' == c && r < g.rows && c < g.cols then Sanitize(ch) else Get(g, r', c')
  {
    if r < g.rows && c < g.cols && r' < g.rows && c' < g.cols {
      RowBound(r, g.rows, g.cols);
      RowBound(r', g.rows, g.cols);
      if r * g.cols + c == r' * g.cols + c' {
        OffsetInjective(r, c, r', c', g.cols);
      }
    }
  }

  /** tui_frame_clear: every cell becomes `ch` as given; it is not sanitised. */
  function Clear(g: Grid, ch: Byte): (h: Grid)
    requires g.Valid()
    ensures h.Valid() && h.rows == g.rows && h.cols == g.cols
  {
    g.(cells := seq(|g.cells|, _ => ch))
  }

  lemma ClearThenGet(g: Grid, ch: Byte, r: nat, c: nat)
    requires g.Valid() && r < g.rows && c < g.cols
    ensures Get(Clear(g, ch), r, c) == ch
  {
    RowBound(r, g.rows, g.cols);
  }

  /** The byte at offset i of the buffer that tui_frame_resize builds: the old
      byte inside the overlapping top-left rectangle, '\0' elsewhere. */
  function Resized(g: Grid, rows: nat, cols: nat, i: nat): Byte
    requires g.Valid() && 0 < cols
  {
    Get(g, i / cols, i % cols)
  }

  /** Row r of the resized buffer: the first min(old, new) bytes come from
      row r of the old buffer, the rest are '\0'. */
  lemma ResizedRow(g: Grid, rows: nat, cols: nat, r: nat, i: nat)
    requires g.Valid() && r < rows && r < g.rows && r * cols <= i < r * cols + cols
    ensures r * g.cols + g.cols <= |g.cells|
    ensures Resized(g, rows, cols, i) ==
            if i - r * cols < g.cols then g.cells[r * g.cols + (i - r * cols)] else NUL
  {
    RowBound(r, g.rows, g.cols);
    OffsetSplit(r, i - r * cols, cols);
  }

  /** Rows at or past the last old row are all '\0'. */
  lemma ResizedTail(g: Grid, rows: nat, cols: nat, i: nat)
    requires g.Valid() && 0 < cols && g.rows * cols <= i
    ensures Resized(g, rows, cols, i) == NUL
  {
    OffsetRowAtLeast(i, g.rows, cols);
  }

  /** tui_frame_resize: fails (and nothing changes) on a zero or overflowing
      dimension; otherwise the grid takes the new dimensions. */
  function Resize(g: Grid, rows: nat, cols: nat): (res: Option<Grid>)
    requires g.Valid()
    ensures res.None? <==> !ValidDims(rows, cols)
    ensures res.Some? ==> res.value.Valid() && res.value.rows == rows && res.value.cols == cols
  {
    if ValidDims(rows, cols) then
      Some(Grid(rows, cols, seq(rows * cols, i requires 0 <= i < rows * cols => Resized(g, rows, cols, i))))
    else
      None
  }

  /** After a resize, a cell inside both the old and the new grid keeps its
      byte; every other cell of the new grid is '\0'. */
  lemma ResizeThenGet(g: Grid, rows: nat, cols: nat, r: nat, c: nat)
    requires g.Valid() && ValidDims(rows, cols)
    ensures Get(Resize(g, rows, cols).value, r, c) ==
            if r < rows && c < cols && r < g.rows && c < g.cols then Get(g, r, c) else NUL
  {
    if r < rows && c < cols {
      RowBound(r, rows, cols);
      OffsetSplit(r, c, cols);
    }
  }
}
