/** tui_ctx_t: the output stream and the two frames (front: what the
    terminal shows, back: what the program draws next), with context
    creation, the SIGWINCH-driven resize and the diffing present. */
module Contexts {
  import opened Wrappers
  import opened Ascii
  import opened Arith
  import opened Grids
  import opened Frames
  import opened Diff
  import opened RawMode

  /** unsigned short, the type of the size tui_get_size reports. */
  newtype UShort = x: int | 0 <= x < 0x1_0000

  /** The size tui_ctx_new starts with: the reported one, or 24 x 80 when
      the query fails. */
  function StartSize(size: Option<(UShort, UShort)>): (res: (nat, nat))
    ensures res.0 < 0x1_0000 && res.1 < 0x1_0000
    ensures size.None? ==> ValidDims(res.0, res.1)
    ensures size.Some? ==> res.0 == size.value.0 as nat && res.1 == size.value.1 as nat
  {
    match size
    case None => (24, 80)
    case Some((r, c)) => (r as nat, c as nat)
  }

  /** A reported size a frame can take: both dimensions non-zero (a product
      of two unsigned shorts never exceeds SIZE_MAX). */
  lemma UShortDims(r: UShort, c: UShort)
    ensures ValidDims(r as nat, c as nat) <==> r != 0 && c != 0
  {
    if r != 0 && c != 0 {
      MulMonotone(c as nat, 0xFFFF, r as nat);
      MulMonotone(r as nat, 0xFFFF, 0xFFFF);
      ValidDimsNoOverflow(r as nat, c as nat);
    }
  }

  /** tui_resize_flag, the volatile flag the SIGWINCH handler sets. */
  class ResizeFlag {
    var pending: bool

    constructor ()
      ensures !pending
    {
      pending := false;
    }

    /** tui_sigwinch_handler. */
    method OnResizeSignal()
      modifies this
      ensures pending
    {
      pending := true;
    }
  }

  class Context {
    const front: Frame
    const back: Frame
    /** Everything written to ctx->out so far. */
    var out: seq<Event>

    ghost predicate Valid()
      reads this, front, back
    {
      front.Valid() && back.Valid() && front != back && front.cells != back.cells
    }

    predicate SameDims()
      reads this, front, back
    {
      front.rows == back.rows && front.cols == back.cols
    }

    constructor (front: Frame, back: Frame)
      ensures this.front == front && this.back == back && out == []
    {
      this.front := front;
      this.back := back;
      out := [];
    }

    /** tui_ctx_new. `size` is what tui_get_size reports (None for -1);
        `ctxAlloc`, `frontAlloc` and `backAlloc` say whether the three
        allocations succeed; `tty` is how the terminal answers the raw-mode
        switch, whose result is ignored. */
    static method New(size: Option<(UShort, UShort)>, ctxAlloc: bool, frontAlloc: bool, backAlloc: bool,
                      mode: TerminalMode, tty: Tty) returns (ctx: Context?)
      modifies mode
      ensures ctx == null <==>
        !ctxAlloc || !ValidDims(StartSize(size).0, StartSize(size).1) || !frontAlloc || !backAlloc
      ensures ctx == null ==> mode.State() == old(mode.State())
      ensures ctx != null ==>
        fresh(ctx) && ctx.Valid() && ctx.SameDims() && ctx.out == [] &&
        ctx.front.Model() == Grids.Clear(Grids.New(StartSize(size).0, StartSize(size).1).value, BLANK) &&
        ctx.back.Model() == ctx.front.Model() &&
        mode.State() == Enable(old(mode.State()), tty).1
    {
      var (rows, cols) := StartSize(size);
      if !ctxAlloc {
        return null;
      }
      var f := Frame.New(rows, cols, frontAlloc);
      var b := Frame.New(rows, cols, backAlloc);
      if f == null || b == null {
        return null;
      }
      ctx := new Context(f, b);
      f.Clear(BLANK);
      b.Clear(BLANK);
      var _ := mode.EnableRawMode(tty);
    }

    /** tui_ctx_handle_resize as written. `size` is what tui_get_size
        reports; `frontAlloc` and `backAlloc` say whether the two calloc
        calls of tui_frame_resize succeed. When the front frame is resized
        and the back one cannot be, -1 is returned with the frames left at
        different dimensions. */
    method HandleResize(flag: ResizeFlag, size: Option<(UShort, UShort)>, frontAlloc: bool, backAlloc: bool)
      returns (status: int)
      requires Valid()
      modifies flag, front, back
      ensures Valid() && !flag.pending
      ensures !old(flag.pending) ==>
        status == 0 && front.Model() == old(front.Model()) && back.Model() == old(back.Model())
      ensures old(flag.pending) ==>
        (status == 1 <==> size.Some? && ValidDims(size.value.0 as nat, size.value.1 as nat) && frontAlloc && backAlloc)
      ensures old(flag.pending) && status != 1 ==> status == -1
      ensures status == 1 ==>
        SameDims() && front.rows == size.value.0 as nat && front.cols == size.value.1 as nat &&
        front.Model() == Grids.New(front.rows, front.cols).value &&
        back.Model() == Grids.Clear(Grids.New(back.rows, back.cols).value, BLANK)
      ensures status != 1 && !(size.Some? && ValidDims(size.value.0 as nat, size.value.1 as nat) && frontAlloc) ==>
        front.Model() == old(front.Model()) && back.Model() == old(back.Model())
      ensures old(flag.pending) && status != 1 && size.Some? && ValidDims(size.value.0 as nat, size.value.1 as nat) && frontAlloc ==>
        front.Model() == Grids.Resize(old(front.Model()), size.value.0 as nat, size.value.1 as nat).value &&
        back.Model() == old(back.Model())
    {
      if !flag.pending {
        return 0;
      }
      flag.pending := false;
      if size.None? {
        return -1;
      }
      var (rows, cols) := size.value;
      var s := front.Resize(rows as nat, cols as nat, frontAlloc);
      if s == -1 {
        return -1;
      }
      s := back.Resize(rows as nat, cols as nat, backAlloc);
      if s == -1 {
        return -1;
      }
      back.Clear(BLANK);
      front.Clear(NUL);
      assert front.Model() == Grids.New(front.rows, front.cols).value;
      return 1;
    }

    /** tui_ctx_handle_resize with both buffers allocated before either
        frame changes: on every failure both frames keep their contents and
        dimensions. */
    method HandleResizeAtomic(flag: ResizeFlag, size: Option<(UShort, UShort)>, frontAlloc: bool, backAlloc: bool)
      returns (status: int)
      requires Valid()
      modifies flag, front, back
      ensures Valid() && !flag.pending
      ensures !old(flag.pending) ==> status == 0
      ensures old(flag.pending) ==>
        (status == 1 <==> size.Some? && ValidDims(size.value.0 as nat, size.value.1 as nat) && frontAlloc && backAlloc)
      ensures old(flag.pending) && status != 1 ==> status == -1
      ensures status == 1 ==>
        SameDims() && front.rows == size.value.0 as nat && front.cols == size.value.1 as nat &&
        front.Model() == Grids.New(front.rows, front.cols).value &&
        back.Model() == Grids.Clear(Grids.New(back.rows, back.cols).value, BLANK)
      ensures status != 1 ==> front.Model() == old(front.Model()) && back.Model() == old(back.Model())
      ensures old(SameDims()) ==> SameDims()
    {
      if !flag.pending {
        return 0;
      }
      flag.pending := false;
      if size.None? {
        return -1;
      }
      var (rows, cols) := size.value;
      if rows == 0 || cols == 0 || !frontAlloc || !backAlloc {
        UShortDims(rows, cols);
        return -1;
      }
      UShortDims(rows, cols);
      var s := front.Resize(rows as nat, cols as nat, true);
      s := back.Resize(rows as nat, cols as nat, true);
      back.Clear(BLANK);
      front.Clear(NUL);
      assert front.Model() == Grids.New(front.rows, front.cols).value;
      return 1;
    }

    /** tui_present: for each row, each maximal run of cells where back and
        front differ gets one cursor move to its first cell and its
        sanitised back bytes, which also go into front; then the stream is
        flushed. */
    method Present()
      requires Valid() && SameDims()
      modifies this, front.cells
      ensures Valid() && SameDims()
      ensures out == old(out) + PresentEvents(back.cells[..], old(front.cells[..]), back.rows, back.cols)
      ensures front.cells[..] == Presented(back.cells[..], old(front.cells[..]))
      ensures back.cells[..] == old(back.cells[..])
    {
      var rows := back.rows;
      var cols := back.cols;
      ghost var b := back.cells[..];
      ghost var g0 := front.cells[..];
      ghost var out0 := out;
      var r := 0;
      var base: nat := 0;
      while r < rows
        invariant 0 <= r <= rows && base == r * cols
        invariant back.cells[..] == b
        invariant front.cells[..] == Overlay(g0, b, g0, 0, base)
        invariant out0 + FrameEvents(b, g0, rows, cols, 0) == out + FrameEvents(b, g0, rows, cols, r)
      {
        FrameEventsAtRow(b, g0, rows, cols, r, base);
        ghost var outBefore := out;
        PresentRow(b, g0, r, base);
        AppendAssoc(outBefore, RowEvents(b, g0, r, base, cols, 0), FrameEvents(b, g0, rows, cols, r + 1));
        assert (r + 1) * cols == base + cols;
        r := r + 1;
        base := base + cols;
      }
      assert FrameEvents(b, g0, rows, cols, rows) == [];
      assert out == out0 + FrameEvents(b, g0, rows, cols, 0);
      AppendAssoc(out0, FrameEvents(b, g0, rows, cols, 0), [Flush]);
      out := out + [Flush];
      OverlayAll(g0, b);
    }

    /** One pass of tui_present's row loop: row r, whose cells start at
        `base`, compared with the front buffer `g0` it had when the call
        began. */
    method PresentRow(ghost b: seq<Byte>, ghost g0: seq<Byte>, r: nat, base: nat)
      requires Valid() && SameDims() && back.cells[..] == b && |g0| == |b|
      requires r < back.rows && base == r * back.cols && base + back.cols <= |b|
      requires front.cells[..] == Overlay(g0, b, g0, 0, base)
      modifies this, front.cells
      ensures Valid() && SameDims() && back.cells[..] == b
      ensures front.cells[..] == Overlay(g0, b, g0, 0, base + back.cols)
      ensures out == old(out) + RowEvents(b, g0, r, base, back.cols, 0)
    {
      var cols := back.cols;
      var fa := front.cells;
      var ba := back.cells;
      ghost var outRow := out;
      var c := 0;
      while c < cols
        modifies this, fa
        invariant 0 <= c <= cols
        invariant fa[..] == Overlay(g0, b, g0, 0, base + c)
        invariant outRow + RowEvents(b, g0, r, base, cols, 0) == out + RowEvents(b, g0, r, base, cols, c)
      {
        var ch := fa[base + c];
        if ba[base + c] == ch {
          OverlayStepEqual(g0, b, base + c);
          assert RowEvents(b, g0, r, base, cols, c) == RowEvents(b, g0, r, base, cols, c + 1);
          c := c + 1;
        } else {
          var start := c;
          c := ScanRun(b, g0, base, start);
          RowEventsAtRun(b, g0, r, base, cols, start, c);
          ghost var outRun := out;
          PaintRun(b, g0, r, base, start, c);
          AppendAssoc(outRun, [MoveCursor(r, start)], Puts(b, base + start, base + c));
          AppendAssoc([MoveCursor(r, start)], Puts(b, base + start, base + c), RowEvents(b, g0, r, base, cols, c));
          StreamStep(outRow + RowEvents(b, g0, r, base, cols, 0), outRun, RowEvents(b, g0, r, base, cols, start),
                     [MoveCursor(r, start)] + Puts(b, base + start, base + c), RowEvents(b, g0, r, base, cols, c));
          assert fa[..] == Overlay(g0, b, g0, 0, base + c);
        }
      }
    }

    /** The inner scan of tui_present: from the first mismatched cell
        `start` of a run, the first column where back and front agree, or
        cols. */
    method ScanRun(ghost b: seq<Byte>, ghost g0: seq<Byte>, base: nat, start: nat) returns (e: nat)
      requires Valid() && back.cells[..] == b && |g0| == |b|
      requires start <= back.cols && base + back.cols <= |b|
      requires front.cells[..] == Overlay(g0, b, g0, 0, base + start)
      ensures e == RunEnd(b, g0, base, back.cols, start)
    {
      var cols := back.cols;
      var fa := front.cells;
      var ba := back.cells;
      e := start;
      while e < cols && ba[base + e] != fa[base + e]
        invariant start <= e <= cols
        invariant RunEnd(b, g0, base, cols, e) == RunEnd(b, g0, base, cols, start)
      {
        e := e + 1;
      }
    }

    /** The body of tui_present for one mismatched run [start, e) of row r:
        the cursor move, then each sanitised back byte written out and into
        front. */
    method PaintRun(ghost b: seq<Byte>, ghost g0: seq<Byte>, r: nat, base: nat, start: nat, e: nat)
      requires Valid() && back.cells[..] == b && |g0| == |b|
      requires start <= e && base + e <= |b|
      requires forall k :: base + start <= k < base + e ==> b[k] != g0[k]
      requires front.cells[..] == Overlay(g0, b, g0, 0, base + start)
      modifies this, front.cells
      ensures Valid() && back.cells[..] == b
      ensures front.cells[..] == Overlay(g0, b, g0, 0, base + e)
      ensures out == old(out) + [MoveCursor(r, start)] + Puts(b, base + start, base + e)
    {
      var len := e - start;
      out := out + [MoveCursor(r, start)];
      ghost var outRun := out;
      var i := 0;
      while i < len
        invariant 0 <= i <= len
        invariant front.cells[..] == Overlay(g0, b, g0, 0, base + start + i)
        invariant out == outRun + Puts(b, base + start, base + start + i)
      {
        var ch := Sanitize(back.cells[base + start + i]);
        out := out + [Put(ch)];
        OverlayStepRun(g0, b, base + start + i);
        front.cells[base + start + i] := ch;
        PutsSnoc(b, base + start, base + start + i);
        i := i + 1;
      }
    }
  }

  /** The source's failure mode: a 24 x 80 context, a SIGWINCH, a reported
      size of 10 x 10, and a back calloc that fails. tui_ctx_handle_resize
      returns -1 with front holding 100 cells while back still spans
      24 x 80, the bounds tui_present walks front's cells with. */
  method PartialResizeOverrun() returns (status: int, frontCells: nat, rows: nat, cols: nat)
    ensures status == -1 && rows == 24 && cols == 80 && frontCells == 100
    ensures frontCells < rows * cols
  {
    var fr := new Frame.Init(24, 80);
    var bk := new Frame.Init(24, 80);
    var ctx := new Context(fr, bk);
    var flag := new ResizeFlag();
    flag.OnResizeSignal();
    status := ctx.HandleResize(flag, Some((10, 10)), true, false);
    frontCells := ctx.front.cells.Length;
    rows := ctx.back.rows;
    cols := ctx.back.cols;
  }

  /** The same events with the corrected resize: it fails and leaves both
      frames at 24 x 80, so tui_present stays inside both buffers. */
  method AtomicResizeKeepsBounds() returns (status: int, frontCells: nat, rows: nat, cols: nat)
    ensures status == -1 && rows == 24 && cols == 80 && frontCells == rows * cols
  {
    var fr := new Frame.Init(24, 80);
    var bk := new Frame.Init(24, 80);
    var ctx := new Context(fr, bk);
    var flag := new ResizeFlag();
    flag.OnResizeSignal();
    status := ctx.HandleResizeAtomic(flag, Some((10, 10)), true, false);
    frontCells := ctx.front.cells.Length;
    rows := ctx.back.rows;
    cols := ctx.back.cols;
  }
}
