/** The diff engine of tui_present, as functions on the back and front cell
    buffers (row-major, rows * cols bytes each), and what the emitted stream
    means for the terminal that receives it. */
module Diff {
  import opened Ascii
  import opened Arith

  /** What tui_present sends to its output stream: a cursor position (CUP,
      section 8.3.21 of ECMA-48, with 1-based line and column parameters),
      one byte, or the final fflush. */
  datatype Event = Cup(line: nat, column: nat) | Put(ch: Byte) | Flush

  /** tui_ansi_move_cursor(out, r, c) for the 0-based cell (r, c). */
  function MoveCursor(r: nat, c: nat): (e: Event)
    ensures e.Cup? && 1 <= e.line && 1 <= e.column
    ensures CupParam(e.line) - 1 == r && CupParam(e.column) - 1 == c
  {
    Cup(r + 1, c + 1)
  }

  predicate Shaped(b: seq<Byte>, g: seq<Byte>, rows: nat, cols: nat) {
    |b| == rows * cols && |g| == rows * cols
  }

  /** The sanitised bytes of back[lo..hi], one Put each. */
  function Puts(b: seq<Byte>, lo: nat, hi: nat): (ps: seq<Event>)
    requires lo <= hi <= |b|
    ensures |ps| == hi - lo && forall e :: e in ps ==> e.Put?
  {
    seq(hi - lo, k requires 0 <= k < hi - lo => Put(Sanitize(b[lo + k])))
  }

  /** The end of the mismatched run that starts at column c of the row at
      offset `base`: the first column at or after c where back and front
      agree, or cols. */
  function RunEnd(b: seq<Byte>, g: seq<Byte>, base: nat, cols: nat, c: nat): (e: nat)
    requires |b| == |g| && base + cols <= |b| && c <= cols
    ensures c <= e <= cols
    ensures forall i :: base + c <= i < base + e ==> b[i] != g[i]
    ensures e == cols || b[base + e] == g[base + e]
    decreases cols - c
  {
    if c == cols || b[base + c] == g[base + c] then c else RunEnd(b, g, base, cols, c + 1)
  }

  /** The output for row r, at offset `base`, from column c on: equal cells are skipped; each
      mismatched run gets one cursor move to (r + 1, start + 1) followed by
      its sanitised back bytes. */
  function RowEvents(b: seq<Byte>, g: seq<Byte>, r: nat, base: nat, cols: nat, c: nat): (es: seq<Event>)
    requires |b| == |g| && base + cols <= |b| && c <= cols
    ensures forall e :: e in es ==> !e.Flush?
    ensures forall e :: e in es && e.Cup? ==> e.line == r + 1 && c + 1 <= e.column <= cols
    decreases cols - c
  {
    if c == cols then []
    else if b[base + c] == g[base + c] then RowEvents(b, g, r, base, cols, c + 1)
    else
      var e := RunEnd(b, g, base, cols, c);
      [Cup(r + 1, c + 1)] + Puts(b, base + c, base + e) + RowEvents(b, g, r, base, cols, e)
  }

  /** The output for rows r, r + 1, ..., rows - 1. */
  function FrameEvents(b: seq<Byte>, g: seq<Byte>, rows: nat, cols: nat, r: nat): (es: seq<Event>)
    requires Shaped(b, g, rows, cols) && r <= rows
    ensures forall e :: e in es ==> !e.Flush?
    ensures forall e :: e in es && e.Cup? ==> r + 1 <= e.line <= rows && 1 <= e.column <= cols
    decreases rows - r
  {
    if r == rows then []
    else
      RowBound(r, rows, cols);
      RowEvents(b, g, r, r * cols, cols, 0) + FrameEvents(b, g, rows, cols, r + 1)
  }

  /** Everything one tui_present call writes: the rows in order, then the flush. */
  function PresentEvents(b: seq<Byte>, g: seq<Byte>, rows: nat, cols: nat): (es: seq<Event>)
    requires Shaped(b, g, rows, cols)
    ensures |es| > 0 && es[|es| - 1] == Flush
    ensures forall i :: 0 <= i < |es| - 1 ==> !es[i].Flush?
    ensures forall e :: e in es && e.Cup? ==> 1 <= e.line <= rows && 1 <= e.column <= cols
  {
    FrameEvents(b, g, rows, cols, 0) + [Flush]
  }

  /** The front buffer after tui_present: cells that already agreed are
      kept, every other cell holds the sanitised back byte. */
  function Presented(b: seq<Byte>, g: seq<Byte>): (p: seq<Byte>)
    requires |b| == |g|
    ensures |p| == |b|
    ensures forall i :: 0 <= i < |p| ==> Sanitize(p[i]) == Sanitize(b[i])
    ensures forall i :: 0 <= i < |p| && b[i] != g[i] ==> IsPrintable(p[i])
    ensures b == g ==> p == g
  {
    seq(|b|, i requires 0 <= i < |b| => if b[i] == g[i] then g[i] else Sanitize(b[i]))
  }

  /** After tui_present every front cell shows what back asks for, up to
      sanitisation: either the two already agreed, or front now holds the
      sanitised back byte. */
  lemma PresentedShowsBack(b: seq<Byte>, g: seq<Byte>, i: nat)
    requires |b| == |g| && i < |b|
    ensures b[i] == g[i] ==> Presented(b, g)[i] == b[i]
    ensures b[i] != g[i] ==> Presented(b, g)[i] == Sanitize(b[i])
    ensures Sanitize(Presented(b, g)[i]) == Sanitize(b[i])
  {
    SanitizeIdempotent(b[i]);
  }

  // ---------------------------------------------------------------------
  // An ideal terminal that receives the stream

  /** Screen contents (row-major, like a frame) and cursor offset. */
  datatype Screen = Screen(cells: seq<Byte>, cursor: nat)

  /** A CUP parameter of 0 means 1 (ECMA-48, section 8.3.21). */
  function CupParam(p: nat): nat {
    if p == 0 then 1 else p
  }

  /** CUP moves the cursor; a byte is written at the cursor, which advances. */
  function Step(s: Screen, cols: nat, e: Event): (t: Screen)
    ensures |t.cells| == |s.cells|
  {
    match e
    case Cup(l, k) => Screen(s.cells, (CupParam(l) - 1) * cols + (CupParam(k) - 1))
    case Put(ch) =>
      if s.cursor < |s.cells| then Screen(s.cells[s.cursor := ch], s.cursor + 1)
      else Screen(s.cells, s.cursor + 1)
    case Flush => s
  }

  /** The CUP that tui_ansi_move_cursor emits puts a terminal's cursor on the
      0-based cell (r, c) it was given. */
  lemma MoveCursorTargets(s: Screen, cols: nat, r: nat, c: nat)
    ensures Step(s, cols, MoveCursor(r, c)) == Screen(s.cells, r * cols + c)
  {
  }

  function Replay(s: Screen, cols: nat, es: seq<Event>): (t: Screen)
    ensures |t.cells| == |s.cells|
    decreases |es|
  {
    if es == [] then s else Replay(Step(s, cols, es[0]), cols, es[1..])
  }

  lemma {:induction false} ReplayAppend(s: Screen, cols: nat, e1: seq<Event>, e2: seq<Event>)
    ensures Replay(s, cols, e1 + e2) == Replay(Replay(s, cols, e1), cols, e2)
    decreases |e1|
  {
    if e1 == [] {
      assert e1 + e2 == e2;
    } else {
      assert (e1 + e2)[0] == e1[0];
      assert (e1 + e2)[1..] == e1[1..] + e2;
      ReplayAppend(Step(s, cols, e1[0]), cols, e1[1..], e2);
    }
  }

  /** s with the cells in [lo, hi) replaced by the sanitised back bytes. */
  function Overwrite(s: seq<Byte>, b: seq<Byte>, lo: nat, hi: nat): seq<Byte>
    requires |s| == |b|
  {
    seq(|s|, i requires 0 <= i < |s| => if lo <= i < hi then Sanitize(b[i]) else s[i])
  }

  /** s with the mismatched cells in [lo, hi) replaced by the sanitised back bytes. */
  function Overlay(s: seq<Byte>, b: seq<Byte>, g: seq<Byte>, lo: nat, hi: nat): seq<Byte>
    requires |s| == |b| == |g|
  {
    seq(|s|, i requires 0 <= i < |s| => if lo <= i < hi && b[i] != g[i] then Sanitize(b[i]) else s[i])
  }

  lemma {:induction false} PutsReplay(s: Screen, cols: nat, b: seq<Byte>, lo: nat, hi: nat)
    requires |s.cells| == |b| && s.cursor == lo && lo <= hi <= |b|
    ensures Replay(s, cols, Puts(b, lo, hi)) == Screen(Overwrite(s.cells, b, lo, hi), hi)
    decreases hi - lo
  {
    var p := Puts(b, lo, hi);
    if lo == hi {
      assert p == [];
      assert Overwrite(s.cells, b, lo, hi) == s.cells;
    } else {
      var s1 := Step(s, cols, p[0]);
      assert s1 == Screen(s.cells[lo := Sanitize(b[lo])], lo + 1);
      assert p[1..] == Puts(b, lo + 1, hi);
      PutsReplay(s1, cols, b, lo + 1, hi);
      assert Overwrite(s1.cells, b, lo + 1, hi) == Overwrite(s.cells, b, lo, hi);
    }
  }

  /** Overwriting a run of mismatched cells and then overlaying what follows
      is overlaying from the start of the run. */
  lemma OverlayAfterRun(s: seq<Byte>, b: seq<Byte>, g: seq<Byte>, lo: nat, mid: nat, hi: nat)
    requires |s| == |b| == |g| && lo <= mid <= hi <= |s|
    requires forall i :: lo <= i < mid ==> b[i] != g[i]
    ensures Overlay(Overwrite(s, b, lo, mid), b, g, mid, hi) == Overlay(s, b, g, lo, hi)
  {
  }

  /** RowEvents unfolded at the first cell of a mismatched run. */
  lemma RowEventsAtRun(b: seq<Byte>, g: seq<Byte>, r: nat, base: nat, cols: nat, c: nat, e: nat)
    requires |b| == |g| && base + cols <= |b| && c < cols
    requires b[base + c] != g[base + c] && e == RunEnd(b, g, base, cols, c)
    ensures RowEvents(b, g, r, base, cols, c)
         == [Cup(r + 1, c + 1)] + (Puts(b, base + c, base + e) + RowEvents(b, g, r, base, cols, e))
  {
  }

  /** The cursor move and the bytes of one run, replayed. */
  lemma CupPutsReplay(s: Screen, cols: nat, b: seq<Byte>, r: nat, base: nat, c: nat, e: nat, rest: seq<Event>)
    requires |s.cells| == |b| && c <= e && base + e <= |b| && base == r * cols
    ensures Replay(s, cols, [Cup(r + 1, c + 1)] + (Puts(b, base + c, base + e) + rest))
         == Replay(Screen(Overwrite(s.cells, b, base + c, base + e), base + e), cols, rest)
  {
    var cup := [Cup(r + 1, c + 1)];
    var p := Puts(b, base + c, base + e);
    var s1 := Screen(s.cells, base + c);
    assert Replay(s, cols, cup) == s1;
    ReplayAppend(s, cols, cup, p + rest);
    ReplayAppend(s1, cols, p, rest);
    PutsReplay(s1, cols, b, base + c, base + e);
  }

  lemma RunReplay(s: Screen, cols: nat, b: seq<Byte>, g: seq<Byte>, r: nat, base: nat, c: nat, e: nat)
    requires |s.cells| == |b| == |g| && base + cols <= |b| && c < cols && base == r * cols
    requires b[base + c] != g[base + c] && e == RunEnd(b, g, base, cols, c)
    ensures Replay(s, cols, RowEvents(b, g, r, base, cols, c))
         == Replay(Screen(Overwrite(s.cells, b, base + c, base + e), base + e), cols,
                   RowEvents(b, g, r, base, cols, e))
  {
    RowEventsAtRun(b, g, r, base, cols, c, e);
    CupPutsReplay(s, cols, b, r, base, c, e, RowEvents(b, g, r, base, cols, e));
  }

  /** Replaying the output of a row from column c overwrites exactly the
      mismatched cells of that row from column c on. */
  lemma {:induction false} RowReplay(s: Screen, cols: nat, b: seq<Byte>, g: seq<Byte>, r: nat, base: nat, c: nat)
    requires |s.cells| == |b| == |g| && base + cols <= |b| && c <= cols && base == r * cols
    ensures Replay(s, cols, RowEvents(b, g, r, base, cols, c)).cells
         == Overlay(s.cells, b, g, base + c, base + cols)
    decreases cols - c
  {
    if c == cols {
      assert Overlay(s.cells, b, g, base + c, base + cols) == s.cells;
    } else if b[base + c] == g[base + c] {
      RowReplay(s, cols, b, g, r, base, c + 1);
      assert Overlay(s.cells, b, g, base + c + 1, base + cols)
          == Overlay(s.cells, b, g, base + c, base + cols);
    } else {
      var e := RunEnd(b, g, base, cols, c);
      var s2 := Screen(Overwrite(s.cells, b, base + c, base + e), base + e);
      RunReplay(s, cols, b, g, r, base, c, e);
      RowReplay(s2, cols, b, g, r, base, e);
      OverlayAfterRun(s.cells, b, g, base + c, base + e, base + cols);
    }
  }

  lemma {:induction false} FrameReplay(s: Screen, cols: nat, b: seq<Byte>, g: seq<Byte>, rows: nat, r: nat)
    requires |s.cells| == |b| && Shaped(b, g, rows, cols) && r <= rows
    ensures Replay(s, cols, FrameEvents(b, g, rows, cols, r)).cells
         == Overlay(s.cells, b, g, r * cols, rows * cols)
    decreases rows - r
  {
    if r == rows {
      assert Overlay(s.cells, b, g, r * cols, rows * cols) == s.cells;
    } else {
      RowBound(r, rows, cols);
      var row := RowEvents(b, g, r, r * cols, cols, 0);
      ReplayAppend(s, cols, row, FrameEvents(b, g, rows, cols, r + 1));
      RowReplay(s, cols, b, g, r, r * cols, 0);
      var s1 := Replay(s, cols, row);
      FrameReplay(s1, cols, b, g, rows, r + 1);
      assert (r + 1) * cols == r * cols + cols;
      assert Overlay(s1.cells, b, g, (r + 1) * cols, rows * cols)
          == Overlay(s.cells, b, g, r * cols, rows * cols);
    }
  }

  /** Fed to a terminal showing the old front buffer, the stream of one
      tui_present call leaves the terminal showing exactly the new front
      buffer, wherever the cursor started. */
  lemma ReplayShowsPresented(b: seq<Byte>, g: seq<Byte>, rows: nat, cols: nat, cursor: nat)
    requires Shaped(b, g, rows, cols)
    ensures Replay(Screen(g, cursor), cols, PresentEvents(b, g, rows, cols)).cells == Presented(b, g)
  {
    var s := Screen(g, cursor);
    ReplayAppend(s, cols, FrameEvents(b, g, rows, cols, 0), [Flush]);
    FrameReplay(s, cols, b, g, rows, 0);
    assert Overlay(g, b, g, 0, rows * cols) == Presented(b, g);
  }

  // ---------------------------------------------------------------------
  // Steps of the present loop

  lemma AppendAssoc<T>(x: seq<T>, y: seq<T>, z: seq<T>)
    ensures (x + y) + z == x + (y + z)
  {
  }

  /** Moving a piece y from the pending part of a stream to the part already
      written keeps the whole. */
  lemma StreamStep<T>(total: seq<T>, x: seq<T>, rest: seq<T>, y: seq<T>, rest': seq<T>)
    requires total == x + rest && rest == y + rest'
    ensures total == (x + y) + rest'
  {
    AppendAssoc(x, y, rest');
  }

  /** FrameEvents unfolded at row r, whose cells start at `base`. */
  lemma FrameEventsAtRow(b: seq<Byte>, g: seq<Byte>, rows: nat, cols: nat, r: nat, base: nat)
    requires Shaped(b, g, rows, cols) && r < rows && base == r * cols
    ensures base + cols <= |b|
    ensures FrameEvents(b, g, rows, cols, r)
         == RowEvents(b, g, r, base, cols, 0) + FrameEvents(b, g, rows, cols, r + 1)
  {
    RowBound(r, rows, cols);
  }

  lemma PutsSnoc(b: seq<Byte>, lo: nat, hi: nat)
    requires lo <= hi < |b|
    ensures Puts(b, lo, hi + 1) == Puts(b, lo, hi) + [Put(Sanitize(b[hi]))]
  {
  }

  /** A cell where back and front agree is left alone. */
  lemma OverlayStepEqual(g: seq<Byte>, b: seq<Byte>, k: nat)
    requires |g| == |b| && k < |b| && b[k] == g[k]
    ensures Overlay(g, b, g, 0, k + 1) == Overlay(g, b, g, 0, k)
  {
  }

  /** A cell where they differ receives the sanitised back byte. */
  lemma OverlayStepRun(g: seq<Byte>, b: seq<Byte>, k: nat)
    requires |g| == |b| && k < |b| && b[k] != g[k]
    ensures Overlay(g, b, g, 0, k + 1) == Overlay(g, b, g, 0, k)[k := Sanitize(b[k])]
  {
  }

  lemma OverlayAll(g: seq<Byte>, b: seq<Byte>)
    requires |g| == |b|
    ensures Overlay(g, b, g, 0, |b|) == Presented(b, g)
  {
  }

  // ---------------------------------------------------------------------
  // One cursor move per maximal mismatched run

  /** Column c of the row at offset `base` starts a mismatched run: back and
      front differ there, and c is the first column or its left neighbour
      agrees. */
  predicate RunStartAt(b: seq<Byte>, g: seq<Byte>, base: nat, c: nat)
    requires |b| == |g| && base + c < |b|
  {
    b[base + c] != g[base + c] && (c == 0 || b[base + c - 1] == g[base + c - 1])
  }

  /** Cell (r, c) of a rows x cols grid starts a maximal mismatched run of row r. */
  predicate IsRunStart(b: seq<Byte>, g: seq<Byte>, rows: nat, cols: nat, r: nat, c: nat)
    requires Shaped(b, g, rows, cols)
  {
    r < rows && c < cols && (RowBound(r, rows, cols); RunStartAt(b, g, r * cols, c))
  }

  /** How many times x occurs in a stream. */
  function Occurrences(es: seq<Event>, x: Event): nat
    decreases |es|
  {
    if es == [] then 0 else (if es[0] == x then 1 else 0) + Occurrences(es[1..], x)
  }

  lemma {:induction false} OccurrencesAppend(e1: seq<Event>, e2: seq<Event>, x: Event)
    ensures Occurrences(e1 + e2, x) == Occurrences(e1, x) + Occurrences(e2, x)
    decreases |e1|
  {
    if e1 == [] {
      assert e1 + e2 == e2;
    } else {
      assert (e1 + e2)[0] == e1[0];
      assert (e1 + e2)[1..] == e1[1..] + e2;
      OccurrencesAppend(e1[1..], e2, x);
    }
  }

  lemma {:induction false} OccurrencesAreMultiplicity(es: seq<Event>, x: Event)
    ensures Occurrences(es, x) == multiset(es)[x]
    decreases |es|
  {
    if es != [] {
      assert es == [es[0]] + es[1..];
      OccurrencesAreMultiplicity(es[1..], x);
    }
  }

  lemma {:induction false} NoCupInPuts(b: seq<Byte>, lo: nat, hi: nat, l: nat, k: nat)
    requires lo <= hi <= |b|
    ensures Occurrences(Puts(b, lo, hi), Cup(l, k)) == 0
    decreases hi - lo
  {
    var p := Puts(b, lo, hi);
    if lo < hi {
      assert p[1..] == Puts(b, lo + 1, hi);
      NoCupInPuts(b, lo + 1, hi, l, k);
    } else {
      assert p == [];
    }
  }

  lemma RowCupsAtRun(b: seq<Byte>, g: seq<Byte>, r: nat, base: nat, cols: nat, c: nat, e: nat, l: nat, k: nat)
    requires |b| == |g| && base + cols <= |b| && c < cols
    requires b[base + c] != g[base + c] && e == RunEnd(b, g, base, cols, c)
    ensures Occurrences(RowEvents(b, g, r, base, cols, c), Cup(l, k))
         == (if Cup(r + 1, c + 1) == Cup(l, k) then 1 else 0) + Occurrences(RowEvents(b, g, r, base, cols, e), Cup(l, k))
  {
    var rest := RowEvents(b, g, r, base, cols, e);
    RowEventsAtRun(b, g, r, base, cols, c, e);
    OccurrencesAppend([Cup(r + 1, c + 1)], Puts(b, base + c, base + e) + rest, Cup(l, k));
    OccurrencesAppend(Puts(b, base + c, base + e), rest, Cup(l, k));
    NoCupInPuts(b, base + c, base + e, l, k);
    assert Occurrences([Cup(r + 1, c + 1)], Cup(l, k)) == if Cup(r + 1, c + 1) == Cup(l, k) then 1 else 0;
  }

  /** How often Cup(l, k) is due for row r, at offset `base`, from column c
      on: once when it names row r and a run start at or after c. */
  function RowCupsFrom(b: seq<Byte>, g: seq<Byte>, r: nat, base: nat, cols: nat, c: nat, l: nat, k: nat): nat
    requires |b| == |g| && base + cols <= |b|
  {
    if l == r + 1 && c < k <= cols && RunStartAt(b, g, base, k - 1) then 1 else 0
  }

  lemma RowCupsAtEqual(b: seq<Byte>, g: seq<Byte>, r: nat, base: nat, cols: nat, c: nat, l: nat, k: nat)
    requires |b| == |g| && base + cols <= |b| && c < cols && b[base + c] == g[base + c]
    requires Occurrences(RowEvents(b, g, r, base, cols, c + 1), Cup(l, k)) == RowCupsFrom(b, g, r, base, cols, c + 1, l, k)
    ensures Occurrences(RowEvents(b, g, r, base, cols, c), Cup(l, k)) == RowCupsFrom(b, g, r, base, cols, c, l, k)
  {
    assert RowEvents(b, g, r, base, cols, c) == RowEvents(b, g, r, base, cols, c + 1);
  }

  lemma RowCupsAtRunStart(b: seq<Byte>, g: seq<Byte>, r: nat, base: nat, cols: nat, c: nat, e: nat, l: nat, k: nat)
    requires |b| == |g| && base + cols <= |b| && c < cols
    requires RunStartAt(b, g, base, c) && e == RunEnd(b, g, base, cols, c)
    requires Occurrences(RowEvents(b, g, r, base, cols, e), Cup(l, k)) == RowCupsFrom(b, g, r, base, cols, e, l, k)
    ensures Occurrences(RowEvents(b, g, r, base, cols, c), Cup(l, k)) == RowCupsFrom(b, g, r, base, cols, c, l, k)
  {
    RowCupsAtRun(b, g, r, base, cols, c, e, l, k);
    if l == r + 1 && c + 1 < k <= e {
      assert b[base + k - 2] != g[base + k - 2];
    }
  }

  lemma {:induction false} RowCups(b: seq<Byte>, g: seq<Byte>, r: nat, base: nat, cols: nat, c: nat, l: nat, k: nat)
    requires |b| == |g| && base + cols <= |b| && c <= cols
    requires c == 0 || c == cols || b[base + c - 1] == g[base + c - 1] || b[base + c] == g[base + c]
    ensures Occurrences(RowEvents(b, g, r, base, cols, c), Cup(l, k)) == RowCupsFrom(b, g, r, base, cols, c, l, k)
    decreases cols - c
  {
    if c == cols {
    } else if b[base + c] == g[base + c] {
      RowCups(b, g, r, base, cols, c + 1, l, k);
      RowCupsAtEqual(b, g, r, base, cols, c, l, k);
    } else {
      var e := RunEnd(b, g, base, cols, c);
      RowCups(b, g, r, base, cols, e, l, k);
      RowCupsAtRunStart(b, g, r, base, cols, c, e, l, k);
    }
  }

  /** How often Cup(l, k) is due for rows r, r + 1, ..., rows - 1. */
  function FrameCupsFrom(b: seq<Byte>, g: seq<Byte>, rows: nat, cols: nat, r: nat, l: nat, k: nat): nat
    requires Shaped(b, g, rows, cols)
  {
    if r < l && 1 <= k && IsRunStart(b, g, rows, cols, l - 1, k - 1) then 1 else 0
  }

  lemma FrameCupsAtRow(b: seq<Byte>, g: seq<Byte>, rows: nat, cols: nat, r: nat, l: nat, k: nat)
    requires Shaped(b, g, rows, cols) && r < rows && r * cols + cols <= rows * cols
    ensures FrameCupsFrom(b, g, rows, cols, r, l, k)
         == RowCupsFrom(b, g, r, r * cols, cols, 0, l, k) + FrameCupsFrom(b, g, rows, cols, r + 1, l, k)
  {
    if l == r + 1 {
      assert l - 1 == r;
    }
  }

  lemma {:induction false} FrameCups(b: seq<Byte>, g: seq<Byte>, rows: nat, cols: nat, r: nat, l: nat, k: nat)
    requires Shaped(b, g, rows, cols) && r <= rows
    ensures Occurrences(FrameEvents(b, g, rows, cols, r), Cup(l, k)) == FrameCupsFrom(b, g, rows, cols, r, l, k)
    decreases rows - r
  {
    if r < rows {
      RowBound(r, rows, cols);
      var row := RowEvents(b, g, r, r * cols, cols, 0);
      OccurrencesAppend(row, FrameEvents(b, g, rows, cols, r + 1), Cup(l, k));
      RowCups(b, g, r, r * cols, cols, 0, l, k);
      FrameCups(b, g, rows, cols, r + 1, l, k);
      FrameCupsAtRow(b, g, rows, cols, r, l, k);
    }
  }

  /** tui_present moves the cursor exactly once to the first cell of each
      maximal mismatched run (1-based CUP parameters), and nowhere else. */
  lemma CupPerRun(b: seq<Byte>, g: seq<Byte>, rows: nat, cols: nat, l: nat, k: nat)
    requires Shaped(b, g, rows, cols)
    ensures multiset(PresentEvents(b, g, rows, cols))[Cup(l, k)]
         == if 1 <= l && 1 <= k && IsRunStart(b, g, rows, cols, l - 1, k - 1) then 1 else 0
  {
    var frame := FrameEvents(b, g, rows, cols, 0);
    FrameCups(b, g, rows, cols, 0, l, k);
    OccurrencesAppend(frame, [Flush], Cup(l, k));
    assert Occurrences([Flush], Cup(l, k)) == 0;
    OccurrencesAreMultiplicity(PresentEvents(b, g, rows, cols), Cup(l, k));
  }

  // ---------------------------------------------------------------------
  // The bytes written

  /** The bytes of the Put events of a stream, in order. */
  function Written(es: seq<Event>): seq<Byte>
    decreases |es|
  {
    if es == [] then [] else (if es[0].Put? then [es[0].ch] else []) + Written(es[1..])
  }

  lemma {:induction false} WrittenAppend(e1: seq<Event>, e2: seq<Event>)
    ensures Written(e1 + e2) == Written(e1) + Written(e2)
    decreases |e1|
  {
    if e1 == [] {
      assert e1 + e2 == e2;
    } else {
      assert (e1 + e2)[0] == e1[0];
      assert (e1 + e2)[1..] == e1[1..] + e2;
      WrittenAppend(e1[1..], e2);
    }
  }

  /** The sanitised back bytes of the cells in [lo, hi) where back and front
      differ, in order. */
  function Mismatched(b: seq<Byte>, g: seq<Byte>, lo: nat, hi: nat): seq<Byte>
    requires |b| == |g| && lo <= hi <= |b|
    decreases hi - lo
  {
    if lo == hi then []
    else (if b[lo] != g[lo] then [Sanitize(b[lo])] else []) + Mismatched(b, g, lo + 1, hi)
  }

  lemma {:induction false} MismatchedSplit(b: seq<Byte>, g: seq<Byte>, lo: nat, mid: nat, hi: nat)
    requires |b| == |g| && lo <= mid <= hi <= |b|
    ensures Mismatched(b, g, lo, hi) == Mismatched(b, g, lo, mid) + Mismatched(b, g, mid, hi)
    decreases mid - lo
  {
    if lo < mid {
      MismatchedSplit(b, g, lo + 1, mid, hi);
    }
  }

  lemma {:induction false} MismatchedEmpty(b: seq<Byte>, g: seq<Byte>, lo: nat, hi: nat)
    requires |b| == |g| && lo <= hi <= |b|
    ensures Mismatched(b, g, lo, hi) == [] <==> forall i :: lo <= i < hi ==> b[i] == g[i]
    decreases hi - lo
  {
    if lo < hi {
      MismatchedEmpty(b, g, lo + 1, hi);
    }
  }

  lemma {:induction false} WrittenPuts(b: seq<Byte>, g: seq<Byte>, lo: nat, hi: nat)
    requires |b| == |g| && lo <= hi <= |b|
    requires forall i :: lo <= i < hi ==> b[i] != g[i]
    ensures Written(Puts(b, lo, hi)) == Mismatched(b, g, lo, hi)
    decreases hi - lo
  {
    var p := Puts(b, lo, hi);
    if lo < hi {
      assert p[1..] == Puts(b, lo + 1, hi);
      WrittenPuts(b, g, lo + 1, hi);
    } else {
      assert p == [];
    }
  }

  lemma WrittenOfRun(b: seq<Byte>, g: seq<Byte>, lo: nat, hi: nat, cup: Event, rest: seq<Event>)
    requires |b| == |g| && lo <= hi <= |b| && cup.Cup?
    requires forall i :: lo <= i < hi ==> b[i] != g[i]
    ensures Written([cup] + (Puts(b, lo, hi) + rest)) == Mismatched(b, g, lo, hi) + Written(rest)
  {
    WrittenAppend([cup], Puts(b, lo, hi) + rest);
    WrittenAppend(Puts(b, lo, hi), rest);
    assert Written([cup]) == [];
    WrittenPuts(b, g, lo, hi);
  }

  lemma RowWrittenAtRun(b: seq<Byte>, g: seq<Byte>, r: nat, base: nat, cols: nat, c: nat, e: nat)
    requires |b| == |g| && base + cols <= |b| && c < cols
    requires b[base + c] != g[base + c] && e == RunEnd(b, g, base, cols, c)
    requires Written(RowEvents(b, g, r, base, cols, e)) == Mismatched(b, g, base + e, base + cols)
    ensures Written(RowEvents(b, g, r, base, cols, c)) == Mismatched(b, g, base + c, base + cols)
  {
    var rest := RowEvents(b, g, r, base, cols, e);
    RowEventsAtRun(b, g, r, base, cols, c, e);
    WrittenOfRun(b, g, base + c, base + e, Cup(r + 1, c + 1), rest);
    MismatchedSplit(b, g, base + c, base + e, base + cols);
    Glue(Written(RowEvents(b, g, r, base, cols, c)),
         Written([Cup(r + 1, c + 1)] + (Puts(b, base + c, base + e) + rest)),
         Mismatched(b, g, base + c, base + e), Written(rest),
         Mismatched(b, g, base + e, base + cols), Mismatched(b, g, base + c, base + cols));
  }

  lemma Glue(w: seq<Byte>, w': seq<Byte>, m1: seq<Byte>, w2: seq<Byte>, m2: seq<Byte>, m: seq<Byte>)
    requires w == w' && w' == m1 + w2 && w2 == m2 && m == m1 + m2
    ensures w == m
  {
  }

  lemma RowWrittenAtEqual(b: seq<Byte>, g: seq<Byte>, r: nat, base: nat, cols: nat, c: nat)
    requires |b| == |g| && base + cols <= |b| && c < cols && b[base + c] == g[base + c]
    requires Written(RowEvents(b, g, r, base, cols, c + 1)) == Mismatched(b, g, base + c + 1, base + cols)
    ensures Written(RowEvents(b, g, r, base, cols, c)) == Mismatched(b, g, base + c, base + cols)
  {
    assert RowEvents(b, g, r, base, cols, c) == RowEvents(b, g, r, base, cols, c + 1);
    assert Mismatched(b, g, base + c, base + cols) == Mismatched(b, g, base + c + 1, base + cols);
  }

  lemma {:induction false} RowWritten(b: seq<Byte>, g: seq<Byte>, r: nat, base: nat, cols: nat, c: nat)
    requires |b| == |g| && base + cols <= |b| && c <= cols
    ensures Written(RowEvents(b, g, r, base, cols, c)) == Mismatched(b, g, base + c, base + cols)
    decreases cols - c
  {
    if c == cols {
      assert RowEvents(b, g, r, base, cols, c) == [];
    } else if b[base + c] == g[base + c] {
      RowWritten(b, g, r, base, cols, c + 1);
      RowWrittenAtEqual(b, g, r, base, cols, c);
    } else {
      var e := RunEnd(b, g, base, cols, c);
      RowWritten(b, g, r, base, cols, e);
      RowWrittenAtRun(b, g, r, base, cols, c, e);
    }
  }

  lemma FrameWrittenAtRow(b: seq<Byte>, g: seq<Byte>, rows: nat, cols: nat, r: nat)
    requires Shaped(b, g, rows, cols) && r < rows && r * cols + cols <= rows * cols
    requires Written(FrameEvents(b, g, rows, cols, r + 1)) == Mismatched(b, g, r * cols + cols, rows * cols)
    ensures Written(FrameEvents(b, g, rows, cols, r)) == Mismatched(b, g, r * cols, rows * cols)
  {
    var row := RowEvents(b, g, r, r * cols, cols, 0);
    var rest := FrameEvents(b, g, rows, cols, r + 1);
    assert FrameEvents(b, g, rows, cols, r) == row + rest;
    WrittenAppend(row, rest);
    RowWritten(b, g, r, r * cols, cols, 0);
    MismatchedSplit(b, g, r * cols, r * cols + cols, rows * cols);
    Glue(Written(FrameEvents(b, g, rows, cols, r)), Written(row + rest),
         Mismatched(b, g, r * cols, r * cols + cols), Written(rest),
         Mismatched(b, g, r * cols + cols, rows * cols), Mismatched(b, g, r * cols, rows * cols));
  }

  lemma {:induction false} FrameWritten(b: seq<Byte>, g: seq<Byte>, rows: nat, cols: nat, r: nat)
    requires Shaped(b, g, rows, cols) && r <= rows
    ensures r * cols <= rows * cols
    ensures Written(FrameEvents(b, g, rows, cols, r)) == Mismatched(b, g, r * cols, rows * cols)
    decreases rows - r
  {
    if r == rows {
    } else {
      RowBound(r, rows, cols);
      FrameWritten(b, g, rows, cols, r + 1);
      assert (r + 1) * cols == r * cols + cols;
      FrameWrittenAtRow(b, g, rows, cols, r);
    }
  }

  /** The bytes tui_present writes are exactly the sanitised back bytes of the
      cells where back and front differ, in row-major order: cells that agree
      produce no output. */
  lemma WrittenAreMismatches(b: seq<Byte>, g: seq<Byte>, rows: nat, cols: nat)
    requires Shaped(b, g, rows, cols)
    ensures Written(PresentEvents(b, g, rows, cols)) == Mismatched(b, g, 0, rows * cols)
  {
    FrameWritten(b, g, rows, cols, 0);
    WrittenAppend(FrameEvents(b, g, rows, cols, 0), [Flush]);
    assert Written([Flush]) == [];
  }

  // ---------------------------------------------------------------------
  // When tui_present writes nothing

  lemma {:induction false} RowQuiet(b: seq<Byte>, r: nat, base: nat, cols: nat, c: nat)
    requires base + cols <= |b| && c <= cols
    ensures RowEvents(b, b, r, base, cols, c) == []
    decreases cols - c
  {
    if c < cols {
      RowQuiet(b, r, base, cols, c + 1);
    }
  }

  lemma {:induction false} FrameQuiet(b: seq<Byte>, rows: nat, cols: nat, r: nat)
    requires Shaped(b, b, rows, cols) && r <= rows
    ensures FrameEvents(b, b, rows, cols, r) == []
    decreases rows - r
  {
    if r < rows {
      RowBound(r, rows, cols);
      RowQuiet(b, r, r * cols, cols, 0);
      FrameQuiet(b, rows, cols, r + 1);
    }
  }

  /** tui_present writes nothing but the flush exactly when back and front
      already agree everywhere. */
  lemma QuietIffEqual(b: seq<Byte>, g: seq<Byte>, rows: nat, cols: nat)
    requires Shaped(b, g, rows, cols)
    ensures PresentEvents(b, g, rows, cols) == [Flush] <==> b == g
  {
    if b == g {
      FrameQuiet(b, rows, cols, 0);
    }
    if PresentEvents(b, g, rows, cols) == [Flush] {
      assert FrameEvents(b, g, rows, cols, 0) == [];
      FrameWritten(b, g, rows, cols, 0);
      MismatchedEmpty(b, g, 0, rows * cols);
      assert b == g;
    }
  }

  /** When every back byte is printable, one tui_present makes front equal to
      back, so a second call with no change in between writes only the flush. */
  lemma SecondPresentQuiet(b: seq<Byte>, g: seq<Byte>, rows: nat, cols: nat)
    requires Shaped(b, g, rows, cols)
    requires forall i :: 0 <= i < |b| ==> IsPrintable(b[i])
    ensures Presented(b, g) == b
    ensures PresentEvents(b, Presented(b, g), rows, cols) == [Flush]
  {
    assert Presented(b, g) == b;
    QuietIffEqual(b, b, rows, cols);
  }

  /** A back byte outside printable ASCII that differs from front is
      repainted (as '?') by every later tui_present as well, since the front
      cell then holds '?' and never the byte itself. */
  lemma UnprintableRepainted(b: seq<Byte>, g: seq<Byte>, rows: nat, cols: nat, i: nat)
    requires Shaped(b, g, rows, cols) && i < |b|
    requires b[i] != g[i] && !IsPrintable(b[i])
    ensures Presented(b, g)[i] == PLACEHOLDER
    ensures PresentEvents(b, Presented(b, g), rows, cols) != [Flush]
  {
    QuietIffEqual(b, Presented(b, g), rows, cols);
    assert Presented(b, g)[i] != b[i];
  }
}
