# tui.h in Dafny

A model of the single-header terminal library `inc/tui.h`, with proofs about it.
The library keeps two character grids:

- the front frame, which is what the terminal currently shows;
- the back frame, which is what the program wants shown next.

`tui_present` compares the two frames. It writes only the runs of cells that differ, each as one cursor move (CUP) followed by the sanitised bytes, and copies those bytes into front. The other modelled parts are:

- context creation;
- the SIGWINCH-driven resize;
- the POSIX raw-mode switch.

Modules, one per file:

- `Ascii` (`ascii.dfy`): the byte type and `tui_sanitize_ascii`.
- `Grids` (`grids.dfy`): a frame as a value (`Grid`). Each frame operation is a function on it: new, set, get, clear and resize, with the `SIZE_MAX` overflow guard.
- `Frames` (`frames.dfy`): `tui_frame_t` as a class. It holds `rows`, `cols` and an `array<Byte>`, and its methods update it in place. Each method is proved against the `Grids` function of the same operation.
- `Diff` (`diff.dfy`): what `tui_present` emits, as a function of the back and front buffers. It comes with three reference descriptions and lemmas linking them to that function. The references are:
  - an ideal terminal that replays the stream;
  - the count of cursor moves;
  - the bytes written.
- `RawMode` (`raw_mode.dfy`): the two globals behind `tui_enable_raw_mode` / `tui_disable_raw_mode`. They appear as a value (`ModeState`) with pure transition functions, and as a class (`TerminalMode`) whose methods update them in place.
- `Contexts` (`context.dfy`): `tui_ctx_t` and the resize flag.
  - `tui_ctx_new`.
  - `tui_ctx_handle_resize`, both as written and corrected.
  - `tui_present`, as loops over the two frames' arrays. They are proved to emit `Diff.PresentEvents` and to leave front equal to `Diff.Presented`.
- `Arith` (`arith.dfy`) and `Wrappers` (`wrappers.dfy`): row-major offset arithmetic and `Option`.

The environment becomes parameters:

- The size that `tui_get_size` reports is an `Option<(UShort, UShort)>` (None when the query fails).
- Whether each `malloc`/`calloc` succeeds is a boolean.
- What `isatty`, `tcgetattr` and `tcsetattr` return is a `Tty` value.
- The output stream is a sequence of events on the context, appended to as the source writes:
  - `Cup(line, column)` for `tui_ansi_move_cursor`, with the 1-based parameters of CUP (ECMA-48, section 8.3.21);
  - `Put(byte)` for each `fputc`;
  - `Flush` for `fflush`.

Where the code and its description differ, the model follows the code:

- `tui_frame_clear` stores its byte verbatim. A back frame cleared with an unprintable byte is therefore repainted by every `tui_present` (`Diff.UnprintableRepainted`). A second present is quiet only when every back byte is printable (`Diff.SecondPresentQuiet`).
- `tui_ctx_handle_resize` does not resize the two frames atomically. If front's reallocation succeeds and back's fails, it returns -1 with the two frames at different sizes (see Findings).
- `tui_ctx_handle_resize` clears the flag before it queries the size. A failed query or failed resize therefore drops the pending resize.
- `tui_disable_raw_mode` leaves the saved flag set when stdin is no longer a tty.
- After `tui_present`, front equals back only up to sanitisation (`Diff.PresentedShowsBack`).

## Model

| member | source | states |
|---|---|---|
| Ascii.Sanitize | inc/tui.h:45-48 | the result is always printable ASCII (32..126); a printable byte is returned unchanged and any other byte becomes '?'; the byte changes exactly when it is unprintable |
| Ascii.SanitizeIdempotent | inc/tui.h:45-48 | sanitising twice is sanitising once |
| Grids.ValidDimsNoOverflow | inc/tui.h:51 | the guard `rows == 0 \|\| cols == 0 \|\| cols > SIZE_MAX / rows` rejects exactly the sizes whose cell count is zero or exceeds SIZE_MAX |
| Grids.Get | inc/tui.h:77-80 | an out-of-bounds read returns '\0' |
| Grids.New | inc/tui.h:50-60 | fails exactly on a zero or overflowing size; otherwise the frame has the requested dimensions and rows * cols cells |
| Grids.NewAllNul | inc/tui.h:50-60 | every cell of a new frame reads '\0' (calloc) |
| Grids.Set | inc/tui.h:70-74 | returns 0 exactly when (r, c) is in bounds; otherwise -1 with the frame unchanged; dimensions never change |
| Grids.SetThenGet | inc/tui.h:70-80 | after set, get at (r, c) returns the sanitised byte when in bounds; every other cell reads what it read before |
| Grids.Clear | inc/tui.h:83-86 | dimensions are kept |
| Grids.ClearThenGet | inc/tui.h:83-86 | after clear, every in-bounds cell reads the given byte verbatim (no sanitising) |
| Grids.Resize | inc/tui.h:89-104 | fails exactly on a zero or overflowing size; otherwise the frame takes the new dimensions |
| Grids.ResizeThenGet | inc/tui.h:89-104 | after resize, a cell inside both the old and the new rectangle keeps its old byte; every other cell reads '\0' |
| Frames.Frame.Init | inc/tui.h:53-58 | a fresh, zero-filled buffer of rows * cols bytes, equal to what Grids.New describes |
| Frames.Frame.New | inc/tui.h:50-60 | null exactly when the size is rejected or an allocation fails; otherwise a fresh frame equal to Grids.New |
| Frames.Frame.SetChar | inc/tui.h:70-74 | status and new contents are those of Grids.Set on the old contents |
| Frames.Frame.Clear | inc/tui.h:83-86 | the memset loop leaves the contents of Grids.Clear |
| Frames.Frame.Resize | inc/tui.h:89-104 | returns 0 exactly when the size is valid and calloc succeeds, and then holds a fresh buffer equal to Grids.Resize of the old contents; otherwise -1 with dimensions and buffer unchanged |
| Frames.CopyOverlap | inc/tui.h:94-98 | the per-row memcpy loop into the zeroed buffer produces exactly the cells of Grids.Resize |
| Frames.MemCopy | inc/tui.h:97 | copies n bytes to the destination range and nothing else changes |
| Diff.MoveCursor | inc/tui.h:117-120 | the cursor move for the 0-based cell (r, c) is a CUP whose parameters are both at least 1, so neither takes the default, and they decode back to r and c |
| Diff.MoveCursorTargets | inc/tui.h:117-120 | the CUP from tui_ansi_move_cursor(r, c) puts a terminal's cursor on the 0-based cell (r, c) |
| Diff.RunEnd | inc/tui.h:336-337 | the scan stops at the first column at or after the start where back and front agree (or at cols), and every cell it passes differs |
| Diff.RowEvents | inc/tui.h:329-345 | the output of one row holds no flush, and every cursor move in it goes to that row's line at a column from the current one to cols (1-based) |
| Diff.FrameEvents | inc/tui.h:328-346 | the output of rows r onwards holds no flush, and every cursor move lands inside the frame, on a line after r |
| Diff.PresentEvents | inc/tui.h:326-348 | the stream ends with exactly one flush, the only one in it, and every cursor move lands inside the rows x cols frame |
| Diff.Presented | inc/tui.h:330-344 | front afterwards has back's length; each cell agrees with back up to sanitisation; every cell that differed now holds printable ASCII; equal buffers are left as they are |
| Diff.ReplayShowsPresented | inc/tui.h:328-348 | a terminal showing the old front that receives the whole stream ends up showing exactly the new front, wherever its cursor started |
| Diff.PresentedShowsBack | inc/tui.h:340-344 | a cell where back and front agreed keeps that byte; every other cell now holds the sanitised back byte; either way it matches back up to sanitisation |
| Diff.CupPerRun | inc/tui.h:330-339 | the stream holds Cup(l, k) exactly once when cell (l-1, k-1) starts a maximal mismatched run of its row, and never otherwise |
| Diff.WrittenAreMismatches | inc/tui.h:330-344 | the bytes written are exactly the sanitised back bytes of the differing cells in row-major order; equal cells produce no output |
| Diff.QuietIffEqual | inc/tui.h:328-348 | the stream is only the flush exactly when back and front agree everywhere |
| Diff.SecondPresentQuiet | inc/tui.h:328-348 | when every back byte is printable, front equals back afterwards and a second present emits only the flush |
| Diff.UnprintableRepainted | inc/tui.h:337-343 | a differing unprintable back byte leaves '?' in front, so the next present writes again |
| RawMode.Enable | inc/tui.h:148-163 | returns 0 exactly when settings were already saved or isatty, tcgetattr and tcsetattr all succeed; the saved flag is set exactly on success; the raw variant of the captured settings is applied exactly by a call that saves them, and every other call applies nothing |
| RawMode.Disable | inc/tui.h:165-170 | the captured settings never change; the flag stays set only when it was set and stdin is not a tty; the state is untouched exactly when not saved or not a tty; when saved and a tty, the captured settings are restored exactly when tcsetattr succeeds, and nothing else is applied |
| RawMode.InitialConsistent | inc/tui.h:144-145 | the globals at program start satisfy the history invariant |
| RawMode.EnableConsistent | inc/tui.h:148-163 | enable keeps the invariant: every restore puts back the settings whose raw variant it undoes, and while saved the last settings applied are the raw variant of the captured original |
| RawMode.DisableConsistent | inc/tui.h:165-170 | disable keeps the same invariant |
| RawMode.EnableIdempotent | inc/tui.h:150-152 | after a successful enable, enabling again returns 0 and changes nothing; the captured original is the one tcgetattr gave the saving call |
| RawMode.DisableWithoutEnable | inc/tui.h:166 | disable before any successful enable never touches the terminal |
| RawMode.EnableDisableRoundTrip | inc/tui.h:148-170 | enable then disable twice on a working tty applies the raw settings once and restores the original once; the second disable is a no-op |
| RawMode.TerminalMode.constructor | inc/tui.h:144-145 | the globals start unsaved with a zeroed struct |
| RawMode.TerminalMode.EnableRawMode | inc/tui.h:148-163 | status and new globals are those of RawMode.Enable |
| RawMode.TerminalMode.DisableRawMode | inc/tui.h:165-170 | new globals are those of RawMode.Disable |
| Contexts.StartSize | inc/tui.h:260-265 | the start size fits in an unsigned short; when the size query fails the 24 x 80 fallback passes the frame guard; otherwise it is the reported size |
| Contexts.UShortDims | inc/tui.h:51 | a size given as two unsigned shorts is valid exactly when neither is zero |
| Contexts.ResizeFlag.OnResizeSignal | inc/tui.h:241-242 | the handler sets the flag |
| Contexts.Context.New | inc/tui.h:259-288 | null exactly when an allocation fails or the size (24 x 80 when the query fails) is rejected, with raw mode untouched; otherwise both frames have that size, are all ' ', the stream is empty, and raw mode went through RawMode.Enable |
| Contexts.Context.HandleResize | inc/tui.h:300-315 | returns 0 with both frames unchanged when the flag is clear; otherwise clears the flag, then returns 1 exactly when the size query and both allocations succeed with a valid size, with both frames at that size, back all ' ' and front all '\0'; -1 otherwise, with both frames unchanged when front's resize failed and front resized but back unchanged when only back's failed |
| Contexts.Context.HandleResizeAtomic | inc/tui.h:300-315 | the same, but every failure leaves both frames unchanged, so equal dimensions are preserved |
| Contexts.Context.Present | inc/tui.h:318-349 | appends exactly Diff.PresentEvents of back and old front to the stream, leaves front equal to Diff.Presented, and does not change back |
| Contexts.Context.PresentRow | inc/tui.h:329-345 | one pass of the row loop appends that row's Diff.RowEvents and updates front for that row alone |
| Contexts.Context.ScanRun | inc/tui.h:337 | the scan loop returns Diff.RunEnd |
| Contexts.Context.PaintRun | inc/tui.h:339-344 | the cursor move, then the run's sanitised bytes both written out and stored in front |
| Contexts.PartialResizeOverrun | inc/tui.h:308-312 | from a 24 x 80 context, a 10 x 10 resize whose back allocation fails returns -1 with a 100-cell front while back still spans 24 x 80 |
| Contexts.AtomicResizeKeepsBounds | inc/tui.h:300-315 | the same failure under the corrected resize keeps front at 24 x 80 cells |

## Findings

| source | as written | input that shows it | evidently intended | confidence | as-written member | corrected member |
|---|---|---|---|---|---|---|
| inc/tui.h:308-312 | front is resized and its old buffer freed before back's calloc is tried; when that calloc fails, -1 is returned with front at the new size and back at the old one | a 24 x 80 context, SIGWINCH, a reported size of 10 x 10, back's calloc fails: front holds 100 cells, back keeps 24 x 80, and the next `tui_present` (inc/tui.h:326-343) reads and writes front cells up to offset 1919 | both new buffers are obtained before either frame changes, so a failed resize leaves the two frames as they were and of equal size | not executed; high (the overrun follows from the code once the allocation fails) | Contexts.PartialResizeOverrun | Contexts.Context.HandleResizeAtomic |

## Left out

- Contexts.Context.Present: requires front and back to have the same dimensions. The source walks front with back's dimensions whatever their sizes; after the partial resize in Findings that goes out of bounds, which a Dafny array access cannot express.
- `tui_get_size` (ioctl / console query): its result is an input of `Context.New` and `Context.HandleResize`.
- `tui_poll_key`: blocking input with a timeout (select/read) is I/O outside the model.
- `tui_install_resize_handler` and the asynchronous delivery of SIGWINCH: only the flag and the handler's single write are modelled.
- `atexit(tui_disable_raw_mode)` and the termios bit manipulation. The settings are an opaque `Termios` value, and "the raw variant of t" is recorded as `RawFrom(t)`.
- The Windows branch of raw mode and the size query: platform-specific, and not part of this model.
- `tui_frame_draw`, `tui_ansi_clear_screen`, `tui_ansi_hide_cursor`, `tui_ansi_show_cursor`: they write fixed strings.
- The decimal text of the cursor sequence (`fprintf` with `%zu`): the event keeps the two CUP parameters.
- `tui_frame_free` and `tui_ctx_free`: deallocation has no counterpart in Dafny.
- The NULL-pointer guards (`!f`, `!ctx`, `!out`): receivers are always non-null objects, and `ctx->out` defaulting to stdout is replaced by the context's event sequence.
- size_t wrap-around in `r * cols` and `rows * cols`: integers are unbounded, and the `SIZE_MAX` guard, stated in the model, keeps every product in range.
- The ideal terminal used by `Diff.ReplayShowsPresented` does not wrap or scroll. A byte written past the last cell is dropped, which never happens for the runs present emits.
- test.c: a demonstration event loop that only calls the modelled functions.
