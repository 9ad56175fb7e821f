/** The POSIX raw-mode switch of tui.h: two process-wide globals (the saved
    flag and the captured original settings) and the enable/disable pair
    that changes the terminal through tcgetattr/tcsetattr. The terminal's
    answers to isatty, tcgetattr and tcsetattr are inputs. */
module RawMode {
  import opened Wrappers

  /** A captured struct termios, compared only as a whole. */
  datatype Termios = Termios(id: nat)

  /** The terminal's answers during one call: whether stdin is a tty, what
      tcgetattr returns (None for -1) and whether tcsetattr succeeds. */
  datatype Tty = Tty(isatty: bool, getattr: Option<Termios>, setattrOk: bool)

  /** A tcsetattr that took effect: the raw variant of some captured
      settings, or captured settings put back. */
  datatype Applied = RawFrom(base: Termios) | Restored(settings: Termios)

  /** tui_termios_saved, tui_orig_termios, and every setting the terminal
      has been given so far. */
  datatype ModeState = ModeState(saved: bool, orig: Termios, applied: seq<Applied>)

  /** The globals at program start: nothing saved, a zeroed struct. */
  const Initial: ModeState := ModeState(false, Termios(0), [])

  /** tui_enable_raw_mode: a no-op returning 0 once settings are saved;
      -1 when stdin is not a tty or tcgetattr fails; tcgetattr writes the
      original settings, then a failing tcsetattr returns -1 with the
      flag still clear; otherwise the raw settings are applied and
      the flag is set. */
  function Enable(s: ModeState, tty: Tty): (res: (int, ModeState))
    ensures res.0 == 0 || res.0 == -1
    ensures res.0 == 0 <==> s.saved || (tty.isatty && tty.getattr.Some? && tty.setattrOk)
    ensures res.1.saved <==> res.0 == 0
    ensures res.1.applied == s.applied + (if !s.saved && res.0 == 0 then [RawFrom(res.1.orig)] else [])
  {
    if s.saved then (0, s)
    else if !tty.isatty then (-1, s)
    else match tty.getattr
      case None => (-1, s)
      case Some(t) =>
        if !tty.setattrOk then (-1, s.(orig := t))
        else (0, ModeState(true, t, s.applied + [RawFrom(t)]))
  }

  /** tui_disable_raw_mode: nothing unless settings are saved and stdin is a
      tty (otherwise the flag stays as it was); then the original settings
      are put back (when tcsetattr succeeds) and the flag is cleared
      whether or not tcsetattr succeeded. */
  function Disable(s: ModeState, tty: Tty): (t: ModeState)
    ensures t.orig == s.orig
    ensures t.saved <==> s.saved && !tty.isatty
    ensures t == s <==> !s.saved || !tty.isatty
    ensures t.applied == s.applied || t.applied == s.applied + [Restored(s.orig)]
    ensures s.saved && tty.isatty ==> t.applied == s.applied + (if tty.setattrOk then [Restored(s.orig)] else [])
  {
    if !s.saved || !tty.isatty then s
    else ModeState(false, s.orig, if tty.setattrOk then s.applied + [Restored(s.orig)] else s.applied)
  }

  /** What the history of settings promises: every restore puts back
      exactly the settings whose raw variant it undoes, and while the flag
      is set the last settings applied are the raw variant of the saved
      original. */
  ghost predicate Consistent(s: ModeState) {
    (forall i :: 0 <= i < |s.applied| && s.applied[i].Restored? ==>
       0 < i && s.applied[i - 1] == RawFrom(s.applied[i].settings))
    && (s.saved ==> |s.applied| > 0 && s.applied[|s.applied| - 1] == RawFrom(s.orig))
  }

  lemma InitialConsistent()
    ensures Consistent(Initial)
  {
  }

  lemma EnableConsistent(s: ModeState, tty: Tty)
    requires Consistent(s)
    ensures Consistent(Enable(s, tty).1)
  {
    var t := Enable(s, tty).1;
    if !s.saved && t.applied != s.applied {
      assert t.applied == s.applied + [RawFrom(t.orig)];
      forall i | 0 <= i < |t.applied| && t.applied[i].Restored?
        ensures 0 < i && t.applied[i - 1] == RawFrom(t.applied[i].settings)
      {
        assert i < |s.applied| && s.applied[i] == t.applied[i];
      }
    }
  }

  lemma DisableConsistent(s: ModeState, tty: Tty)
    requires Consistent(s)
    ensures Consistent(Disable(s, tty))
  {
    var t := Disable(s, tty);
    if t.applied != s.applied {
      assert t.applied == s.applied + [Restored(s.orig)];
      forall i | 0 <= i < |t.applied| && t.applied[i].Restored?
        ensures 0 < i && t.applied[i - 1] == RawFrom(t.applied[i].settings)
      {
        if i < |s.applied| {
          assert s.applied[i] == t.applied[i];
        }
      }
    }
  }

  /** Once raw mode is on, enabling it again returns 0 and changes nothing:
      the captured original is never overwritten by the raw settings. */
  lemma EnableIdempotent(s: ModeState, tty: Tty, tty': Tty)
    requires Enable(s, tty).0 == 0
    ensures Enable(Enable(s, tty).1, tty') == (0, Enable(s, tty).1)
    ensures Enable(s, tty).1.orig == if s.saved then s.orig else tty.getattr.value
  {
  }

  /** Disabling without a saved original never touches the terminal. */
  lemma DisableWithoutEnable(s: ModeState, tty: Tty)
    requires !s.saved
    ensures Disable(s, tty).applied == s.applied
  {
  }

  /** Enable on a working tty, then disable twice: the terminal receives the
      raw settings once and the original back once, and the second
      disable is a no-op. */
  lemma EnableDisableRoundTrip(s: ModeState, t: Termios, tty: Tty)
    requires !s.saved
    ensures var on := Enable(s, Tty(true, Some(t), true));
            var off := Disable(on.1, Tty(true, Some(t), true));
            on.0 == 0 && off.applied == s.applied + [RawFrom(t), Restored(t)]
            && Disable(off, tty) == off && !off.saved
  {
  }

  /** The two globals of tui.h, changed in place by the raw-mode calls. */
  class TerminalMode {
    var saved: bool
    var orig: Termios
    var applied: seq<Applied>

    function State(): ModeState
      reads this
    {
      ModeState(saved, orig, applied)
    }

    constructor ()
      ensures State() == Initial
    {
      saved := false;
      orig := Termios(0);
      applied := [];
    }

    /** tui_enable_raw_mode (the atexit registration is not modelled). */
    method EnableRawMode(tty: Tty) returns (status: int)
      modifies this
      ensures (status, State()) == Enable(old(State()), tty)
    {
      if saved {
        return 0;
      }
      if !tty.isatty {
        return -1;
      }
      if tty.getattr.None? {
        return -1;
      }
      orig := tty.getattr.value;
      if !tty.setattrOk {
        return -1;
      }
      applied := applied + [RawFrom(orig)];
      saved := true;
      return 0;
    }

    /** tui_disable_raw_mode. */
    method DisableRawMode(tty: Tty)
      modifies this
      ensures State() == Disable(old(State()), tty)
    {
      if !saved {
        return;
      }
      if !tty.isatty {
        return;
      }
      if tty.setattrOk {
        applied := applied + [Restored(orig)];
      }
      saved := false;
    }
  }
}
