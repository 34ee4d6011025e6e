/** The shell's execution mode and the `mode` built-in. In sequential mode
    the shell waits for each started program before taking the next
    command; in parallel mode it starts them all and waits at the end of
    the line. `mode` with no argument shows the mode, with one recognised
    argument selects a mode, and otherwise reports an unrecognised argument. */
module Modes {
  import opened Wrappers

  datatype Mode = Sequential | Parallel

  /** What `mode` prints: the current mode, an unrecognised-argument
      message, or nothing. */
  datatype Notice = ShowMode(shown: Mode) | Unrecognized | Silent

  /** The mode `mode` asks for, and what it prints. */
  datatype ModeResult = ModeResult(next: Mode, notice: Notice)

  /** The mode an argument names: "sequential" or "s", "parallel" or "p". */
  function NamedMode(w: string): (m: Option<Mode>)
    ensures m == Some(Sequential) <==> w == "sequential" || w == "s"
    ensures m == Some(Parallel) <==> w == "parallel" || w == "p"
  {
    if w == "sequential" || w == "s" then Some(Sequential)
    else if w == "parallel" || w == "p" then Some(Parallel)
    else None
  }

  /** mode_set: tokens is the `mode` command (its first token is the word
      `mode`), current the mode in force. */
  function ModeSet(tokens: seq<string>, current: Mode): (r: ModeResult)
    requires |tokens| >= 1
    ensures r.notice == ShowMode(current) <==> |tokens| == 1
    ensures r.notice == Unrecognized <==> |tokens| > 2 || (|tokens| == 2 && NamedMode(tokens[1]) == None)
    ensures r.notice == Silent <==> |tokens| == 2 && NamedMode(tokens[1]).Some?
    ensures r.notice != Silent ==> r.next == current
    ensures r.notice == Silent ==> Some(r.next) == NamedMode(tokens[1])
  {
    if |tokens| == 1 then ModeResult(current, ShowMode(current))
    else if |tokens| > 2 then ModeResult(current, Unrecognized)
    else match NamedMode(tokens[1])
      case Some(m) => ModeResult(m, Silent)
      case None => ModeResult(current, Unrecognized)
  }

  /** `mode <name>` selects that mode whatever the current one is, and
      repeating it changes nothing. */
  lemma SelectIsAbsolute(w: string, m: Mode, current: Mode)
    requires NamedMode(w) == Some(m)
    ensures ModeSet(["mode", w], current).next == m
    ensures ModeSet(["mode", w], ModeSet(["mode", w], current).next) == ModeSet(["mode", w], current)
  {
  }

  /** A `mode` command changes the mode only when it has exactly one
      argument and that argument names the other mode. */
  lemma ChangeNeedsOneName(tokens: seq<string>, current: Mode)
    requires |tokens| >= 1
    ensures ModeSet(tokens, current).next != current <==>
      |tokens| == 2 && NamedMode(tokens[1]).Some? && NamedMode(tokens[1]).value != current
  {
  }
}
