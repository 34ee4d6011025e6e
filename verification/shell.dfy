/** The shell's main loop. Each cycle reads one line, queues its commands
    and then runs the queue dry: `exit` asks the shell to stop once the
    cycle is over, `mode` stages the mode for the next cycle, and any other
    command starts a program (resolved against the search directories)
    under the mode that was in force when the cycle began. At the end of
    the cycle the shell waits for every child, then either stops (when an
    exit was asked for or input ended) or puts the staged mode in force. */
module ShellLoop {
  import opened Wrappers
  import opened Tokenizer
  import opened Queue
  import opened Splitter
  import opened CommandLaws
  import opened Modes
  import opened PathSearch

  /** A program the shell started: the argument vector given to execv,
      whether the path search found an existing file (if not, execv gets
      the bare name, fails, and the child reports that it cannot execute),
      and the mode in force, which decides whether the shell waited for the
      child before taking the next command. */
  datatype Launch = Launch(argv: seq<string>, found: bool, mode: Mode)

  /** What running the queued commands of a cycle has produced so far: the
      exit request, the staged mode, the programs started and what `mode`
      printed. */
  datatype Progress = Progress(exit: bool, next: Mode, launches: seq<Launch>, notices: seq<Notice>)

  predicate AllNonEmpty(cmds: seq<seq<string>>) {
    forall k :: 0 <= k < |cmds| ==> cmds[k] != []
  }

  predicate IsExit(cmd: seq<string>) {
    cmd != [] && cmd[0] == "exit"
  }

  predicate IsModeCommand(cmd: seq<string>) {
    cmd != [] && cmd[0] == "mode"
  }

  /** A command that is neither built-in: it names a program. */
  predicate IsProgram(cmd: seq<string>) {
    cmd != [] && !IsExit(cmd) && !IsModeCommand(cmd)
  }

  /** The program a command starts: its name replaced by the resolved path,
      its arguments unchanged. */
  function Start(cmd: seq<string>, mode: Mode, dirs: seq<string>, present: string -> bool): (l: Launch)
    requires cmd != []
    ensures |l.argv| == |cmd| && l.argv[1..] == cmd[1..] && l.mode == mode
    ensures l.found <==> FirstExisting(Candidates(cmd[0], dirs), present).Some?
    ensures l.argv[0] == Resolution(cmd[0], dirs, present)
    ensures l.found ==> present(l.argv[0])
    ensures !l.found ==> l.argv[0] == cmd[0]
  {
    var found := FirstExisting(Candidates(cmd[0], dirs), present).Some?;
    Launch([Resolution(cmd[0], dirs, present)] + cmd[1..], found, mode)
  }

  /** One command taken from the head of the queue. mode is the mode in
      force for the whole cycle. */
  function Step(p: Progress, cmd: seq<string>, mode: Mode, dirs: seq<string>, present: string -> bool): Progress
    requires cmd != []
  {
    if cmd[0] == "exit" then p.(exit := true)
    else if cmd[0] == "mode" then
      var r := ModeSet(cmd, mode);
      p.(next := r.next, notices := p.notices + if r.notice == Silent then [] else [r.notice])
    else p.(launches := p.launches + [Start(cmd, mode, dirs, present)])
  }

  /** The commands of a cycle taken in order, starting from p0. Once asked
      for, an exit stays asked for. */
  function Dispatch(cmds: seq<seq<string>>, mode: Mode, dirs: seq<string>, present: string -> bool, p0: Progress): (r: Progress)
    requires AllNonEmpty(cmds)
    ensures p0.exit ==> r.exit
  {
    if cmds == [] then p0
    else Step(Dispatch(cmds[..|cmds| - 1], mode, dirs, present, p0), cmds[|cmds| - 1], mode, dirs, present)
  }

  // ----- reading a line -----

  /** The line as main.c:224-225 trims it: the character just before the
      first NUL (strlen's count) is overwritten with the terminator,
      whatever it is. */
  function TrimAsWritten(line: string): string
    requires CLength(line) > 0
  {
    line[..CLength(line) - 1]
  }

  /** The line with its newline removed; a last line without a newline is
      kept whole. */
  function Trim(line: string): string {
    if line != [] && line[|line| - 1] == '\n' then line[..|line| - 1] else line
  }

  /** Removing the newline does not change the commands of a line: the
      newline already ends the scan. */
  lemma TrimKeepsCommands(line: string)
    ensures Commands(Trim(line)) == Commands(line)
  {
    var t := Trim(line);
    if t != line {
      assert line == t + ['\n'];
      if Stop(t) < |t| {
        CommentIgnored(t, ['\n']);
      } else {
        assert forall k :: 0 <= k < |t| ==> line[k] == t[k];
        StopAt(line, |t|);
        assert line[..|t|] == t[..|t|];
      }
    }
  }

  /** The as-written trim loses a real character when the last line ends
      without a newline: "ls" is run as "l". */
  lemma TrimAsWrittenLosesCharacter()
    ensures Commands(TrimAsWritten("ls")) == [["l"]]
    ensures Commands(Trim("ls")) == [["ls"]]
  {
    assert TrimAsWritten("ls") == "l";
    OneWordLine("l");
    OneWordLine("ls");
  }

  /** The trim as written also counts only up to the first NUL: a line read
      with a NUL inside, "ab\0c\n", loses the "b" before it, where the
      corrected trim keeps "ab". */
  lemma TrimAsWrittenStopsAtNul()
    ensures Commands(TrimAsWritten("ab\0c\n")) == [["a"]]
    ensures Commands(Trim("ab\0c\n")) == [["ab"]]
  {
    var line := "ab\0c\n";
    assert TrimAsWritten(line) == "a" by {
      assert CLength(line) == 2;
    }
    OneWordLine("a");
    assert Trim(line) == "ab\0c";
    CutAtNul();
  }

  lemma CutAtNul()
    ensures Commands("ab\0c") == [["ab"]]
  {
    assert "ab\0c" == "ab" + "\0c";
    WordBeforeNul("ab", "\0c");
  }

  /** A word followed by a NUL is one command of that word, whatever comes
      after the NUL. */
  lemma WordBeforeNul(w: string, rest: string)
    requires w != [] && IsWord(w) && rest != [] && rest[0] == '\0'
    ensures Commands(w + rest) == [[w]]
  {
    StopAt(w + rest, |w|);
    PrefixPastStop(w + rest, |w|);
    assert (w + rest)[..|w|] == w;
    OneWordLine(w);
  }

  /** Whenever the character before the first NUL is the newline, as on every
      line fgets reads whole, the trim as written and the corrected trim
      queue the same commands, which are those of the untrimmed line. */
  lemma TrimsAgreeOnWholeLines(line: string)
    requires CLength(line) > 0 && line[CLength(line) - 1] == '\n'
    ensures Commands(TrimAsWritten(line)) == Commands(line)
    ensures Commands(TrimAsWritten(line)) == LineCommands(Some(line))
  {
    PrefixPastStop(line, CLength(line) - 1);
    TrimKeepsCommands(line);
  }

  /** A line that is one word is one command of one token. */
  lemma OneWordLine(w: string)
    requires w != [] && IsWord(w)
    ensures Commands(w) == [[w]]
  {
    StopAt(w, |w|);
    SingleCommand(w);
    WordIsOneToken(w);
  }

  /** The commands a cycle runs: none at the end of input, otherwise those
      of the trimmed line. */
  function LineCommands(input: Option<string>): (cmds: seq<seq<string>>)
    ensures AllNonEmpty(cmds)
  {
    match input
    case None => []
    case Some(line) =>
      var cmds := Commands(Trim(line));
      CommandsWellFormed(Trim(line));
      assert forall k :: 0 <= k < |cmds| ==> cmds[k] in cmds;
      cmds
  }

  /** What a whole cycle does, starting under mode with nothing staged; the
      end of input counts as an exit request. */
  function CycleResult(input: Option<string>, mode: Mode, dirs: seq<string>, present: string -> bool): Progress {
    Dispatch(LineCommands(input), mode, dirs, present, Progress(input.None?, mode, [], []))
  }

  /** What a run over the given input lines produces, up to and including
      the cycle that stops the shell; after the last line comes the end of
      input. */
  datatype SessionEnd = SessionEnd(launches: seq<Launch>, notices: seq<Notice>, cycles: nat)

  function Session(lines: seq<string>, mode: Mode, dirs: seq<string>, present: string -> bool): (e: SessionEnd)
    ensures 1 <= e.cycles <= |lines| + 1
    decreases |lines|
  {
    var input := if lines == [] then None else Some(lines[0]);
    var r := CycleResult(input, mode, dirs, present);
    if r.exit then SessionEnd(r.launches, r.notices, 1)
    else
      var rest := Session(lines[1..], r.next, dirs, present);
      SessionEnd(r.launches + rest.launches, r.notices + rest.notices, 1 + rest.cycles)
  }

  // ----- the shell -----

  /** parse_path: the search directories are the tokens of the first line
      of the configuration file; without that file there are none. */
  method ParsePath(config: Option<string>) returns (dirs: seq<string>)
    ensures config.None? ==> dirs == []
    ensures config.Some? ==> dirs == Tokens(config.value[..CLength(config.value)])
  {
    dirs := [];
    if config.Some? {
      dirs := Tokenify(config.value);
    }
  }

  class Shell {
    /** The search directories, fixed at startup. */
    const dirs: seq<string>
    /** The command list. */
    const queue: CommandQueue
    /** The mode in force (parallel_mode). */
    var mode: Mode
    /** The mode staged by `mode` for the next cycle (next_parallel_mode). */
    var nextMode: Mode
    var exitFlag: bool
    /** Every program started so far, in order. */
    var launches: seq<Launch>
    /** Everything `mode` has printed, in order. */
    var notices: seq<Notice>

    /** Between cycles: the queue is drained, nothing is staged beyond the
        mode in force, and no exit is pending. */
    ghost predicate Valid()
      reads this, queue
    {
      queue.Valid() && queue.entries == [] && nextMode == mode && !exitFlag
    }

    /** Startup: config is the first line of the configuration file, if it
        exists; the shell starts in sequential mode. */
    constructor (config: Option<string>)
      ensures Valid() && fresh(queue)
      ensures config.None? ==> dirs == []
      ensures config.Some? ==> dirs == Tokens(config.value[..CLength(config.value)])
      ensures mode == Sequential && launches == [] && notices == []
    {
      var d := ParsePath(config);
      dirs := d;
      queue := new CommandQueue();
      mode, nextMode, exitFlag := Sequential, Sequential, false;
      launches, notices := [], [];
    }

    /** The shell's progress through the current cycle. */
    function State(): Progress
      reads this
    {
      Progress(exitFlag, nextMode, launches, notices)
    }

    /** One pass of the dispatch loop: runs the command at the head of the
        queue under the mode in force, then pops it. */
    method Execute(present: string -> bool)
      requires queue.Valid() && queue.entries != []
      modifies this, queue
      ensures queue.Valid() && queue.entries == old(queue.entries)[1..]
      ensures mode == old(mode)
      ensures State() == Step(old(State()), old(queue.entries)[0], mode, dirs, present)
    {
      var cmd := queue.Head();
      if cmd[0] == "exit" {
        exitFlag := true;
      } else if cmd[0] == "mode" {
        var r := ModeSet(cmd, mode);
        nextMode := r.next;
        if r.notice != Silent {
          notices := notices + [r.notice];
        }
      } else {
        var path, found := Resolve(cmd[0], dirs, present);
        launches := launches + [Launch([path] + cmd[1..], found, mode)];
      }
      var _ := queue.Pop();
    }

    /** The dispatch loop: runs the queued commands in order under the mode
        in force until the queue is empty. */
    method Drain(present: string -> bool)
      requires queue.Valid()
      modifies this, queue
      ensures queue.Valid() && queue.entries == []
      ensures mode == old(mode)
      ensures AllNonEmpty(old(queue.entries))
      ensures State() == Dispatch(old(queue.entries), mode, dirs, present, old(State()))
    {
      ghost var cmds := queue.entries;
      ghost var s0 := State();
      ghost var k := 0;
      PrefixNonEmpty(cmds, 0);
      while !queue.IsEmpty()
        invariant queue.Valid() && 0 <= k <= |cmds| && queue.entries == cmds[k..]
        invariant AllNonEmpty(cmds) && AllNonEmpty(cmds[..k])
        invariant mode == old(mode)
        invariant State() == Dispatch(cmds[..k], mode, dirs, present, s0)
        decreases |queue.entries|
      {
        assert queue.entries[0] == cmds[k];
        Execute(present);
        DispatchNext(cmds, k, mode, dirs, present, s0);
        k := k + 1;
      }
      assert cmds[..k] == cmds;
    }

    /** One cycle of the main loop. input is the line read, or None at the
        end of input; present tells which paths exist. Returns whether the
        shell stops. */
    method Cycle(input: Option<string>, present: string -> bool) returns (terminate: bool)
      requires Valid()
      modifies this, queue
      ensures var r := CycleResult(input, old(mode), dirs, present);
        && launches == old(launches) + r.launches
        && notices == old(notices) + r.notices
        && terminate == r.exit
        && (!terminate ==> Valid() && mode == r.next)
    {
      if input.Some? {
        Commandify(Trim(input.value), queue);
      } else {
        exitFlag := true;
      }
      ghost var cmds := LineCommands(input);
      ghost var s0 := State();
      assert queue.entries == cmds;
      Drain(present);
      DispatchFrom(cmds, mode, dirs, present, s0);
      terminate := exitFlag;
      if !terminate {
        mode := nextMode;
      }
    }

    /** The main loop over the given input lines, followed by the end of
        input: cycles until one stops the shell, and returns how many ran. */
    method Run(lines: seq<string>, present: string -> bool) returns (cycles: nat)
      requires Valid()
      modifies this, queue
      ensures var e := Session(lines, old(mode), dirs, present);
        && launches == old(launches) + e.launches
        && notices == old(notices) + e.notices
        && cycles == e.cycles
    {
      ghost var e0 := Session(lines, mode, dirs, present);
      cycles := 0;
      var k := 0;
      while true
        invariant 0 <= k <= |lines| && cycles == k
        invariant Valid()
        invariant var e := Session(lines[k..], mode, dirs, present);
          && old(launches) + e0.launches == launches + e.launches
          && old(notices) + e0.notices == notices + e.notices
          && e0.cycles == cycles + e.cycles
        decreases |lines| - k
      {
        ghost var e := Session(lines[k..], mode, dirs, present);
        ghost var launchesBefore, noticesBefore, modeBefore := launches, notices, mode;
        var input := if k < |lines| then Some(lines[k]) else None;
        assert input == if lines[k..] == [] then None else Some(lines[k..][0]);
        var terminate := Cycle(input, present);
        cycles := cycles + 1;
        if terminate {
          return;
        }
        assert lines[k..][1..] == lines[k + 1..];
        ghost var r := CycleResult(input, modeBefore, dirs, present);
        AppendAssoc(launchesBefore, r.launches, Session(lines[k + 1..], mode, dirs, present).launches);
        AppendAssoc(noticesBefore, r.notices, Session(lines[k + 1..], mode, dirs, present).notices);
        k := k + 1;
      }
    }
  }

  /** Dispatching from a progress that already holds launches and notices
      only appends to them. */
  lemma {:induction false} DispatchFrom(cmds: seq<seq<string>>, mode: Mode, dirs: seq<string>, present: string -> bool, p: Progress)
    requires AllNonEmpty(cmds)
    ensures var r := Dispatch(cmds, mode, dirs, present, Progress(p.exit, p.next, [], []));
      Dispatch(cmds, mode, dirs, present, p) == Progress(r.exit, r.next, p.launches + r.launches, p.notices + r.notices)
  {
    if cmds != [] {
      var init, last := cmds[..|cmds| - 1], cmds[|cmds| - 1];
      DispatchFrom(init, mode, dirs, present, p);
      var q := Dispatch(init, mode, dirs, present, Progress(p.exit, p.next, [], []));
      if IsModeCommand(last) {
        var r := ModeSet(last, mode);
        AppendAssoc(p.notices, q.notices, if r.notice == Silent then [] else [r.notice]);
      } else if IsProgram(last) {
        AppendAssoc(p.launches, q.launches, [Start(last, mode, dirs, present)]);
      }
    }
  }

  // ----- what a cycle promises -----

  /** Every program a cycle starts runs under the mode in force when the
      cycle began, even after a `mode` command earlier on the same line. */
  lemma {:induction false} LaunchesUseCycleMode(cmds: seq<seq<string>>, mode: Mode, dirs: seq<string>, present: string -> bool, p0: Progress)
    requires AllNonEmpty(cmds)
    ensures var r := Dispatch(cmds, mode, dirs, present, p0);
      |p0.launches| <= |r.launches| && r.launches[..|p0.launches|] == p0.launches
      && forall k :: |p0.launches| <= k < |r.launches| ==> r.launches[k].mode == mode
  {
    if cmds != [] {
      LaunchesUseCycleMode(cmds[..|cmds| - 1], mode, dirs, present, p0);
    }
  }

  /** The shell stops after a cycle exactly when input ended, an exit was
      already pending, or some command of the line is `exit`. */
  lemma {:induction false} ExitRequested(cmds: seq<seq<string>>, mode: Mode, dirs: seq<string>, present: string -> bool, p0: Progress)
    requires AllNonEmpty(cmds)
    ensures Dispatch(cmds, mode, dirs, present, p0).exit <==> p0.exit || exists k :: 0 <= k < |cmds| && IsExit(cmds[k])
  {
    if cmds != [] {
      ExitRequested(cmds[..|cmds| - 1], mode, dirs, present, p0);
      ExitRequestedStep(cmds, mode, dirs, present, p0);
    }
  }

  lemma ExitRequestedStep(cmds: seq<seq<string>>, mode: Mode, dirs: seq<string>, present: string -> bool, p0: Progress)
    requires AllNonEmpty(cmds) && cmds != []
    requires var init := cmds[..|cmds| - 1];
      Dispatch(init, mode, dirs, present, p0).exit <==> p0.exit || exists k :: 0 <= k < |init| && IsExit(init[k])
    ensures Dispatch(cmds, mode, dirs, present, p0).exit <==> p0.exit || exists k :: 0 <= k < |cmds| && IsExit(cmds[k])
  {
    var init, last := cmds[..|cmds| - 1], cmds[|cmds| - 1];
    ExitInLine(cmds);
    assert Dispatch(cmds, mode, dirs, present, p0).exit == (Dispatch(init, mode, dirs, present, p0).exit || IsExit(last));
  }

  /** A line holds an exit when the part before its last command does, or
      its last command is one. */
  lemma ExitInLine(cmds: seq<seq<string>>)
    requires cmds != []
    ensures var init := cmds[..|cmds| - 1];
      (exists k :: 0 <= k < |cmds| && IsExit(cmds[k])) <==>
      (exists k :: 0 <= k < |init| && IsExit(init[k])) || IsExit(cmds[|cmds| - 1])
  {
    var init := cmds[..|cmds| - 1];
    if k :| 0 <= k < |cmds| && IsExit(cmds[k]) {
      if k < |init| {
        assert init[k] == cmds[k];
      }
    }
    if k :| 0 <= k < |init| && IsExit(init[k]) {
      assert cmds[k] == init[k];
    }
  }

  /** Without a `mode` command the staged mode stays as it was. */
  lemma {:induction false} NoModeCommandKeepsStaged(cmds: seq<seq<string>>, mode: Mode, dirs: seq<string>, present: string -> bool, p0: Progress)
    requires AllNonEmpty(cmds)
    requires forall k :: 0 <= k < |cmds| ==> !IsModeCommand(cmds[k])
    ensures Dispatch(cmds, mode, dirs, present, p0).next == p0.next
  {
    if cmds != [] {
      var init := cmds[..|cmds| - 1];
      assert forall k :: 0 <= k < |init| ==> init[k] == cmds[k];
      NoModeCommandKeepsStaged(init, mode, dirs, present, p0);
      DispatchLast(cmds, mode, dirs, present, p0);
    }
  }

  /** The mode staged by a cycle is the one the last `mode` command of the
      line asked for, judged against the mode in force for the cycle: a bare
      `mode` after `mode p` stages the mode in force again. */
  lemma {:induction false} LastModeCommandWins(cmds: seq<seq<string>>, k: nat, mode: Mode, dirs: seq<string>, present: string -> bool, p0: Progress)
    requires AllNonEmpty(cmds)
    requires k < |cmds| && IsModeCommand(cmds[k])
    requires forall m :: k < m < |cmds| ==> !IsModeCommand(cmds[m])
    ensures Dispatch(cmds, mode, dirs, present, p0).next == ModeSet(cmds[k], mode).next
  {
    var init := cmds[..|cmds| - 1];
    DispatchLast(cmds, mode, dirs, present, p0);
    if k < |cmds| - 1 {
      assert forall m :: 0 <= m < |init| ==> init[m] == cmds[m];
      LastModeCommandWins(init, k, mode, dirs, present, p0);
    }
  }

  /** How the last command of a line changes the staged mode. */
  /** Every prefix of a list of non-empty commands is one too. */
  lemma PrefixNonEmpty(cmds: seq<seq<string>>, k: nat)
    requires AllNonEmpty(cmds) && k <= |cmds|
    ensures AllNonEmpty(cmds[..k])
  {
    assert forall i :: 0 <= i < k ==> cmds[..k][i] == cmds[i];
  }

  /** Dispatching one more command of cmds is one more Step. */
  lemma DispatchNext(cmds: seq<seq<string>>, k: nat, mode: Mode, dirs: seq<string>, present: string -> bool, p0: Progress)
    requires AllNonEmpty(cmds) && k < |cmds|
    ensures AllNonEmpty(cmds[..k]) && AllNonEmpty(cmds[..k + 1])
    ensures Dispatch(cmds[..k + 1], mode, dirs, present, p0)
         == Step(Dispatch(cmds[..k], mode, dirs, present, p0), cmds[k], mode, dirs, present)
  {
    PrefixNonEmpty(cmds, k);
    PrefixNonEmpty(cmds, k + 1);
    assert cmds[..k + 1][..k] == cmds[..k];
  }

  lemma DispatchLast(cmds: seq<seq<string>>, mode: Mode, dirs: seq<string>, present: string -> bool, p0: Progress)
    requires AllNonEmpty(cmds) && cmds != []
    ensures var init, last := cmds[..|cmds| - 1], cmds[|cmds| - 1];
      Dispatch(cmds, mode, dirs, present, p0).next
      == if IsModeCommand(last) then ModeSet(last, mode).next else Dispatch(init, mode, dirs, present, p0).next
  {
  }

  /** The programs named by a list of commands, started under mode, in order. */
  function Programs(cmds: seq<seq<string>>, mode: Mode, dirs: seq<string>, present: string -> bool): (ls: seq<Launch>)
    requires AllNonEmpty(cmds)
    ensures |ls| <= |cmds|
  {
    if cmds == [] then []
    else
      var cmd := cmds[0];
      (if IsProgram(cmd) then [Start(cmd, mode, dirs, present)] else []) + Programs(cmds[1..], mode, dirs, present)
  }

  lemma {:induction false} ProgramsAppend(xs: seq<seq<string>>, ys: seq<seq<string>>, mode: Mode, dirs: seq<string>, present: string -> bool)
    requires AllNonEmpty(xs) && AllNonEmpty(ys)
    ensures AllNonEmpty(xs + ys)
    ensures Programs(xs + ys, mode, dirs, present) == Programs(xs, mode, dirs, present) + Programs(ys, mode, dirs, present)
  {
    if xs != [] {
      assert (xs + ys)[1..] == xs[1..] + ys;
      ProgramsAppend(xs[1..], ys, mode, dirs, present);
      AppendAssoc(if IsProgram(xs[0]) then [Start(xs[0], mode, dirs, present)] else [], Programs(xs[1..], mode, dirs, present), Programs(ys, mode, dirs, present));
    } else {
      assert xs + ys == ys;
    }
  }

  /** A cycle starts exactly the commands that are not built-ins, in the
      order of the line, whatever `exit` and `mode` commands come between. */
  lemma {:induction false} LaunchesAreThePrograms(cmds: seq<seq<string>>, mode: Mode, dirs: seq<string>, present: string -> bool, p0: Progress)
    requires AllNonEmpty(cmds)
    ensures Dispatch(cmds, mode, dirs, present, p0).launches == p0.launches + Programs(cmds, mode, dirs, present)
  {
    if cmds != [] {
      LaunchesAreThePrograms(cmds[..|cmds| - 1], mode, dirs, present, p0);
      LaunchesStep(cmds, mode, dirs, present, p0);
    }
  }

  lemma LaunchesStep(cmds: seq<seq<string>>, mode: Mode, dirs: seq<string>, present: string -> bool, p0: Progress)
    requires AllNonEmpty(cmds) && cmds != []
    requires var init := cmds[..|cmds| - 1];
      Dispatch(init, mode, dirs, present, p0).launches == p0.launches + Programs(init, mode, dirs, present)
    ensures Dispatch(cmds, mode, dirs, present, p0).launches == p0.launches + Programs(cmds, mode, dirs, present)
  {
    var init, last := cmds[..|cmds| - 1], cmds[|cmds| - 1];
    var started := if IsProgram(last) then [Start(last, mode, dirs, present)] else [];
    ProgramsSnoc(cmds, mode, dirs, present);
    var q := Dispatch(init, mode, dirs, present, p0);
    assert Dispatch(cmds, mode, dirs, present, p0) == Step(q, last, mode, dirs, present);
    StepLaunches(q, last, mode, dirs, present);
    AppendAssoc(p0.launches, Programs(init, mode, dirs, present), started);
  }

  /** A step starts a program exactly for a command that is not built in. */
  lemma StepLaunches(p: Progress, cmd: seq<string>, mode: Mode, dirs: seq<string>, present: string -> bool)
    requires cmd != []
    ensures Step(p, cmd, mode, dirs, present).launches
      == p.launches + if IsProgram(cmd) then [Start(cmd, mode, dirs, present)] else []
  {
    if !IsProgram(cmd) {
      assert p.launches + [] == p.launches;
    }
  }

  lemma ProgramsSnoc(cmds: seq<seq<string>>, mode: Mode, dirs: seq<string>, present: string -> bool)
    requires AllNonEmpty(cmds) && cmds != []
    ensures var init, last := cmds[..|cmds| - 1], cmds[|cmds| - 1];
      Programs(cmds, mode, dirs, present)
      == Programs(init, mode, dirs, present) + if IsProgram(last) then [Start(last, mode, dirs, present)] else []
  {
    var init, last := cmds[..|cmds| - 1], cmds[|cmds| - 1];
    assert cmds == init + [last];
    ProgramsAppend(init, [last], mode, dirs, present);
    assert [last][1..] == [];
  }

  /** An `exit` does not cut the line short: the commands after it still
      run, and the shell stops once the cycle is over. */
  lemma ExitRunsTheRest(pre: seq<seq<string>>, quit: seq<string>, post: seq<seq<string>>, mode: Mode, dirs: seq<string>, present: string -> bool, p0: Progress)
    requires AllNonEmpty(pre) && AllNonEmpty(post) && IsExit(quit)
    ensures AllNonEmpty(pre + [quit] + post) && AllNonEmpty(pre + post)
    ensures Dispatch(pre + [quit] + post, mode, dirs, present, p0).launches == Dispatch(pre + post, mode, dirs, present, p0).launches
    ensures Dispatch(pre + [quit] + post, mode, dirs, present, p0).exit
  {
    var line := pre + [quit] + post;
    assert Programs([quit], mode, dirs, present) == [] by {
      assert [quit][1..] == [];
    }
    ProgramsAppend(pre, [quit], mode, dirs, present);
    assert Programs(pre + [quit], mode, dirs, present) == Programs(pre, mode, dirs, present);
    ProgramsAppend(pre + [quit], post, mode, dirs, present);
    ProgramsAppend(pre, post, mode, dirs, present);
    LaunchesAreThePrograms(line, mode, dirs, present, p0);
    LaunchesAreThePrograms(pre + post, mode, dirs, present, p0);
    ExitRequested(line, mode, dirs, present, p0);
    assert line[|pre|] == quit;
  }

  // ----- what a run promises -----

  /** When no line holds a `mode` command, every program runs sequentially,
      as the shell starts. */
  lemma {:induction false} SequentialWithoutModeCommands(lines: seq<string>, dirs: seq<string>, present: string -> bool)
    requires forall k, cmd :: 0 <= k < |lines| && cmd in LineCommands(Some(lines[k])) ==> !IsModeCommand(cmd)
    ensures forall l :: l in Session(lines, Sequential, dirs, present).launches ==> l.mode == Sequential
    decreases |lines|
  {
    var input := if lines == [] then None else Some(lines[0]);
    var cmds := LineCommands(input);
    var p0 := Progress(input.None?, Sequential, [], []);
    var r := CycleResult(input, Sequential, dirs, present);
    LaunchesUseCycleMode(cmds, Sequential, dirs, present, p0);
    NoModeCommandKeepsStaged(cmds, Sequential, dirs, present, p0);
    if !r.exit {
      assert forall k, cmd :: 0 <= k < |lines[1..]| && cmd in LineCommands(Some(lines[1..][k])) ==> !IsModeCommand(cmd) by {
        forall k, cmd | 0 <= k < |lines[1..]| && cmd in LineCommands(Some(lines[1..][k]))
          ensures !IsModeCommand(cmd)
        {
          assert lines[1..][k] == lines[k + 1];
        }
      }
      SequentialWithoutModeCommands(lines[1..], dirs, present);
    }
  }

  /** Without an `exit` on any line, the shell reads every line and stops
      at the end of input. */
  lemma {:induction false} RunsToEndOfInput(lines: seq<string>, mode: Mode, dirs: seq<string>, present: string -> bool)
    requires forall k, cmd :: 0 <= k < |lines| && cmd in LineCommands(Some(lines[k])) ==> !IsExit(cmd)
    ensures Session(lines, mode, dirs, present).cycles == |lines| + 1
    decreases |lines|
  {
    if lines != [] {
      var cmds := LineCommands(Some(lines[0]));
      ExitRequested(cmds, mode, dirs, present, Progress(false, mode, [], []));
      assert forall k, cmd :: 0 <= k < |lines[1..]| && cmd in LineCommands(Some(lines[1..][k])) ==> !IsExit(cmd) by {
        forall k, cmd | 0 <= k < |lines[1..]| && cmd in LineCommands(Some(lines[1..][k]))
          ensures !IsExit(cmd)
        {
          assert lines[1..][k] == lines[k + 1];
        }
      }
      RunsToEndOfInput(lines[1..], CycleResult(Some(lines[0]), mode, dirs, present).next, dirs, present);
    }
  }
}
