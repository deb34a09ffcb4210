/** xargs from its input to its execs: `read_line` in front of the collecting of arguments. */
module XargsRun {
  import opened Wrappers
  import opened Bytes
  import opened BuildArgs
  import opened BuildLimit
  import opened BuildCmd
  import opened XargsBatches
  import opened XargsRead
  import opened XargsQuoting

  /** How the program ends: well, with the message of `read_line` about its input, or because
      arguments could not be passed on. */
  datatype Ending = Finished | Complained | Failed

  /** What `read_line` lets a word have: what is left behind the command and the word's NUL. */
  function Room(ctl: Control, command: seq<Text>): nat {
    if ctl.argMax > |Flat(command)| then ctl.argMax - |Flat(command)| - 1 else 0
  }

  /** A word is let in if and only if a command line with it alone keeps the size limit. */
  lemma RoomIsExact(ctl: Control, command: seq<Text>, word: Text)
    requires |Flat(command)| < ctl.argMax
    ensures |word| <= Room(ctl, command) <==> |Flat(command + [word])| <= ctl.argMax
  {
    FlatSnoc(command, word);
  }

  // ---------------------------------------------------------------- the words read

  predicate Small(words: seq<Text>, limit: nat) {
    forall w | w in words :: NulFree(w) && |w| <= limit
  }

  lemma {:induction false} CStringIsShort(buf: seq<Byte>)
    ensures NulFree(CString(buf)) && |CString(buf)| <= |buf|
  {
    if buf != [] && buf[0] != 0 {
      CStringIsShort(buf[1..]);
      assert CString(buf) == [buf[0]] + CString(buf[1..]);
    }
  }

  lemma {:induction false} SmallWords(st: St, input: seq<Byte>, cfg: Config)
    requires |st.buf| <= cfg.limit
    ensures Small(Go(st, input, cfg).pushed, cfg.limit)
    decreases |input|, 1
  {
    CStringIsShort(st.buf);
    if input != [] {
      var c, rest := input[0], input[1..];
      match st.mode
      case SPACE =>
        if IsSpace(c) {
          SmallWords(st, rest, cfg);
        } else {
          SmallNormWords(st, input, cfg);
        }
      case NORM => SmallNormWords(st, input, cfg);
      case QUOTE(q) =>
        if c == q {
          SmallWords(st.(mode := NORM, seenArg := true), rest, cfg);
        } else if |st.buf| < cfg.limit {
          SmallWords(st.(buf := st.buf + [c]), rest, cfg);
        }
      case BACKSLASHED =>
        if |st.buf| < cfg.limit {
          SmallWords(st.(mode := NORM, buf := st.buf + [c]), rest, cfg);
        }
    }
  }

  lemma {:induction false} SmallNormWords(st: St, input: seq<Byte>, cfg: Config)
    requires |st.buf| <= cfg.limit && input != []
    ensures Small(GoNorm(st, input, cfg).pushed, cfg.limit)
    decreases |input|, 0
  {
    var c, rest := input[0], input[1..];
    CStringIsShort(st.buf);
    SmallWords(st.(mode := SPACE), rest, cfg);
    SmallWords(St(SPACE, [], false, true), rest, cfg);
    SmallWords(st.(mode := BACKSLASHED, seenArg := true), rest, cfg);
    SmallWords(st.(mode := QUOTE(c), seenArg := true), rest, cfg);
    if |st.buf| < cfg.limit {
      SmallWords(st.(mode := NORM, buf := st.buf + [c], seenArg := true), rest, cfg);
    }
  }

  /** No word that is pushed is too long for a command line of its own. */
  lemma {:induction false} AllSmall(input: seq<Byte>, cfg: Config)
    ensures Small(ReadAll(input, cfg).0, cfg.limit)
    decreases |input|
  {
    var o := Go(START, input, cfg);
    GoShrinks(START, input, cfg);
    SmallWords(START, input, cfg);
    if o.ret.Length? && !o.eof {
      AllSmall(o.rest, cfg);
    }
  }

  // ---------------------------------------------------------------- the program

  /** `exec_if_possible`, in front of a message. */
  method ExecIfPossible(b: Builder) returns (ok: bool)
    requires b.Valid() && b.Bounded() && !b.initialArgs
    modifies b, b.argbuf
    ensures ok ==> b.Valid() && b.Bounded() && b.Initial() == old(b.Initial())
    ensures ok ==> Forwards(old(b.log), b.log, b.Initial(), b.Pending(), old(b.Pending()), b.ctl)
    ensures ok && !b.ctl.replacing && !b.ctl.exitIfSizeExceeded ==> b.Pending() == []
    ensures !ok ==> Refused(b.execCallback, old(b.Initial()), old(b.Pending()))
    ensures ok && Accepts(b.execCallback) ==>
      b.log == old(b.log) || b.log == old(b.log) + [Exec(old(b.Initial()), old(b.Pending()))]
  {
    hide Builder.Valid, Forwards, Refused, Accepts;
    b.PendingIs();
    NothingForwarded(b.log, b.Initial(), b.Pending(), b.ctl);
    if b.ctl.replacing || |b.cmdArgv| == b.initialArgc || b.ctl.exitIfSizeExceeded {
      return true;
    }
    ok := b.Flush();
  }

  /** The main path of xargs, without -I: the command and its own arguments, then the words read, with
      a flush behind each at which -L asks for one, and one at the end. However the kernel answers,
      when xargs finishes, its execs have carried exactly the words in the input, in order, each
      behind the whole command and within every limit. Before a complaint about the input they have
      carried all words in front of it, or, where command lines must not be split, the first of them.
      With a kernel that takes every command line, each exec but the last carries as many words as its
      line has or the limits allow. And it gets that far unless the command alone is too long, or
      there is a reason to give up; no argument ever runs out of the buffer. */
  method Xargs(ctl: Control, execCallback: (nat, seq<Text>) -> bool, command: seq<Text>, input: seq<Byte>,
               eofStr: Option<Text>, lineEnds: set<nat>, alwaysRun: bool)
    returns (ending: Ending, log: seq<Exec>)
    requires AllNulFree(command) && |command| + 1 < ctl.maxArgCount < SIZE_MAX
    ensures var (words, finish) := ReadAll(input, Config(eofStr, Room(ctl, command)));
      && (ending == Finished ==> finish == Done && Conveyed(log) == words)
      && (ending == Finished && alwaysRun ==> log != [])
      && (ending == Finished && words == [] && !alwaysRun ==> log == [])
      && (ending == Complained ==> finish != Done && Conveyed(log) <= words)
      && (ending == Complained && !ctl.replacing && !ctl.exitIfSizeExceeded ==> Conveyed(log) == words)
      && (ending == Failed ==> |Flat(command)| > ctl.argMax || GaveUp(ctl, execCallback, command, words))
    ensures ending != Failed ==> forall e | e in log :: e.initial == command && Fits(e, ctl)
    ensures ending != Failed && Accepts(execCallback) ==>
      Packed(ctl, command, ReadAll(input, Config(eofStr, Room(ctl, command))).0, lineEnds, log)
  {
    hide Builder.Valid, Fits, Conveyed, Forwards, Flat, GaveUp, Refused, ReadAll, Accepts, Packed, Batches;
    log := [];
    var b := new Builder(ctl, execCallback);
    var ok := PushCommand(b, command);
    if !ok {
      return Failed, [];
    }
    b.AtLeastInitial();
    var cfg := Config(eofStr, if ctl.argMax > b.cmdInitialArgvChars then ctl.argMax - b.cmdInitialArgvChars - 1 else 0);
    assert cfg.limit == Room(ctl, command);
    AllSmall(input, cfg);
    var words, finish := ReadLines(cfg, input);
    var r := TakeWords(b, words, lineEnds);
    if r != Taken {
      return Failed, b.log;
    }
    ghost var before, left := b.log, b.Pending();
    LeftIsEnd([], before, command, left, words, ctl);
    NothingForwarded(before, command, left, ctl);
    b.PendingIs();
    if finish != Done {
      ok := ExecIfPossible(b);
      ending := Complained;
    } else {
      if |b.cmdArgv| != b.initialArgc || (alwaysRun && b.log == []) {
        ok := b.Flush();
      }
      ending := Finished;
    }
    if !ok {
      RefusedGivesUp(ctl, execCallback, command, left, words);
      return Failed, b.log;
    }
    ForwardsOn([], before, b.log, command, left, b.Pending(), words, ctl);
    AllForwarded(b.log, command, b.Pending(), words, ctl);
    if Accepts(execCallback) {
      RunPacked(ctl, command, words, lineEnds, before, left, b.log);
    }
    log := b.log;
  }

  /** From one command line to others: arguments written with backslashes come out in the execs as
      they went in, unless there is a reason to give up. */
  method XargsOfProtected(ctl: Control, execCallback: (nat, seq<Text>) -> bool, command: seq<Text>, args: seq<Text>,
                          gaps: seq<Byte>, eofStr: Option<Text>, lineEnds: set<nat>, alwaysRun: bool)
    returns (ending: Ending, log: seq<Exec>)
    requires AllNulFree(command) && |command| + 1 < ctl.maxArgCount < SIZE_MAX
    requires Plainly(args, gaps, Config(eofStr, Room(ctl, command)))
    ensures ending != Complained
    ensures ending == Finished ==> Conveyed(log) == args && forall e | e in log :: e.initial == command && Fits(e, ctl)
    ensures ending == Failed ==> |Flat(command)| > ctl.argMax || GaveUp(ctl, execCallback, command, args)
    ensures ending == Finished && Accepts(execCallback) ==> Packed(ctl, command, args, lineEnds, log)
  {
    hide Conveyed, Fits, Flat, GaveUp, Written, ReadAll, Accepts, Packed;
    RoundTrip(args, gaps, Config(eofStr, Room(ctl, command)));
    ending, log := Xargs(ctl, execCallback, command, Written(ProtectAll(args, gaps)), eofStr, lineEnds, alwaysRun);
  }
}
