/** Building command lines and running them in batches (buildcmd.c), and the way xargs uses it. */
module BuildCmd {
  import opened Bytes
  import opened BuildArgs
  import opened BuildLimit

  /** One successful exec: the initial arguments and the ones added behind them. */
  datatype Exec = Exec(initial: seq<Text>, args: seq<Text>)

  /** The added arguments of all successful execs, in order. */
  function Conveyed(log: seq<Exec>): seq<Text> {
    if log == [] then [] else Conveyed(log[..|log| - 1]) + log[|log| - 1].args
  }

  lemma ConveyedSnoc(log: seq<Exec>, e: Exec)
    ensures Conveyed(log + [e]) == Conveyed(log) + e.args
  {
    assert (log + [e])[..|log|] == log;
  }

  /** `struct buildcmd_control`, but for the number of initial arguments. */
  datatype Control = Control(argMax: nat, maxArgCount: nat, replacing: bool, exitIfSizeExceeded: bool,
                             linesPerExec: nat, argsPerExec: nat)

  /** How `bc_push_arg` ends: with the argument taken in, with a message, or over the limit, where
      `leavesBuffer` tells whether bytes are written behind the end of `argbuf`. */
  datatype Pushed = Taken | GivenUp | Overrun(leavesBuffer: bool)

  function Larger(a: nat, b: nat): nat {
    if a > b then a else b
  }

  class Builder {
    const ctl: Control
    /** Whether the n-th exec is accepted; false stands for E2BIG. */
    const execCallback: (nat, seq<Text>) -> bool

    var initialArgs: bool             // the initial arguments are still being added
    var initialArgc: nat
    var cmdArgv: seq<Ptr>             // as long as cmd_argc says
    const argbuf: array<Byte>
    var cmdArgvChars: nat
    var cmdInitialArgvChars: nat
    var known: Known
    var calls: nat
    var log: seq<Exec>                // what the callback took
    ghost var args: seq<Text>         // what the pointers point at

    ghost predicate Valid()
      reads this`args, this`cmdArgv, this`cmdArgvChars, this`initialArgc, this`initialArgs, this`cmdInitialArgvChars,
        argbuf
    {
      && argbuf.Length == ctl.argMax + 1 && |args| <= ctl.maxArgCount < SIZE_MAX
      && cmdArgv == Pointers(args) && AllNulFree(args)
      && cmdArgvChars == |Flat(args)| <= ctl.argMax && argbuf[..cmdArgvChars] == Flat(args)
      && initialArgc <= |args| && (if initialArgs then initialArgc == 0 else initialArgc < ctl.maxArgCount)
      && cmdInitialArgvChars == |Flat(if initialArgs then args else args[..initialArgc])|
    }

    ghost function Initial(): seq<Text>
      reads this`args, this`initialArgc
      requires initialArgc <= |args|
    {
      args[..initialArgc]
    }

    /** The arguments taken in and not yet handed to an exec. */
    ghost function Pending(): seq<Text>
      reads this`args, this`initialArgc
      requires initialArgc <= |args|
    {
      args[initialArgc..]
    }

    /** `bc_init_state`. */
    constructor (ctl: Control, execCallback: (nat, seq<Text>) -> bool)
      requires 0 < ctl.maxArgCount < SIZE_MAX
      ensures Valid() && initialArgs && args == [] && log == []
      ensures this.ctl == ctl && this.execCallback == execCallback && fresh(argbuf)
    {
      this.ctl, this.execCallback := ctl, execCallback;
      initialArgs, initialArgc := true, 0;
      cmdArgv, cmdArgvChars, cmdInitialArgvChars := [], 0, 0;
      argbuf := new Byte[ctl.argMax + 1](_ => 0);
      known, calls := Known(0, 0), 0;
      args, log := [], [];
    }

    /** The bisection, or the plain step when there is nothing to bisect. */
    method GuessLimit(success: bool, limit: Size) returns (guess: Size)
      modifies this`known
      ensures known == Learn(old(known), success, limit)
      ensures guess == Guess(known, success, limit)
    {
      NeverWraps(known, success, limit);
      if success {
        if limit > known.largest {
          known := known.(largest := limit);
        }
      } else {
        if limit < known.smallest || known.smallest == 0 {
          known := known.(smallest := limit);
        }
      }
      guess := limit;
      if known.largest == 0 || known.smallest <= known.largest {
        if success {
          if guess < SIZE_MAX {
            guess := guess + 1;
          }
        } else {
          guess := guess / 2;
        }
      } else {
        var shift := (known.smallest - known.largest) / 2;
        if success {
          guess := if shift != 0 then guess + shift else guess + 1;
        } else {
          guess := if shift != 0 then guess - shift else guess - 1;
        }
      }
    }

    /** `update_limit`: the limit for the next try. */
    method UpdateLimit(success: bool, limit: Size) returns (next: Size)
      requires initialArgc < SIZE_MAX
      modifies this`known
      ensures next == NextLimit(initialArgc, old(known), success, limit)
      ensures known == Learn(old(known), success, limit)
      ensures initialArgc + 1 <= next
      ensures !success && limit > initialArgc + 1 ==> next < limit
      ensures success && limit > initialArgc ==> next <= limit + 1 || next <= old(known).smallest
    {
      LeavesRoom(initialArgc, known, success, limit);
      if success && limit > initialArgc {
        SuccessBound(initialArgc, known, limit);
      }
      if !success && limit > initialArgc + 1 {
        FailureLowers(initialArgc, known, limit);
      }
      next := GuessLimit(success, limit);
      hide Guess, Learn;
      if initialArgc != 0 && next <= initialArgc + 1 {
        next := initialArgc + 1;
      }
      if next == 0 {
        next := 1;
      }
    }

    /** `copy_args`: the initial arguments, then up to the limit of the others behind those
        already done. */
    method CopyArgs(working: array<Ptr>, limit: nat, done: nat) returns (dstPos: nat)
      requires initialArgc + done <= |cmdArgv| && working.Length == 1 + |cmdArgv| && limit >= initialArgc
      modifies working
      ensures var count := if |cmdArgv| - initialArgc - done < limit - initialArgc
                           then |cmdArgv| - initialArgc - done else limit - initialArgc;
        && dstPos == initialArgc + count
        && working[..dstPos] == cmdArgv[..initialArgc] + cmdArgv[initialArgc + done..initialArgc + done + count]
        && working[dstPos] == Null
    {
      dstPos := 0;
      var srcPos := 0;
      ghost var argv, init := cmdArgv, initialArgc;
      while srcPos < initialArgc
        invariant srcPos == dstPos <= init && working[..dstPos] == argv[..srcPos]
      {
        CopyOne(working, dstPos, srcPos);
        SliceGrows([], argv, 0, srcPos);
        dstPos, srcPos := dstPos + 1, srcPos + 1;
      }
      srcPos := srcPos + done;
      ghost var start := srcPos;
      NoSlice(argv[..init], argv, start);
      while srcPos < |cmdArgv| && dstPos < limit
        invariant start <= srcPos <= |argv| && init <= dstPos <= limit && srcPos == dstPos + done
        invariant working[..dstPos] == argv[..init] + argv[start..srcPos]
      {
        CopyOne(working, dstPos, srcPos);
        SliceGrows(argv[..init], argv, start, srcPos);
        dstPos, srcPos := dstPos + 1, srcPos + 1;
      }
      Terminate(working, dstPos);
    }

    method CopyOne(working: array<Ptr>, dstPos: nat, srcPos: nat)
      requires dstPos < working.Length && srcPos < |cmdArgv|
      modifies working
      ensures working[..dstPos + 1] == old(working[..dstPos]) + [cmdArgv[srcPos]]
    {
      working[dstPos] := cmdArgv[srcPos];
    }

    method Terminate(working: array<Ptr>, dstPos: nat)
      requires dstPos < working.Length
      modifies working
      ensures working[..dstPos] == old(working[..dstPos]) && working[dstPos] == Null
    {
      working[dstPos] := Null;
    }

    lemma SliceGrows(front: seq<Ptr>, argv: seq<Ptr>, i: nat, j: nat)
      requires i <= j < |argv|
      ensures front + argv[i..j] + [argv[j]] == front + argv[i..j + 1]
    {
      assert argv[i..j + 1] == argv[i..j] + [argv[j]];
    }

    lemma NoSlice(front: seq<Ptr>, argv: seq<Ptr>, i: nat)
      requires i <= |argv|
      ensures front == front + argv[i..i]
    {
    }

    /** The state while an exec is under way: the list ends in a null pointer. */
    ghost predicate Terminated()
      reads this`args, this`cmdArgv, this`cmdArgvChars, this`initialArgc, this`initialArgs, this`cmdInitialArgvChars,
        argbuf
    {
      && argbuf.Length == ctl.argMax + 1 && |args| <= ctl.maxArgCount < SIZE_MAX
      && cmdArgv == Pointers(args) + [Null] && AllNulFree(args)
      && cmdArgvChars == |Flat(args)| <= ctl.argMax && argbuf[..cmdArgvChars] == Flat(args)
      && initialArgc <= |args| && !initialArgs && initialArgc < ctl.maxArgCount
      && cmdInitialArgvChars == |Flat(args[..initialArgc])|
    }

    /** How many arguments are left behind the first `done`. */
    ghost function Upto(count: nat): nat
      reads this`args
    {
      if count <= |args| then count else |args|
    }

    /** One call of the callback, with as many arguments as the limit allows. */
    method TryExec(working: array<Ptr>, limit: nat, done: nat) returns (accepted: bool, dstPos: nat)
      requires Terminated() && initialArgc + done <= |args| && initialArgc < limit
      requires working.Length == 1 + |cmdArgv|
      modifies working, this`calls, this`log
      ensures Terminated()
      ensures initialArgc < dstPos <= limit && dstPos + done <= |args| + 1
      ensures dstPos < limit ==> dstPos + done == |args| + 1
      ensures log == if accepted then old(log) + [Exec(Initial(), args[initialArgc + done..Upto(dstPos + done)])]
        else old(log)
      ensures accepted <==> execCallback(old(calls), Initial() + args[initialArgc + done..Upto(dstPos + done)])
      ensures calls == old(calls) + 1
    {
      hide Flat, Pointers, Strings, AllNulFree;
      dstPos := CopyArgs(working, limit, done);
      ghost var a := initialArgc + done;
      ArgvReads(args, initialArgc, a, dstPos - initialArgc, argbuf[..]);
      WithNull(working[..dstPos], Pointers(args), initialArgc, a, dstPos - initialArgc);
      assert working[..dstPos + 1] == working[..dstPos] + [Null];
      assert argbuf[..][..cmdArgvChars] == argbuf[..cmdArgvChars];
      var argv := Strings(working[..dstPos + 1], argbuf[..]);
      accepted := execCallback(calls, argv);
      calls := calls + 1;
      if accepted {
        log := log + [Exec(argv[..initialArgc], argv[initialArgc..])];
      }
    }

    lemma WithNull(copied: seq<Ptr>, ps: seq<Ptr>, init: nat, a: nat, count: nat)
      requires init <= a && a + count <= |ps| + 1 && init <= |ps|
      requires copied == (ps + [Null])[..init] + (ps + [Null])[a..a + count]
      ensures copied == ps[..init] + (ps + [Null])[a..a + count]
    {
    }

    /** `bc_args_complete`. */
    method ArgsComplete()
      requires Valid() && !initialArgs
      modifies this`cmdArgv
      ensures Terminated() && |cmdArgv| == |args| + 1 <= SIZE_MAX && initialArgc <= |args|
    {
      cmdArgv := cmdArgv + [Null];
    }

    /** `bc_clear_args`. */
    method ClearArgs()
      requires Terminated()
      modifies this`cmdArgv, this`cmdArgvChars, this`args
      ensures Valid() && args == old(args)[..initialArgc]
      ensures Initial() == old(args)[..initialArgc] && Pending() == []
    {
      Cleared();
      cmdArgv := cmdArgv[..initialArgc];
      cmdArgvChars := cmdInitialArgvChars;
      args := args[..initialArgc];
    }

    /** Cutting the list back to the initial arguments leaves a list. */
    lemma Cleared()
      requires Terminated()
      ensures cmdArgv[..initialArgc] == Pointers(args[..initialArgc])
      ensures cmdInitialArgvChars <= cmdArgvChars && argbuf[..cmdInitialArgvChars] == Flat(args[..initialArgc])
      ensures AllNulFree(args[..initialArgc])
      ensures args[..initialArgc][..initialArgc] == args[..initialArgc] && args[..initialArgc][initialArgc..] == []
    {
      FlatPrefix(args, initialArgc);
      assert cmdArgv[..initialArgc] == Pointers(args)[..initialArgc];
      assert cmdInitialArgvChars <= cmdArgvChars;
      assert argbuf[..cmdInitialArgvChars] == argbuf[..cmdArgvChars][..cmdInitialArgvChars];
      assert forall a | a in args[..initialArgc] :: a in args;
    }

    /** One round of the loop in `bc_do_exec`: fewer arguments left, or a lower limit. */
    method Round(working: array<Ptr>, limit: Size, done: nat) returns (fatal: bool, nextLimit: Size, nextDone: nat)
      requires Terminated() && initialArgc + done <= |args| && initialArgc < limit
      requires working.Length == 1 + |cmdArgv|
      modifies working, this`known, this`calls, this`log
      ensures calls == old(calls) + 1
      ensures known.smallest <= limit || known.smallest <= old(known).smallest
      ensures fatal ==> log == old(log)
      ensures fatal ==> !execCallback(calls - 1, Initial() + AtMostOne(Pending(), done))
      ensures !fatal ==> initialArgc < nextLimit
      ensures !fatal && nextDone == done ==> log == old(log) && nextLimit < limit
      ensures !fatal && nextDone != done ==> done < nextDone <= |args| + 1 - initialArgc
      ensures !fatal && nextDone != done ==> nextLimit <= limit + 1 || nextLimit <= old(known).smallest
      ensures !fatal && nextDone != done ==>
        log == old(log) + [Exec(Initial(), args[initialArgc + done..Upto(initialArgc + nextDone)])]
      ensures limit + done > |args| ==>
        if execCallback(old(calls), Initial() + args[initialArgc + done..|args|]) then
          !fatal && nextDone == |args| + 1 - initialArgc
        else fatal || nextDone == done
    {
      hide Terminated, NextLimit;
      fatal, nextLimit, nextDone := false, limit, done;
      var accepted, dstPos := TryExec(working, limit, done);
      if accepted {
        nextLimit := UpdateLimit(true, limit);
        nextDone := done + (dstPos - initialArgc);
      } else if limit <= initialArgc + 1 {
        assert args[initialArgc + done..Upto(dstPos + done)] == AtMostOne(Pending(), done);
        fatal := true;
      } else {
        nextLimit := UpdateLimit(false, limit);
      }
    }

    /** The calls made since there were `before`, with those still to come, are within the bound;
        `start` is what the first limit and all known failures were below. */
    ghost predicate Budget(limit: nat, done: nat, start: nat, before: nat)
      reads this`args, this`initialArgc, this`known, this`calls
    {
      && initialArgc <= |args| && initialArgc + done <= |args| + 1
      && limit <= start + done && known.smallest <= start + done
      && before <= calls
      && var rounds := |args| - initialArgc + 1;
         calls - before + Ahead(rounds - done, start + rounds, limit) <= MostTries(rounds - 1, start)
    }

    /** A round within the whole: what is sent grows or the limit falls, and the bound is kept. */
    method Attempt(working: array<Ptr>, limit: Size, done: nat, ghost was: seq<Exec>, ghost start: nat,
                   ghost before: nat)
      returns (fatal: bool, nextLimit: Size, nextDone: nat)
      requires Terminated() && initialArgc + done <= |args| && initialArgc < limit && |args| + 1 <= start
      requires working.Length == 1 + |cmdArgv|
      requires Sent(was, log, args, initialArgc, done) && Budget(limit, done, start, before)
      modifies working, this`known, this`calls, this`log
      ensures Terminated()
      ensures fatal ==> Sent(was, log, args, initialArgc, done) && Refused(execCallback, Initial(), Pending())
      ensures fatal ==> before <= calls && calls - before <= MostTries(|args| - initialArgc, start)
      ensures !fatal ==> initialArgc < nextLimit && done <= nextDone <= |args| + 1 - initialArgc
      ensures !fatal ==> nextDone > done || nextLimit < limit
      ensures !fatal ==> Budget(nextLimit, nextDone, start, before)
      ensures !fatal ==> Sent(was, log, args, initialArgc, Upto(initialArgc + nextDone) - initialArgc)
      ensures !fatal ==> |log| >= |old(log)| && (nextDone > done ==> |log| > |old(log)|)
      ensures calls == old(calls) + 1
      ensures limit + done > |args| ==>
        if execCallback(old(calls), Initial() + args[initialArgc + done..|args|]) then
          !fatal && nextDone == |args| + 1 - initialArgc
        else fatal || nextDone == done
      ensures !fatal && nextDone == |args| + 1 - initialArgc ==>
        log == old(log) + [Exec(Initial(), args[initialArgc + done..|args|])]
    {
      hide Sent, Ahead, MostTries, Flat, Pointers, AllNulFree;
      ghost var log0, rounds := log, |args| - initialArgc + 1;
      ghost var most := start + rounds;
      fatal, nextLimit, nextDone := Round(working, limit, done);
      if fatal {
        MoreThanLimit(rounds - done, most, limit);
        RefusedOne(execCallback, calls - 1, Initial(), Pending(), done);
      } else if nextDone != done {
        SentMore(was, log0, args, initialArgc, done, Upto(initialArgc + nextDone) - initialArgc);
        ProgressPays(rounds - done, rounds - nextDone, most, limit, nextLimit);
      } else {
        FailurePays(rounds - done, most, limit, nextLimit);
      }
    }

    /** `bc_do_exec`: false when the program gives up because not even one argument fits. */
    method DoExec() returns (ok: bool)
      requires Valid() && !initialArgs
      modifies this`cmdArgv, this`cmdArgvChars, this`args, this`known, this`calls, this`log
      ensures Sent(old(log), log, old(args), initialArgc,
        if ok then |old(Pending())| else |Conveyed(log)| - |Conveyed(old(log))|)
      ensures ok ==> Valid() && Initial() == old(Initial()) && Pending() == [] && |log| > |old(log)|
      ensures !ok ==> Refused(execCallback, old(Initial()), old(Pending()))
      ensures old(calls) <= calls
      ensures calls - old(calls) <= MostTries(|old(Pending())|, Larger(|old(args)| + 1, old(known).smallest))
      ensures execCallback(old(calls), old(Initial()) + old(Pending())) <==> ok && calls == old(calls) + 1
      ensures ok && calls == old(calls) + 1 ==> log == old(log) + [Exec(old(Initial()), old(Pending()))]
    {
      hide Valid, Terminated, Sent, Ahead, Refused, MostTries;
      ghost var all, init := args, initialArgc;
      ArgsComplete();
      var working := new Ptr[1 + |cmdArgv|](_ => Null);
      var done: nat, limit: Size := 0, |cmdArgv|;
      ghost var start := Larger(|all| + 1, known.smallest);
      NothingSent(log, all, init);
      assert all[init..|all|] == all[init..];
      MostAtFirst(|all| - init + 1, start, limit);
      while true
        invariant Terminated() && args == all && |cmdArgv| == |all| + 1
        invariant init + done <= |all|
        invariant init < limit && (|all| == init ==> limit == init + 1)
        invariant |log| >= |old(log)| && (done > 0 ==> |log| > |old(log)|)
        invariant Sent(old(log), log, all, init, done)
        invariant Budget(limit, done, start, old(calls))
        invariant if calls == old(calls) then log == old(log) && done == 0 && limit == |all| + 1
          else !execCallback(old(calls), all[..init] + all[init..|all|])
        decreases |all| - done, limit
      {
        var fatal, nextLimit, nextDone := Attempt(working, limit, done, old(log), start, old(calls));
        if fatal {
          SentSoFar(old(log), log, all, init, done);
          return false;
        }
        limit, done := nextLimit, nextDone;
        if done + 1 >= |cmdArgv| - initialArgc {
          break;
        }
      }
      assert all[init..|all|] == all[init..];
      ClearArgs();
      return true;
    }

    /** `bc_argc_limit_reached`. */
    predicate LimitReached()
      reads this`initialArgs, this`cmdArgv, this`initialArgc
    {
      || (!initialArgs && ctl.argsPerExec != 0 && |cmdArgv| - initialArgc == ctl.argsPerExec)
      || |cmdArgv| == ctl.maxArgCount
    }

    /** Between pushes there is room for one more argument, unless it is too long. */
    ghost predicate HasRoom()
      reads this`initialArgs, this`args, this`initialArgc
    {
      && |args| < ctl.maxArgCount && initialArgc <= |args|
      && (!initialArgs && ctl.argsPerExec != 0 ==> |Pending()| < ctl.argsPerExec)
    }

    /** `strcpy` into the buffer. */
    method Strcpy(at: nat, arg: Text)
      requires at + |arg| < argbuf.Length
      modifies argbuf
      ensures argbuf[..at + |arg| + 1] == old(argbuf[..at]) + arg + [0]
    {
      var i := 0;
      while i < |arg|
        invariant i <= |arg|
        invariant forall k | 0 <= k < at :: argbuf[k] == old(argbuf[k])
        invariant forall k | 0 <= k < i :: argbuf[at + k] == arg[k]
      {
        argbuf[at + i] := arg[i];
        i := i + 1;
      }
      argbuf[at + |arg|] := 0;
    }

    /** Copy the string behind the others in `argbuf` and point to it. */
    method Append(arg: Text)
      requires Valid() && NulFree(arg) && |args| < ctl.maxArgCount
      requires cmdArgvChars + |arg| + 1 <= ctl.argMax
      modifies this`cmdArgv, this`cmdArgvChars, this`cmdInitialArgvChars, this`args, argbuf
      ensures Valid() && args == old(args) + [arg] && |cmdArgv| == |args|
    {
      hide Flat, Pointers, AllNulFree;
      AppendFacts(args, arg, initialArgc);
      cmdArgv := cmdArgv + [At(cmdArgvChars)];
      Strcpy(cmdArgvChars, arg);
      cmdArgvChars := cmdArgvChars + |arg| + 1;
      args := args + [arg];
      if initialArgs {
        cmdInitialArgvChars := cmdArgvChars;
      }
    }

    /** No more is waiting than one exec takes. */
    ghost predicate Bounded()
      reads this`initialArgs, this`args, this`initialArgc
    {
      initialArgc <= |args| && (!initialArgs && ctl.argsPerExec != 0 ==> |Pending()| <= ctl.argsPerExec)
    }

    /** `bc_do_exec`, seen from the run as a whole. */
    method Flush() returns (ok: bool)
      requires Valid() && Bounded() && !initialArgs
      modifies this`cmdArgv, this`cmdArgvChars, this`args, this`known, this`calls, this`log
      ensures ok ==> Valid() && HasRoom() && Initial() == old(Initial()) && Pending() == []
      ensures ok ==> Forwards(old(log), log, Initial(), [], old(Pending()), ctl) && |log| > |old(log)|
      ensures !ok ==> Refused(execCallback, old(Initial()), old(Pending()))
      ensures Accepts(execCallback) ==> ok && log == old(log) + [Exec(old(Initial()), old(Pending()))]
    {
      hide Refused;
      ghost var all, before := args, log;
      ok := DoExec();
      if ok {
        SentForwards(before, log, all, initialArgc, ctl);
      }
    }

    /** The checks at the start of `bc_push_arg`: flush when the argument is too long for what is
        left, or when the count is used up. After a flush its length is not checked again. */
    method MakeRoom(len: nat) returns (r: Pushed)
      requires Valid() && Bounded()
      requires initialArgs ==> |args| + 1 < ctl.maxArgCount
      modifies this`cmdArgv, this`cmdArgvChars, this`args, this`known, this`calls, this`log
      ensures r != GivenUp ==> Valid() && HasRoom() && Initial() == old(Initial())
      ensures r != GivenUp ==> Forwards(old(log), log, Initial(), Pending(), old(Pending()), ctl)
      ensures r == Taken ==> cmdArgvChars + len <= ctl.argMax
      ensures r.Overrun? ==>
        OverLimit(ctl, old(cmdInitialArgvChars), old(Pending()), len) && !initialArgs && Pending() == []
      ensures r.Overrun? ==> r.leavesBuffer == (old(cmdInitialArgvChars) + len > argbuf.Length)
      ensures !initialArgs && !Refused(execCallback, old(Initial()), old(Pending())) ==>
        && (r.Overrun? <==> OverLimit(ctl, old(cmdInitialArgvChars), old(Pending()), len))
        && (r == GivenUp <==> old(cmdArgvChars) + len > ctl.argMax && (old(Pending()) == [] || Strict(ctl)))
      ensures r != GivenUp && initialArgs ==> log == old(log) && args == old(args)
      ensures old(RoomFor(len)) ==> r == Taken && log == old(log) && args == old(args) && RoomFor(len)
      ensures r == GivenUp && initialArgs ==> |Flat(old(args))| + len > ctl.argMax
      ensures r == GivenUp && !initialArgs ==> NoRoom(ctl, execCallback, old(Initial()), old(Pending()), len)
      ensures r == Taken && old(HasRoom()) && Accepts(execCallback) ==>
        Batch(log, Pending())
        == SendIf(!Strict(ctl) && old(cmdArgvChars) + len > ctl.argMax, old(Initial()), Batch(old(log), old(Pending())))
    {
      hide Forwards, Flat, Pointers, Refused;
      ghost var start, pending := log, Pending();
      AtLeastInitial();
      NothingForwarded(log, Initial(), pending, ctl);
      if cmdArgvChars + len > ctl.argMax {
        if initialArgs || |cmdArgv| == initialArgc {
          assert !initialArgs ==> args == Initial() + [] && Pending() == [];
          return GivenUp;
        }
        if Strict(ctl) {
          assert args == Initial() + Pending();
          return GivenUp;
        }
        var ok := Flush();
        if !ok {
          return GivenUp;
        }
        assert cmdArgvChars == cmdInitialArgvChars by { NothingPending(); }
      }
      if LimitReached() {
        ghost var before, left, init := log, Pending(), Initial();
        var ok := Flush();
        if !ok {
          RefusedAmong(execCallback, init, left, pending);
          return GivenUp;
        }
        ForwardsOn(start, before, log, Initial(), left, Pending(), pending, ctl);
        assert cmdArgvChars == cmdInitialArgvChars by { NothingPending(); }
      }
      return if cmdArgvChars + len > ctl.argMax then Overrun(cmdArgvChars + len > argbuf.Length) else Taken;
    }

    lemma NothingPending()
      requires Valid() && !initialArgs && Pending() == []
      ensures cmdArgvChars == cmdInitialArgvChars
    {
      assert args == args[..initialArgc];
    }

    lemma PendingIs()
      requires Valid()
      ensures |cmdArgv| == |args| && (|cmdArgv| == initialArgc ==> Pending() == [])
    {
    }

    /** One more string of `len` bytes can be collected without an exec. */
    ghost predicate RoomFor(len: nat)
      requires initialArgc <= |args|
      reads this`initialArgs, this`args, this`initialArgc, this`cmdArgvChars
    {
      && cmdArgvChars + len <= ctl.argMax && |args| + 1 < ctl.maxArgCount
      && (!initialArgs && ctl.argsPerExec != 0 ==> |Pending()| + 1 < ctl.argsPerExec)
    }

    /** `bc_push_arg`. When it gives up, with one of its messages or that of `bc_do_exec`, the
        program ends. An argument that does not even fit behind the initial ones is copied all the
        same when others were waiting in front of it, unless they may not be split from it. With
        more than the one byte that `argbuf` has to spare that writes behind its end. */
    method PushArg(arg: Text) returns (r: Pushed)
      requires Valid() && Bounded() && NulFree(arg)
      requires initialArgs ==> |args| + 1 < ctl.maxArgCount
      modifies this`cmdArgv, this`cmdArgvChars, this`cmdInitialArgvChars, this`args, this`known, this`calls, this`log,
        argbuf
      ensures r == Taken ==> Valid() && HasRoom() && Initial() == old(Initial())
      ensures r == Taken ==> Forwards(old(log), log, Initial(), Pending(), old(Pending()) + [arg], ctl)
      ensures r == Taken && initialArgs ==> log == old(log) && args == old(args) + [arg]
      ensures r == Taken && !initialArgs ==> old(cmdInitialArgvChars) + |arg| + 1 <= ctl.argMax
      ensures r.Overrun? ==> Forwards(old(log), log, old(Initial()), [], old(Pending()), ctl)
      ensures r.Overrun? ==> OverLimit(ctl, old(cmdInitialArgvChars), old(Pending()), |arg| + 1)
      ensures r.Overrun? ==> !initialArgs && old(cmdInitialArgvChars) < ctl.argMax
      ensures r.Overrun? ==> r.leavesBuffer == (old(cmdInitialArgvChars) + |arg| + 1 > argbuf.Length)
      ensures !initialArgs && !Refused(execCallback, old(Initial()), old(Pending())) ==>
        (r.Overrun? <==> OverLimit(ctl, old(cmdInitialArgvChars), old(Pending()), |arg| + 1))
      ensures !initialArgs && !Refused(execCallback, old(Initial()), old(Pending()) + [arg]) ==>
        (r == GivenUp <==> old(cmdArgvChars) + |arg| + 1 > ctl.argMax && (old(Pending()) == [] || Strict(ctl)))
      ensures old(RoomFor(|arg| + 1)) ==> r == Taken && log == old(log) && args == old(args) + [arg]
      ensures r == GivenUp && initialArgs ==> |Flat(old(args) + [arg])| > ctl.argMax
      ensures r == GivenUp && !initialArgs ==> GaveUp(ctl, execCallback, old(Initial()), old(Pending()) + [arg])
      ensures r == Taken && !initialArgs && old(HasRoom()) && Accepts(execCallback) ==>
        Batch(log, Pending()) == Collected(ctl, old(Initial()), Batch(old(log), old(Pending())), arg, false)
    {
      hide Forwards, Flat, Pointers, Valid, GaveUp, Refused, Accepts, CountReached;
      ghost var start, pending, init := log, Pending(), Initial();
      ghost var was := args;
      if Refused(execCallback, init, pending) {
        RefusedAmong(execCallback, init, pending, pending + [arg]);
      }
      AtLeastInitial();
      PendingTakesRoom();
      r := MakeRoom(|arg| + 1);
      if r != Taken {
        FlatSnoc(was, arg);
        if r == GivenUp && !initialArgs {
          NoRoomGivesUp(ctl, execCallback, init, pending, arg);
        }
        return;
      }
      AtLeastInitial();
      var ok := Collect(arg, start, pending);
      if !ok {
        RefusedGivesUp(ctl, execCallback, init, pending + [arg], pending + [arg]);
        return GivenUp;
      }
      return Taken;
    }

    /** The copy in `bc_push_arg`, and what follows it. */
    method Collect(arg: Text, ghost start: seq<Exec>, ghost pending: seq<Text>) returns (ok: bool)
      requires Valid() && HasRoom() && NulFree(arg) && cmdArgvChars + |arg| + 1 <= ctl.argMax
      requires initialArgs ==> |args| + 1 < ctl.maxArgCount
      requires Forwards(start, log, Initial(), Pending(), pending, ctl)
      modifies this`cmdArgv, this`cmdArgvChars, this`cmdInitialArgvChars, this`args, this`known, this`calls, this`log,
        argbuf
      ensures ok ==> Valid() && HasRoom() && Initial() == old(Initial())
      ensures ok ==> Forwards(start, log, Initial(), Pending(), pending + [arg], ctl)
      ensures initialArgs || old(RoomFor(|arg| + 1)) ==> ok && log == old(log) && args == old(args) + [arg]
      ensures !ok ==> Refused(execCallback, old(Initial()), pending + [arg])
      ensures !initialArgs && Accepts(execCallback) ==>
        var left := old(Pending()) + [arg];
        Batch(log, Pending())
        == SendIf(CountReached(ctl, |old(Initial())|, |left|), old(Initial()), Batch(old(log), left))
    {
      hide Forwards, Flat, Pointers, Valid, Refused;
      ForwardsOneMore(start, log, Initial(), Pending(), pending, arg, ctl);
      ghost var left, init := Pending() + [arg], Initial();
      Append(arg);
      assert Pending() == left && Initial() == init;
      ok := ExecIfFull(start, pending + [arg]);
    }

    /** The end of `bc_push_arg`: the exec that is due when no more arguments may be collected. */
    method ExecIfFull(ghost start: seq<Exec>, ghost pending: seq<Text>) returns (ok: bool)
      requires Valid() && Bounded() && (initialArgs ==> |args| < ctl.maxArgCount)
      requires Forwards(start, log, Initial(), Pending(), pending, ctl)
      modifies this`cmdArgv, this`cmdArgvChars, this`args, this`known, this`calls, this`log
      ensures ok ==> Valid() && HasRoom() && Initial() == old(Initial())
      ensures ok ==> Forwards(start, log, Initial(), Pending(), pending, ctl)
      ensures !old(LimitReached()) ==> ok && log == old(log) && args == old(args)
      ensures initialArgs ==> ok && log == old(log) && args == old(args)
      ensures !ok ==> Refused(execCallback, old(Initial()), pending)
      ensures !initialArgs && Accepts(execCallback) ==>
        var was := Batch(old(log), old(Pending()));
        Batch(log, Pending()) == SendIf(CountReached(ctl, |old(Initial())|, |was.left|), old(Initial()), was)
    {
      hide Forwards, Flat, Pointers, Refused;
      ghost var init, left, before := Initial(), Pending(), log;
      if LimitReached() {
        ok := Flush();
        if !ok {
          LeftIsEnd(start, before, init, left, pending, ctl);
          RefusedAmong(execCallback, init, left, pending);
          return false;
        }
        ForwardsOn(start, before, log, init, left, Pending(), pending, ctl);
      }
      return true;
    }

    lemma RoomAtFirst()
      requires Valid() && !initialArgs && Pending() == []
      ensures HasRoom()
    {
    }

    lemma PendingTakesRoom()
      requires Valid()
      ensures !initialArgs && Pending() != [] ==> cmdInitialArgvChars < ctl.argMax
    {
      if !initialArgs && Pending() != [] {
        FlatPrefix(args, initialArgc + 1);
        assert args[..initialArgc + 1] == args[..initialArgc] + [args[initialArgc]];
        FlatSnoc(args[..initialArgc], args[initialArgc]);
      }
    }

    lemma AtLeastInitial()
      requires Valid()
      ensures cmdInitialArgvChars == |Flat(if initialArgs then args else Initial())| <= cmdArgvChars
      ensures cmdArgvChars == |Flat(Initial() + Pending())|
    {
      assert args == args[..initialArgc] + args[initialArgc..];
      FlatPrefix(args, initialArgc);
    }
  }

  /** From the log `before` to the log `log`: execs that fit, each with the initial arguments in
      front, and what was waiting has gone out or is left, in order. */
  ghost predicate Forwards(before: seq<Exec>, log: seq<Exec>, initial: seq<Text>, left: seq<Text>, pending: seq<Text>,
                           ctl: Control)
  {
    && before <= log
    && (forall e | e in log[|before|..] :: e.initial == initial && Fits(e, ctl))
    && Conveyed(log) + left == Conveyed(before) + pending
  }

  lemma NothingForwarded(log: seq<Exec>, initial: seq<Text>, pending: seq<Text>, ctl: Control)
    ensures Forwards(log, log, initial, pending, pending, ctl)
  {
  }

  lemma ForwardsOn(a: seq<Exec>, b: seq<Exec>, c: seq<Exec>, initial: seq<Text>, mid: seq<Text>, left: seq<Text>,
                   pending: seq<Text>, ctl: Control)
    requires Forwards(a, b, initial, mid, pending, ctl) && Forwards(b, c, initial, left, mid, ctl)
    ensures Forwards(a, c, initial, left, pending, ctl)
  {
    hide Conveyed, Fits;
    assert c[|a|..] == b[|a|..] + c[|b|..];
  }

  lemma {:induction false} ConveyedMore(a: seq<Exec>, b: seq<Exec>)
    ensures Conveyed(a + b) == Conveyed(a) + Conveyed(b)
    decreases |b|
  {
    if b == [] {
      assert a + b == a;
    } else {
      var m := |b| - 1;
      assert (a + b)[..|a + b| - 1] == a + b[..m];
      ConveyedMore(a, b[..m]);
    }
  }

  /** What is left is the end of what was waiting. */
  lemma LeftIsEnd(before: seq<Exec>, log: seq<Exec>, initial: seq<Text>, left: seq<Text>, pending: seq<Text>,
                  ctl: Control)
    requires Forwards(before, log, initial, left, pending, ctl)
    ensures |left| <= |pending| && left == pending[|pending| - |left|..]
    ensures forall x | x in left :: x in pending
  {
    hide Conveyed, Fits;
    assert log == before + log[|before|..];
    ConveyedMore(before, log[|before|..]);
    var all, sent, already := Conveyed(log) + left, Conveyed(log[|before|..]), Conveyed(before);
    assert all[|already|..] == sent + left;
    assert all[|already|..] == pending;
  }

  lemma ForwardsOneMore(a: seq<Exec>, b: seq<Exec>, initial: seq<Text>, left: seq<Text>, pending: seq<Text>, arg: Text,
                        ctl: Control)
    requires Forwards(a, b, initial, left, pending, ctl)
    ensures Forwards(a, b, initial, left + [arg], pending + [arg], ctl)
  {
    hide Conveyed, Fits;
    assert Conveyed(b) + (left + [arg]) == (Conveyed(b) + left) + [arg];
    assert Conveyed(a) + (pending + [arg]) == (Conveyed(a) + pending) + [arg];
  }

  lemma SentForwards(before: seq<Exec>, log: seq<Exec>, all: seq<Text>, init: nat, ctl: Control)
    requires init <= |all| <= ctl.maxArgCount && |Flat(all)| <= ctl.argMax
    requires ctl.argsPerExec != 0 ==> |all| - init <= ctl.argsPerExec
    requires Sent(before, log, all, init, |all| - init)
    ensures Forwards(before, log, all[..init], [], all[init..], ctl)
  {
    hide Conveyed, Flat;
    assert all[init..init + (|all| - init)] == all[init..];
    assert Conveyed(log) + [] == Conveyed(log);
  }

  lemma AppendFacts(args: seq<Text>, arg: Text, init: nat)
    requires AllNulFree(args) && NulFree(arg) && init <= |args|
    ensures Flat(args + [arg]) == Flat(args) + arg + [0]
    ensures Pointers(args + [arg]) == Pointers(args) + [At(|Flat(args)|)]
    ensures (args + [arg])[..init] == args[..init] && AllNulFree(args + [arg])
  {
    FlatSnoc(args, arg);
  }

  /** Leaving out a middle part does not make the buffer longer. */
  lemma {:induction false} FlatPicks(all: seq<Text>, init: nat, a: nat, b: nat)
    requires init <= a <= b <= |all|
    ensures |Flat(all[..init] + all[a..b])| <= |Flat(all)|
    decreases b
  {
    hide Flat;
    if a == b {
      assert all[..init] + all[a..b] == all[..init];
      FlatPrefix(all, init);
    } else {
      var m := b - 1;
      FlatPrefix(all, b);
      FlatPicks(all[..m], init, a, m);
      PickSlices(all, init, a, b);
      FlatSnoc(all[..init] + all[a..m], all[m]);
      FlatSnoc(all[..m], all[m]);
    }
  }

  lemma PickSlices(all: seq<Text>, init: nat, a: nat, b: nat)
    requires init <= a < b <= |all|
    ensures all[..b] == all[..b - 1] + [all[b - 1]]
    ensures all[..init] + all[a..b] == (all[..init] + all[a..b - 1]) + [all[b - 1]]
    ensures all[..b - 1][..init] + all[..b - 1][a..b - 1] == all[..init] + all[a..b - 1]
  {
  }

  /** The argument at `k`, or none at the end. */
  function AtMostOne(pending: seq<Text>, k: nat): seq<Text>
    requires k <= |pending|
  {
    if k < |pending| then [pending[k]] else []
  }

  /** An exec that keeps every limit: total size, number of arguments, and -n. */
  ghost predicate Fits(e: Exec, ctl: Control) {
    && |Flat(e.initial + e.args)| <= ctl.argMax
    && |e.initial| + |e.args| <= ctl.maxArgCount
    && (ctl.argsPerExec != 0 ==> |e.args| <= ctl.argsPerExec)
  }

  /** Since the log was `start`, the first `done` of the added arguments have been sent, each exec
      with all the initial arguments in front. */
  ghost predicate Sent(start: seq<Exec>, log: seq<Exec>, all: seq<Text>, init: nat, done: int) {
    && init <= init + done <= |all| && start <= log
    && (forall e | e in log[|start|..] ::
          e.initial == all[..init] && |e.args| <= |all| - init && |Flat(e.initial + e.args)| <= |Flat(all)|)
    && Conveyed(log) == Conveyed(start) + all[init..init + done]
  }

  lemma NothingSent(log: seq<Exec>, all: seq<Text>, init: nat)
    requires init <= |all|
    ensures Sent(log, log, all, init, 0)
  {
    assert Conveyed(log) + all[init..init] == Conveyed(log);
  }

  lemma SentMore(start: seq<Exec>, log: seq<Exec>, all: seq<Text>, init: nat, done: nat, more: nat)
    requires Sent(start, log, all, init, done) && done <= more && init + more <= |all|
    ensures Sent(start, log + [Exec(all[..init], all[init + done..init + more])], all, init, more)
  {
    hide Flat, Conveyed;
    var e := Exec(all[..init], all[init + done..init + more]);
    assert (log + [e])[|start|..] == log[|start|..] + [e];
    ConveyedSnoc(log, e);
    FlatPicks(all, init, init + done, init + more);
    Stretch(Conveyed(start), all, init, init + done, init + more);
  }

  lemma Stretch(sent: seq<Text>, all: seq<Text>, i: nat, j: nat, k: nat)
    requires i <= j <= k <= |all|
    ensures sent + all[i..j] + all[j..k] == sent + all[i..k]
  {
  }

  lemma SentSoFar(start: seq<Exec>, log: seq<Exec>, all: seq<Text>, init: nat, done: nat)
    requires Sent(start, log, all, init, done)
    ensures |Conveyed(log)| - |Conveyed(start)| == done
  {
  }

  // ---------------------------------------------------------------- giving up

  /** The options with which xargs would rather stop than split a command line. */
  predicate Strict(ctl: Control) {
    ctl.replacing || (ctl.exitIfSizeExceeded && (ctl.linesPerExec != 0 || ctl.argsPerExec != 0))
  }

  /** A string of `len` bytes that does not fit behind the initial arguments, with others waiting
      that may be sent without it. */
  predicate OverLimit(ctl: Control, initialChars: nat, pending: seq<Text>, len: nat) {
    !Strict(ctl) && pending != [] && initialChars + len > ctl.argMax
  }

  /** A kernel that takes every command line. */
  ghost predicate Accepts(execCallback: (nat, seq<Text>) -> bool) {
    forall n: nat, argv: seq<Text> :: execCallback(n, argv)
  }

  /** No more than `count` words may go behind `initial` others. */
  predicate CountReached(ctl: Control, initial: nat, count: nat) {
    (ctl.argsPerExec != 0 && count == ctl.argsPerExec) || initial + count == ctl.maxArgCount
  }

  /** What has been sent, and what is waiting. */
  datatype Batch = Batch(execs: seq<Exec>, left: seq<Text>)

  function SendIf(due: bool, initial: seq<Text>, b: Batch): Batch {
    if due then Batch(b.execs + [Exec(initial, b.left)], []) else b
  }

  /** One more word: what is waiting goes first when the word is too long to go with it and the two
      may be split, and the word goes with what is waiting when no more may be collected, or when a line ends. */
  function Collected(ctl: Control, initial: seq<Text>, b: Batch, arg: Text, lineEnds: bool): Batch {
    var first := SendIf(!Strict(ctl) && |Flat(initial + b.left)| + |arg| + 1 > ctl.argMax, initial, b);
    var waiting := Batch(first.execs, first.left + [arg]);
    var full := SendIf(CountReached(ctl, |initial|, |waiting.left|), initial, waiting);
    SendIf(lineEnds, initial, full)
  }

  /** The first `n` words with a kernel that takes everything. */
  function Batches(ctl: Control, initial: seq<Text>, words: seq<Text>, lineEnds: set<nat>, n: nat): Batch
    requires n <= |words|
  {
    if n == 0 then Batch([], [])
    else Collected(ctl, initial, Batches(ctl, initial, words, lineEnds, n - 1), words[n - 1], n - 1 in lineEnds)
  }

  /** The kernel refused even a command line with at most one of the words. */
  ghost predicate Refused(execCallback: (nat, seq<Text>) -> bool, initial: seq<Text>, words: seq<Text>) {
    exists n: nat, xs: seq<Text> :: |xs| <= 1 && (forall x | x in xs :: x in words) && !execCallback(n, initial + xs)
  }

  /** Why there may be no room for a string of `len` bytes behind what is waiting. */
  ghost predicate NoRoom(ctl: Control, execCallback: (nat, seq<Text>) -> bool, initial: seq<Text>, pending: seq<Text>,
                         len: nat)
  {
    || (pending == [] && |Flat(initial + pending)| + len > ctl.argMax)
    || (Strict(ctl) && |Flat(initial + pending)| + len > ctl.argMax)
    || Refused(execCallback, initial, pending)
  }

  /** The reasons for which xargs gives up: a word too long for any command line, more words than
      one command line takes where they may not be split, or a refusal by the kernel. */
  ghost predicate GaveUp(ctl: Control, execCallback: (nat, seq<Text>) -> bool, initial: seq<Text>, words: seq<Text>) {
    || (exists x | x in words :: |Flat(initial + [x])| > ctl.argMax)
    || ((ctl.replacing || (ctl.exitIfSizeExceeded && (ctl.linesPerExec != 0 || ctl.argsPerExec != 0)))
        && |Flat(initial + words)| > ctl.argMax)
    || Refused(execCallback, initial, words)
  }

  lemma RefusedOne(execCallback: (nat, seq<Text>) -> bool, n: nat, initial: seq<Text>, pending: seq<Text>, k: nat)
    requires k <= |pending| && !execCallback(n, initial + AtMostOne(pending, k))
    ensures Refused(execCallback, initial, pending)
  {
    assert forall x | x in AtMostOne(pending, k) :: x in pending;
  }

  lemma RefusedAmong(execCallback: (nat, seq<Text>) -> bool, initial: seq<Text>, words: seq<Text>, more: seq<Text>)
    requires Refused(execCallback, initial, words) && forall x | x in words :: x in more
    ensures Refused(execCallback, initial, more)
  {
    var n: nat, xs: seq<Text> :| |xs| <= 1 && (forall x | x in xs :: x in words) && !execCallback(n, initial + xs);
    assert forall x | x in xs :: x in more;
  }

  lemma RefusedGivesUp(ctl: Control, execCallback: (nat, seq<Text>) -> bool, initial: seq<Text>, words: seq<Text>,
                       more: seq<Text>)
    requires Refused(execCallback, initial, words) && forall x | x in words :: x in more
    ensures GaveUp(ctl, execCallback, initial, more)
  {
    RefusedAmong(execCallback, initial, words, more);
  }

  lemma NoRoomGivesUp(ctl: Control, execCallback: (nat, seq<Text>) -> bool, initial: seq<Text>, pending: seq<Text>,
                      arg: Text)
    requires NoRoom(ctl, execCallback, initial, pending, |arg| + 1)
    ensures GaveUp(ctl, execCallback, initial, pending + [arg])
  {
    hide Flat, Refused;
    FlatSnoc(initial + pending, arg);
    assert (initial + pending) + [arg] == initial + (pending + [arg]);
    assert arg in pending + [arg];
    if Refused(execCallback, initial, pending) {
      RefusedAmong(execCallback, initial, pending, pending + [arg]);
    }
  }

  /** A stretch of the input gives no other reason than the whole input. */
  lemma GaveUpMore(ctl: Control, execCallback: (nat, seq<Text>) -> bool, initial: seq<Text>, all: seq<Text>, a: nat,
                   b: nat)
    requires a <= b <= |all| && GaveUp(ctl, execCallback, initial, all[a..b])
    ensures GaveUp(ctl, execCallback, initial, all)
  {
    hide Flat, Refused;
    var i := |initial|;
    FlatPicks(initial + all, i, i + a, i + b);
    assert (initial + all)[..i] + (initial + all)[i + a..i + b] == initial + all[a..b];
    assert forall x | x in all[a..b] :: x in all;
    if Refused(execCallback, initial, all[a..b]) {
      RefusedAmong(execCallback, initial, all[a..b], all);
    }
  }

  /** The copy does leave the buffer, with every kernel that accepts, for a command, a word that
      fits behind it and one that is too long by more than a byte: `argMax` 4 and words of 1, 1
      and 3 bytes, for example. */
  method LeavesBuffer(ctl: Control, command: Text, word: Text, long: Text) returns (r: Pushed)
    requires NulFree(command) && NulFree(word) && NulFree(long)
    requires !Strict(ctl) && 2 < ctl.maxArgCount < SIZE_MAX && ctl.argsPerExec != 1
    requires |command| + 1 + |word| + 1 <= ctl.argMax && |command| + 1 + |long| + 1 > ctl.argMax + 1
    ensures r == Overrun(true)
  {
    hide Forwards, Flat, Pointers, Builder.Valid, Refused, GaveUp;
    var b := new Builder(ctl, (n: nat, argv: seq<Text>) => true);
    FlatOfOne(command);
    var ok := PushCommand(b, [command]);
    b.AtLeastInitial();
    b.NothingPending();
    assert b.args == b.Initial() + b.Pending() == [command];
    r := b.PushArg(word);
    b.PendingIs();
    assert b.Initial() == [command] && b.Pending() == [word];
    b.AtLeastInitial();
    NeverRefused(b.execCallback, b.Initial(), [word] + [long]);
    r := b.PushArg(long);
  }

  lemma FlatOfOne(a: Text)
    ensures |Flat([a])| == |a| + 1
  {
    FlatSnoc([], a);
    assert [] + [a] == [a];
  }

  lemma NeverRefused(execCallback: (nat, seq<Text>) -> bool, initial: seq<Text>, words: seq<Text>)
    requires forall n, argv :: execCallback(n, argv)
    ensures !Refused(execCallback, initial, words)
  {
  }

  // ---------------------------------------------------------------- xargs

  /** The command and its own arguments. */
  method PushCommand(b: Builder, command: seq<Text>) returns (ok: bool)
    requires b.Valid() && b.initialArgs && b.args == [] && b.log == []
    requires AllNulFree(command) && |command| + 1 < b.ctl.maxArgCount
    modifies b, b.argbuf
    ensures ok ==>
      b.Valid() && b.Bounded() && !b.initialArgs && b.log == [] && b.Initial() == command && b.Pending() == []
    ensures !ok ==> |Flat(command)| > b.ctl.argMax
  {
    hide Forwards, Flat, Pointers;
    var i := 0;
    while i < |command|
      invariant i <= |command| && b.Valid() && b.initialArgs && b.args == command[..i] && b.log == []
    {
      assert command[i] in command;
      assert command[..i + 1] == command[..i] + [command[i]];
      var r := b.PushArg(command[i]);
      if r != Taken {
        FlatPrefix(command, i + 1);
        return false;
      }
      i := i + 1;
    }
    assert command[..|command|] == command;
    b.initialArgs := false;
    b.initialArgc := |b.cmdArgv|;
    b.cmdInitialArgvChars := b.cmdArgvChars;
    assert b.args[..b.initialArgc] == command;
    return true;
  }

  /** One argument read, and a flush behind it where a line count asks for one. */
  method TakeInput(b: Builder, arg: Text, flush: bool) returns (r: Pushed)
    requires b.Valid() && b.Bounded() && !b.initialArgs && NulFree(arg)
    modifies b, b.argbuf
    ensures r == Taken ==> b.Valid() && b.HasRoom() && !b.initialArgs && b.Initial() == old(b.Initial())
    ensures r == Taken ==> Forwards(old(b.log), b.log, b.Initial(), b.Pending(), old(b.Pending()) + [arg], b.ctl)
    ensures r == Taken && old(b.HasRoom()) && Accepts(b.execCallback) ==>
      Batch(b.log, b.Pending()) == Collected(b.ctl, old(b.Initial()), Batch(old(b.log), old(b.Pending())), arg, flush)
    ensures r == GivenUp ==> GaveUp(b.ctl, b.execCallback, old(b.Initial()), old(b.Pending()) + [arg])
    ensures r.Overrun? ==>
      old(b.Pending()) != [] && |Flat(old(b.Initial()))| < b.ctl.argMax < |Flat(old(b.Initial()))| + |arg| + 1
  {
    hide Forwards, Flat, Pointers, Refused, GaveUp, Accepts, CountReached;
    ghost var start, pending := b.log, b.Pending();
    b.AtLeastInitial();
    r := b.PushArg(arg);
    if r == Taken && flush {
      ghost var before, left, init := b.log, b.Pending(), b.Initial();
      var ok := b.Flush();
      LeftIsEnd(start, before, init, left, pending + [arg], b.ctl);
      if ok {
        ForwardsOn(start, before, b.log, init, left, b.Pending(), pending + [arg], b.ctl);
      } else {
        RefusedGivesUp(b.ctl, b.execCallback, init, left, pending + [arg]);
        r := GivenUp;
      }
    }
  }

  /** The words read so far, one after another. */
  method TakeWords(b: Builder, words: seq<Text>, lineEnds: set<nat>) returns (r: Pushed)
    requires b.Valid() && b.Bounded() && !b.initialArgs && b.Pending() == [] && b.log == [] && AllNulFree(words)
    modifies b, b.argbuf
    ensures r == Taken ==> b.Valid() && b.Bounded() && !b.initialArgs && b.Initial() == old(b.Initial())
    ensures r == Taken ==> Forwards([], b.log, b.Initial(), b.Pending(), words, b.ctl)
    ensures r == Taken && words == [] ==> b.log == []
    ensures r == Taken && Accepts(b.execCallback) ==>
      Batch(b.log, b.Pending()) == Batches(b.ctl, b.Initial(), words, lineEnds, |words|)
    ensures r == GivenUp ==> GaveUp(b.ctl, b.execCallback, old(b.Initial()), words)
    ensures r.Overrun? ==> exists w | w in words ::
      |Flat(old(b.Initial()))| < b.ctl.argMax < |Flat(old(b.Initial()))| + |w| + 1
  {
    hide Builder.Valid, Fits, Conveyed, Forwards, Flat, GaveUp, Refused, Accepts, Collected;
    ghost var command := b.Initial();
    b.RoomAtFirst();
    NothingForwarded([], command, [], b.ctl);
    var i := 0;
    while i < |words|
      invariant i <= |words| && b.Valid() && b.HasRoom() && !b.initialArgs && b.Initial() == command
      invariant Forwards([], b.log, command, b.Pending(), words[..i], b.ctl)
      invariant i == 0 ==> b.log == []
      invariant Accepts(b.execCallback) ==>
        Batch(b.log, b.Pending()) == Batches(b.ctl, command, words, lineEnds, i)
    {
      assert words[i] in words;
      ghost var before, left := b.log, b.Pending();
      r := TakeInput(b, words[i], i in lineEnds);
      if r != Taken {
        if r == GivenUp {
          InputGivesUp(before, b.ctl, b.execCallback, command, left, words, i);
        }
        return;
      }
      ForwardsOneMore([], before, command, left, words[..i], words[i], b.ctl);
      assert words[..i + 1] == words[..i] + [words[i]];
      ForwardsOn([], before, b.log, command, left + [words[i]], b.Pending(), words[..i + 1], b.ctl);
      i := i + 1;
    }
    assert words[..|words|] == words;
    return Taken;
  }

  /** A reason to give up at one argument is a reason in the input. */
  lemma InputGivesUp(log: seq<Exec>, ctl: Control, execCallback: (nat, seq<Text>) -> bool, command: seq<Text>,
                     left: seq<Text>, input: seq<Text>, i: nat)
    requires i < |input| && Forwards([], log, command, left, input[..i], ctl)
    requires GaveUp(ctl, execCallback, command, left + [input[i]])
    ensures GaveUp(ctl, execCallback, command, input)
  {
    hide Forwards, GaveUp;
    LeftIsEnd([], log, command, left, input[..i], ctl);
    assert left + [input[i]] == input[i - |left|..i + 1];
    GaveUpMore(ctl, execCallback, command, input, i - |left|, i + 1);
  }

  /** What has gone out of the input, with nothing sent before. */
  lemma AllForwarded(log: seq<Exec>, command: seq<Text>, left: seq<Text>, input: seq<Text>, ctl: Control)
    requires Forwards([], log, command, left, input, ctl)
    ensures Conveyed(log) + left == input && forall e | e in log :: e.initial == command && Fits(e, ctl)
  {
    assert log[0..] == log;
    assert Conveyed([]) + input == input;
  }
}
