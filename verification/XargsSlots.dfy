/** The table of running children in xargs: `add_proc`, `wait_for_proc` and the launch steps of
    `xargs_do_exec`. */
module XargsSlots {

  /** A process id; 0 marks a free slot. */
  type Pid = nat

  // ---------------------------------------------------------------- the table

  function FirstFree(pids: seq<Pid>): (i: nat)
    ensures i <= |pids|
    ensures i < |pids| ==> pids[i] == 0
    ensures forall k | 0 <= k < i :: pids[k] != 0
  {
    if pids == [] || pids[0] == 0 then 0 else 1 + FirstFree(pids[1..])
  }

  /** The slots in use. */
  function Used(pids: seq<Pid>): nat {
    if pids == [] then 0 else Used(pids[1..]) + if pids[0] != 0 then 1 else 0
  }

  function Zeros(n: nat): (s: seq<Pid>)
    ensures |s| == n && forall i | 0 <= i < n :: s[i] == 0
  {
    seq(n, _ => 0)
  }

  /** `x2nrealloc`. */
  function Grown(n: nat): (m: nat)
    ensures m > n
  {
    if n == 0 then 32 else n + n / 2 + 1
  }

  /** The table after `add_proc`. */
  function Added(pids: seq<Pid>, pid: Pid): (s: seq<Pid>)
    ensures FirstFree(pids) < |s| && |pids| <= |s|
  {
    var i := FirstFree(pids);
    var room := if i == |pids| then pids + Zeros(Grown(|pids|) - |pids|) else pids;
    room[i := pid]
  }

  function IndexOf(pids: seq<Pid>, pid: Pid): (i: nat)
    ensures i <= |pids|
    ensures i < |pids| ==> pids[i] == pid
    ensures pid !in pids[..i]
    ensures pid in pids ==> i < |pids|
  {
    if pids == [] || pids[0] == pid then 0
    else
      var i := 1 + IndexOf(pids[1..], pid);
      assert pids[..i] == [pids[0]] + pids[1..][..i - 1];
      i
  }

  /** The table after a child has been reaped. */
  function Removed(pids: seq<Pid>, pid: Pid): seq<Pid> {
    var i := IndexOf(pids, pid);
    if i < |pids| then pids[i := 0] else pids
  }

  lemma {:induction false} UsedAppend(a: seq<Pid>, b: seq<Pid>)
    ensures Used(a + b) == Used(a) + Used(b)
  {
    if a == [] {
      assert a + b == b;
    } else {
      assert (a + b)[1..] == a[1..] + b;
      UsedAppend(a[1..], b);
    }
  }

  lemma {:induction false} UsedZeros(s: seq<Pid>)
    requires forall i | 0 <= i < |s| :: s[i] == 0
    ensures Used(s) == 0
  {
    if s != [] {
      UsedZeros(s[1..]);
    }
  }

  lemma {:induction false} UsedUpdate(s: seq<Pid>, i: nat, p: Pid)
    requires i < |s|
    ensures Used(s[i := p]) + (if s[i] != 0 then 1 else 0) == Used(s) + (if p != 0 then 1 else 0)
    decreases |s|
  {
    if i > 0 {
      assert s[i := p][1..] == s[1..][i - 1 := p];
      UsedUpdate(s[1..], i - 1, p);
    } else {
      assert s[i := p][1..] == s[1..];
    }
  }

  lemma {:induction false} UsedAll(s: seq<Pid>, n: nat)
    requires n <= |s| && forall i | 0 <= i < n :: s[i] != 0
    ensures Used(s) >= n
    decreases |s|
  {
    if n > 0 {
      UsedAll(s[1..], n - 1);
    }
  }

  /** A free slot is never above the number of children running. */
  lemma FirstFreeIsLow(pids: seq<Pid>)
    ensures FirstFree(pids) <= Used(pids)
  {
    UsedAll(pids, FirstFree(pids));
  }

  // ---------------------------------------------------------------- the system

  /** The parent's table and counter, and the children that run the command and have not been
      reaped. */
  datatype System = System(pids: seq<Pid>, executing: int, live: set<Pid>)

  const EMPTY: System := System([], 0, {})

  /** What can happen: a fork whose exec works or fails, and the end of some child. */
  datatype Event = Launch(pid: Pid) | FailedExec(pid: Pid) | Reap(pid: Pid)

  /** The kernel hands out nonzero ids that are not in use, and xargs forks only when fewer than
      `procMax` children run, if that is positive. */
  predicate Enabled(s: System, e: Event, procMax: nat) {
    match e
    case Launch(pid) => pid != 0 && pid !in s.live && (procMax == 0 || s.executing < procMax)
    case FailedExec(pid) => pid != 0 && pid !in s.live && (procMax == 0 || s.executing < procMax)
    case Reap(pid) => pid != 0
  }

  /** A child whose exec failed is waited for at once and leaves no trace; a child that is not in
      the table is ignored. */
  function Next(s: System, e: Event): System {
    match e
    case Launch(pid) => System(Added(s.pids, pid), s.executing + 1, s.live + {pid})
    case FailedExec(_) => s
    case Reap(pid) =>
      if pid in s.pids then System(Removed(s.pids, pid), s.executing - 1, s.live - {pid}) else s
  }

  /** The counter counts the slots in use; the live children fill exactly these, one each. */
  ghost predicate Consistent(s: System) {
    && s.executing == Used(s.pids)
    && (forall p | p != 0 :: p in s.live <==> p in s.pids)
    && 0 !in s.live
    && (forall i, j | 0 <= i < j < |s.pids| && s.pids[i] != 0 :: s.pids[i] != s.pids[j])
  }

  lemma AddedConsistent(s: System, pid: Pid)
    requires Consistent(s) && pid != 0 && pid !in s.live
    ensures Consistent(Next(s, Launch(pid)))
  {
    var i := FirstFree(s.pids);
    var zeros := if i == |s.pids| then Zeros(Grown(|s.pids|) - |s.pids|) else [];
    var room := s.pids + zeros;
    UsedAppend(s.pids, zeros);
    UsedZeros(zeros);
    UsedUpdate(room, i, pid);
    assert Added(s.pids, pid) == room[i := pid];
    forall p | p != 0
      ensures p in s.live + {pid} <==> p in room[i := pid]
    {
      AddedMembers(s.pids, zeros, i, pid, p);
    }
  }

  lemma AddedMembers(pids: seq<Pid>, zeros: seq<Pid>, i: nat, pid: Pid, p: Pid)
    requires i < |pids + zeros| && (pids + zeros)[i] == 0 && p != 0
    requires forall k | 0 <= k < |zeros| :: zeros[k] == 0
    ensures p in (pids + zeros)[i := pid] <==> p == pid || p in pids
  {
    var room := pids + zeros;
    var after := room[i := pid];
    if p in pids {
      var k :| 0 <= k < |pids| && pids[k] == p;
      assert room[k] == p && k != i && after[k] == p;
    }
    if p == pid {
      assert after[i] == p;
    }
    if p in after && p != pid {
      var k :| 0 <= k < |after| && after[k] == p;
      assert k != i && room[k] == p && k < |pids|;
    }
  }

  lemma RemovedConsistent(s: System, pid: Pid)
    requires Consistent(s) && pid != 0 && pid in s.pids
    ensures Consistent(Next(s, Reap(pid)))
  {
    var i := IndexOf(s.pids, pid);
    UsedUpdate(s.pids, i, 0);
    var after := s.pids[i := 0];
    forall p | p != 0
      ensures p in s.live - {pid} <==> p in after
    {
      if p in after {
        var k :| 0 <= k < |after| && after[k] == p;
        assert s.pids[k] == p && k != i;
      }
      if p in s.live - {pid} {
        var k :| 0 <= k < |s.pids| && s.pids[k] == p;
        assert after[k] == p;
      }
    }
  }

  // ---------------------------------------------------------------- all runs

  function Run(s: System, events: seq<Event>): System
    decreases |events|
  {
    if events == [] then s else Run(Next(s, events[0]), events[1..])
  }

  predicate Possible(s: System, events: seq<Event>, procMax: nat)
    decreases |events|
  {
    events == [] || (Enabled(s, events[0], procMax) && Possible(Next(s, events[0]), events[1..], procMax))
  }

  /** In every reachable state the counter and the table are right, and with a positive limit no
      more children run than it allows. */
  lemma {:induction false} AlwaysConsistent(s: System, events: seq<Event>, procMax: nat)
    requires Consistent(s) && Possible(s, events, procMax)
    requires procMax > 0 ==> s.executing <= procMax
    ensures Consistent(Run(s, events))
    ensures procMax > 0 ==> Run(s, events).executing <= procMax
    decreases |events|
  {
    if events != [] {
      match events[0] {
        case Launch(pid) => AddedConsistent(s, pid);
        case FailedExec(_) =>
        case Reap(pid) =>
          if pid in s.pids {
            RemovedConsistent(s, pid);
          }
      }
      AlwaysConsistent(Next(s, events[0]), events[1..], procMax);
    }
  }

  lemma EveryRun(events: seq<Event>, procMax: nat)
    requires Possible(EMPTY, events, procMax)
    ensures var s := Run(EMPTY, events);
      Consistent(s) && (procMax > 0 ==> s.executing <= procMax)
  {
    AlwaysConsistent(EMPTY, events, procMax);
  }

  /** The number a child works out for itself, by adding the id 0 to its copy of the table, is the
      slot its parent then records it in; no live child has that slot; and it is below the
      limit. */
  lemma ChildSlotAgrees(events: seq<Event>, pid: Pid, procMax: nat)
    requires Possible(EMPTY, events, procMax)
    requires Enabled(Run(EMPTY, events), Launch(pid), procMax)
    ensures var s := Run(EMPTY, events);
      var slot := FirstFree(s.pids);
      && Next(s, Launch(pid)).pids[slot] == pid
      && (slot < |s.pids| ==> s.pids[slot] == 0)
      && (procMax > 0 ==> slot < procMax)
  {
    EveryRun(events, procMax);
    FirstFreeIsLow(Run(EMPTY, events).pids);
  }

  // ---------------------------------------------------------------- the code

  class Table {
    var pids: array<Pid>
    var procsExecuting: nat
    ghost var live: set<Pid>

    ghost function View(): System
      reads this, pids
    {
      System(pids[..], procsExecuting, live)
    }

    constructor ()
      ensures View() == EMPTY && fresh(pids)
    {
      pids := new Pid[0];
      procsExecuting := 0;
      live := {};
    }

    /** `add_proc`: the slot the child was put in. */
    method AddProc(pid: Pid) returns (slot: nat)
      modifies this, pids
      ensures pids == old(pids) || fresh(pids)
      ensures slot == FirstFree(old(pids[..])) && pids[..] == Added(old(pids[..]), pid)
      ensures procsExecuting == old(procsExecuting) + 1 && live == old(live)
    {
      ghost var before := pids[..];
      slot := 0;
      while slot < pids.Length && pids[slot] != 0
        invariant slot <= pids.Length && FirstFree(before) == slot + FirstFree(before[slot..])
      {
        assert before[slot..][1..] == before[slot + 1..];
        slot := slot + 1;
      }
      if slot == pids.Length {
        var more := new Pid[Grown(pids.Length)](i requires 0 <= i reads this, pids =>
          if i < pids.Length then pids[i] else 0);
        assert more[..] == before + Zeros(Grown(|before|) - |before|);
        pids := more;
      }
      pids[slot] := pid;
      procsExecuting := procsExecuting + 1;
    }

    /** The steps of `xargs_do_exec` after the fork: the slot the child saw is the parent's. */
    method Launched(pid: Pid, execWorked: bool) returns (childSlot: nat)
      requires Consistent(View()) && pid != 0 && pid !in live
      modifies this, pids
      ensures pids == old(pids) || fresh(pids)
      ensures View() == Next(old(View()), if execWorked then Launch(pid) else FailedExec(pid))
      ensures Consistent(View())
      ensures execWorked ==> childSlot < pids.Length && pids[childSlot] == pid
      ensures childSlot == FirstFree(old(pids[..]))
      ensures procsExecuting == old(procsExecuting) + if execWorked then 1 else 0
    {
      AddedConsistent(View(), pid);
      var child := new Table.Copy(this);
      childSlot := child.AddProc(0);
      if execWorked {
        var slot := AddProc(pid);
        live := live + {pid};
      }
    }

    /** The memory a forked child starts with. */
    constructor Copy(t: Table)
      ensures View() == t.View() && fresh(pids)
    {
      var theirs := t.pids;
      var mine := new Pid[theirs.Length](i requires 0 <= i < theirs.Length reads theirs => theirs[i]);
      pids := mine;
      procsExecuting := t.procsExecuting;
      live := t.live;
    }

    /** The part of `wait_for_proc` that forgets a child; false when it is not one of ours. */
    method Forget(pid: Pid) returns (known: bool)
      requires Consistent(View()) && pid != 0
      modifies this, pids
      ensures pids == old(pids)
      ensures known == (pid in old(pids[..])) && View() == Next(old(View()), Reap(pid)) && Consistent(View())
      ensures procsExecuting == old(procsExecuting) - if known then 1 else 0
    {
      ghost var before, state := pids[..], View();
      var i := 0;
      while i < pids.Length && pids[i] != pid
        invariant i <= pids.Length && IndexOf(before, pid) == i + IndexOf(before[i..], pid)
        invariant pid !in before[..i]
      {
        assert before[i..][1..] == before[i + 1..];
        assert before[..i + 1] == before[..i] + [before[i]];
        i := i + 1;
      }
      if i == pids.Length {
        assert before[..i] == before;
        return false;
      }
      RemovedConsistent(state, pid);
      pids[i] := 0;
      procsExecuting := procsExecuting - 1;
      live := live - {pid};
      return true;
    }

    /** `wait_for_proc`, with the answers `waitpid` will give: an id, or 0 for none at the moment.
        It stops when nothing runs or an answer is 0. An answer of 0 is only expected once enough
        children have been reaped, when it does not wait any more; otherwise some are lost. */
    method WaitForProc(all: bool, minReap: nat, answers: seq<Pid>) returns (used: nat, lost: bool)
      requires Consistent(View())
      modifies this, pids
      ensures pids == old(pids) && used <= |answers|
      ensures Consistent(View()) && View() == Run(old(View()), Reaps(answers[..used]))
      ensures procsExecuting <= old(procsExecuting)
      ensures procsExecuting == 0 || used == |answers| || (used > 0 && answers[used - 1] == 0)
      ensures forall i | 0 <= i < used - 1 :: answers[i] != 0
      ensures used > 0 ==> Run(old(View()), Reaps(answers[..used - 1])).executing > 0
      ensures used == 0 ==> answers == [] || procsExecuting == 0
      ensures lost <==>
        used > 0 && answers[used - 1] == 0 && (all || old(procsExecuting) - procsExecuting < minReap)
    {
      hide Consistent, Run, Reaps, Next;
      used, lost := 0, false;
      var reaped := 0;
      NoReaps(View(), answers);
      while procsExecuting > 0 && used < |answers|
        invariant used <= |answers| && pids == old(pids) && Consistent(View())
        invariant View() == Run(old(View()), Reaps(answers[..used]))
        invariant reaped == old(procsExecuting) - procsExecuting && !lost
        invariant forall i | 0 <= i < used :: answers[i] != 0
        invariant used > 0 ==> Run(old(View()), Reaps(answers[..used - 1])).executing > 0
        invariant used == 0 ==> procsExecuting == old(procsExecuting)
        decreases |answers| - used
      {
        var noHang := !all && reaped >= minReap;
        var pid := answers[used];
        used := used + 1;
        RunMore(old(View()), answers[..used - 1], pid);
        assert answers[..used] == answers[..used - 1] + [pid];
        if pid == 0 {
          lost := !noHang;
          break;
        }
        var known := Forget(pid);
        if known {
          reaped := reaped + 1;
        }
      }
    }

    /** `xargs_do_exec`: wait while no more children may run, reap what has ended already, fork and
        exec. `fork` is the id the kernel gives the child when that many answers have come in;
        false stands for a call that still waits when the answers are at their end. */
    method DoExec(procMax: nat, answers: seq<Pid>, fork: nat -> Pid, execWorked: bool)
      returns (launched: bool, childSlot: nat, ghost events: seq<Event>)
      requires Consistent(View())
      requires forall u | 0 <= u <= |answers| :: Unused(Run(View(), Reaps(answers[..u])), fork(u))
      modifies this, pids
      ensures pids == old(pids) || fresh(pids)
      ensures Consistent(View()) && View() == Run(old(View()), events) && Possible(old(View()), events, procMax)
      ensures !launched ==> events == Reaps(answers) && procMax > 0 && procsExecuting >= procMax
      ensures launched ==> exists u | 0 <= u <= |answers| ::
        events == Reaps(answers[..u]) + [if execWorked then Launch(fork(u)) else FailedExec(fork(u))]
        && (execWorked ==> childSlot < pids.Length && pids[childSlot] == fork(u))
      ensures procMax > 0 && old(procsExecuting) <= procMax ==> procsExecuting <= procMax
      ensures launched && execWorked && procMax > 0 ==> childSlot < procMax
    {
      hide Consistent, Run, Reaps, Next, Possible, Unused, Enabled;
      var used := 0;
      childSlot := 0;
      NoReaps(View(), answers);
      while procMax > 0 && procsExecuting >= procMax
        invariant used <= |answers| && pids == old(pids) && Consistent(View())
        invariant View() == Run(old(View()), Reaps(answers[..used])) && procsExecuting <= old(procsExecuting)
        decreases |answers| - used
      {
        if used == |answers| {
          ReapsPossible(old(View()), answers, procMax);
          assert answers[..used] == answers;
          return false, 0, Reaps(answers);
        }
        var more, lost := WaitForProc(false, 1, answers[used..]);
        RunOn(old(View()), answers, used, more);
        used := used + more;
      }
      var more, lost := WaitForProc(false, 0, answers[used..]);
      RunOn(old(View()), answers, used, more);
      used := used + more;
      ghost var reaps, event := Reaps(answers[..used]),
        if execWorked then Launch(fork(used)) else FailedExec(fork(used));
      ReapsPossible(old(View()), answers[..used], procMax);
      UnusedIs(View(), fork(used), procMax);
      OneEventMore(old(View()), reaps, event, procMax);
      SlotIsLow(View());
      childSlot := Launched(fork(used), execWorked);
      return true, childSlot, reaps + [event];
    }
  }

  lemma SlotIsLow(s: System)
    requires Consistent(s)
    ensures FirstFree(s.pids) <= s.executing
  {
    FirstFreeIsLow(s.pids);
  }

  /** The kernel gives a child an id that no live child has. */
  predicate Unused(s: System, pid: Pid) {
    pid != 0 && pid !in s.live
  }

  lemma UnusedIs(s: System, pid: Pid, procMax: nat)
    requires Unused(s, pid) && (procMax == 0 || s.executing < procMax)
    ensures pid != 0 && pid !in s.live && Enabled(s, Launch(pid), procMax) && Enabled(s, FailedExec(pid), procMax)
  {
  }

  /** The ends the answers report. */
  function Reaps(answers: seq<Pid>): seq<Event> {
    if answers == [] then []
    else (if answers[0] == 0 then [] else [Reap(answers[0])]) + Reaps(answers[1..])
  }

  lemma NoReaps(s: System, answers: seq<Pid>)
    ensures Run(s, Reaps(answers[..0])) == s
  {
  }

  lemma {:induction false} ReapsAppend(a: seq<Pid>, b: seq<Pid>)
    ensures Reaps(a + b) == Reaps(a) + Reaps(b)
  {
    if a == [] {
      assert a + b == b;
    } else {
      assert (a + b)[1..] == a[1..] + b;
      ReapsAppend(a[1..], b);
    }
  }

  lemma {:induction false} RunAppend(s: System, a: seq<Event>, b: seq<Event>)
    ensures Run(s, a + b) == Run(Run(s, a), b)
    decreases |a|
  {
    if a == [] {
      assert a + b == b;
    } else {
      assert (a + b)[1..] == a[1..] + b;
      RunAppend(Next(s, a[0]), a[1..], b);
    }
  }

  lemma RunOn(s: System, answers: seq<Pid>, used: nat, more: nat)
    requires used + more <= |answers|
    ensures Run(s, Reaps(answers[..used + more])) == Run(Run(s, Reaps(answers[..used])), Reaps(answers[used..][..more]))
  {
    assert answers[..used + more] == answers[..used] + answers[used..][..more];
    ReapsAppend(answers[..used], answers[used..][..more]);
    RunAppend(s, Reaps(answers[..used]), Reaps(answers[used..][..more]));
  }

  /** The end of a child is always possible. */
  lemma {:induction false} ReapsPossible(s: System, answers: seq<Pid>, procMax: nat)
    ensures Possible(s, Reaps(answers), procMax)
    decreases |answers|
  {
    if answers != [] {
      if answers[0] == 0 {
        ReapsPossible(s, answers[1..], procMax);
        assert Reaps(answers) == Reaps(answers[1..]);
      } else {
        ReapsPossible(Next(s, Reap(answers[0])), answers[1..], procMax);
        assert Reaps(answers)[1..] == Reaps(answers[1..]);
      }
    }
  }

  lemma {:induction false} OneEventMore(s: System, events: seq<Event>, e: Event, procMax: nat)
    requires Possible(s, events, procMax) && Enabled(Run(s, events), e, procMax)
    ensures Possible(s, events + [e], procMax) && Run(s, events + [e]) == Next(Run(s, events), e)
    decreases |events|
  {
    if events == [] {
      assert events + [e] == [e] && [e][1..] == [];
    } else {
      assert (events + [e])[1..] == events[1..] + [e];
      OneEventMore(Next(s, events[0]), events[1..], e, procMax);
    }
  }

  lemma {:induction false} RunMore(s: System, answers: seq<Pid>, pid: Pid)
    ensures Run(s, Reaps(answers + [pid]))
         == if pid == 0 then Run(s, Reaps(answers)) else Next(Run(s, Reaps(answers)), Reap(pid))
    decreases |answers|
  {
    if answers == [] {
      assert (answers + [pid])[1..] == [];
      assert Reaps(answers + [pid]) == if pid == 0 then [] else [Reap(pid)];
      assert Run(s, []) == s;
      if pid != 0 {
        assert [Reap(pid)][1..] == [];
        assert Run(s, [Reap(pid)]) == Run(Next(s, Reap(pid)), []);
      }
    } else {
      assert (answers + [pid])[1..] == answers[1..] + [pid];
      if answers[0] == 0 {
        RunMore(s, answers[1..], pid);
        assert [] + Reaps(answers[1..] + [pid]) == Reaps(answers[1..] + [pid]);
        assert [] + Reaps(answers[1..]) == Reaps(answers[1..]);
      } else {
        var e := Reap(answers[0]);
        RunMore(Next(s, e), answers[1..], pid);
        assert ([e] + Reaps(answers[1..] + [pid]))[1..] == Reaps(answers[1..] + [pid]);
        assert ([e] + Reaps(answers[1..]))[1..] == Reaps(answers[1..]);
      }
    }
  }
}
