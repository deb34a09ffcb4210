/** How many words go out at once, as long as the kernel takes every command line. */
module XargsBatches {
  import opened Bytes
  import opened BuildArgs
  import opened BuildCmd

  /** No line of -L ends between the words from `a` to `b`. */
  ghost predicate InOneLine(lineEnds: set<nat>, a: nat, b: nat) {
    forall i: nat | a <= i && i + 1 < b :: i !in lineEnds
  }

  /** Why the words from `a` to `b` are not followed by another on their command line: a line ends,
      no more words may be on it, or the next one is too long. With -I, or with -x and one of -L and
      -n, the last is no reason: xargs gives up rather than end a command line early. */
  predicate CutHere(ctl: Control, command: seq<Text>, words: seq<Text>, lineEnds: set<nat>, a: nat, b: nat) {
    || (b > 0 && b - 1 in lineEnds)
    || |command| + (b - a) == ctl.maxArgCount
    || (ctl.argsPerExec != 0 && b - a == ctl.argsPerExec)
    || (a <= b < |words| && |Flat(command + words[a..b + 1])| > ctl.argMax && !ctl.replacing
        && !(ctl.exitIfSizeExceeded && (ctl.linesPerExec != 0 || ctl.argsPerExec != 0)))
  }

  /** Every exec carries as many words as its line has or its limits allow. */
  ghost predicate Full(ctl: Control, command: seq<Text>, words: seq<Text>, lineEnds: set<nat>, log: seq<Exec>) {
    log == [] ||
    var before := log[..|log| - 1];
    var a, b := |Conveyed(before)|, |Conveyed(log)|;
    && Full(ctl, command, words, lineEnds, before)
    && InOneLine(lineEnds, a, b) && CutHere(ctl, command, words, lineEnds, a, b)
  }

  /** Every exec but the last one does. */
  ghost predicate Packed(ctl: Control, command: seq<Text>, words: seq<Text>, lineEnds: set<nat>, log: seq<Exec>) {
    log == [] ||
    var before := log[..|log| - 1];
    && Full(ctl, command, words, lineEnds, before)
    && InOneLine(lineEnds, |Conveyed(before)|, |Conveyed(log)|)
  }

  /** The execs up to the word `a`, none of which could have taken more. */
  ghost predicate FullUpto(ctl: Control, command: seq<Text>, words: seq<Text>, lineEnds: set<nat>, log: seq<Exec>,
                           a: nat)
  {
    a <= |words| && Conveyed(log) == words[..a] && Full(ctl, command, words, lineEnds, log)
  }

  lemma OneMore(ctl: Control, command: seq<Text>, words: seq<Text>, lineEnds: set<nat>, log: seq<Exec>, a: nat, b: nat)
    requires a <= b <= |words| && FullUpto(ctl, command, words, lineEnds, log, a) && InOneLine(lineEnds, a, b)
    ensures var more := log + [Exec(command, words[a..b])];
      && Packed(ctl, command, words, lineEnds, more)
      && (CutHere(ctl, command, words, lineEnds, a, b) ==> FullUpto(ctl, command, words, lineEnds, more, b))
  {
    hide CutHere, InOneLine, Conveyed;
    var e := Exec(command, words[a..b]);
    ConveyedSnoc(log, e);
    assert words[..a] + words[a..b] == words[..b];
    assert (log + [e])[..|log|] == log;
  }

  lemma FullIsPacked(ctl: Control, command: seq<Text>, words: seq<Text>, lineEnds: set<nat>, log: seq<Exec>)
    requires Full(ctl, command, words, lineEnds, log)
    ensures Packed(ctl, command, words, lineEnds, log)
  {
  }

  /** After `n` words the last ones are waiting, all in one line, and the others are sent. */
  ghost predicate Running(ctl: Control, command: seq<Text>, words: seq<Text>, lineEnds: set<nat>, n: nat, b: Batch) {
    var a := n - |b.left|;
    && 0 <= a <= n <= |words| && b.left == words[a..n] && InOneLine(lineEnds, a, n)
    && FullUpto(ctl, command, words, lineEnds, b.execs, a)
  }

  /** And another word may go with them. */
  predicate Open(lineEnds: set<nat>, n: nat, b: Batch) {
    b.left == [] || n == 0 || n - 1 !in lineEnds
  }

  lemma SendIfRunning(ctl: Control, command: seq<Text>, words: seq<Text>, lineEnds: set<nat>, n: nat, b: Batch,
                      due: bool)
    requires Running(ctl, command, words, lineEnds, n, b)
    requires due ==> CutHere(ctl, command, words, lineEnds, n - |b.left|, n)
    ensures Running(ctl, command, words, lineEnds, n, SendIf(due, command, b))
  {
    hide FullUpto;
    if due {
      OneMore(ctl, command, words, lineEnds, b.execs, n - |b.left|, n);
      assert words[n..n] == [];
    }
  }

  lemma {:induction false} BatchesRunning(ctl: Control, command: seq<Text>, words: seq<Text>, lineEnds: set<nat>,
                                          n: nat)
    requires n <= |words|
    ensures var b := Batches(ctl, command, words, lineEnds, n);
      Running(ctl, command, words, lineEnds, n, b) && Open(lineEnds, n, b)
  {
    if n == 0 {
      assert words[..0] == [] && words[0..0] == [];
    } else {
      hide Running, Collected;
      BatchesRunning(ctl, command, words, lineEnds, n - 1);
      CollectedRunning(ctl, command, words, lineEnds, n - 1, Batches(ctl, command, words, lineEnds, n - 1));
    }
  }

  lemma MoreWaiting(ctl: Control, command: seq<Text>, words: seq<Text>, lineEnds: set<nat>, n: nat, b: Batch)
    requires n < |words| && Running(ctl, command, words, lineEnds, n, b) && Open(lineEnds, n, b)
    ensures Running(ctl, command, words, lineEnds, n + 1, Batch(b.execs, b.left + [words[n]]))
  {
    hide FullUpto;
  }

  /** The next word is too long to go with what is waiting. */
  lemma TooLong(ctl: Control, command: seq<Text>, words: seq<Text>, lineEnds: set<nat>, n: nat, b: Batch)
    requires n < |words| && Running(ctl, command, words, lineEnds, n, b)
    requires !Strict(ctl) && |Flat(command + b.left)| + |words[n]| + 1 > ctl.argMax
    ensures CutHere(ctl, command, words, lineEnds, n - |b.left|, n)
  {
    hide FullUpto, Flat;
    FlatSnoc(command + b.left, words[n]);
    assert command + b.left + [words[n]] == command + words[n - |b.left|..n + 1];
  }

  /** One word more. */
  lemma CollectedRunning(ctl: Control, command: seq<Text>, words: seq<Text>, lineEnds: set<nat>, n: nat, b: Batch)
    requires n < |words| && Running(ctl, command, words, lineEnds, n, b) && Open(lineEnds, n, b)
    ensures var c := Collected(ctl, command, b, words[n], n in lineEnds);
      Running(ctl, command, words, lineEnds, n + 1, c) && Open(lineEnds, n + 1, c)
  {
    hide Running, Flat;
    var early := !Strict(ctl) && |Flat(command + b.left)| + |words[n]| + 1 > ctl.argMax;
    if early {
      TooLong(ctl, command, words, lineEnds, n, b);
    }
    SendIfRunning(ctl, command, words, lineEnds, n, b, early);
    var first := SendIf(early, command, b);
    MoreWaiting(ctl, command, words, lineEnds, n, first);
    var waiting := Batch(first.execs, first.left + [words[n]]);
    var due := CountReached(ctl, |command|, |waiting.left|);
    SendIfRunning(ctl, command, words, lineEnds, n + 1, waiting, due);
    SendIfRunning(ctl, command, words, lineEnds, n + 1, SendIf(due, command, waiting), n in lineEnds);
  }

  /** With what is waiting sent at the end of the input, or not. */
  lemma AllPacked(ctl: Control, command: seq<Text>, words: seq<Text>, lineEnds: set<nat>)
    ensures var b := Batches(ctl, command, words, lineEnds, |words|);
      && Packed(ctl, command, words, lineEnds, b.execs)
      && Packed(ctl, command, words, lineEnds, b.execs + [Exec(command, b.left)])
  {
    var n := |words|;
    var b := Batches(ctl, command, words, lineEnds, n);
    BatchesRunning(ctl, command, words, lineEnds, n);
    FullIsPacked(ctl, command, words, lineEnds, b.execs);
    OneMore(ctl, command, words, lineEnds, b.execs, n - |b.left|, n);
  }

  /** However the run ends. */
  lemma RunPacked(ctl: Control, command: seq<Text>, words: seq<Text>, lineEnds: set<nat>, before: seq<Exec>,
                  left: seq<Text>, log: seq<Exec>)
    requires Batch(before, left) == Batches(ctl, command, words, lineEnds, |words|)
    requires log == before || log == before + [Exec(command, left)]
    ensures Packed(ctl, command, words, lineEnds, log)
  {
    AllPacked(ctl, command, words, lineEnds);
  }
}
