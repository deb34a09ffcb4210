/** The guess at how many arguments an exec can take (`update_limit` of buildcmd.c). */
module BuildLimit {

  const SIZE_MAX: nat := 0xFFFF_FFFF_FFFF_FFFF

  type Size = n: nat | n <= SIZE_MAX

  /** What is known of the limit: the largest count that worked and the smallest that failed,
      0 for none. */
  datatype Known = Known(largest: Size, smallest: Size)

  function Learn(k: Known, success: bool, limit: Size): Known {
    if success then (if limit > k.largest then k.(largest := limit) else k)
    else (if limit < k.smallest || k.smallest == 0 then k.(smallest := limit) else k)
  }

  /** No success yet, or the record contradicts itself: no bisection. */
  predicate NoBracket(k: Known) {
    k.largest == 0 || k.smallest <= k.largest
  }

  /** The step before the clamp, in unbounded integers. */
  function Guess(k: Known, success: bool, limit: Size): int {
    if NoBracket(k) then
      if success then (if limit < SIZE_MAX then limit + 1 else limit) else limit / 2
    else
      var shift := (k.smallest - k.largest) / 2;
      if success then limit + (if shift != 0 then shift else 1)
      else limit - (if shift != 0 then shift else 1)
  }

  /** Progress must stay possible. */
  function Clamp(initialArgc: nat, guess: int): int {
    var g := if initialArgc != 0 && guess <= initialArgc + 1 then initialArgc + 1 else guess;
    if g == 0 then 1 else g
  }

  function NextLimit(initialArgc: nat, k: Known, success: bool, limit: Size): int {
    Clamp(initialArgc, Guess(Learn(k, success, limit), success, limit))
  }

  /** The arithmetic of `update_limit` neither wraps below zero nor above the largest size. */
  lemma NeverWraps(k: Known, success: bool, limit: Size)
    ensures 0 <= Guess(Learn(k, success, limit), success, limit) <= SIZE_MAX
  {
  }

  /** The limit always leaves room for one argument behind the initial ones. */
  lemma LeavesRoom(initialArgc: nat, k: Known, success: bool, limit: Size)
    requires initialArgc < SIZE_MAX
    ensures initialArgc + 1 <= NextLimit(initialArgc, k, success, limit) <= SIZE_MAX
  {
    NeverWraps(k, success, limit);
  }

  /** After a failure the limit goes down, as long as there is room to. */
  lemma FailureLowers(initialArgc: nat, k: Known, limit: Size)
    requires limit > initialArgc + 1
    ensures NextLimit(initialArgc, k, false, limit) < limit
  {
  }

  /** After a success with a bracket around the limit, the next guess stays inside it. */
  lemma SuccessStaysBelowFailure(k: Known, limit: Size)
    requires !NoBracket(Learn(k, true, limit))
    ensures Guess(Learn(k, true, limit), true, limit) <= k.smallest
  {
  }

  /** So a limit grows by one at most, but for a jump below a count known to fail. */
  lemma SuccessBound(initialArgc: nat, k: Known, limit: Size)
    requires initialArgc < limit
    ensures var next := NextLimit(initialArgc, k, true, limit); next <= limit + 1 || next <= k.smallest
  {
    if !NoBracket(Learn(k, true, limit)) {
      SuccessStaysBelowFailure(k, limit);
    }
  }

  /** The last answer set this end of the bracket. */
  predicate JustLearned(k: Known, success: bool, limit: Size) {
    !NoBracket(k) && limit == if success then k.largest else k.smallest
  }

  /** Inside a bracket the limit is found by bisection: whatever the answer to the guess, the next
      bracket is at most half as wide, and it is the guess that set its end. */
  lemma GuessBisects(k: Known, success: bool, limit: Size, answer: bool)
    requires JustLearned(k, success, limit) && k.smallest - k.largest >= 2
    ensures var guess := Guess(k, success, limit);
      && k.largest < guess < k.smallest
      && var next := Learn(k, answer, guess);
         && JustLearned(next, answer, guess)
         && next.smallest - next.largest <= (k.smallest - k.largest + 1) / 2
  {
  }

  /** The limits tried one after another while every answer is a failure. */
  function AfterFailures(initialArgc: nat, k: Known, limit: Size, n: nat): (Known, int)
    requires initialArgc < SIZE_MAX
    decreases n
  {
    if n == 0 then (k, limit)
    else
      LeavesRoom(initialArgc, k, false, limit);
      AfterFailures(initialArgc, Learn(k, false, limit), NextLimit(initialArgc, k, false, limit), n - 1)
  }

  function Power(n: nat): (p: nat)
    ensures p > 0
  {
    if n == 0 then 1 else 2 * Power(n - 1)
  }

  /** As long as nothing has worked, each failure halves the limit, down to one argument. */
  lemma {:induction false} FailuresHalve(initialArgc: nat, k: Known, limit: Size, n: nat)
    requires initialArgc < SIZE_MAX && k.largest == 0
    ensures var (last, next) := AfterFailures(initialArgc, k, limit, n);
      last.largest == 0 && (next <= initialArgc + 1 || next * Power(n) <= limit)
    decreases n
  {
    if n > 0 {
      LeavesRoom(initialArgc, k, false, limit);
      var next := NextLimit(initialArgc, k, false, limit);
      FailuresHalve(initialArgc, Learn(k, false, limit), next, n - 1);
      var end := AfterFailures(initialArgc, k, limit, n).1;
      if end > initialArgc + 1 {
        Doubled(end, Power(n - 1), next);
      }
    }
  }

  lemma Doubled(end: nat, power: nat, next: nat)
    requires end * power <= next && power > 0
    ensures end <= next && end * (2 * power) <= 2 * next
  {
    assert end * power == end + end * (power - 1) >= end;
    assert end * (2 * power) == 2 * (end * power);
  }

  // ---------------------------------------------------------------- how many tries

  /** A bound on the calls still to come: `left` more rounds of progress, with limits up to `most`
      each, and the failures that bring the present limit down. */
  function Ahead(left: nat, most: nat, limit: nat): nat {
    left * most + limit
  }

  lemma ProgressPays(left: nat, left': nat, most: nat, limit: nat, limit': nat)
    requires left' < left && limit' <= most && limit > 0
    ensures Ahead(left', most, limit') < Ahead(left, most, limit)
  {
    assert left' * most + most == (left' + 1) * most <= left * most;
  }

  lemma FailurePays(left: nat, most: nat, limit: nat, limit': nat)
    requires limit' < limit
    ensures Ahead(left, most, limit') < Ahead(left, most, limit)
  {
  }

  lemma MostAtFirst(rounds: nat, start: nat, limit: nat)
    requires rounds > 0 && limit <= start
    ensures Ahead(rounds, start + rounds, limit) <= MostTries(rounds - 1, start)
  {
  }

  lemma MoreThanLimit(left: nat, most: nat, limit: nat)
    ensures Ahead(left, most, limit) >= limit
  {
  }

  /** Calls of exec for `waiting` arguments: no more than this, with `start` the number of all
      arguments and the NULL behind them, or the smallest count known to fail if that is larger. */
  function MostTries(waiting: nat, start: nat): nat {
    Ahead(waiting + 1, start + waiting + 1, start)
  }
}
