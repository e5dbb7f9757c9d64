/** The sweep over every check script: which ones count as failed, and when it
    gives up because the target is gone. */
module Sweep {
  /** How one script ended: killed (hung after its summary, or out of time), or
      exited on its own, its output matching the target-gone pattern or not. */
  datatype Ending = Killed(hungAtExit: bool) | Exited(code: int, targetGone: bool)

  datatype Tally = Tally(ran: nat, failed: nat, timedout: nat, stuck: nat, stoppedEarly: bool, result: int)

  predicate Unreachable(e: Ending) {
    e.Exited? && (e.code == 3 || (e.code != 0 && e.targetGone))
  }

  predicate Hung(e: Ending) {
    e == Killed(true)
  }

  predicate TimedOut(e: Ending) {
    e == Killed(false)
  }

  predicate Nonzero(e: Ending) {
    e.Exited? && e.code != 0
  }

  predicate Passed(e: Ending) {
    e.Exited? && e.code == 0
  }

  /** The script at `j` is the nearest one before `i` that was not killed. */
  predicate NearestBefore(s: seq<Ending>, j: nat, i: nat) {
    j < i <= |s| && s[j].Exited? && forall k | j < k < i :: s[k].Killed?
  }

  /** Two unreachable scripts in a row end at `i`; killed ones in between neither
      count nor break the row. */
  predicate GivesUpAt(s: seq<Ending>, i: nat) {
    i < |s| && Unreachable(s[i]) && exists j | 0 <= j < i :: NearestBefore(s, j, i) && Unreachable(s[j])
  }

  /** What ends a sweep, in exit codes: a script that left with code 3, or with any code but
      0 and the target gone from its output, after another such, with only killed scripts
      in between. */
  lemma GivesUpOnCodes(before: seq<Ending>, first: Ending, killed: seq<Ending>, last: Ending)
    requires first.Exited? && forall e | e in killed :: e.Killed?
    ensures var s := before + [first] + killed + [last];
            GivesUpAt(s, |s| - 1) <==>
            && (first.code == 3 || (first.code != 0 && first.targetGone))
            && last.Exited? && (last.code == 3 || (last.code != 0 && last.targetGone))
  {
    var s := before + [first] + killed + [last];
    var at := |before|;
    assert forall k | at < k < |s| - 1 :: s[k] in killed;
    assert s[at] == first && s[|s| - 1] == last && NearestBefore(s, at, |s| - 1);
    var n := |s| - 1;
    assert forall j | 0 <= j < n && NearestBefore(s, j, n) :: j == at;
  }

  /** The scripts of `s` for which `p` holds. */
  function Count(s: seq<Ending>, p: Ending -> bool): (n: nat)
    ensures n == 0 <==> forall i | 0 <= i < |s| :: !p(s[i])
  {
    if s == [] then 0 else Count(s[..|s| - 1], p) + if p(s[|s| - 1]) then 1 else 0
  }

  /** The unreachable scripts in a row at the end of `s`, killed ones skipped. */
  function Streak(s: seq<Ending>): (n: nat) {
    if s == [] then 0
    else
      var e := s[|s| - 1];
      if e.Killed? then Streak(s[..|s| - 1])
      else if Unreachable(e) then Streak(s[..|s| - 1]) + 1
      else 0
  }

  lemma {:induction false} StreakIsNearest(s: seq<Ending>, i: nat)
    requires i <= |s|
    ensures Streak(s[..i]) > 0 <==> exists j | 0 <= j < i :: NearestBefore(s, j, i) && Unreachable(s[j])
  {
    if i > 0 {
      assert s[..i][..i - 1] == s[..i - 1];
      StreakIsNearest(s, i - 1);
      if s[i - 1].Killed? {
        if j: nat :| NearestBefore(s, j, i) && Unreachable(s[j]) {
          assert NearestBefore(s, j, i - 1);
        }
        if j: nat :| NearestBefore(s, j, i - 1) && Unreachable(s[j]) {
          assert NearestBefore(s, j, i);
        }
      } else {
        assert NearestBefore(s, i - 1, i);
      }
    }
  }

  /** Giving up, as the counter of the loop sees it. */
  lemma GivesUpByStreak(s: seq<Ending>, i: nat)
    requires i < |s|
    ensures GivesUpAt(s, i) <==> Unreachable(s[i]) && Streak(s[..i]) > 0
    ensures Streak(s[..i + 1]) ==
            if s[i].Killed? then Streak(s[..i]) else if Unreachable(s[i]) then Streak(s[..i]) + 1 else 0
  {
    StreakIsNearest(s, i);
    assert s[..i + 1][..i] == s[..i];
  }

  lemma CountStep(s: seq<Ending>, i: nat, p: Ending -> bool)
    requires i < |s|
    ensures Count(s[..i + 1], p) == Count(s[..i], p) + if p(s[i]) then 1 else 0
  {
    assert s[..i + 1][..i] == s[..i];
  }

  function Failures(s: seq<Ending>): (n: nat) {
    Count(s, Hung) + Count(s, TimedOut) + Count(s, Nonzero)
  }

  lemma NoFailures(s: seq<Ending>)
    ensures Failures(s) == 0 <==> forall i | 0 <= i < |s| :: Passed(s[i])
  {
    assert forall e :: Passed(e) <==> !Hung(e) && !TimedOut(e) && !Nonzero(e);
  }

  lemma {:induction false} CountIsSize(s: seq<Ending>, p: Ending -> bool, at: set<nat>)
    requires forall i: nat :: i in at <==> i < |s| && p(s[i])
    ensures Count(s, p) == |at|
  {
    if s == [] {
      assert at == {};
    } else {
      var n := |s| - 1;
      CountIsSize(s[..n], p, at - {n});
    }
  }

  /** The counters, in endings: killed after the summary, killed out of time, exited with
      any code but 0. */
  lemma CountersMean(s: seq<Ending>, hung: set<nat>, late: set<nat>, bad: set<nat>)
    requires forall i: nat :: i in hung <==> i < |s| && s[i] == Killed(true)
    requires forall i: nat :: i in late <==> i < |s| && s[i] == Killed(false)
    requires forall i: nat :: i in bad <==> i < |s| && s[i].Exited? && s[i].code != 0
    ensures Count(s, Hung) == |hung| && Count(s, TimedOut) == |late| && Count(s, Nonzero) == |bad|
  {
    CountIsSize(s, Hung, hung);
    CountIsSize(s, TimedOut, late);
    CountIsSize(s, Nonzero, bad);
  }

  /** Run the scripts in turn, `s` being how each would end. */
  method Run(s: seq<Ending>, keepGoing: bool) returns (t: Tally)
    ensures t.ran <= |s|
    ensures t.stoppedEarly <==> !keepGoing && exists i | 0 <= i < |s| :: GivesUpAt(s, i)
    ensures t.stoppedEarly ==> t.ran > 0 && GivesUpAt(s, t.ran - 1) && forall i | 0 <= i < t.ran - 1 :: !GivesUpAt(s, i)
    ensures !t.stoppedEarly ==> t.ran == |s|
    ensures t.stuck == Count(s[..t.ran], Hung)
    ensures t.timedout == Count(s[..t.ran], TimedOut)
    ensures t.failed == t.stuck + t.timedout + Count(s[..t.ran], Nonzero)
    ensures t.result == t.failed
    ensures t.result == 0 <==> t.ran == |s| && forall i | 0 <= i < |s| :: s[i].Exited? && s[i].code == 0
  {
    var failed, timedout, stuck, unreachable := 0, 0, 0, 0;
    Nothing(s);
    hide Count, Streak, GivesUpAt;
    for i := 0 to |s|
      invariant stuck == Count(s[..i], Hung) && timedout == Count(s[..i], TimedOut)
      invariant failed == stuck + timedout + Count(s[..i], Nonzero)
      invariant unreachable == Streak(s[..i])
      invariant !keepGoing ==> forall k | 0 <= k < i :: !GivesUpAt(s, k)
    {
      CountStep(s, i, Hung);
      CountStep(s, i, TimedOut);
      CountStep(s, i, Nonzero);
      GivesUpByStreak(s, i);
      match s[i]
      case Killed(hungAtExit) =>
        if hungAtExit {
          stuck, failed := stuck + 1, failed + 1;
        } else {
          timedout, failed := timedout + 1, failed + 1;
        }
      case Exited(code, targetGone) =>
        if code != 0 {
          failed := failed + 1;
        }
        unreachable := if code == 3 || (code != 0 && targetGone) then unreachable + 1 else 0;
        if unreachable >= 2 && !keepGoing {
          return Tally(i + 1, failed, timedout, stuck, true, if failed != 0 then failed else 1);
        }
    }
    assert s[..|s|] == s;
    NoFailures(s);
    t := Tally(|s|, failed, timedout, stuck, false, failed);
  }

  lemma Nothing(s: seq<Ending>)
    ensures Count(s[..0], Hung) == Count(s[..0], TimedOut) == Count(s[..0], Nonzero) == Streak(s[..0]) == 0
  {
  }
}
