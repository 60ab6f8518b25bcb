/**
 * The cooler schedule: from start to stop, every hour begins with a work period of `wp` minutes. The state is
 * driven by polls; power commands may fail.
 */
module Cooler {
  /** The times of a cooler in minutes of the day, and the power to run it with. */
  datatype Times = Times(start: nat, stop: nat, wp: nat)

  /** The cooler is supposed to run. */
  predicate Wanted(times: Times, now: nat) {
    times.start <= now < times.stop && (now - times.start) % 60 < times.wp
  }

  /** Polls outside this range of times change nothing. */
  predicate Watched(times: Times, now: nat) {
    times.start < times.stop && times.start <= now
  }

  /** What a poll sends to the sensors: nothing, or a power to run the cooler with, 0 to switch it off. */
  datatype Command = Silence | SetPower(level: nat)

  /** The hours that start in the schedule, not counting the first. */
  function Intervals(times: Times): nat
    requires times.start < times.stop
  {
    (times.stop - times.start) / 60
  }

  class CoolerTime {
    var start: nat
    var stop: nat
    var wp: nat
    var power: nat
    var intervals: nat
    var isOn: bool

    constructor ()
      ensures !isOn
    {
      start, stop, wp, power, intervals, isOn := 0, 0, 0, 0, 0, false;
    }

    ghost function T(): Times
      reads this
    {
      Times(start, stop, wp)
    }

    /** The interval that the time falls into. */
    method FindInterval(now: nat) returns (found: bool, i: nat)
      requires start <= now
      ensures found <==> (now - start) / 60 <= intervals
      ensures found ==> i == (now - start) / 60
    {
      i := 0;
      while i <= intervals
        invariant i <= intervals + 1 && start + 60 * i <= now
        decreases intervals + 1 - i
      {
        if start + 60 * i <= now < start + 60 * i + 60 {
          return true, i;
        }
        i := i + 1;
      }
      found := false;
    }

    /**
     * check_cooler_schedule; `works` is whether the sensors answer a power command. Before the start nothing happens.
     * From then on a command is sent exactly if the cooler is not as it is wanted, with its power or with 0. A poll
     * whose command works, or that needs none, leaves the cooler running exactly if it is wanted; a command that fails
     * leaves the state as it was.
     */
    method CheckSchedule(testMode: bool, now: nat, works: bool) returns (command: Command)
      modifies this`intervals, this`isOn
      ensures intervals == if start < stop then Intervals(T()) else old(intervals)
      ensures stop <= start || now < start ==> isOn == old(isOn) && command == Silence
      ensures start < stop && start <= now && (works || testMode) ==> isOn == Wanted(T(), now)
      ensures start < stop && start <= now && !works && !testMode ==> isOn == old(isOn)
      ensures start < stop && start <= now ==>
        command == if testMode || old(isOn) == Wanted(T(), now) then Silence
                   else SetPower(if Wanted(T(), now) then power else 0)
      ensures isOn == After(T(), old(isOn), Poll(now, works || testMode))
    {
      command := Silence;
      if stop > start {
        intervals := (stop - start) / 60;
      } else {
        return;
      }
      if now < start {
        return;
      }
      if isOn {
        var powerOff := false;
        if now >= stop {
          powerOff := true;
        } else {
          var found, i := FindInterval(now);
          if found && now >= start + 60 * i + wp {
            powerOff := true;
          }
        }
        if powerOff {
          if testMode {
            isOn := false;
          } else {
            command := SetPower(0);
            if works {
              isOn := false;
            }
          }
        }
      } else {
        if now >= stop {
          return;
        }
        var found, i := FindInterval(now);
        if found && now < start + 60 * i + wp {
          if testMode {
            isOn := true;
          } else {
            command := SetPower(power);
            if works {
              isOn := true;
            }
          }
        }
      }
    }
  }

  // ----- whole runs -----

  /** A poll at a time of the day, and whether a power command would work. */
  datatype Poll = Poll(now: nat, works: bool)

  /** What one poll makes of the state. */
  function After(times: Times, on: bool, poll: Poll): bool {
    if Watched(times, poll.now) && poll.works then Wanted(times, poll.now) else on
  }

  function Run(times: Times, on: bool, polls: seq<Poll>): bool
    decreases |polls|
  {
    if polls == [] then on else Run(times, After(times, on, polls[0]), polls[1..])
  }

  /** How often the cooler is switched. */
  function Switches(times: Times, on: bool, polls: seq<Poll>): nat
    decreases |polls|
  {
    if polls == [] then 0
    else
      var next := After(times, on, polls[0]);
      (if next != on then 1 else 0) + Switches(times, next, polls[1..])
  }

  /** The polls of a day come in order, none before `from`. */
  predicate Ordered(polls: seq<Poll>, from: nat)
    decreases |polls|
  {
    polls == [] || (from <= polls[0].now && Ordered(polls[1..], polls[0].now))
  }

  /** The poll is watched and its command, if it needs one, works. */
  predicate Counts(times: Times, poll: Poll) {
    times.start < times.stop && times.start <= poll.now && poll.works
  }

  lemma {:induction false} RunCat(times: Times, on: bool, a: seq<Poll>, b: seq<Poll>)
    ensures Run(times, on, a + b) == Run(times, Run(times, on, a), b)
    decreases |a|
  {
    if a == [] {
      assert a + b == b;
    } else {
      assert (a + b)[0] == a[0] && (a + b)[1..] == a[1..] + b;
      RunCat(times, After(times, on, a[0]), a[1..], b);
    }
  }

  /** Polls that are not watched, or whose commands fail, leave the state as it was. */
  lemma {:induction false} NothingCounts(times: Times, on: bool, polls: seq<Poll>)
    requires forall i :: 0 <= i < |polls| ==> !Counts(times, polls[i])
    ensures Run(times, on, polls) == on
    decreases |polls|
  {
    if polls != [] {
      assert !Counts(times, polls[0]);
      NothingCounts(times, on, polls[1..]);
    }
  }

  /** After any polls the state is the one wanted at the last watched poll that worked, whatever failed after it. */
  lemma LastThatCounts(times: Times, on: bool, before: seq<Poll>, last: Poll, after: seq<Poll>)
    requires Counts(times, last) && forall i :: 0 <= i < |after| ==> !Counts(times, after[i])
    ensures Run(times, on, before + [last] + after) == Wanted(times, last.now)
  {
    RunCat(times, on, before + [last], after);
    RunCat(times, on, before, [last]);
    assert ([last])[1..] == [];
    NothingCounts(times, Run(times, on, before + [last]), after);
  }

  /** The poll that decides the state after a run, if there is one. */
  lemma Decided(times: Times, on: bool, polls: seq<Poll>) returns (k: int)
    ensures -1 <= k < |polls| && forall i :: k < i < |polls| ==> !Counts(times, polls[i])
    ensures k == -1 ==> Run(times, on, polls) == on
    ensures k >= 0 ==> Counts(times, polls[k]) && Run(times, on, polls) == Wanted(times, polls[k].now)
  {
    k := |polls| - 1;
    while k >= 0 && !Counts(times, polls[k])
      invariant -1 <= k < |polls| && forall i :: k < i < |polls| ==> !Counts(times, polls[i])
    {
      k := k - 1;
    }
    if k == -1 {
      NothingCounts(times, on, polls);
    } else {
      assert polls == polls[..k] + [polls[k]] + polls[k + 1..];
      LastThatCounts(times, on, polls[..k], polls[k], polls[k + 1..]);
    }
  }

  /** A poll that needs no command leaves the wanted state even if commands fail. */
  lemma LastPoll(times: Times, on: bool, polls: seq<Poll>, last: Poll)
    requires Watched(times, last.now) && (last.works || Run(times, on, polls) == Wanted(times, last.now))
    ensures Run(times, on, polls + [last]) == Wanted(times, last.now)
  {
    RunCat(times, on, polls, [last]);
    assert ([last])[1..] == [];
  }

  /** How many more switches there can be from a time on. */
  function Budget(times: Times, on: bool, from: nat): nat
    requires times.start < times.stop
  {
    if from >= times.stop then (if on then 1 else 0)
    else
      var since := if from < times.start then 0 else from - times.start;
      var later := Intervals(times) - since / 60;
      if on then 1 + 2 * later else 2 * (later + if since % 60 < times.wp then 1 else 0)
  }

  /** Waiting never raises the budget. */
  lemma BudgetFalls(times: Times, on: bool, from: nat, to: nat)
    requires times.start < times.stop && from <= to
    ensures Budget(times, on, to) <= Budget(times, on, from)
  {
    var a := if from < times.start then 0 else from - times.start;
    var b := if to < times.start then 0 else to - times.start;
    assert a / 60 <= b / 60;
    assert a / 60 == b / 60 ==> a % 60 <= b % 60;
  }

  /** Every switch is paid from the budget. */
  lemma SwitchPaid(times: Times, on: bool, poll: Poll)
    requires times.start < times.stop && After(times, on, poll) != on
    ensures Budget(times, After(times, on, poll), poll.now) + 1 <= Budget(times, on, poll.now)
  {
  }

  lemma {:induction false} SwitchesPaid(times: Times, on: bool, polls: seq<Poll>, from: nat)
    requires times.start < times.stop && Ordered(polls, from)
    ensures Switches(times, on, polls) <= Budget(times, on, from)
    decreases |polls|
  {
    hide Budget, After;
    if polls != [] {
      var next := After(times, on, polls[0]);
      BudgetFalls(times, on, from, polls[0].now);
      SwitchesPaid(times, next, polls[1..], polls[0].now);
      if next != on {
        SwitchPaid(times, on, polls[0]);
      }
    }
  }

  /** Over a day that begins with the cooler off, it is switched at most twice for every interval. */
  lemma SwitchesBounded(times: Times, polls: seq<Poll>)
    requires times.start < times.stop && Ordered(polls, 0)
    ensures Switches(times, false, polls) <= 2 * (Intervals(times) + 1)
  {
    SwitchesPaid(times, false, polls, 0);
  }

  // ----- polls at every minute -----

  function Min(a: nat, b: nat): nat {
    if a < b then a else b
  }

  /** The minutes before `end` of a day after whose poll the cooler runs, with all commands working. */
  function OnMinutes(times: Times, end: nat): nat {
    if end == 0 then 0 else OnMinutes(times, end - 1) + if OnAt(times, end - 1) then 1 else 0
  }

  /** The state after the polls of all minutes up to `now`. */
  predicate OnAt(times: Times, now: nat)
    decreases now
  {
    After(times, now > 0 && OnAt(times, now - 1), Poll(now, true))
  }

  lemma {:induction false} OnAtMeans(times: Times, now: nat)
    requires times.start < times.stop
    ensures OnAt(times, now) <==> Wanted(times, now)
    decreases now
  {
    if now > 0 {
      OnAtMeans(times, now - 1);
    }
  }

  /** The minutes of work periods among the first `n` minutes of the schedule. */
  function Worked(n: nat, wp: nat): nat {
    (n / 60) * Min(wp, 60) + Min(wp, n % 60)
  }

  lemma WorkedStep(n: nat, wp: nat)
    ensures Worked(n + 1, wp) == Worked(n, wp) + if n % 60 < wp then 1 else 0
  {
    var q, m := n / 60, Min(wp, 60);
    if n % 60 == 59 {
      assert (n + 1) / 60 == q + 1 && (n + 1) % 60 == 0;
      Distribute(q, m);
    } else {
      assert (n + 1) / 60 == q && (n + 1) % 60 == n % 60 + 1;
    }
  }

  lemma Distribute(q: nat, m: nat)
    ensures (q + 1) * m == q * m + m
  {
  }

  lemma {:induction false} OnMinutesUpTo(times: Times, end: nat)
    requires times.start < times.stop
    ensures OnMinutes(times, end) ==
      if end <= times.start then 0 else Worked(Min(end, times.stop) - times.start, times.wp)
    decreases end
  {
    hide Worked;
    WorkedNothing(times.wp);
    if end > 0 {
      OnMinutesUpTo(times, end - 1);
      OnAtMeans(times, end - 1);
      if times.start < end <= times.stop {
        WorkedStep(end - 1 - times.start, times.wp);
      }
    }
  }

  lemma WorkedNothing(wp: nat)
    ensures Worked(0, wp) == 0
  {
  }

  /** Polled every minute, the cooler runs for the work period of every full hour and of the rest. */
  lemma MinutesOfADay(times: Times, end: nat)
    requires times.start < times.stop <= end
    ensures OnMinutes(times, end) ==
      ((times.stop - times.start) / 60) * Min(times.wp, 60) + Min(times.wp, (times.stop - times.start) % 60)
  {
    OnMinutesUpTo(times, end);
  }
}
