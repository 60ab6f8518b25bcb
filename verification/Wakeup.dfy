/**
 * Setting the coolers' times while the worker polls them: any number of request threads write the settings and
 * then set the wakeup flag; the worker reads the settings, works, and sleeps second by second, looking at the
 * flag. Every step below is one critical section or what lies between two of them.
 */
module Wakeup {
  type Thread = nat

  /** Where the worker stands in its loop: in front of reading the settings, behind it, or asleep. */
  datatype Worker = AtRead | Busy | Asleep(left: nat)

  /**
   * Settings are told apart by the number of writes that made them. A thread is in `writing` from its write to
   * its wakeup. `announced` is the newest write whose wakeup is complete.
   */
  datatype State = State(version: nat, seen: nat, signal: bool, worker: Worker,
    writing: map<Thread, nat>, announced: nat)

  datatype Step =
    | Write(thread: Thread)
    | Wake(thread: Thread)
    | GiveUp(thread: Thread)
    | Work

  predicate Enabled(s: State, step: Step) {
    match step
    case Write(t) => t !in s.writing
    case Wake(t) => t in s.writing
    case GiveUp(t) => t in s.writing
    case Work => true
  }

  function Max(a: nat, b: nat): nat {
    if a < b then b else a
  }

  /** `period` is how many seconds the worker sleeps; it does not run at all with a period of 0. */
  function Apply(s: State, step: Step, period: nat): State
    requires Enabled(s, step) && period > 0
  {
    match step
    case Write(t) => s.(version := s.version + 1, writing := s.writing[t := s.version + 1])
    case Wake(t) => s.(signal := true, announced := Max(s.announced, s.writing[t]), writing := s.writing - {t})
    case GiveUp(t) => s.(writing := s.writing - {t})
    case Work =>
      match s.worker
      case AtRead => s.(seen := s.version, worker := Busy)
      case Busy => s.(worker := Asleep(period))
      case Asleep(left) =>
        if s.signal then s.(signal := false, worker := AtRead)
        else if left <= 1 then s.(worker := AtRead)
        else s.(worker := Asleep(left - 1))
  }

  predicate Possible(s: State, steps: seq<Step>, period: nat)
    requires period > 0
    decreases |steps|
  {
    steps == [] || (Enabled(s, steps[0]) && Possible(Apply(s, steps[0], period), steps[1..], period))
  }

  function Run(s: State, steps: seq<Step>, period: nat): State
    requires period > 0 && Possible(s, steps, period)
    decreases |steps|
  {
    if steps == [] then s else Run(Apply(s, steps[0], period), steps[1..], period)
  }

  /** The worker has just been started and nothing has been written yet. */
  const START := State(0, 0, false, AtRead, map[], 0)

  /** No wakeup is lost: what has been announced has been read, or is signalled, or is about to be read. */
  predicate NothingLost(s: State) {
    s.announced <= s.seen || s.signal || s.worker.AtRead?
  }

  predicate Inv(s: State, period: nat) {
    && NothingLost(s) && s.seen <= s.version && s.announced <= s.version
    && (forall t | t in s.writing :: s.writing[t] <= s.version)
    && (s.worker.Asleep? ==> 1 <= s.worker.left <= period)
  }

  lemma StepKeeps(s: State, step: Step, period: nat)
    requires period > 0 && Inv(s, period) && Enabled(s, step)
    ensures Inv(Apply(s, step, period), period)
  {
  }

  lemma {:induction false} RunKeeps(s: State, steps: seq<Step>, period: nat)
    requires period > 0 && Inv(s, period) && Possible(s, steps, period)
    ensures Inv(Run(s, steps, period), period)
    decreases |steps|
  {
    hide Inv, Apply;
    if steps != [] {
      StepKeeps(s, steps[0], period);
      RunKeeps(Apply(s, steps[0], period), steps[1..], period);
    }
  }

  /** In every interleaving of writers and worker, no wakeup is ever lost. */
  lemma NeverLost(steps: seq<Step>, period: nat)
    requires period > 0 && Possible(START, steps, period)
    ensures NothingLost(Run(START, steps, period))
  {
    RunKeeps(START, steps, period);
  }

  // ----- how soon a change is seen -----

  /** The steps that the worker takes in a run. */
  function Worked(steps: seq<Step>): nat
    decreases |steps|
  {
    if steps == [] then 0 else (if steps[0].Work? then 1 else 0) + Worked(steps[1..])
  }

  /** The steps that the worker needs until it has seen a version. */
  function Needed(s: State, version: nat, period: nat): nat {
    if version <= s.seen then 0
    else
      match s.worker
      case AtRead => 1
      case Asleep(left) => if s.signal || left <= 1 then 2 else left + 1
      case Busy => if s.signal then 3 else period + 2
  }

  lemma NeededFalls(s: State, step: Step, version: nat, period: nat)
    requires period > 0 && Inv(s, period) && Enabled(s, step) && version <= s.version
    ensures Needed(Apply(s, step, period), version, period) <= Needed(s, version, period)
    ensures step.Work? && Needed(s, version, period) > 0 ==>
      Needed(Apply(s, step, period), version, period) < Needed(s, version, period)
  {
  }

  lemma {:induction false} SeenInTime(s: State, steps: seq<Step>, version: nat, period: nat)
    requires period > 0 && Inv(s, period) && Possible(s, steps, period) && version <= s.version
    requires Worked(steps) >= Needed(s, version, period)
    ensures version <= Run(s, steps, period).seen
    decreases |steps|
  {
    hide Inv, Apply, Needed;
    if steps == [] {
      NothingNeeded(s, version, period);
    } else {
      StepKeeps(s, steps[0], period);
      NeededFalls(s, steps[0], version, period);
      VersionGrows(s, steps[0], period);
      SeenInTime(Apply(s, steps[0], period), steps[1..], version, period);
    }
  }

  lemma NothingNeeded(s: State, version: nat, period: nat)
    requires Needed(s, version, period) == 0
    ensures version <= s.seen
  {
  }

  lemma VersionGrows(s: State, step: Step, period: nat)
    requires period > 0 && Enabled(s, step)
    ensures s.version <= Apply(s, step, period).version
  {
  }

  /**
   * Whatever the other threads do meanwhile: an announced change is read after at most three steps of the
   * worker, and a change that is not announced when the sleep is over.
   */
  lemma ChangesAreSeen(before: seq<Step>, after: seq<Step>, period: nat)
    requires period > 0 && Possible(START, before, period) && Possible(Run(START, before, period), after, period)
    ensures var (s, t) := (Run(START, before, period), Run(Run(START, before, period), after, period));
      && (Worked(after) >= 3 ==> s.announced <= t.seen)
      && (Worked(after) >= period + 2 ==> s.version <= t.seen)
  {
    var s := Run(START, before, period);
    RunKeeps(START, before, period);
    if Worked(after) >= 3 {
      SeenInTime(s, after, s.announced, period);
    }
    if Worked(after) >= period + 2 {
      SeenInTime(s, after, s.version, period);
    }
  }

  /** No thread wakes the worker. */
  predicate Quiet(steps: seq<Step>) {
    forall i :: 0 <= i < |steps| ==> !steps[i].Wake?
  }

  /** Unless it is woken, the worker sleeps all its seconds: it does not read the settings before. */
  lemma {:induction false} SleepsOn(s: State, steps: seq<Step>, period: nat)
    requires period > 0 && Possible(s, steps, period) && Quiet(steps)
    requires s.worker.Asleep? && !s.signal && Worked(steps) < s.worker.left
    ensures var t := Run(s, steps, period);
      t.worker == Asleep(s.worker.left - Worked(steps)) && !t.signal && t.seen == s.seen
    decreases |steps|
  {
    if steps != [] {
      assert !steps[0].Wake?;
      SleepsOn(Apply(s, steps[0], period), steps[1..], period);
    }
  }

  /** So from one reading to the next there are `period` seconds of sleep if nobody wakes the worker. */
  lemma WholePeriod(s: State, steps: seq<Step>, period: nat)
    requires period > 0 && s.worker.Busy? && !s.signal && Possible(s, [Work] + steps, period) && Quiet(steps)
    requires Worked(steps) < period
    ensures Run(s, [Work] + steps, period).seen == s.seen && Run(s, [Work] + steps, period).worker.Asleep?
  {
    assert ([Work] + steps)[1..] == steps;
    SleepsOn(Apply(s, Work, period), steps, period);
  }
}
