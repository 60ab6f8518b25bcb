/** How runs of jsmn over token arrays of different capacity, and without one, relate to each other. */
module JsmnRuns {
  import opened Ascii
  import opened JsmnSpec

  /** More capacity changes a step only where there was no token left. */
  lemma StepCapacity(links: bool, js: Bytes, c1: nat, c2: nat, s: State)
    requires Valid(s) && Active(js, s.pos) && c1 <= c2
    ensures Step(links, js, c1, s) != Stop(NoMem) ==> Step(links, js, c2, s) == Step(links, js, c1, s)
    ensures Step(links, js, c1, s) == Stop(NoMem) ==> |s.toks| >= c1
  {
  }

  lemma {:induction false} Resume(links: bool, js: Bytes, c1: nat, c2: nat, s: State)
    requires Valid(s) && c1 <= c2
    ensures var (r, s1) := Run(links, js, c1, s);
      Run(links, js, c2, s) == if r == Failed(NoMem) then Run(links, js, c2, s1) else (r, s1)
    decreases |js| - s.pos
  {
    if Active(js, s.pos) {
      StepCapacity(links, js, c1, c2, s);
      match Step(links, js, c1, s)
      case Stop(_) =>
      case Next(s') => Resume(links, js, c1, c2, s');
    }
  }

  predicate Growing(caps: seq<nat>) {
    forall i, j :: 0 <= i < j < |caps| ==> caps[i] <= caps[j]
  }

  /** Calls jsmn_parse with the first capacity, and again with the next one as long as it reports NOMEM. */
  function Restarts(links: bool, js: Bytes, caps: seq<nat>, s: State): (r: (Result, State))
    requires Valid(s) && |caps| > 0
  {
    var (r, s1) := Run(links, js, caps[0], s);
    if r == Failed(NoMem) && |caps| > 1 then Restarts(links, js, caps[1..], s1) else (r, s1)
  }

  /** However often it was interrupted by NOMEM, the parse ends as one call with the last array would have. */
  lemma {:induction false} RestartsAreOneRun(links: bool, js: Bytes, caps: seq<nat>, s: State)
    requires Valid(s) && |caps| > 0 && Growing(caps)
    ensures Restarts(links, js, caps, s) == Run(links, js, caps[|caps| - 1], s)
    decreases |caps|
  {
    hide Run;
    Resume(links, js, caps[0], caps[|caps| - 1], s);
    var (r, s1) := Run(links, js, caps[0], s);
    if r == Failed(NoMem) && |caps| > 1 {
      RestartsAreOneRun(links, js, caps[1..], s1);
    }
  }

  /** The counting step moves like the real one as long as that does not stop. */
  lemma StepCounts(links: bool, js: Bytes, cap: nat, s: State, toknext: nat, super: int)
    requires Valid(s) && Active(js, s.pos)
    ensures var c := CountStep(js, toknext, CountState(s.pos, super, |s.toks|));
      match Step(links, js, cap, s)
      case Next(s') => c.CountNext? && c.state.pos == s'.pos && c.state.count == |s'.toks|
      case Stop(NoMem) => |s.toks| >= cap && (c.CountNext? ==> c.state.count == |s.toks| + 1)
      case Stop(e) => c == CountStop(e) || e == Inval
  {
  }

  lemma {:induction false} CountOnlyGrows(js: Bytes, toknext: nat, s: CountState)
    ensures CountRun(js, toknext, s).0.Done? ==> CountRun(js, toknext, s).0.count >= s.count
    decreases |js| - s.pos
  {
    if Active(js, s.pos) {
      match CountStep(js, toknext, s)
      case CountStop(_) =>
      case CountNext(s') => CountOnlyGrows(js, toknext, s');
    }
  }

  /** A successful run needed exactly the tokens that it returns. */
  lemma {:induction false} RunCounts(links: bool, js: Bytes, cap: nat, s: State, toknext: nat, super: int)
    requires Valid(s) && |s.toks| <= cap
    requires Run(links, js, cap, s).0.Done?
    ensures var (r, s1) := Run(links, js, cap, s);
      r.count == |s1.toks| <= cap
      && |s.toks| <= r.count
      && CountRun(js, toknext, CountState(s.pos, super, |s.toks|)).0 == r
    decreases |js| - s.pos
  {
    if Active(js, s.pos) {
      StepCounts(links, js, cap, s, toknext, super);
      var s' := Step(links, js, cap, s).state;
      var c := CountStep(js, toknext, CountState(s.pos, super, |s.toks|)).state;
      RunCounts(links, js, cap, s', toknext, c.super);
    }
  }

  lemma {:induction false} TooSmall(links: bool, js: Bytes, cap: nat, c: nat, s: State)
    requires Valid(s) && |s.toks| <= c <= cap
    requires Run(links, js, cap, s).0.Done? && c < Run(links, js, cap, s).0.count
    ensures Run(links, js, c, s).0 == Failed(NoMem)
    decreases |js| - s.pos
  {
    assert Active(js, s.pos);
    StepCapacity(links, js, c, cap, s);
    match Step(links, js, c, s)
    case Stop(_) =>
    case Next(s') =>
      StepCounts(links, js, c, s, 0, -1);
      TooSmall(links, js, cap, c, s');
  }

  /** Capacity and counting agree: `r` tokens are what this text takes, with any array and with none. */
  lemma CapacityExact(links: bool, js: Bytes, cap: nat, c: nat)
    requires Run(links, js, cap, INIT).0.Done?
    ensures var (r, s) := Run(links, js, cap, INIT);
      && r.count == |s.toks| <= cap
      && CountRun(js, 0, CountState(0, -1, 0)).0 == r
      && (c >= r.count ==> Run(links, js, c, INIT) == (r, s))
      && (c < r.count ==> Run(links, js, c, INIT).0 == Failed(NoMem))
  {
    RunCounts(links, js, cap, INIT, 0, -1);
    var r := Run(links, js, cap, INIT).0;
    if c < r.count {
      TooSmall(links, js, cap, c, INIT);
    } else if c >= cap {
      Resume(links, js, cap, c, INIT);
    } else {
      EnoughIsEnough(links, js, cap, c, INIT);
    }
  }

  lemma {:induction false} EnoughIsEnough(links: bool, js: Bytes, cap: nat, c: nat, s: State)
    requires Valid(s) && |s.toks| <= c <= cap
    requires Run(links, js, cap, s).0.Done? && c >= Run(links, js, cap, s).0.count
    ensures Run(links, js, c, s) == Run(links, js, cap, s)
    decreases |js| - s.pos
  {
    if Active(js, s.pos) {
      StepCapacity(links, js, c, cap, s);
      StepCounts(links, js, cap, s, 0, -1);
      var s' := Step(links, js, cap, s).state;
      RunCounts(links, js, cap, s', 0, -1);
      EnoughIsEnough(links, js, cap, c, s');
    }
  }

  /**
   * An array of the size that the counting call returned is never too small, and if the parse succeeds it returns that
   * size.
   */
  lemma {:induction false} CountFirst(links: bool, js: Bytes, cap: nat, s: State, toknext: nat, super: int)
    requires Valid(s)
    requires var r := CountRun(js, toknext, CountState(s.pos, super, |s.toks|)).0; r.Done? && r.count <= cap
    ensures var n := CountRun(js, toknext, CountState(s.pos, super, |s.toks|)).0.count;
      Run(links, js, cap, s).0 in {Done(n), Failed(Inval), Failed(Part)}
    decreases |js| - s.pos
  {
    if Active(js, s.pos) {
      StepCounts(links, js, cap, s, toknext, super);
      var c := CountStep(js, toknext, CountState(s.pos, super, |s.toks|)).state;
      CountOnlyGrows(js, toknext, c);
      match Step(links, js, cap, s)
      case Stop(_) =>
      case Next(s') => CountFirst(links, js, cap, s', toknext, c.super);
    }
  }
}
