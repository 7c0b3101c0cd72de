/**
 The Redis lock as a step system: any number of processes, one lock key, a clock.  The key is
 set with NX and an expiry, and is deleted without checking who set it.
 */
module RedisLock {
  import opened Basics

  /** Where a process stands; `until` is the expiry of the key the process itself has set. */
  datatype Phase = Waiting(tries: nat) | Inside(until: int) | Leaving(until: int) | Finished | GaveUp

  datatype Config = Config(timeout: int, maxRetries: nat)

  datatype State = State(clock: int, key: Option<int>, procs: map<nat, Phase>)

  datatype Step = Attempt(p: nat) | GiveUp(p: nat) | Leave(p: nat) | Release(p: nat) | Tick(ticks: nat)

  /** The key is present: set, and not yet expired. */
  predicate KeyHeld(s: State) {
    s.key.Some? && s.clock < s.key.value
  }

  predicate Enabled(c: Config, s: State, step: Step) {
    match step
    case Attempt(p) => p in s.procs && s.procs[p].Waiting? && s.procs[p].tries < c.maxRetries
    case GiveUp(p) => p in s.procs && s.procs[p].Waiting? && s.procs[p].tries >= c.maxRetries
    case Leave(p) => p in s.procs && s.procs[p].Inside?
    case Release(p) => p in s.procs && s.procs[p].Leaving?
    case Tick(_) => true
  }

  function Next(c: Config, s: State, step: Step): State
    requires Enabled(c, s, step)
  {
    match step
    case Attempt(p) =>
      if KeyHeld(s) then s.(procs := s.procs[p := Waiting(s.procs[p].tries + 1)])
      else s.(key := Some(s.clock + c.timeout), procs := s.procs[p := Inside(s.clock + c.timeout)])
    case GiveUp(p) => s.(procs := s.procs[p := GaveUp])
    case Leave(p) => s.(procs := s.procs[p := Leaving(s.procs[p].until)])
    case Release(p) => s.(key := None, procs := s.procs[p := Finished])
    case Tick(ticks) => s.(clock := s.clock + ticks)
  }

  predicate Initial(s: State) {
    s.key.None? && forall p | p in s.procs :: s.procs[p] == Waiting(0)
  }

  ghost predicate IsRun(c: Config, states: seq<State>, steps: seq<Step>) {
    && |states| == |steps| + 1 && Initial(states[0])
    && (forall k | 0 <= k < |steps| ::
          Enabled(c, states[k], steps[k]) && states[k + 1] == Next(c, states[k], steps[k]))
  }

  // ---------------------------------------------------------------- mutual exclusion

  predicate IsInside(s: State, p: nat) {
    p in s.procs && s.procs[p].Inside?
  }

  /** At most one process is inside its body, and the key exists while one is. */
  ghost predicate Safe(s: State) {
    && (forall p, q | IsInside(s, p) && IsInside(s, q) :: p == q)
    && (forall p | IsInside(s, p) :: KeyHeld(s))
  }

  /** Every process inside its body is there before its own key expires. */
  ghost predicate BodyInTime(s: State) {
    forall p | IsInside(s, p) :: s.clock < s.procs[p].until
  }

  /** The step does not delete the key while a process other than the deleting one is inside. */
  ghost predicate HarmlessRelease(s: State, step: Step) {
    step.Release? ==> forall q | IsInside(s, q) :: q == step.p
  }

  /** A process inside its body sees its own key, and is the only one inside. */
  ghost predicate OwnKey(s: State) {
    && (forall p | IsInside(s, p) :: s.key == Some(s.procs[p].until))
    && (forall p, q | IsInside(s, p) && IsInside(s, q) :: p == q)
  }

  lemma StepKeepsOwnKey(c: Config, s: State, step: Step)
    requires Enabled(c, s, step) && OwnKey(s) && BodyInTime(s) && HarmlessRelease(s, step)
    ensures OwnKey(Next(c, s, step))
  {
    var t := Next(c, s, step);
    assert forall q | IsInside(s, q) :: KeyHeld(s);
    assert forall p | IsInside(t, p) && !IsInside(s, p) :: step == Attempt(p) && !KeyHeld(s);
  }

  lemma {:induction false} RunKeepsOwnKey(c: Config, states: seq<State>, steps: seq<Step>, k: nat)
    requires IsRun(c, states, steps) && k < |states|
    requires forall j | 0 <= j < |states| :: BodyInTime(states[j])
    requires forall j | 0 <= j < k :: HarmlessRelease(states[j], steps[j])
    ensures OwnKey(states[k])
  {
    if k > 0 {
      RunKeepsOwnKey(c, states, steps, k - 1);
      StepKeepsOwnKey(c, states[k - 1], steps[k - 1]);
    }
  }

  /**
   When every holder leaves its body before its key expires, a run is safe in every state exactly
   if no process deletes the key while another one is inside.
   */
  lemma SafeIffReleasesHarmless(c: Config, states: seq<State>, steps: seq<Step>)
    requires IsRun(c, states, steps)
    requires forall j | 0 <= j < |states| :: BodyInTime(states[j])
    ensures (forall j | 0 <= j < |states| :: Safe(states[j]))
            <==> forall j | 0 <= j < |steps| :: HarmlessRelease(states[j], steps[j])
  {
    if forall j | 0 <= j < |steps| :: HarmlessRelease(states[j], steps[j]) {
      forall j | 0 <= j < |states|
        ensures Safe(states[j])
      {
        RunKeepsOwnKey(c, states, steps, j);
        assert BodyInTime(states[j]);
      }
    } else {
      var j :| 0 <= j < |steps| && !HarmlessRelease(states[j], steps[j]);
      var q :| IsInside(states[j], q) && q != steps[j].p;
      assert IsInside(states[j + 1], q) && !KeyHeld(states[j + 1]);
    }
  }

  // ---------------------------------------------------------------- deletes in time

  predicate Holds(s: State, p: nat) {
    p in s.procs && (s.procs[p].Inside? || s.procs[p].Leaving?)
  }

  /** Body and delete both come before the process's own key expires. */
  ghost predicate ReleaseInTime(s: State) {
    forall p | Holds(s, p) :: s.clock < s.procs[p].until
  }

  ghost predicate SoleHolder(s: State) {
    && (forall p | Holds(s, p) :: s.key == Some(s.procs[p].until))
    && (forall p, q | Holds(s, p) && Holds(s, q) :: p == q)
  }

  lemma StepKeepsSoleHolder(c: Config, s: State, step: Step)
    requires Enabled(c, s, step) && SoleHolder(s) && ReleaseInTime(s)
    ensures SoleHolder(Next(c, s, step))
  {
    var t := Next(c, s, step);
    assert forall q | Holds(s, q) :: KeyHeld(s);
    assert forall p | Holds(t, p) && !Holds(s, p) :: step == Attempt(p) && !KeyHeld(s);
    if step.Release? {
      assert Holds(s, step.p);
      assert forall q :: !Holds(t, q);
    }
  }

  /** If every delete is carried out before the process's own key expires, every state is safe. */
  lemma {:induction false} TimelyReleasesAreSafe(c: Config, states: seq<State>, steps: seq<Step>, k: nat)
    requires IsRun(c, states, steps) && k < |states|
    requires forall j | 0 <= j < |states| :: ReleaseInTime(states[j])
    ensures SoleHolder(states[k]) && Safe(states[k])
  {
    if k > 0 {
      TimelyReleasesAreSafe(c, states, steps, k - 1);
      StepKeepsSoleHolder(c, states[k - 1], steps[k - 1]);
    }
    assert forall p | IsInside(states[k], p) :: Holds(states[k], p);
    assert ReleaseInTime(states[k]);
  }

  /** No process still has to delete its key more than h ticks after setting it. */
  ghost predicate HeldWithin(c: Config, s: State, h: nat) {
    forall p | Holds(s, p) :: s.clock - (s.procs[p].until - c.timeout) <= h
  }

  /** A run in which bodies end before their keys expire and keys are deleted within h ticks of being set. */
  ghost predicate TimelyRun(c: Config, states: seq<State>, steps: seq<Step>, h: nat) {
    IsRun(c, states, steps) && forall j | 0 <= j < |states| :: BodyInTime(states[j]) && HeldWithin(c, states[j], h)
  }

  ghost predicate SafeRun(states: seq<State>) {
    forall j | 0 <= j < |states| :: Safe(states[j])
  }

  /** Three processes at the given phases. */
  function Three(p0: Phase, p1: Phase, p2: Phase): map<nat, Phase> {
    map[0 := p0, 1 := p1, 2 := p2]
  }

  /** Process 0 leaves in time but deletes late, after 1 has set the key; then 2 gets in as well. */
  function LateStates(t: int): seq<State> {
    [State(0, None, Three(Waiting(0), Waiting(0), Waiting(0))),
     State(0, Some(t), Three(Inside(t), Waiting(0), Waiting(0))),
     State(0, Some(t), Three(Leaving(t), Waiting(0), Waiting(0))),
     State(t, Some(t), Three(Leaving(t), Waiting(0), Waiting(0))),
     State(t, Some(t + t), Three(Leaving(t), Inside(t + t), Waiting(0))),
     State(t, None, Three(Finished, Inside(t + t), Waiting(0))),
     State(t, Some(t + t), Three(Finished, Inside(t + t), Inside(t + t)))]
  }

  lemma LateIsRun(c: Config, steps: seq<Step>)
    requires 0 < c.timeout && 0 < c.maxRetries
    requires steps == [Attempt(0), Leave(0), Tick(c.timeout), Attempt(1), Release(0), Attempt(2)]
    ensures IsRun(c, LateStates(c.timeout), steps)
  {
    var states := LateStates(c.timeout);
    forall k: nat | k < |steps|
      ensures Enabled(c, states[k], steps[k]) && states[k + 1] == Next(c, states[k], steps[k])
    {
      if k < 3 {
        LateStart(c, k, steps[k]);
      } else {
        LateEnd(c, k, steps[k]);
      }
    }
  }

  lemma LateStart(c: Config, k: nat, step: Step)
    requires 0 < c.timeout && 0 < c.maxRetries && k < 3
    requires step == [Attempt(0), Leave(0), Tick(c.timeout)][k]
    ensures Enabled(c, LateStates(c.timeout)[k], step) && LateStates(c.timeout)[k + 1] == Next(c, LateStates(c.timeout)[k], step)
  {
  }

  lemma LateEnd(c: Config, k: nat, step: Step)
    requires 0 < c.timeout && 0 < c.maxRetries && 3 <= k < 6
    requires step == [Attempt(1), Release(0), Attempt(2)][k - 3]
    ensures Enabled(c, LateStates(c.timeout)[k], step) && LateStates(c.timeout)[k + 1] == Next(c, LateStates(c.timeout)[k], step)
  {
  }

  lemma LateIsTimely(c: Config, j: nat)
    requires 0 < c.timeout && j < 7
    ensures BodyInTime(LateStates(c.timeout)[j]) && HeldWithin(c, LateStates(c.timeout)[j], c.timeout)
  {
  }

  /**
   Leaving the body in time is not enough: for every timeout and retry limit there is a run in
   which every body is in time, a delete comes late, and two processes end up inside together.
   */
  lemma LateDeleteBreaksExclusion(c: Config) returns (states: seq<State>, steps: seq<Step>)
    requires 0 < c.timeout && 0 < c.maxRetries
    ensures TimelyRun(c, states, steps, c.timeout)
    ensures var last := states[|states| - 1]; exists p: nat, q: nat :: IsInside(last, p) && IsInside(last, q) && p != q
  {
    steps := [Attempt(0), Leave(0), Tick(c.timeout), Attempt(1), Release(0), Attempt(2)];
    states := LateStates(c.timeout);
    LateIsRun(c, steps);
    forall j | 0 <= j < |states|
      ensures BodyInTime(states[j]) && HeldWithin(c, states[j], c.timeout)
    {
      LateIsTimely(c, j);
    }
    assert IsInside(states[6], 1) && IsInside(states[6], 2);
    hide IsRun, BodyInTime, HeldWithin;
  }

  /**
   The bound a user of the lock controls: all runs whose keys are deleted within h ticks of being set are
   safe exactly if h is below the timeout.
   */
  lemma SafeIffHeldBelowTimeout(c: Config, h: nat)
    requires 0 < c.timeout && 0 < c.maxRetries
    ensures (forall states: seq<State>, steps: seq<Step> | TimelyRun(c, states, steps, h) :: SafeRun(states)) <==> h < c.timeout
  {
    if h < c.timeout {
      forall states: seq<State>, steps: seq<Step> | TimelyRun(c, states, steps, h)
        ensures SafeRun(states)
      {
        assert forall j | 0 <= j < |states| :: HeldWithin(c, states[j], h) ==> ReleaseInTime(states[j]);
        forall j | 0 <= j < |states|
          ensures Safe(states[j])
        {
          TimelyReleasesAreSafe(c, states, steps, j);
        }
      }
    } else {
      var states, steps := LateDeleteBreaksExclusion(c);
      LongerHold(c, states, steps, h);
      assert !Safe(states[|states| - 1]);
    }
  }

  lemma LongerHold(c: Config, states: seq<State>, steps: seq<Step>, h: nat)
    requires 0 < c.timeout <= h && TimelyRun(c, states, steps, c.timeout)
    ensures TimelyRun(c, states, steps, h)
  {
  }

  // ---------------------------------------------------------------- giving up

  predicate ActsFor(step: Step, p: nat) {
    !step.Tick? && step.p == p
  }

  /** How many of the first k steps are attempts of process p. */
  function Attempts(steps: seq<Step>, p: nat, k: nat): nat
    requires k <= |steps|
  {
    if k == 0 then 0 else Attempts(steps, p, k - 1) + if steps[k - 1] == Attempt(p) then 1 else 0
  }

  /** p has not held the lock: so far it has only failed, once per try. */
  ghost predicate NeverHeld(c: Config, s: State, p: nat, attempts: nat) {
    p in s.procs && ((s.procs[p].Waiting? && s.procs[p].tries == attempts <= c.maxRetries)
                     || (s.procs[p].GaveUp? && attempts == c.maxRetries))
  }

  /**
   A process that gives up has tried exactly maxRetries times, found the key set and not expired each time, and
   never changed the key by any of its steps.
   */
  lemma {:induction false} GivingUpTouchesNoKey(c: Config, states: seq<State>, steps: seq<Step>, p: nat, k: nat)
    requires IsRun(c, states, steps) && k < |states|
    requires p in states[k].procs && (states[k].procs[p].GaveUp? || states[k].procs[p].Waiting?)
    ensures NeverHeld(c, states[k], p, Attempts(steps, p, k))
    ensures forall j | 0 <= j < k && ActsFor(steps[j], p) :: states[j + 1].key == states[j].key
    ensures forall j | 0 <= j < k && steps[j] == Attempt(p) :: states[j].key != None && states[j].clock < states[j].key.value
  {
    if k > 0 {
      assert states[k] == Next(c, states[k - 1], steps[k - 1]);
      GivingUpTouchesNoKey(c, states, steps, p, k - 1);
    }
  }

  /**
   A waiting process with tries left may always try. If the key is not set, or has expired, it takes it for the whole
   timeout and is inside, also after earlier tries in vain; if the key is held it has one try less and nothing else changes.
   */
  lemma AttemptIs(c: Config, s: State, p: nat)
    requires p in s.procs && s.procs[p].Waiting? && s.procs[p].tries < c.maxRetries
    ensures Enabled(c, s, Attempt(p))
    ensures var t := Next(c, s, Attempt(p));
            if s.key == None || s.key.value <= s.clock then
              t == State(s.clock, Some(s.clock + c.timeout), s.procs[p := Inside(s.clock + c.timeout)])
            else t == State(s.clock, s.key, s.procs[p := Waiting(s.procs[p].tries + 1)])
  {
  }

  /** Leaving the body keeps the key, deleting it frees it for whoever tries next. */
  lemma ReleasedKeyIsTaken(c: Config, s: State, p: nat, q: nat)
    requires 0 < c.timeout && p in s.procs && s.procs[p].Inside? && q in s.procs && s.procs[q].Waiting? && s.procs[q].tries < c.maxRetries
    ensures var left := Next(c, s, Leave(p));
            && left.key == s.key && left.procs[p].Leaving? && Enabled(c, left, Release(p))
            && var freed := Next(c, left, Release(p));
               freed.key == None && freed.procs[p].Finished? && Enabled(c, freed, Attempt(q))
               && var taken := Next(c, freed, Attempt(q)); IsInside(taken, q) && KeyHeld(taken)
  {
  }
}
