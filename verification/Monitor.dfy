/** The endpoint monitor: publishers and failers set a value under a lock and
    then wake everyone; waiters sleep until a value, a failure or a deadline.
    Steps of all threads interleave freely. */
module Monitor {
  import opened Words

  datatype Endpoint = Endpoint(port: nat, token: string)

  datatype Reply = Ok(endpoint: Endpoint) | Err(reason: string)

  /** What the lock protects. */
  datatype Inner = Inner(endpoint: Option<Endpoint>, failure: Option<string>)

  const TIMEOUT_REASON: string := "engine did not report a listening port in time"

  function Published(i: Inner, e: Endpoint): Inner {
    Inner(Some(e), None)
  }

  function Failed(i: Inner, reason: string): Inner {
    if i.endpoint == None then i.(failure := Some(reason)) else i
  }

  /** What a waiter holding the lock finds: a reply, or None to go to sleep. */
  function Look(i: Inner, now: nat, deadline: nat): Option<Reply> {
    if i.endpoint.Some? then Some(Ok(i.endpoint.value))
    else if i.failure.Some? then Some(Err(i.failure.value))
    else if now >= deadline then Some(Err(TIMEOUT_REASON))
    else None
  }

  /** What a waiter finds after each kind of update: an endpoint always wins, a
      failure only counts without one, and time only where there is neither. */
  lemma LookMeans(i: Inner, e: Endpoint, reason: string, now: nat, deadline: nat)
    ensures Look(Published(i, e), now, deadline) == Some(Ok(e))
    ensures i.endpoint == None ==> Look(Failed(i, reason), now, deadline) == Some(Err(reason))
    ensures i.endpoint.Some? ==> Look(Failed(i, reason), now, deadline) == Some(Ok(i.endpoint.value))
    ensures i == Inner(None, None) ==>
              Look(i, now, deadline)
              == if now < deadline then None else Some(Err("engine did not report a listening port in time"))
  {
  }

  /** The shared object; each method is one critical section. */
  class Engine {
    var endpoint: Option<Endpoint>
    var failure: Option<string>

    ghost function Value(): Inner
      reads this
    {
      Inner(endpoint, failure)
    }

    constructor ()
      ensures Value() == Inner(None, None)
    {
      endpoint, failure := None, None;
    }

    method Publish(e: Endpoint)
      modifies this
      ensures Value() == Published(old(Value()), e)
    {
      endpoint := Some(e);
      failure := None;
    }

    method Fail(reason: string)
      modifies this
      ensures Value() == Failed(old(Value()), reason)
    {
      if endpoint == None {
        failure := Some(reason);
      }
    }

    method Check(now: nat, deadline: nat) returns (reply: Option<Reply>)
      ensures reply == Look(Value(), now, deadline)
    {
      if endpoint.Some? {
        return Some(Ok(endpoint.value));
      }
      if failure.Some? {
        return Some(Err(failure.value));
      }
      var remaining := if deadline > now then deadline - now else 0;
      if remaining == 0 {
        return Some(Err(TIMEOUT_REASON));
      }
      return None;
    }
  }

  // ----- the threads

  /** A waiter is about to look (it holds or wants the lock), sleeps on the
      condition, or has returned. */
  datatype Waiter = Looking(deadline: nat) | Asleep(deadline: nat) | Returned(reply: Reply)

  /** A return: which waiter, when, its reply, and what the lock protected at
      that moment. */
  datatype Event = Event(w: nat, at: nat, reply: Reply, seen: Inner)

  /** `pending` counts threads between their critical section and notify_all. */
  datatype State = State(inner: Inner, waiters: map<nat, Waiter>, pending: nat, now: nat, log: seq<Event>)

  const START := State(Inner(None, None), map[], 0, 0, [])

  datatype Step =
    | Publish(e: Endpoint)
    | Fail(reason: string)
    | Notify
    | Enter(w: nat, timeout: nat)
    | CheckUp(w: nat)
    | Wake(w: nat)          // by timeout or spuriously
    | Tick

  predicate Enabled(s: State, step: Step) {
    match step
    case Publish(_) => true
    case Fail(_) => true
    case Notify => s.pending > 0
    case Enter(w, _) => w !in s.waiters
    case CheckUp(w) => w in s.waiters && s.waiters[w].Looking?
    case Wake(w) => w in s.waiters && s.waiters[w].Asleep?
    case Tick => true
  }

  function Woken(x: Waiter): Waiter {
    if x.Asleep? then Looking(x.deadline) else x
  }

  function Do(s: State, step: Step): State
    requires Enabled(s, step)
  {
    match step
    case Publish(e) => s.(inner := Published(s.inner, e), pending := s.pending + 1)
    case Fail(reason) => s.(inner := Failed(s.inner, reason), pending := s.pending + 1)
    case Notify => s.(pending := s.pending - 1, waiters := map w | w in s.waiters :: Woken(s.waiters[w]))
    case Enter(w, timeout) => s.(waiters := s.waiters[w := Looking(s.now + timeout)])
    case CheckUp(w) =>
      var d := s.waiters[w].deadline;
      (match Look(s.inner, s.now, d)
       case Some(reply) =>
         s.(waiters := s.waiters[w := Returned(reply)], log := s.log + [Event(w, s.now, reply, s.inner)])
       case None => s.(waiters := s.waiters[w := Asleep(d)]))
    case Wake(w) => s.(waiters := s.waiters[w := Looking(s.waiters[w].deadline)])
    case Tick => s.(now := s.now + 1)
  }

  /** `states` is a run: it starts at START and each state is a step from the
      one before. */
  ghost predicate IsRun(states: seq<State>) {
    && states != [] && states[0] == START
    && forall k | 0 <= k < |states| - 1 :: Leads(states[k], states[k + 1])
  }

  ghost predicate Leads(s: State, t: State) {
    exists step :: Enabled(s, step) && Do(s, step) == t
  }

  // ----- safety

  ghost predicate SomethingSet(i: Inner) {
    i.endpoint.Some? || i.failure.Some?
  }

  /** Endpoint and failure exclude each other; if there is something to see, then
      either no one sleeps or a wake-up is on its way; and every return was
      right about what it saw. */
  ghost predicate Safe(s: State) {
    && !(s.inner.endpoint.Some? && s.inner.failure.Some?)
    && (SomethingSet(s.inner) && s.pending == 0 ==> forall w | w in s.waiters :: !s.waiters[w].Asleep?)
    && (forall k | 0 <= k < |s.log| :: RightReply(s.log[k]))
  }

  /** An error is returned only where no endpoint exists, a success only with
      the endpoint that exists; and an error is the failure that was set, or the
      timeout where nothing was set. */
  ghost predicate RightReply(e: Event) {
    match e.reply
    case Ok(endpoint) => e.seen.endpoint == Some(endpoint)
    case Err(reason) =>
      && e.seen.endpoint == None
      && reason == if e.seen.failure.Some? then e.seen.failure.value else TIMEOUT_REASON
  }

  /** The wait gave up: it saw neither an endpoint nor a failure. */
  predicate TimedOut(e: Event) {
    e.seen.endpoint == None && e.seen.failure == None
  }

  lemma StepSafe(s: State, step: Step)
    requires Safe(s) && Enabled(s, step)
    ensures Safe(Do(s, step))
  {
  }

  /** Main result: every state of every run is safe. */
  lemma {:induction false} RunSafe(states: seq<State>, k: nat)
    requires IsRun(states) && k < |states|
    ensures Safe(states[k])
  {
    hide Do, Enabled;
    if k > 0 {
      RunSafe(states, k - 1);
      var s := states[k - 1];
      assert Leads(s, states[k]);
      var step :| Enabled(s, step) && Do(s, step) == states[k];
      StepSafe(s, step);
    }
  }

  /** With an endpoint published a step keeps it, and logs nothing or a success. */
  lemma StepReplies(s: State, step: Step)
    requires Safe(s) && Enabled(s, step) && s.inner.endpoint.Some?
    ensures var t := Do(s, step);
            && t.inner.endpoint.Some?
            && (t.log == s.log || (t.log != [] && t.log[..|t.log| - 1] == s.log && t.log[|t.log| - 1].reply.Ok?))
  {
  }

  /** Main result: a published endpoint is never lost, and from then on no wait
      returns an error. */
  lemma {:induction false} EndpointStays(states: seq<State>, j: nat, k: nat)
    requires IsRun(states) && j <= k < |states| && states[j].inner.endpoint.Some?
    ensures states[k].inner.endpoint.Some? && states[j].log <= states[k].log
    ensures forall e | |states[j].log| <= e < |states[k].log| :: states[k].log[e].reply.Ok?
    decreases k
  {
    hide Do, Enabled, Safe;
    if j < k {
      EndpointStays(states, j, k - 1);
      RunSafe(states, k - 1);
      var s := states[k - 1];
      assert Leads(s, states[k]);
      var step :| Enabled(s, step) && Do(s, step) == states[k];
      StepReplies(s, step);
    }
  }

  /** No wake-up is lost: once something is set and every notifier has finished,
      no waiter is left asleep, so each of them looks and returns. */
  lemma NoLostWakeup(states: seq<State>, k: nat, w: nat)
    requires IsRun(states) && k < |states|
    requires SomethingSet(states[k].inner) && states[k].pending == 0
    requires w in states[k].waiters && !states[k].waiters[w].Returned?
    ensures Enabled(states[k], CheckUp(w)) && Do(states[k], CheckUp(w)).waiters[w].Returned?
  {
    RunSafe(states, k);
  }

  // ----- deadlines

  /** Waiter `w` entered at step `j` of the run, to wait for `timeout`. */
  ghost predicate Enters(states: seq<State>, j: nat, w: nat, timeout: nat) {
    && j + 1 < |states| && Enabled(states[j], Enter(w, timeout))
    && states[j + 1] == Do(states[j], Enter(w, timeout))
  }

  /** The deadline of a wait that has not returned is the one it entered with; a
      wait returns once; and it gives up at its deadline or later. */
  ghost predicate KeepsDeadline(s: State, w: nat, deadline: nat) {
    && w in s.waiters
    && (!s.waiters[w].Returned? ==> s.waiters[w].deadline == deadline && forall e <- s.log :: e.w != w)
    && (s.waiters[w].Returned? ==> exists e <- s.log :: e.w == w && s.waiters[w].reply == e.reply)
    && forall e <- s.log :: e.w == w && TimedOut(e) ==> e.at >= deadline
  }

  /** No event is of a waiter that has not entered. */
  ghost predicate LogKnown(s: State) {
    forall e <- s.log :: e.w in s.waiters
  }

  lemma StepKeepsDeadline(s: State, step: Step, w: nat, deadline: nat)
    requires Enabled(s, step)
    ensures LogKnown(s) ==> LogKnown(Do(s, step))
    ensures KeepsDeadline(s, w, deadline) ==> KeepsDeadline(Do(s, step), w, deadline)
  {
    var t := Do(s, step);
    assert forall e <- s.log :: e in t.log;
    if step.CheckUp? && t.log != s.log {
      assert t.log[|s.log|] in t.log;
      assert forall e <- t.log :: e in s.log || e == t.log[|s.log|];
    }
  }

  lemma {:induction false} RunLogKnown(states: seq<State>, k: nat)
    requires IsRun(states) && k < |states|
    ensures LogKnown(states[k])
  {
    hide LogKnown, Do, Enabled;
    if k == 0 {
      NothingLogged();
    } else {
      RunLogKnown(states, k - 1);
      assert Leads(states[k - 1], states[k]);
      var step :| Enabled(states[k - 1], step) && Do(states[k - 1], step) == states[k];
      StepKeepsDeadline(states[k - 1], step, 0, 0);
    }
  }

  lemma NothingLogged()
    ensures LogKnown(START)
  {
  }

  lemma EntryKeepsDeadline(s: State, w: nat, timeout: nat)
    requires LogKnown(s) && Enabled(s, Enter(w, timeout))
    ensures KeepsDeadline(Do(s, Enter(w, timeout)), w, s.now + timeout)
    ensures OnTime(Do(s, Enter(w, timeout)), w, s.now + timeout)
  {
  }

  /** Main result: whatever wakes it and however often, a wait keeps the deadline
      of its entry, and it gives up no earlier. */
  lemma {:induction false} WaitKeepsDeadline(states: seq<State>, j: nat, k: nat, w: nat, timeout: nat)
    requires IsRun(states) && Enters(states, j, w, timeout) && j < k < |states|
    ensures KeepsDeadline(states[k], w, states[j].now + timeout)
    decreases k
  {
    hide KeepsDeadline, Do, Enabled, LogKnown;
    if k == j + 1 {
      RunLogKnown(states, j);
      EntryKeepsDeadline(states[j], w, timeout);
    } else {
      WaitKeepsDeadline(states, j, k - 1, w, timeout);
      assert Leads(states[k - 1], states[k]);
      var step :| Enabled(states[k - 1], step) && Do(states[k - 1], step) == states[k];
      StepKeepsDeadline(states[k - 1], step, w, states[j].now + timeout);
    }
  }

  /** Nobody can move at this instant: none is about to look, and none sleeps
      past its deadline. */
  ghost predicate Settled(s: State) {
    forall w | w in s.waiters :: s.waiters[w].Returned? || (s.waiters[w].Asleep? && s.now < s.waiters[w].deadline)
  }

  /** Time passes only when nobody can move at this instant. */
  ghost predicate Timely(states: seq<State>) {
    forall k | 0 <= k < |states| - 1 && states[k + 1].now > states[k].now :: Settled(states[k])
  }

  /** A wait that is not over is not late, and one that is over was not. */
  ghost predicate OnTime(s: State, w: nat, deadline: nat) {
    && w in s.waiters
    && (!s.waiters[w].Returned? ==> s.now <= deadline)
    && forall e <- s.log :: e.w == w ==> e.at <= deadline
  }

  lemma StepOnTime(s: State, step: Step, w: nat, deadline: nat)
    requires Enabled(s, step) && KeepsDeadline(s, w, deadline) && OnTime(s, w, deadline)
    requires step.Tick? ==> Settled(s)
    ensures OnTime(Do(s, step), w, deadline)
  {
  }

  lemma {:induction false} WaitIsOnTime(states: seq<State>, j: nat, k: nat, w: nat, timeout: nat)
    requires IsRun(states) && Timely(states) && Enters(states, j, w, timeout) && j < k < |states|
    ensures OnTime(states[k], w, states[j].now + timeout)
    decreases k
  {
    hide KeepsDeadline, OnTime, Do, Enabled, LogKnown, Settled;
    if k == j + 1 {
      RunLogKnown(states, j);
      EntryKeepsDeadline(states[j], w, timeout);
    } else {
      WaitIsOnTime(states, j, k - 1, w, timeout);
      WaitKeepsDeadline(states, j, k - 1, w, timeout);
      assert Leads(states[k - 1], states[k]);
      var step :| Enabled(states[k - 1], step) && Do(states[k - 1], step) == states[k];
      assert states[k - 1 + 1].now > states[k - 1].now ==> Settled(states[k - 1]);
      TickMoves(states[k - 1], step);
      StepOnTime(states[k - 1], step, w, states[j].now + timeout);
    }
  }

  /** Main result: if time does not run ahead of threads that can move, every
      wait is over by the time of its entry plus its timeout, and a wait that
      gives up does so exactly then. */
  lemma WaitsEndByDeadline(states: seq<State>, j: nat, k: nat, w: nat, timeout: nat)
    requires IsRun(states) && Timely(states) && Enters(states, j, w, timeout) && j < k < |states|
    ensures var deadline := states[j].now + timeout;
            && OnTime(states[k], w, deadline)
            && (states[k].now > deadline ==> states[k].waiters[w].Returned?)
            && forall e <- states[k].log :: e.w == w && TimedOut(e) ==> e.at == deadline
  {
    hide IsRun, Timely, Enters;
    WaitKeepsDeadline(states, j, k, w, timeout);
    WaitIsOnTime(states, j, k, w, timeout);
  }

  lemma TickMoves(s: State, step: Step)
    requires Enabled(s, step)
    ensures step.Tick? ==> Do(s, step).now > s.now
  {
  }

  // ----- every instant comes to an end

  predicate CanRun(s: State, steps: seq<Step>)
    decreases |steps|
  {
    steps == [] || (Enabled(s, steps[0]) && CanRun(Do(s, steps[0]), steps[1..]))
  }

  function Reached(s: State, steps: seq<Step>): State
    requires CanRun(s, steps)
    decreases |steps|
  {
    if steps == [] then s else Reached(Do(s, steps[0]), steps[1..])
  }

  predicate IsSettled(s: State, w: nat)
    requires w in s.waiters
  {
    s.waiters[w].Returned? || (s.waiters[w].Asleep? && s.now < s.waiters[w].deadline)
  }

  function Unsettled(s: State): set<nat> {
    set w | w in s.waiters && !IsSettled(s, w)
  }

  /** Looking settles a waiter and leaves the others as they were. */
  lemma CheckSettles(s: State, w: nat)
    requires Enabled(s, CheckUp(w))
    ensures Unsettled(Do(s, CheckUp(w))) == Unsettled(s) - {w}
  {
  }

  lemma WakeUnsettles(s: State, w: nat)
    requires Enabled(s, Wake(w)) && s.waiters[w].deadline <= s.now
    ensures Unsettled(Do(s, Wake(w))) == Unsettled(s) && Enabled(Do(s, Wake(w)), CheckUp(w))
  {
  }

  /** Main result: from every state at most two steps per waiter, and none of
      them the clock's, reach an instant at which time may pass. */
  lemma {:induction false} InstantEnds(s: State) returns (steps: seq<Step>)
    ensures CanRun(s, steps) && |steps| <= 2 * |Unsettled(s)|
    ensures forall step <- steps :: step.CheckUp? || step.Wake?
    ensures Settled(Reached(s, steps)) && Reached(s, steps).now == s.now
    decreases |Unsettled(s)|
  {
    if Unsettled(s) == {} {
      steps := [];
      NoneUnsettled(s);
    } else {
      hide Do, Enabled;
      var w :| w in Unsettled(s);
      var front := SettleOne(s, w);
      var t := Reached(s, front);
      var rest := InstantEnds(t);
      steps := front + rest;
      Prepend(s, front, rest, t);
    }
  }

  lemma SettleOne(s: State, w: nat) returns (steps: seq<Step>)
    requires w in Unsettled(s)
    ensures CanRun(s, steps) && |steps| <= 2 && forall step <- steps :: step.CheckUp? || step.Wake?
    ensures Unsettled(Reached(s, steps)) == Unsettled(s) - {w} && Reached(s, steps).now == s.now
  {
    if s.waiters[w].Looking? {
      CheckSettles(s, w);
      steps := [CheckUp(w)];
      OneStep(s, CheckUp(w));
    } else {
      WakeUnsettles(s, w);
      var t := Do(s, Wake(w));
      CheckSettles(t, w);
      OneStep(s, Wake(w));
      OneStep(t, CheckUp(w));
      Prepend(s, [Wake(w)], [CheckUp(w)], t);
      steps := [Wake(w)] + [CheckUp(w)];
    }
  }

  lemma OneStep(s: State, step: Step)
    requires Enabled(s, step)
    ensures CanRun(s, [step]) && Reached(s, [step]) == Do(s, step)
  {
    hide Do, Enabled;
    assert [step][1..] == [];
    assert CanRun(Do(s, step), []) && Reached(Do(s, step), []) == Do(s, step);
  }

  lemma NoneUnsettled(s: State)
    requires Unsettled(s) == {}
    ensures Settled(s)
  {
    forall w | w in s.waiters ensures IsSettled(s, w) {
      assert w !in Unsettled(s);
    }
  }

  lemma {:induction false} Prepend(s: State, front: seq<Step>, rest: seq<Step>, t: State)
    requires CanRun(s, front) && Reached(s, front) == t && CanRun(t, rest)
    ensures CanRun(s, front + rest) && Reached(s, front + rest) == Reached(t, rest)
    decreases |front|
  {
    hide Do, Enabled;
    if front == [] {
      assert front + rest == rest;
    } else {
      assert (front + rest)[1..] == front[1..] + rest;
      Prepend(Do(s, front[0]), front[1..], rest, t);
    }
  }
}
