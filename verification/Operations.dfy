/**
 The operation tracker and the Git slots as a step machine: an atomic counter, a broadcast
 that only reaches waiters already registered, and a semaphore. Dropping a guard decrements
 and, in a second step, notifies. A registered waiter remembers how many broadcasts had
 happened, because a registration is woken by any broadcast after its creation.
 */
module Operations {

  datatype Waiter =
    | Looping                      // about to create its registration
    | Registered(seen: nat)        // registration made, counter not read yet
    | Waiting(seen: nat)           // counter was positive; asleep until a broadcast after `seen`
    | Returned

  datatype State = State(
    active: int,
    broadcasts: nat,
    guards: set<nat>,              // guards alive
    notifying: set<nat>,           // droppers that took the counter to zero and have yet to notify
    waiters: map<nat, Waiter>,
    permits: int,
    holders: set<nat>)             // Git operations holding a slot

  datatype Event =
    | Begin(g: nat)
    | DropDecrement(g: nat)
    | DropNotify(g: nat)
    | StartWaiting(w: nat)
    | Register(w: nat)
    | Check(w: nat)
    | Wake(w: nat)
    | AcquireSlot(g: nat)          // a queued Git operation gets its permit
    | ReleaseSlot(g: nat)          // after its operation guard has been dropped
    | Expire(g: nat)               // the queue wait timed out: Busy

  function Init(slots: nat): State {
    State(0, 0, {}, {}, map[], slots, {})
  }

  predicate At(s: State, w: nat, v: Waiter) {
    w in s.waiters && s.waiters[w] == v
  }

  predicate Enabled(s: State, e: Event) {
    match e
    case Begin(g) => g !in s.guards && g !in s.notifying
    case DropDecrement(g) => g in s.guards
    case DropNotify(g) => g in s.notifying
    case StartWaiting(w) => w !in s.waiters
    case Register(w) => At(s, w, Looping)
    case Check(w) => w in s.waiters && s.waiters[w].Registered?
    case Wake(w) => w in s.waiters && s.waiters[w].Waiting? && s.waiters[w].seen < s.broadcasts
    case AcquireSlot(g) => s.permits > 0 && g !in s.holders && g !in s.guards && g !in s.notifying
    case ReleaseSlot(g) => g in s.holders && g !in s.guards && g !in s.notifying
    case Expire(g) => g !in s.holders
  }

  function Apply(s: State, e: Event): State
    requires Enabled(s, e)
  {
    match e
    case Begin(g) => s.(active := s.active + 1, guards := s.guards + {g})
    case DropDecrement(g) =>
      s.(active := s.active - 1, guards := s.guards - {g},
         notifying := if s.active == 1 then s.notifying + {g} else s.notifying)
    case DropNotify(g) => s.(broadcasts := s.broadcasts + 1, notifying := s.notifying - {g})
    case StartWaiting(w) => s.(waiters := s.waiters[w := Looping])
    case Register(w) => s.(waiters := s.waiters[w := Registered(s.broadcasts)])
    case Check(w) =>
      s.(waiters := s.waiters[w := if s.active == 0 then Returned else Waiting(s.waiters[w].seen)])
    case Wake(w) => s.(waiters := s.waiters[w := Looping])
    case AcquireSlot(g) => s.(permits := s.permits - 1, holders := s.holders + {g})
    case ReleaseSlot(g) => s.(permits := s.permits + 1, holders := s.holders - {g})
    case Expire(_) => s
  }

  // ---------------------------------------------------------------- invariant

  /** The counter is exactly the number of live guards. */
  predicate Counts(s: State) {
    s.active == |s.guards|
  }

  /** A sleeper nobody has woken since it registered still has someone bound to wake it. */
  predicate NoLostWakeUp(s: State) {
    forall w | w in s.waiters && s.waiters[w].Waiting? && s.waiters[w].seen == s.broadcasts ::
      s.active > 0 || s.notifying != {}
  }

  predicate SeenBounded(s: State) {
    forall w | w in s.waiters && (s.waiters[w].Waiting? || s.waiters[w].Registered?) ::
      s.waiters[w].seen <= s.broadcasts
  }

  predicate SlotsConserved(slots: nat, s: State) {
    0 <= s.permits && s.permits + |s.holders| == slots
  }

  predicate Inv(slots: nat, s: State) {
    && Counts(s)
    && s.guards !! s.notifying
    && SeenBounded(s)
    && NoLostWakeUp(s)
    && SlotsConserved(slots, s)
  }

  lemma {:induction false} StepKeepsInv(slots: nat, s: State, e: Event)
    requires Inv(slots, s) && Enabled(s, e)
    ensures Inv(slots, Apply(s, e))
  {
  }

  ghost predicate IsRun(events: seq<Event>, states: seq<State>) {
    && |states| == |events| + 1
    && (forall i | 0 <= i < |events| ::
          Enabled(states[i], events[i]) && states[i + 1] == Apply(states[i], events[i]))
  }

  /** Every interleaving of begins, drops, notifications, waiters and Git operations is safe. */
  lemma {:induction false} RunKeepsInv(slots: nat, events: seq<Event>, states: seq<State>, k: nat)
    requires IsRun(events, states) && states[0] == Init(slots) && k < |states|
    ensures Inv(slots, states[k])
  {
    if k > 0 {
      RunKeepsInv(slots, events, states, k - 1);
      StepKeepsInv(slots, states[k - 1], events[k - 1]);
    }
  }

  /** Whatever the step, `wait_idle` returns to a caller only at a moment when no guard is alive. */
  lemma {:induction false} ReturnMeansIdle(slots: nat, events: seq<Event>, states: seq<State>, i: nat, w: nat)
    requires IsRun(events, states) && states[0] == Init(slots) && i < |events|
    requires At(states[i + 1], w, Returned) && !At(states[i], w, Returned)
    ensures states[i].guards == {} && states[i + 1].guards == {}
  {
    RunKeepsInv(slots, events, states, i);
  }

  /** Git operations past the queue never outnumber the configured slots, and none is refused a free one. */
  lemma {:induction false} SlotsBoundGitOperations(slots: nat, events: seq<Event>, states: seq<State>, k: nat, g: nat)
    requires IsRun(events, states) && states[0] == Init(slots) && k < |states|
    ensures |states[k].holders| <= slots
    ensures g !in states[k].holders && g !in states[k].guards && g !in states[k].notifying ==>
            (Enabled(states[k], AcquireSlot(g)) <==> |states[k].holders| < slots)
  {
    RunKeepsInv(slots, events, states, k);
  }

  /** Who holds a slot, and who is alive, changes by that operation's own steps only, and does change by them. */
  lemma {:induction false} HoldersAndGuards(events: seq<Event>, states: seq<State>, i: nat, g: nat)
    requires IsRun(events, states) && i < |events|
    ensures g in states[i + 1].holders <==>
            events[i] == AcquireSlot(g) || (g in states[i].holders && events[i] != ReleaseSlot(g))
    ensures g in states[i + 1].guards <==>
            events[i] == Begin(g) || (g in states[i].guards && events[i] != DropDecrement(g))
    ensures states[i + 1].permits - states[i].permits ==
            if events[i].AcquireSlot? then -1 else if events[i].ReleaseSlot? then 1 else 0
    ensures events[i] == AcquireSlot(g) ==>
              g !in states[i].holders && g !in states[i].guards && g !in states[i].notifying
  {
  }

  /** An operation gives its slot back once its guard is gone and not before; then a waiting one can have it. */
  lemma {:induction false} SlotsAreHandedOn(slots: nat, events: seq<Event>, states: seq<State>, k: nat, g: nat, h: nat)
    requires IsRun(events, states) && states[0] == Init(slots) && k < |states|
    requires g in states[k].holders && h !in states[k].holders && h !in states[k].guards && h !in states[k].notifying
    ensures Enabled(states[k], ReleaseSlot(g)) <==> g !in states[k].guards && g !in states[k].notifying
    ensures Enabled(states[k], ReleaseSlot(g)) ==> Enabled(Apply(states[k], ReleaseSlot(g)), AcquireSlot(h))
    ensures Enabled(states[k], Expire(h)) && Apply(states[k], Expire(h)) == states[k]
  {
    RunKeepsInv(slots, events, states, k);
  }

  /** A waiter enters once, looping, and moves by its own steps only; it registers before it reads the counter. */
  lemma {:induction false} WaitersMove(events: seq<Event>, states: seq<State>, i: nat, w: nat)
    requires IsRun(events, states) && i < |events|
    ensures w in states[i + 1].waiters <==> w in states[i].waiters || events[i] == StartWaiting(w)
    ensures w !in states[i].waiters ==> Enabled(states[i], StartWaiting(w))
    ensures events[i] == StartWaiting(w) ==> w !in states[i].waiters && At(states[i + 1], w, Looping)
    ensures events[i] == Register(w) ==>
              At(states[i], w, Looping) && At(states[i + 1], w, Registered(states[i].broadcasts))
    ensures events[i] == Wake(w) ==> states[i].waiters[w].seen < states[i].broadcasts && At(states[i + 1], w, Looping)
    ensures events[i] == Check(w) ==>
              states[i].waiters[w].Registered?
              && At(states[i + 1], w, if states[i].active == 0 then Returned else Waiting(states[i].waiters[w].seen))
    ensures events[i] !in {StartWaiting(w), Register(w), Check(w), Wake(w)} && w in states[i].waiters ==>
              At(states[i + 1], w, states[i].waiters[w])
  {
    assert Enabled(states[i], events[i]);
  }

  // ---------------------------------------------------------------- shutdown terminates

  /** Steps that end operations or belong to waiter `w`; no new operation begins. */
  predicate IsDrain(e: Event, w: nat) {
    e.DropDecrement? || e.DropNotify? || e == Register(w) || e == Check(w) || e == Wake(w)
  }

  /** Drop steps still to come, at most. */
  function DropsLeft(s: State): nat {
    2 * |s.guards| + |s.notifying|
  }

  /** Broadcasts there can ever be without a new operation, at most. */
  function FinalBroadcasts(s: State): nat {
    s.broadcasts + |s.notifying| + |s.guards|
  }

  function WaiterRank(s: State, w: nat): int
    requires w in s.waiters
  {
    match s.waiters[w]
    case Looping => 3 * (FinalBroadcasts(s) - s.broadcasts) + 3
    case Registered(seen) => 3 * (FinalBroadcasts(s) - seen) + 2
    case Waiting(seen) => 3 * (FinalBroadcasts(s) - seen) + 1
    case Returned => 0
  }

  function Rank(s: State, w: nat): int
    requires w in s.waiters
  {
    4 * DropsLeft(s) + WaiterRank(s, w)
  }

  /** Each such step brings the waiter strictly closer to returning. */
  lemma {:induction false} DrainStepDescends(slots: nat, s: State, e: Event, w: nat)
    requires Inv(slots, s) && Enabled(s, e) && IsDrain(e, w) && w in s.waiters
    ensures w in Apply(s, e).waiters
    ensures 0 <= Rank(Apply(s, e), w) < Rank(s, w)
  {
    if e.DropDecrement? {
      assert |s.guards - {e.g}| == |s.guards| - 1;
    } else if e.DropNotify? {
      assert |s.notifying - {e.g}| == |s.notifying| - 1;
    }
  }

  /** A waiter that has not returned is never stuck: some such step is enabled. */
  lemma {:induction false} DrainNeverStuck(slots: nat, s: State, w: nat) returns (e: Event)
    requires Inv(slots, s) && w in s.waiters && !s.waiters[w].Returned?
    ensures Enabled(s, e) && IsDrain(e, w)
  {
    match s.waiters[w]
    case Looping => e := Register(w);
    case Registered(_) => e := Check(w);
    case Waiting(seen) =>
      if seen < s.broadcasts {
        e := Wake(w);
      } else if s.notifying != {} {
        var g :| g in s.notifying;
        e := DropNotify(g);
      } else {
        var g :| g in s.guards;
        e := DropDecrement(g);
      }
  }

  /**
   Once no operation begins any more, `wait_idle` returns: whatever order the remaining steps
   take, at most `Rank` of them happen, and they cannot stop before the waiter has returned.
   */
  lemma {:induction false} ShutdownTerminates(slots: nat, events: seq<Event>, states: seq<State>, w: nat)
    requires IsRun(events, states) && Inv(slots, states[0]) && w in states[0].waiters
    requires forall i | 0 <= i < |events| :: IsDrain(events[i], w)
    ensures w in states[|events|].waiters
    ensures |events| <= Rank(states[0], w) - Rank(states[|events|], w)
    ensures 0 <= Rank(states[|events|], w)
    ensures Inv(slots, states[|events|])
    ensures (forall e | IsDrain(e, w) :: !Enabled(states[|events|], e)) ==> At(states[|events|], w, Returned)
    decreases |events|
  {
    var n := |events|;
    if n > 0 {
      ShutdownTerminates(slots, events[..n - 1], states[..n], w);
      StepKeepsInv(slots, states[n - 1], events[n - 1]);
      DrainStepDescends(slots, states[n - 1], events[n - 1], w);
    }
    if !states[n].waiters[w].Returned? {
      var e := DrainNeverStuck(slots, states[n], w);
    }
  }

  // ---------------------------------------------------------------- the tracker object

  /** The shared object itself; `guards` and `notifying` are the holders the type system tracks. */
  class OperationTracker {
    var active: int
    var broadcasts: nat
    ghost var guards: set<nat>
    ghost var notifying: set<nat>

    constructor ()
      ensures View(map[], 0, {}) == Init(0)
    {
      active, broadcasts := 0, 0;
      guards, notifying := {}, {};
    }

    ghost function View(waiters: map<nat, Waiter>, permits: int, holders: set<nat>): State
      reads this
    {
      State(active, broadcasts, guards, notifying, waiters, permits, holders)
    }

    method Begin(ghost g: nat)
      requires g !in guards && g !in notifying
      modifies this
      ensures forall waiters, permits, holders ::
                View(waiters, permits, holders) == Apply(old(View(waiters, permits, holders)), Event.Begin(g))
    {
      active := active + 1;
      guards := guards + {g};
    }

    /** Dropping a guard: fetch_sub, then notify_waiters when the previous value was one. */
    method Drop(ghost g: nat)
      requires g in guards && g !in notifying
      modifies this
      ensures forall waiters, permits, holders ::
                var before := old(View(waiters, permits, holders));
                var after := Apply(before, DropDecrement(g));
                View(waiters, permits, holders) ==
                if g in after.notifying then Apply(after, DropNotify(g)) else after
    {
      var previous := active;
      active := active - 1;
      guards := guards - {g};
      if previous == 1 {
        broadcasts := broadcasts + 1;
      }
    }
  }
}
