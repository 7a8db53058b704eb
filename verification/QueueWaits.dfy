/** The condition-variable protocol of `block_queue`: producers that push and broadcast under the
    mutex, and consumers that wait for an element without a time limit. The ring is its FIFO contents. */
module QueueWaits {
  import opened Wrappers

  datatype Pc =
    | PIdle                           // a producer between two calls
    | PStart(x: int)                  // before m_mutex.lock()
    | PLocked(x: int)                 // before the capacity test
    | PStored                         // pushed or rejected, before m_cond.broadcast()
    | PSignalled                      // before m_mutex.unlock()
    | CIdle                           // a consumer between two calls
    | CStart                          // before m_mutex.lock()
    | CTest                           // holds the mutex, before the test of the while loop
    | CWaiting                        // in the wait set, mutex released, not notified
    | CNotified                       // notified, waiting for the mutex
    | CFailed                         // m_cond.wait() reported an error, before unlock()
    | CPopped                         // before m_mutex.unlock()

  /** `pushed` and `popped` record the elements stored and taken so far, in order. */
  datatype State = State(items: seq<int>, max: nat, mutex: Option<nat>, pcs: seq<Pc>,
                         pushed: seq<int>, popped: seq<int>)

  ghost predicate Init(s: State) {
    && s.items == [] && s.max > 0 && s.mutex == None && s.pushed == [] && s.popped == []
    && forall t :: 0 <= t < |s.pcs| ==> s.pcs[t] == PIdle || s.pcs[t] == CIdle
  }

  function Goto(s: State, t: nat, pc: Pc): State
    requires t < |s.pcs|
  {
    s.(pcs := s.pcs[t := pc])
  }

  /** A broadcast notifies every waiting consumer. */
  function Notify(pcs: seq<Pc>): (r: seq<Pc>)
    ensures |r| == |pcs|
    ensures forall t :: 0 <= t < |r| ==> r[t] == if pcs[t] == CWaiting then CNotified else pcs[t]
  {
    if pcs == [] then [] else [if pcs[0] == CWaiting then CNotified else pcs[0]] + Notify(pcs[1..])
  }

  /** The atomic steps of thread `t`. A waiting consumer may wake up on its own, and its wait may
      report an error. */
  ghost predicate StepOf(s: State, t: nat, s': State) {
    t < |s.pcs| &&
    match s.pcs[t]
    case PIdle => exists x :: s' == Goto(s, t, PStart(x))
    case PStart(x) => s.mutex == None && s' == Goto(s.(mutex := Some(t)), t, PLocked(x))
    case PLocked(x) =>
      s' == if |s.items| >= s.max then Goto(s, t, PStored)
            else Goto(s.(items := s.items + [x], pushed := s.pushed + [x]), t, PStored)
    case PStored => s' == Goto(s.(pcs := Notify(s.pcs)), t, PSignalled)
    case PSignalled => s' == Goto(s.(mutex := None), t, PIdle)
    case CIdle => s' == Goto(s, t, CStart)
    case CStart => s.mutex == None && s' == Goto(s.(mutex := Some(t)), t, CTest)
    case CTest =>
      s' == if s.items == [] then Goto(s.(mutex := None), t, CWaiting)
            else Goto(s.(items := s.items[1..], popped := s.popped + [s.items[0]]), t, CPopped)
    case CWaiting => s' == Goto(s, t, CNotified)
    case CNotified =>
      s.mutex == None &&
      (s' == Goto(s.(mutex := Some(t)), t, CTest) || s' == Goto(s.(mutex := Some(t)), t, CFailed))
    case CFailed => s' == Goto(s.(mutex := None), t, CIdle)
    case CPopped => s' == Goto(s.(mutex := None), t, CIdle)
  }

  ghost predicate Next(s: State, s': State) {
    exists t :: StepOf(s, t, s')
  }

  ghost predicate IsRun(run: seq<State>) {
    run != [] && Init(run[0]) && forall i :: 0 <= i < |run| - 1 ==> Next(run[i], run[i + 1])
  }

  predicate HasMutex(pc: Pc) {
    pc.PLocked? || pc == PStored || pc == PSignalled || pc == CTest || pc == CFailed || pc == CPopped
  }

  /** A producer that has not broadcast its push yet holds the mutex. */
  ghost predicate BroadcastPending(s: State) {
    s.mutex.Some? && s.mutex.value < |s.pcs| && s.pcs[s.mutex.value] == PStored
  }

  ghost predicate NoMissedWakeup(s: State) {
    forall t :: 0 <= t < |s.pcs| && s.pcs[t] == CWaiting ==> s.items == [] || BroadcastPending(s)
  }

  ghost predicate MutexInv(s: State) {
    && (s.mutex.Some? ==> s.mutex.value < |s.pcs|)
    && forall t :: 0 <= t < |s.pcs| ==> (HasMutex(s.pcs[t]) <==> s.mutex == Some(t))
  }

  ghost predicate Inv(s: State) {
    MutexInv(s) && NoMissedWakeup(s) && |s.items| <= s.max && s.pushed == s.popped + s.items
  }

  lemma StepMutex(s: State, t: nat, s': State)
    requires MutexInv(s) && StepOf(s, t, s')
    ensures MutexInv(s')
  {
  }

  lemma StepWakeup(s: State, t: nat, s': State)
    requires MutexInv(s) && NoMissedWakeup(s) && StepOf(s, t, s')
    ensures NoMissedWakeup(s')
  {
  }

  lemma StepFifo(s: State, t: nat, s': State)
    requires |s.items| <= s.max && s.pushed == s.popped + s.items && StepOf(s, t, s')
    ensures |s'.items| <= s'.max && s'.pushed == s'.popped + s'.items
  {
    if s.pcs[t] == CTest && s.items != [] {
      assert s.items == [s.items[0]] + s.items[1..];
    }
  }

  lemma {:induction false} RunInv(run: seq<State>, i: nat)
    requires IsRun(run) && i < |run|
    ensures Inv(run[i])
  {
    if i > 0 {
      RunInv(run, i - 1);
      assert Next(run[i - 1], run[i]);
      var t :| StepOf(run[i - 1], t, run[i]);
      hide StepOf, MutexInv, NoMissedWakeup;
      StepMutex(run[i - 1], t, run[i]);
      StepWakeup(run[i - 1], t, run[i]);
      StepFifo(run[i - 1], t, run[i]);
    }
  }

  /** In every interleaving: whenever the mutex is free, a consumer sits un-notified in the wait set
      only while the queue is empty; the queue never exceeds its capacity; and what was popped is a
      prefix of what was pushed, in order. */
  lemma WaitsOnlyWhileEmpty(run: seq<State>, i: nat, t: nat)
    requires IsRun(run) && i < |run| && t < |run[i].pcs|
    ensures run[i].mutex == None && run[i].pcs[t] == CWaiting ==> run[i].items == []
    ensures run[i].popped <= run[i].pushed && |run[i].items| <= run[i].max
  {
    RunInv(run, i);
  }

  /** Between two calls, or asleep with no one bound to wake it. */
  predicate AtRest(pc: Pc) {
    pc == PIdle || pc == CIdle || pc == CWaiting
  }

  /** No wakeup is lost: if no thread can move other than by starting a call or by waking up on its
      own, then no call is in progress except waits, and nobody waits beside an element. */
  lemma StuckMeansEmpty(run: seq<State>, i: nat)
    requires IsRun(run) && i < |run|
    requires forall t, s' :: 0 <= t < |run[i].pcs| && !AtRest(run[i].pcs[t]) ==> !StepOf(run[i], t, s')
    ensures forall t :: 0 <= t < |run[i].pcs| ==> AtRest(run[i].pcs[t])
    ensures forall t :: 0 <= t < |run[i].pcs| && run[i].pcs[t] == CWaiting ==> run[i].items == []
  {
    RunInv(run, i);
    var s := run[i];
    if s.mutex.Some? {
      HolderMoves(s, s.mutex.value);
    }
    forall t | 0 <= t < |s.pcs| ensures AtRest(s.pcs[t]) {
      if !AtRest(s.pcs[t]) { FreeMutexMoves(s, t); }
    }
  }

  lemma HolderMoves(s: State, t: nat)
    requires t < |s.pcs| && HasMutex(s.pcs[t])
    ensures !AtRest(s.pcs[t]) && exists s' :: StepOf(s, t, s')
  {
    var pc := s.pcs[t];
    var s' :=
      if pc.PLocked? then
        if |s.items| >= s.max then Goto(s, t, PStored)
        else Goto(s.(items := s.items + [pc.x], pushed := s.pushed + [pc.x]), t, PStored)
      else if pc == PStored then Goto(s.(pcs := Notify(s.pcs)), t, PSignalled)
      else if pc == PSignalled then Goto(s.(mutex := None), t, PIdle)
      else if pc == CTest then
        if s.items == [] then Goto(s.(mutex := None), t, CWaiting)
        else Goto(s.(items := s.items[1..], popped := s.popped + [s.items[0]]), t, CPopped)
      else Goto(s.(mutex := None), t, CIdle);
    assert StepOf(s, t, s');
  }

  lemma FreeMutexMoves(s: State, t: nat)
    requires MutexInv(s) && s.mutex == None && t < |s.pcs| && !AtRest(s.pcs[t])
    ensures exists s' :: StepOf(s, t, s')
  {
    assert !HasMutex(s.pcs[t]);
    var pc := if s.pcs[t].PStart? then PLocked(s.pcs[t].x) else CTest;
    assert StepOf(s, t, Goto(s.(mutex := Some(t)), t, pc));
  }

  // ---- What a call gives ----

  /** A push stores its element last exactly if there is room at the moment of its test. */
  lemma PushExactly(run: seq<State>, i: nat, t: nat, x: int)
    requires IsRun(run) && i + 1 < |run| && t < |run[i].pcs| && run[i].pcs[t] == PLocked(x)
    ensures |run[i + 1].pcs| == |run[i].pcs|
    ensures var s, s' := run[i], run[i + 1];
            s'.pcs[t] != PLocked(x) ==>
            if |s.items| == s.max then s' == s.(pcs := s.pcs[t := PStored])
            else s' == s.(items := s.items + [x], pushed := s.pushed + [x], pcs := s.pcs[t := PStored])
  {
    RunInv(run, i);
    assert Next(run[i], run[i + 1]);
    var u :| StepOf(run[i], u, run[i + 1]);
  }

  /** A pop takes the oldest element if there is one at the moment of its test, and waits with the mutex
      released otherwise. */
  lemma PopExactly(run: seq<State>, i: nat, t: nat)
    requires IsRun(run) && i + 1 < |run| && t < |run[i].pcs| && run[i].pcs[t] == CTest
    ensures |run[i + 1].pcs| == |run[i].pcs|
    ensures var s, s' := run[i], run[i + 1];
            s'.pcs[t] != CTest ==>
            if s.items == [] then s' == s.(mutex := None, pcs := s.pcs[t := CWaiting])
            else s' == s.(items := s.items[1..], popped := s.popped + [s.items[0]], pcs := s.pcs[t := CPopped])
  {
    assert Next(run[i], run[i + 1]);
    var u :| StepOf(run[i], u, run[i + 1]);
  }

  /** Any element can be pushed, and a pop can be called, at any time. */
  lemma CallsStart(s: State, t: nat, x: int)
    requires t < |s.pcs|
    ensures s.pcs[t] == PIdle ==> StepOf(s, t, s.(pcs := s.pcs[t := PStart(x)]))
    ensures s.pcs[t] == CIdle ==> StepOf(s, t, s.(pcs := s.pcs[t := CStart]))
  {
    assert s.pcs[t] == PIdle ==> s.(pcs := s.pcs[t := PStart(x)]) == Goto(s, t, PStart(x));
  }
}
