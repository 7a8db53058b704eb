/** `threadpool` under concurrency: appenders push requests and post a semaphore outside the lock,
    workers wait for it outside the lock and pop. */
module ThreadPool {
  import opened Wrappers
  import opened Threads

  datatype Pc =
    | AIdle                           // an appender between two calls
    | AStart(r: nat)                  // in append or append_p, before lock()
    | ALocked(r: nat)                 // before the size test
    | APushed                         // pushed, before unlock()
    | ARejected                       // queue full, before unlock() and return false
    | AUnlocked                       // before m_queuestat.post()
    | WWait                           // a worker at m_queuestat.wait()
    | WGranted                        // past the wait, before lock()
    | WLocked                         // before the empty() test
    | WSawEmpty                       // found the queue empty, before unlock() and continue
    | WPopped(r: nat)                 // before unlock()
    | WBusy(r: nat)                   // processing the request

  /** `accepted` and `dequeued` record what was pushed and popped so far, in order. */
  datatype State = State(queue: seq<nat>, queuestat: nat, lock: Option<nat>, maxRequests: nat,
                         pcs: seq<Pc>, accepted: seq<nat>, dequeued: seq<nat>)

  ghost predicate Init(s: State) {
    && s.queue == [] && s.queuestat == 0 && s.lock == None && s.maxRequests > 0
    && s.accepted == [] && s.dequeued == []
    && forall t :: 0 <= t < |s.pcs| ==> s.pcs[t] == AIdle || s.pcs[t] == WWait
  }

  function Goto(s: State, t: nat, pc: Pc): State
    requires t < |s.pcs|
  {
    s.(pcs := s.pcs[t := pc])
  }

  predicate Enabled(s: State, t: nat)
    requires t < |s.pcs|
  {
    match s.pcs[t]
    case AStart(_) => s.lock == None
    case WWait => s.queuestat > 0
    case WGranted => s.lock == None
    case _ => true
  }

  /** The next atomic step of thread `t`; an appender's next call brings request `r`. */
  function Step(s: State, t: nat, r: nat): State
    requires t < |s.pcs| && Enabled(s, t)
  {
    match s.pcs[t]
    case AIdle => Goto(s, t, AStart(r))
    case AStart(q) => Goto(s.(lock := Some(t)), t, ALocked(q))
    case ALocked(q) =>
      if |s.queue| >= s.maxRequests then Goto(s, t, ARejected)
      else Goto(s.(queue := s.queue + [q], accepted := s.accepted + [q]), t, APushed)
    case APushed => Goto(s.(lock := None), t, AUnlocked)
    case ARejected => Goto(s.(lock := None), t, AIdle)
    case AUnlocked => Goto(s.(queuestat := s.queuestat + 1), t, AIdle)
    case WWait => Goto(s.(queuestat := s.queuestat - 1), t, WGranted)
    case WGranted => Goto(s.(lock := Some(t)), t, WLocked)
    case WLocked =>
      if s.queue == [] then Goto(s, t, WSawEmpty)
      else Goto(s.(queue := s.queue[1..], dequeued := s.dequeued + [s.queue[0]]), t, WPopped(s.queue[0]))
    case WSawEmpty => Goto(s.(lock := None), t, WWait)
    case WPopped(q) => Goto(s.(lock := None), t, WBusy(q))
    case WBusy(q) => Goto(s, t, WWait)
  }

  predicate NotPosted(pc: Pc) { pc == APushed || pc == AUnlocked }
  predicate PastWait(pc: Pc) { pc == WGranted || pc == WLocked }
  predicate InLock(pc: Pc) {
    pc.ALocked? || pc == APushed || pc == ARejected || pc == WLocked || pc == WSawEmpty || pc.WPopped?
  }

  /** The queue length is what the semaphore still grants, plus appends not yet posted, plus workers
      past the wait that have not popped yet. */
  ghost predicate SemInv(s: State) {
    && |s.queue| == s.queuestat + Count(s.pcs, NotPosted) + Count(s.pcs, PastWait)
    && |s.queue| <= s.maxRequests
  }

  /** Requests leave in the order in which they were accepted, and each at most once. */
  ghost predicate FifoInv(s: State) {
    s.accepted == s.dequeued + s.queue
  }

  ghost predicate LockInv(s: State) {
    && (s.lock.Some? ==> s.lock.value < |s.pcs|)
    && forall t :: 0 <= t < |s.pcs| ==> (InLock(s.pcs[t]) <==> s.lock == Some(t))
  }

  /** The `continue` of a worker that finds the queue empty is unreachable. */
  ghost predicate NeverSawEmpty(s: State) {
    forall t :: 0 <= t < |s.pcs| ==> s.pcs[t] != WSawEmpty
  }

  ghost predicate Inv(s: State) {
    SemInv(s) && FifoInv(s) && LockInv(s) && NeverSawEmpty(s)
  }

  lemma InitInv(s: State)
    requires Init(s)
    ensures Inv(s)
  {
    CountNone(s.pcs, NotPosted);
    CountNone(s.pcs, PastWait);
  }

  lemma SemChange(s: State, t: nat, r: nat)
    requires t < |s.pcs| && Enabled(s, t)
    ensures var s' := Step(s, t, r);
            |s'.pcs| == |s.pcs| &&
            var pc, pc' := s.pcs[t], s'.pcs[t];
            && s'.pcs == s.pcs[t := pc'] && s'.maxRequests == s.maxRequests
            && (|s.queue| <= s.maxRequests ==> |s'.queue| <= s'.maxRequests)
            && (pc != WLocked || s.queue != [] ==>
                  |s'.queue| - s'.queuestat - One(NotPosted(pc')) - One(PastWait(pc')) ==
                  |s.queue| - s.queuestat - One(NotPosted(pc)) - One(PastWait(pc)))
  {
  }

  lemma StepSem(s: State, t: nat, r: nat)
    requires SemInv(s) && t < |s.pcs| && Enabled(s, t)
    ensures SemInv(Step(s, t, r))
    ensures s.pcs[t] == WLocked ==> s.queue != []
  {
    hide Step, Enabled, Count, One, NotPosted;
    SemChange(s, t, r);
    var pc := Step(s, t, r).pcs[t];
    CountUpdate(s.pcs, t, pc, NotPosted);
    CountUpdate(s.pcs, t, pc, PastWait);
    if s.pcs[t] == WLocked {
      CountPositive(s.pcs, t, PastWait);
    }
  }

  lemma StepFifo(s: State, t: nat, r: nat)
    requires FifoInv(s) && t < |s.pcs| && Enabled(s, t)
    ensures FifoInv(Step(s, t, r))
  {
    if s.pcs[t] == WLocked && s.queue != [] {
      assert s.queue == [s.queue[0]] + s.queue[1..];
    }
  }

  lemma StepInv(s: State, t: nat, r: nat)
    requires Inv(s) && t < |s.pcs| && Enabled(s, t)
    ensures Inv(Step(s, t, r))
  {
    hide SemInv, FifoInv;
    StepSem(s, t, r);
    StepFifo(s, t, r);
  }

  ghost predicate Next(s: State, s': State) {
    exists t, r :: 0 <= t < |s.pcs| && Enabled(s, t) && s' == Step(s, t, r)
  }

  ghost predicate IsRun(run: seq<State>) {
    run != [] && Init(run[0]) && forall i :: 0 <= i < |run| - 1 ==> Next(run[i], run[i + 1])
  }

  lemma {:induction false} RunInv(run: seq<State>, i: nat)
    requires IsRun(run) && i < |run|
    ensures Inv(run[i])
  {
    if i == 0 {
      InitInv(run[0]);
    } else {
      RunInv(run, i - 1);
      var s := run[i - 1];
      assert Next(s, run[i]);
      var t, r :| 0 <= t < |s.pcs| && Enabled(s, t) && run[i] == Step(s, t, r);
      StepInv(s, t, r);
    }
  }

  // ---- What a call gives ----

  /** An append is rejected exactly if the queue is full at the moment of its test; otherwise its request
      is queued last. */
  lemma AppendExactly(run: seq<State>, i: nat, t: nat, r: nat)
    requires IsRun(run) && i + 1 < |run| && t < |run[i].pcs| && run[i].pcs[t] == ALocked(r)
    ensures |run[i + 1].pcs| == |run[i].pcs|
    ensures var s, s' := run[i], run[i + 1];
            s'.pcs[t] != ALocked(r) ==>
            if |s.queue| == s.maxRequests
            then s' == s.(pcs := s.pcs[t := ARejected])
            else s' == s.(queue := s.queue + [r], accepted := s.accepted + [r], pcs := s.pcs[t := APushed])
  {
    RunInv(run, i);
    assert Next(run[i], run[i + 1]);
    var u, x :| 0 <= u < |run[i].pcs| && Enabled(run[i], u) && run[i + 1] == Step(run[i], u, x);
  }

  /** A worker gets the request that has been queued longest. */
  lemma DequeueExactly(run: seq<State>, i: nat, t: nat)
    requires IsRun(run) && i + 1 < |run| && t < |run[i].pcs| && run[i].pcs[t] == WLocked
    ensures |run[i + 1].pcs| == |run[i].pcs|
    ensures var s, s' := run[i], run[i + 1];
            s'.pcs[t] != WLocked ==>
            s.queue != [] &&
            s' == s.(queue := s.queue[1..], dequeued := s.dequeued + [s.queue[0]],
                     pcs := s.pcs[t := WPopped(s.queue[0])])
  {
    RunInv(run, i);
    assert Next(run[i], run[i + 1]);
    var u, x :| 0 <= u < |run[i].pcs| && Enabled(run[i], u) && run[i + 1] == Step(run[i], u, x);
    StepSem(run[i], u, x);
  }

  /** Up to `n` steps of thread `t` while no other thread moves; a call it starts brings `r`. */
  function Alone(s: State, t: nat, r: nat, n: nat): State
    requires t < |s.pcs|
    decreases n
  {
    if n == 0 || !Enabled(s, t) then s
    else SemChange(s, t, r); Alone(Step(s, t, r), t, r, n - 1)
  }

  lemma AloneStep(s: State, t: nat, r: nat, n: nat)
    requires t < |s.pcs| && n > 0 && Enabled(s, t)
    ensures |Step(s, t, r).pcs| == |s.pcs| && Alone(s, t, r, n) == Alone(Step(s, t, r), t, r, n - 1)
  {
  }

  /** An undisturbed append queues its request and posts once, or is rejected and changes nothing. */
  lemma AppendAlone(s: State, t: nat, r: nat)
    requires s.lock == None && t < |s.pcs| && s.pcs[t] == AIdle && |s.queue| <= s.maxRequests
    ensures |s.queue| < s.maxRequests ==>
              Alone(s, t, r, 5) ==
              s.(queue := s.queue + [r], accepted := s.accepted + [r], queuestat := s.queuestat + 1)
    ensures |s.queue| == s.maxRequests ==> Alone(s, t, r, 4) == s
  {
    hide Alone;
    var full := |s.queue| == s.maxRequests;
    var s1 := Goto(s, t, AStart(r));
    var s2 := Goto(s1.(lock := Some(t)), t, ALocked(r));
    var s3 := if full then Goto(s2, t, ARejected)
              else Goto(s2.(queue := s.queue + [r], accepted := s.accepted + [r]), t, APushed);
    var n := if full then 4 else 5;
    AloneStep(s, t, r, n);
    AloneStep(s1, t, r, n - 1);
    AloneStep(s2, t, r, n - 2);
    if full {
      AloneStep(s3, t, r, 1);
      AloneNone(s, t, r);
      assert s3.pcs[t := AIdle] == s.pcs;
    } else {
      AppendEnds(s, s3, t, r);
    }
  }

  lemma AppendEnds(s: State, s3: State, t: nat, r: nat)
    requires s.lock == None && t < |s.pcs| && s.pcs[t] == AIdle
    requires s3 == s.(queue := s.queue + [r], accepted := s.accepted + [r], lock := Some(t), pcs := s3.pcs)
    requires s3.pcs == s.pcs[t := APushed]
    ensures Alone(s3, t, r, 2) ==
            s.(queue := s.queue + [r], accepted := s.accepted + [r], queuestat := s.queuestat + 1)
  {
    hide Alone;
    var s4 := Goto(s3.(lock := None), t, AUnlocked);
    AloneStep(s3, t, r, 2);
    AloneStep(s4, t, r, 1);
    AloneNone(Step(s4, t, r), t, r);
    assert s4.pcs[t := AIdle] == s.pcs;
  }

  lemma AloneNone(s: State, t: nat, r: nat)
    requires t < |s.pcs|
    ensures Alone(s, t, r, 0) == s
  {
  }

  /** An undisturbed worker takes the first request and processes it; then it waits for the next. */
  lemma WorkAlone(s: State, t: nat, r: nat)
    requires s.lock == None && t < |s.pcs| && s.pcs[t] == WWait && s.queuestat > 0 && s.queue != []
    ensures Alone(s, t, r, 4) ==
            s.(queue := s.queue[1..], dequeued := s.dequeued + [s.queue[0]], queuestat := s.queuestat - 1,
               pcs := s.pcs[t := WBusy(s.queue[0])])
    ensures Alone(Alone(s, t, r, 4), t, r, 1) ==
            s.(queue := s.queue[1..], dequeued := s.dequeued + [s.queue[0]], queuestat := s.queuestat - 1)
  {
    hide Alone;
    var q := s.queue[0];
    var s1 := Goto(s.(queuestat := s.queuestat - 1), t, WGranted);
    var s2 := Goto(s1.(lock := Some(t)), t, WLocked);
    var s3 := Goto(s2.(queue := s.queue[1..], dequeued := s.dequeued + [q]), t, WPopped(q));
    AloneStep(s, t, r, 4);
    AloneStep(s1, t, r, 3);
    AloneStep(s2, t, r, 2);
    AloneStep(s3, t, r, 1);
    AloneNone(Step(s3, t, r), t, r);
    assert s3.pcs[t := WBusy(q)] == s.pcs[t := WBusy(q)];
    var s4 := Alone(s, t, r, 4);
    AloneStep(s4, t, r, 1);
    AloneNone(Step(s4, t, r), t, r);
    assert s4.pcs[t := WWait] == s.pcs;
  }
}
