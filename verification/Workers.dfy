/** Thread pool and connection pool together: the workers that process requests are the threads that
    take connections. */
module Workers {
  import opened Wrappers
  import opened Threads
  import T = ThreadPool
  import S = SqlPool

  /** Thread `t` of the thread pool is thread `t` of the connection pool. */
  datatype State = State(tp: T.State, sp: S.State)

  ghost predicate Init(s: State, conns: seq<nat>) {
    T.Init(s.tp) && S.Init(s.sp, conns) && |s.tp.pcs| == |s.sp.pcs|
  }

  /** A busy worker moves inside the connection pool, or finishes its request once it is outside;
      every other thread moves inside the thread pool. */
  ghost predicate StepOf(s: State, t: nat, s': State) {
    && t < |s.tp.pcs| && t < |s.sp.pcs|
    && ((s.tp.pcs[t].WBusy? && S.Enabled(s.sp, t) && s' == s.(sp := S.Step(s.sp, t)))
        || ((s.tp.pcs[t].WBusy? ==> s.sp.pcs[t] == S.Idle) && T.Enabled(s.tp, t) &&
            exists r :: s' == s.(tp := T.Step(s.tp, t, r))))
  }

  ghost predicate Enabled(s: State, t: nat) {
    exists s' :: StepOf(s, t, s')
  }

  ghost predicate Next(s: State, s': State) {
    exists t :: StepOf(s, t, s')
  }

  ghost predicate IsRun(run: seq<State>, conns: seq<nat>) {
    run != [] && Init(run[0], conns) && forall i :: 0 <= i < |run| - 1 ==> Next(run[i], run[i + 1])
  }

  ghost predicate Inv(s: State, conns: seq<nat>) {
    && T.Inv(s.tp) && S.Inv(s.sp, conns) && |s.tp.pcs| == |s.sp.pcs|
    && forall t :: 0 <= t < |s.sp.pcs| && s.sp.pcs[t] != S.Idle ==> s.tp.pcs[t].WBusy?
  }

  lemma {:induction false} RunInv(run: seq<State>, conns: seq<nat>, i: nat)
    requires IsRun(run, conns) && i < |run|
    ensures Inv(run[i], conns)
  {
    if i == 0 {
      T.InitInv(run[0].tp);
      S.InitInv(run[0].sp, conns);
    } else {
      RunInv(run, conns, i - 1);
      assert Next(run[i - 1], run[i]);
      var t :| StepOf(run[i - 1], t, run[i]);
      StepInv(run[i - 1], conns, t, run[i]);
    }
  }

  lemma StepInv(s: State, conns: seq<nat>, t: nat, s': State)
    requires Inv(s, conns) && StepOf(s, t, s')
    ensures Inv(s', conns)
  {
    hide T.Inv, S.Inv;
    if s.tp.pcs[t].WBusy? && S.Enabled(s.sp, t) && s' == s.(sp := S.Step(s.sp, t)) {
      S.StepInv(s.sp, t, conns);
    } else {
      var r :| s' == s.(tp := T.Step(s.tp, t, r));
      T.StepInv(s.tp, t, r);
    }
  }

  /** The thread pool: bounded, first in first out, each request at most once, no pop from an empty
      queue. */
  ghost predicate QueueSafe(tp: T.State) {
    && |tp.queue| <= tp.maxRequests && tp.accepted == tp.dequeued + tp.queue
    && forall t :: 0 <= t < |tp.pcs| ==>
         tp.pcs[t] != T.WSawEmpty && (tp.pcs[t] == T.WLocked ==> tp.queue != [])
  }

  ghost predicate OnlyHolder(sp: S.State, conns: seq<nat>, t: nat, c: nat) {
    c in conns && c !in sp.connList && forall u :: 0 <= u < |sp.pcs| && u != t ==> c !in S.HeldBy(sp.pcs[u])
  }

  /** The connection pool: no pop from an empty list, no connection in two hands, nothing lost, and
      balanced counters while nobody is inside the lock. */
  ghost predicate PoolSafe(sp: S.State, conns: seq<nat>) {
    && (forall t :: 0 <= t < |sp.pcs| && sp.pcs[t] == S.GetLocked ==> sp.connList != [])
    && (forall t, c :: 0 <= t < |sp.pcs| && c in S.HeldBy(sp.pcs[t]) ==> OnlyHolder(sp, conns, t, c))
    && multiset(sp.connList) + S.Held(sp.pcs) == multiset(conns)
    && (sp.lock == None ==> sp.freeConn + sp.curConn == sp.maxConn == |conns|)
  }

  /** What every state of every interleaving satisfies. */
  lemma Safety(run: seq<State>, conns: seq<nat>, i: nat)
    requires IsRun(run, conns) && i < |run|
    requires forall i, j :: 0 <= i < j < |conns| ==> conns[i] != conns[j]
    ensures QueueSafe(run[i].tp) && PoolSafe(run[i].sp, conns)
  {
    hide QueueSafe, PoolSafe, S.Inv, T.Inv;
    RunInv(run, conns, i);
    QueueIsSafe(run[i].tp);
    PoolIsSafe(run[i].sp, conns);
  }

  lemma QueueIsSafe(tp: T.State)
    requires T.Inv(tp)
    ensures QueueSafe(tp)
  {
    forall t | 0 <= t < |tp.pcs| && tp.pcs[t] == T.WLocked ensures tp.queue != [] {
      CountPositive(tp.pcs, t, T.PastWait);
    }
  }

  lemma PoolIsSafe(sp: S.State, conns: seq<nat>)
    requires S.Inv(sp, conns) && forall i, j :: 0 <= i < j < |conns| ==> conns[i] != conns[j]
    ensures PoolSafe(sp, conns)
  {
    hide S.Held, S.HeldBy, S.FreeInv, S.CurrentInv, S.SemInv, S.LockInv;
    forall t | 0 <= t < |sp.pcs| && sp.pcs[t] == S.GetLocked ensures sp.connList != [] {
      S.NeverPopsEmpty(sp, conns, t);
    }
    forall t, c | 0 <= t < |sp.pcs| && c in S.HeldBy(sp.pcs[t]) ensures OnlyHolder(sp, conns, t, c) {
      S.ExclusiveHolders(sp, conns, t, c);
    }
    if sp.lock == None {
      S.CountersAddUp(sp, conns);
    }
  }

  predicate BlockedForConnection(s: State, t: nat) {
    t < |s.sp.pcs| && s.sp.pcs[t] == S.Waiting && s.sp.reserve == 0
  }

  /** With at least one connection, no interleaving has every busy worker blocked: some busy worker
      can take its next step. */
  lemma BusyWorkersProgress(run: seq<State>, conns: seq<nat>, i: nat, t: nat)
    requires IsRun(run, conns) && i < |run| && |conns| > 0
    requires t < |run[i].tp.pcs| && run[i].tp.pcs[t].WBusy?
    ensures exists u :: 0 <= u < |run[i].tp.pcs| && run[i].tp.pcs[u].WBusy? && Enabled(run[i], u) &&
                        !BlockedForConnection(run[i], u)
  {
    RunInv(run, conns, i);
    var s := run[i];
    hide T.Inv, S.Inv;
    if s.sp.pcs[t] == S.Idle {
      assert StepOf(s, t, s.(tp := T.Step(s.tp, t, 0)));
      assert Enabled(s, t);
    } else {
      S.NoDeadlock(s.sp, conns, t);
      var u :| 0 <= u < |s.sp.pcs| && s.sp.pcs[u] != S.Idle && S.Enabled(s.sp, u);
      assert StepOf(s, u, s.(sp := S.Step(s.sp, u)));
      assert Enabled(s, u);
    }
  }

  predicate IsWorker(pc: T.Pc) {
    pc == T.WWait || pc == T.WGranted || pc == T.WLocked || pc == T.WSawEmpty || pc.WPopped? || pc.WBusy?
  }

  /** If nothing can move except appenders that start a new call, all work is done: the queue is empty,
      every accepted request was dequeued and finished, and every connection is back on the list. */
  lemma StuckMeansDone(run: seq<State>, conns: seq<nat>, i: nat, w: nat)
    requires IsRun(run, conns) && i < |run| && |conns| > 0
    requires w < |run[i].tp.pcs| && IsWorker(run[i].tp.pcs[w])
    requires forall t :: 0 <= t < |run[i].tp.pcs| && run[i].tp.pcs[t] != T.AIdle ==> !Enabled(run[i], t)
    ensures run[i].tp.queue == [] && run[i].tp.accepted == run[i].tp.dequeued
    ensures forall t :: 0 <= t < |run[i].tp.pcs| ==> run[i].tp.pcs[t] == T.AIdle || run[i].tp.pcs[t] == T.WWait
    ensures multiset(run[i].sp.connList) == multiset(conns)
  {
    RunInv(run, conns, i);
    var s := run[i];
    var pcs := s.tp.pcs;
    hide S.Inv;
    forall t | 0 <= t < |pcs| ensures !pcs[t].WBusy? {
      if pcs[t].WBusy? { BusyWorkersProgress(run, conns, i, t); }
    }
    forall t | 0 <= t < |pcs| && pcs[t] != T.AIdle ensures !T.Enabled(s.tp, t) {
      if T.Enabled(s.tp, t) { MovesInThreadPool(s, t); }
    }
    if s.tp.lock.Some? { LockHolderMoves(s.tp); }
    CountNone(pcs, T.NotPosted);
    CountNone(pcs, T.PastWait);
    assert pcs[w] == T.WWait;
    NoneHeld(s.sp, conns);
  }

  lemma MovesInThreadPool(s: State, t: nat)
    requires t < |s.tp.pcs| == |s.sp.pcs| && !s.tp.pcs[t].WBusy? && T.Enabled(s.tp, t)
    ensures Enabled(s, t)
  {
    assert StepOf(s, t, s.(tp := T.Step(s.tp, t, 0)));
  }

  lemma LockHolderMoves(tp: T.State)
    requires T.Inv(tp) && tp.lock.Some?
    ensures tp.lock.value < |tp.pcs| && tp.pcs[tp.lock.value] != T.AIdle && T.Enabled(tp, tp.lock.value)
  {
    assert T.InLock(tp.pcs[tp.lock.value]);
  }

  lemma NoneHeld(sp: S.State, conns: seq<nat>)
    requires S.Inv(sp, conns) && forall t :: 0 <= t < |sp.pcs| ==> sp.pcs[t] == S.Idle
    ensures multiset(sp.connList) == multiset(conns)
  {
    S.HeldNone(sp.pcs);
  }

  /** An appender can bring any request, and a worker outside the connection pool can finish its own, at
      any time. */
  lemma CallsStart(s: State, t: nat, r: nat)
    requires t < |s.tp.pcs| == |s.sp.pcs|
    ensures s.tp.pcs[t] == T.AIdle ==> StepOf(s, t, s.(tp := s.tp.(pcs := s.tp.pcs[t := T.AStart(r)])))
    ensures s.tp.pcs[t].WBusy? && s.sp.pcs[t] == S.Idle ==>
              StepOf(s, t, s.(tp := s.tp.(pcs := s.tp.pcs[t := T.WWait])))
  {
    if T.Enabled(s.tp, t) {
      assert s.tp.pcs[t] == T.AIdle ==> T.Step(s.tp, t, r) == s.tp.(pcs := s.tp.pcs[t := T.AStart(r)]);
      assert s.tp.pcs[t].WBusy? ==> T.Step(s.tp, t, r) == s.tp.(pcs := s.tp.pcs[t := T.WWait]);
    }
  }
}
