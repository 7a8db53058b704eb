/** `sql_connection_pool` under concurrency: any number of threads take and give back connections, one
    atomic access at a time. The semaphore is waited for and posted outside the lock, and the first
    test of the list's size is not synchronised at all. */
module SqlPool {
  import opened Wrappers
  import opened Threads

  /** Where a thread stands in `GetConnection`, in its use of the connection, or in
      `ReleaseConnection`. `Holding(None)` is a thread that was given NULL. */
  datatype Pc =
    | Idle                            // outside the pool
    | Waiting                         // saw a non-empty list; at reserve.wait()
    | Granted                         // past the wait, before lock.lock()
    | GetLocked                       // before front() and pop_front()
    | GetPopped(c: nat)               // before --m_FreeConn
    | GetFreed(c: nat)                // before ++m_CurConn
    | GetCounted(c: nat)              // before lock.unlock()
    | Holding(got: Option<nat>)       // between acquisition and release
    | Releasing(c: nat)               // before lock.lock()
    | RelLocked(c: nat)               // before push_back()
    | RelPushed                       // before ++m_FreeConn
    | RelFreed                        // before --m_CurConn
    | RelCounted                      // before lock.unlock()
    | RelUnlocked                     // before reserve.post()

  datatype State = State(connList: seq<nat>, reserve: nat, lock: Option<nat>,
                         freeConn: int, curConn: int, maxConn: int, pcs: seq<Pc>)

  /** After `init`: every connection is free and every thread is outside. */
  ghost predicate Init(s: State, conns: seq<nat>) {
    && s.connList == conns && s.reserve == |conns| && s.lock == None
    && s.freeConn == |conns| && s.curConn == 0 && s.maxConn == |conns|
    && forall t :: 0 <= t < |s.pcs| ==> s.pcs[t] == Idle
  }

  /** `init`: `results` are the connections that the client library returns, None for a failure, which
      ends the process. */
  method InitPool(results: seq<Option<nat>>, threads: nat) returns (s: Option<State>)
    ensures s == None <==> None in results
    ensures s.Some? ==> Init(s.value, Values(results)) && |s.value.pcs| == threads
  {
    var connList: seq<nat>, freeConn := [], 0;
    for i := 0 to |results|
      invariant None !in results[..i] && connList == Values(results[..i]) && freeConn == |connList|
    {
      if results[i] == None {
        return None;
      }
      connList := connList + [results[i].value];
      freeConn := freeConn + 1;
      assert results[..i + 1] == results[..i] + [results[i]];
      ValuesSnoc(results[..i], results[i].value);
    }
    assert results[..|results|] == results;
    return Some(State(connList, freeConn, None, freeConn, 0, freeConn, seq(threads, _ => Idle)));
  }

  function Values(results: seq<Option<nat>>): seq<nat> {
    if results == [] then []
    else (if results[0].Some? then [results[0].value] else []) + Values(results[1..])
  }

  lemma {:induction false} ValuesSnoc(results: seq<Option<nat>>, c: nat)
    ensures Values(results + [Some(c)]) == Values(results) + [c]
  {
    var all := results + [Some(c)];
    if results == [] {
      assert all[1..] == [];
    } else {
      assert all[1..] == results[1..] + [Some(c)] && all[0] == results[0];
      ValuesSnoc(results[1..], c);
      var first := if results[0].Some? then [results[0].value] else [];
      assert first + (Values(results[1..]) + [c]) == (first + Values(results[1..])) + [c];
    }
  }

  function Goto(s: State, t: nat, pc: Pc): State
    requires t < |s.pcs|
  {
    s.(pcs := s.pcs[t := pc])
  }

  /** Whether thread `t` can take its next step. */
  predicate Enabled(s: State, t: nat)
    requires t < |s.pcs|
  {
    match s.pcs[t]
    case Waiting => s.reserve > 0
    case Granted => s.lock == None
    case Releasing(_) => s.lock == None
    case GetLocked => s.connList != []
    case _ => true
  }

  /** The next atomic step of thread `t`. */
  function Step(s: State, t: nat): State
    requires t < |s.pcs| && Enabled(s, t)
  {
    match s.pcs[t]
    case Idle => Goto(s, t, if |s.connList| == 0 then Holding(None) else Waiting)
    case Waiting => Goto(s.(reserve := s.reserve - 1), t, Granted)
    case Granted => Goto(s.(lock := Some(t)), t, GetLocked)
    case GetLocked => Goto(s.(connList := s.connList[1..]), t, GetPopped(s.connList[0]))
    case GetPopped(c) => Goto(s.(freeConn := s.freeConn - 1), t, GetFreed(c))
    case GetFreed(c) => Goto(s.(curConn := s.curConn + 1), t, GetCounted(c))
    case GetCounted(c) => Goto(s.(lock := None), t, Holding(Some(c)))
    case Holding(got) => Goto(s, t, if got == None then Idle else Releasing(got.value))
    case Releasing(c) => Goto(s.(lock := Some(t)), t, RelLocked(c))
    case RelLocked(c) => Goto(s.(connList := s.connList + [c]), t, RelPushed)
    case RelPushed => Goto(s.(freeConn := s.freeConn + 1), t, RelFreed)
    case RelFreed => Goto(s.(curConn := s.curConn - 1), t, RelCounted)
    case RelCounted => Goto(s.(lock := None), t, RelUnlocked)
    case RelUnlocked => Goto(s.(reserve := s.reserve + 1), t, Idle)
  }

  // ---- The invariant ----

  predicate PastWait(pc: Pc) { pc == Granted || pc == GetLocked }
  predicate Unposted(pc: Pc) { pc == RelPushed || pc == RelFreed || pc == RelCounted || pc == RelUnlocked }
  predicate InLock(pc: Pc) {
    pc == GetLocked || pc.GetPopped? || pc.GetFreed? || pc.GetCounted? ||
    pc.RelLocked? || pc == RelPushed || pc == RelFreed || pc == RelCounted
  }
  predicate PoppedNotCounted(pc: Pc) { pc.GetPopped? }
  predicate PushedNotCounted(pc: Pc) { pc == RelPushed }
  predicate CountedInUse(pc: Pc) {
    pc.GetCounted? || (pc.Holding? && pc.got != None) || pc.Releasing? || pc.RelLocked? ||
    pc == RelPushed || pc == RelFreed
  }

  /** The connection that a thread has off the list. */
  function HeldBy(pc: Pc): multiset<nat> {
    if pc.GetPopped? || pc.GetFreed? || pc.GetCounted? || pc.Releasing? || pc.RelLocked? then multiset{pc.c}
    else if pc.Holding? && pc.got.Some? then multiset{pc.got.value}
    else multiset{}
  }

  function Held(pcs: seq<Pc>): multiset<nat> {
    if pcs == [] then multiset{} else HeldBy(pcs[0]) + Held(pcs[1..])
  }

  /** The list length is what the semaphore still grants, plus what it has granted to threads that
      have not popped yet, plus what was pushed but not posted yet. */
  ghost predicate SemInv(s: State) {
    |s.connList| == s.reserve + Count(s.pcs, PastWait) + Count(s.pcs, Unposted)
  }

  /** The counters lag behind the list only inside the lock. */
  ghost predicate FreeInv(s: State) {
    s.freeConn == |s.connList| + Count(s.pcs, PoppedNotCounted) - Count(s.pcs, PushedNotCounted)
  }

  ghost predicate CurrentInv(s: State) {
    s.curConn == Count(s.pcs, CountedInUse)
  }

  /** Free and held connections together are the initial ones. */
  ghost predicate HeldInv(s: State, conns: seq<nat>) {
    multiset(s.connList) + Held(s.pcs) == multiset(conns)
  }

  ghost predicate LockInv(s: State) {
    && (s.lock.Some? ==> s.lock.value < |s.pcs|)
    && forall t :: 0 <= t < |s.pcs| ==> (InLock(s.pcs[t]) <==> s.lock == Some(t))
  }

  ghost predicate Inv(s: State, conns: seq<nat>) {
    SemInv(s) && FreeInv(s) && CurrentInv(s) && HeldInv(s, conns) && LockInv(s) && s.maxConn == |conns|
  }

  lemma Exchange(a: multiset<nat>, b: multiset<nat>, c: multiset<nat>, d: multiset<nat>, e: multiset<nat>)
    requires b + c == d + e
    ensures (a + b) + c == (a + d) + e
  {
    assert (a + b) + c == a + (b + c);
    assert (a + d) + e == a + (d + e);
  }

  lemma {:induction false} HeldUpdate(pcs: seq<Pc>, t: nat, pc: Pc)
    requires t < |pcs|
    ensures Held(pcs[t := pc]) + HeldBy(pcs[t]) == Held(pcs) + HeldBy(pc)
  {
    hide HeldBy;
    if t > 0 {
      assert pcs[t := pc][1..] == pcs[1..][t - 1 := pc];
      HeldUpdate(pcs[1..], t - 1, pc);
      Exchange(HeldBy(pcs[0]), Held(pcs[1..][t - 1 := pc]), HeldBy(pcs[t]), Held(pcs[1..]), HeldBy(pc));
    } else {
      assert pcs[t := pc][1..] == pcs[1..];
    }
  }

  lemma {:induction false} HeldNone(pcs: seq<Pc>)
    requires forall t :: 0 <= t < |pcs| ==> HeldBy(pcs[t]) == multiset{}
    ensures Held(pcs) == multiset{}
  {
    if pcs != [] {
      assert forall i :: 0 <= i < |pcs[1..]| ==> pcs[1..][i] == pcs[i + 1];
      HeldNone(pcs[1..]);
    }
  }

  lemma InitInv(s: State, conns: seq<nat>)
    requires Init(s, conns)
    ensures Inv(s, conns)
  {
    CountNone(s.pcs, PastWait);
    CountNone(s.pcs, Unposted);
    CountNone(s.pcs, PoppedNotCounted);
    CountNone(s.pcs, PushedNotCounted);
    CountNone(s.pcs, CountedInUse);
    HeldNone(s.pcs);
  }

  /** A step moves its own thread only. */
  lemma StepMoves(s: State, t: nat)
    requires t < |s.pcs| && Enabled(s, t)
    ensures |Step(s, t).pcs| == |s.pcs| && Step(s, t).pcs == s.pcs[t := Step(s, t).pcs[t]]
  {
  }

  lemma SemChange(s: State, t: nat)
    requires t < |s.pcs| && Enabled(s, t)
    ensures var s' := Step(s, t);
            |s'.pcs| == |s.pcs| &&
            var pc, pc' := s.pcs[t], s'.pcs[t];
            |s'.connList| - s'.reserve - One(PastWait(pc')) - One(Unposted(pc')) ==
            |s.connList| - s.reserve - One(PastWait(pc)) - One(Unposted(pc))
  {
  }

  lemma CounterChange(s: State, t: nat)
    requires t < |s.pcs| && Enabled(s, t)
    ensures var s' := Step(s, t);
            |s'.pcs| == |s.pcs| &&
            var pc, pc' := s.pcs[t], s'.pcs[t];
            && s'.freeConn - |s'.connList| - One(PoppedNotCounted(pc')) + One(PushedNotCounted(pc')) ==
               s.freeConn - |s.connList| - One(PoppedNotCounted(pc)) + One(PushedNotCounted(pc))
            && s'.curConn - One(CountedInUse(pc')) == s.curConn - One(CountedInUse(pc))
  {
  }

  lemma StepSem(s: State, t: nat)
    requires SemInv(s) && t < |s.pcs| && Enabled(s, t)
    ensures SemInv(Step(s, t))
  {
    hide Step, Enabled, Count, One, PastWait, Unposted;
    StepMoves(s, t);
    SemChange(s, t);
    var pc := Step(s, t).pcs[t];
    CountUpdate(s.pcs, t, pc, PastWait);
    CountUpdate(s.pcs, t, pc, Unposted);
  }

  lemma StepFree(s: State, t: nat)
    requires FreeInv(s) && t < |s.pcs| && Enabled(s, t)
    ensures FreeInv(Step(s, t))
  {
    hide Step, Enabled, Count, One, PoppedNotCounted, PushedNotCounted, CountedInUse;
    StepMoves(s, t);
    CounterChange(s, t);
    var pc := Step(s, t).pcs[t];
    CountUpdate(s.pcs, t, pc, PoppedNotCounted);
    CountUpdate(s.pcs, t, pc, PushedNotCounted);
  }

  lemma StepCurrent(s: State, t: nat)
    requires CurrentInv(s) && t < |s.pcs| && Enabled(s, t)
    ensures CurrentInv(Step(s, t))
  {
    hide Step, Enabled, Count, One, PoppedNotCounted, PushedNotCounted, CountedInUse;
    StepMoves(s, t);
    CounterChange(s, t);
    CountUpdate(s.pcs, t, Step(s, t).pcs[t], CountedInUse);
  }

  lemma StepHeld(s: State, t: nat, conns: seq<nat>)
    requires HeldInv(s, conns) && t < |s.pcs| && Enabled(s, t)
    ensures HeldInv(Step(s, t), conns)
  {
    hide Held, HeldBy, Step, Enabled;
    StepMoves(s, t);
    var s' := Step(s, t);
    var pc := s'.pcs[t];
    HeldUpdate(s.pcs, t, pc);
    ListMoves(s, t);
    Cancel(multiset(s.connList), multiset(s'.connList), Held(s.pcs), Held(s'.pcs), HeldBy(s.pcs[t]), HeldBy(pc));
  }

  lemma Cancel(l: multiset<nat>, l': multiset<nat>, h: multiset<nat>, h': multiset<nat>,
               o: multiset<nat>, n: multiset<nat>)
    requires l' + n == l + o && h' + o == h + n
    ensures l' + h' == l + h
  {
    forall x ensures (l' + h')[x] == (l + h)[x] {
      assert (l' + n)[x] == (l + o)[x] && (h' + o)[x] == (h + n)[x];
    }
  }

  /** What a step takes off the list its thread holds afterwards, and the other way round. */
  lemma ListMoves(s: State, t: nat)
    requires t < |s.pcs| && Enabled(s, t)
    ensures multiset(Step(s, t).connList) + HeldBy(Step(s, t).pcs[t]) ==
            multiset(s.connList) + HeldBy(s.pcs[t])
  {
    hide HeldBy;
    HeldChanges(s, t);
    if s.pcs[t] == GetLocked {
      PopFront(s.connList);
    }
  }

  lemma HeldChanges(s: State, t: nat)
    requires t < |s.pcs| && Enabled(s, t)
    ensures var o, n := HeldBy(s.pcs[t]), HeldBy(Step(s, t).pcs[t]);
            if s.pcs[t] == GetLocked then o == multiset{} && n == multiset{s.connList[0]}
            else if s.pcs[t].RelLocked? then o == multiset{s.pcs[t].c} && n == multiset{}
            else o == n
  {
    assert s.pcs[t].Holding? && s.pcs[t].got.Some? ==> Step(s, t).pcs[t] == Releasing(s.pcs[t].got.value);
  }

  lemma PopFront(l: seq<nat>)
    requires l != []
    ensures multiset(l[1..]) + multiset{l[0]} == multiset(l) + multiset{}
  {
    assert l == [l[0]] + l[1..];
  }

  lemma StepInv(s: State, t: nat, conns: seq<nat>)
    requires Inv(s, conns) && t < |s.pcs| && Enabled(s, t)
    ensures Inv(Step(s, t), conns)
  {
    hide SemInv, FreeInv, CurrentInv, HeldInv;
    StepSem(s, t);
    StepFree(s, t);
    StepCurrent(s, t);
    StepHeld(s, t, conns);
  }

  // ---- Runs ----

  /** Every interleaving: each step is one atomic step of some thread that can take it. */
  ghost predicate IsRun(run: seq<State>, conns: seq<nat>) {
    && run != [] && Init(run[0], conns)
    && forall i :: 0 <= i < |run| - 1 ==> Next(run[i], run[i + 1])
  }

  ghost predicate Next(s: State, s': State) {
    exists t :: 0 <= t < |s.pcs| && Enabled(s, t) && s' == Step(s, t)
  }

  lemma {:induction false} RunInv(run: seq<State>, conns: seq<nat>, i: nat)
    requires IsRun(run, conns) && i < |run|
    ensures Inv(run[i], conns)
  {
    if i == 0 {
      InitInv(run[0], conns);
    } else {
      RunInv(run, conns, i - 1);
      var s := run[i - 1];
      assert Next(s, run[i]);
      var t :| 0 <= t < |s.pcs| && Enabled(s, t) && run[i] == Step(s, t);
      StepInv(s, t, conns);
    }
  }

  /** `front()` is never called on an empty list. */
  lemma NeverPopsEmpty(s: State, conns: seq<nat>, t: nat)
    requires Inv(s, conns) && t < |s.pcs| && s.pcs[t] == GetLocked
    ensures s.connList != []
  {
    CountPositive(s.pcs, t, PastWait);
  }

  lemma {:induction false} HeldContains(pcs: seq<Pc>, t: nat)
    requires t < |pcs|
    ensures HeldBy(pcs[t]) <= Held(pcs)
  {
    hide HeldBy;
    if t > 0 {
      HeldContains(pcs[1..], t - 1);
      assert pcs[1..][t - 1] == pcs[t];
    }
  }

  lemma {:induction false} HeldContainsTwo(pcs: seq<Pc>, t: nat, u: nat)
    requires t < u < |pcs|
    ensures HeldBy(pcs[t]) + HeldBy(pcs[u]) <= Held(pcs)
  {
    hide HeldBy;
    if t > 0 {
      HeldContainsTwo(pcs[1..], t - 1, u - 1);
      assert pcs[1..][t - 1] == pcs[t] && pcs[1..][u - 1] == pcs[u];
    } else {
      HeldContains(pcs[1..], u - 1);
      assert pcs[1..][u - 1] == pcs[u];
    }
  }

  /** No connection is held twice, and a held one is not on the list. */
  lemma ExclusiveHolders(s: State, conns: seq<nat>, t: nat, c: nat)
    requires Inv(s, conns) && forall i, j :: 0 <= i < j < |conns| ==> conns[i] != conns[j]
    requires t < |s.pcs| && c in HeldBy(s.pcs[t])
    ensures c in conns && c !in s.connList
    ensures forall u :: 0 <= u < |s.pcs| && u != t ==> c !in HeldBy(s.pcs[u])
  {
    HeldContains(s.pcs, t);
    DistinctOnce(conns, c);
    assert multiset(conns)[c] == multiset(s.connList)[c] + Held(s.pcs)[c];
    forall u | 0 <= u < |s.pcs| && u != t ensures c !in HeldBy(s.pcs[u]) {
      if u < t { HeldContainsTwo(s.pcs, u, t); } else { HeldContainsTwo(s.pcs, t, u); }
    }
  }

  lemma {:induction false} DistinctOnce(conns: seq<nat>, c: nat)
    requires forall i, j :: 0 <= i < j < |conns| ==> conns[i] != conns[j]
    ensures multiset(conns)[c] <= 1
  {
    if conns != [] {
      assert conns == [conns[0]] + conns[1..];
      DistinctOnce(conns[1..], c);
      if c == conns[0] {
        assert c !in conns[1..];
      }
    }
  }

  lemma HeldOutsideLock(pc: Pc)
    requires !InLock(pc)
    ensures |HeldBy(pc)| == One(CountedInUse(pc)) && !PoppedNotCounted(pc) && !PushedNotCounted(pc)
  {
  }

  lemma {:induction false} HeldSize(pcs: seq<Pc>)
    requires forall t :: 0 <= t < |pcs| ==> !InLock(pcs[t])
    ensures |Held(pcs)| == Count(pcs, CountedInUse)
    ensures Count(pcs, PoppedNotCounted) == Count(pcs, PushedNotCounted) == 0
  {
    hide HeldBy, InLock, CountedInUse, PoppedNotCounted, PushedNotCounted;
    if pcs != [] {
      HeldOutsideLock(pcs[0]);
      HeldSize(pcs[1..]);
    }
  }

  /** With nobody inside the lock the counters add up to the size of the pool. */
  lemma CountersAddUp(s: State, conns: seq<nat>)
    requires Inv(s, conns) && s.lock == None
    ensures s.freeConn + s.curConn == s.maxConn && s.freeConn == |s.connList|
  {
    HeldSize(s.pcs);
    assert |multiset(s.connList)| + |Held(s.pcs)| == |multiset(conns)|;
  }

  /** With every thread outside the pool or at the wait, the semaphore stands at the pool's size. */
  lemma AllWaiting(s: State, conns: seq<nat>)
    requires SemInv(s) && HeldInv(s, conns)
    requires forall t :: 0 <= t < |s.pcs| ==> s.pcs[t] == Idle || s.pcs[t] == Waiting
    ensures s.reserve == |conns|
  {
    CountNone(s.pcs, PastWait);
    CountNone(s.pcs, Unposted);
    HeldNone(s.pcs);
    assert |multiset(s.connList)| == |multiset(conns)|;
  }

  /** In a pool with at least one connection, whenever a thread is inside the pool some thread inside
      the pool can take a step: a waiting thread holds no connection and no lock, and a semaphore at
      zero means that a connection is held, granted or about to be posted. */
  lemma NoDeadlock(s: State, conns: seq<nat>, t: nat)
    requires Inv(s, conns) && |conns| > 0 && t < |s.pcs| && s.pcs[t] != Idle
    ensures exists u :: 0 <= u < |s.pcs| && s.pcs[u] != Idle && Enabled(s, u)
  {
    if s.lock.Some? {
      var u := s.lock.value;
      if s.pcs[u] == GetLocked { NeverPopsEmpty(s, conns, u); }
      assert InLock(s.pcs[u]) && Enabled(s, u);
    } else if u :| 0 <= u < |s.pcs| && s.pcs[u] != Idle && s.pcs[u] != Waiting {
      assert !InLock(s.pcs[u]);
      assert Enabled(s, u);
    } else {
      AllWaiting(s, conns);
      assert Enabled(s, t);
    }
  }

  // ---- What a call gives ----

  /** Which calls are answered with NULL: a thread that enters the pool gets NULL exactly if the list is
      empty at that moment, and goes on to the wait otherwise. */
  lemma NullExactly(run: seq<State>, conns: seq<nat>, i: nat, t: nat)
    requires IsRun(run, conns) && i + 1 < |run| && t < |run[i].pcs| && run[i].pcs[t] == Idle
    ensures |run[i + 1].pcs| == |run[i].pcs|
    ensures run[i + 1].pcs[t] != Idle ==>
              run[i + 1].pcs[t] == if run[i].connList == [] then Holding(None) else Waiting
  {
    var s := run[i];
    assert Next(s, run[i + 1]);
    var u :| 0 <= u < |s.pcs| && Enabled(s, u) && run[i + 1] == Step(s, u);
    StepMoves(s, u);
  }

  /** Up to `n` steps of thread `t` while no other thread moves. */
  function Alone(s: State, t: nat, n: nat): State
    requires t < |s.pcs|
    decreases n
  {
    if n == 0 || !Enabled(s, t) then s
    else StepMoves(s, t); Alone(Step(s, t), t, n - 1)
  }

  lemma AloneStep(s: State, t: nat, n: nat)
    requires t < |s.pcs| && n > 0 && Enabled(s, t)
    ensures |Step(s, t).pcs| == |s.pcs| && Alone(s, t, n) == Alone(Step(s, t), t, n - 1)
  {
  }

  ghost predicate Quiet(s: State) {
    s.lock == None && forall u :: 0 <= u < |s.pcs| ==> s.pcs[u] == Idle || s.pcs[u].Holding?
  }

  /** With nobody on the way in or out, the semaphore counts the list. */
  lemma QuietSemaphore(s: State)
    requires SemInv(s) && Quiet(s)
    ensures s.reserve == |s.connList|
  {
    CountNone(s.pcs, PastWait);
    CountNone(s.pcs, Unposted);
  }

  /** An undisturbed get takes the first connection. */
  lemma GetAlone(s: State, t: nat)
    requires SemInv(s) && Quiet(s) && t < |s.pcs| && s.pcs[t] == Idle && s.connList != []
    ensures s.reserve > 0
    ensures Alone(s, t, 7) ==
            s.(connList := s.connList[1..], reserve := s.reserve - 1, freeConn := s.freeConn - 1,
               curConn := s.curConn + 1, pcs := s.pcs[t := Holding(Some(s.connList[0]))])
  {
    QuietSemaphore(s);
    hide *;
    GetWithPermit(s, t);
  }

  lemma GetWithPermit(s: State, t: nat)
    requires s.lock == None && s.reserve > 0 && t < |s.pcs| && s.pcs[t] == Idle && s.connList != []
    ensures Alone(s, t, 7) ==
            s.(connList := s.connList[1..], reserve := s.reserve - 1, freeConn := s.freeConn - 1,
               curConn := s.curConn + 1, pcs := s.pcs[t := Holding(Some(s.connList[0]))])
  {
    hide *;
    GetEnters(s, t);
    var s4 := s.(connList := s.connList[1..], reserve := s.reserve - 1, lock := Some(t),
                 pcs := s.pcs[t := GetPopped(s.connList[0])]);
    GetLeaves(s4, t, s.connList[0]);
    assert s4.pcs[t := Holding(Some(s.connList[0]))] == s.pcs[t := Holding(Some(s.connList[0]))];
  }

  /** From the first test to the pop. */
  lemma GetEnters(s: State, t: nat)
    requires s.lock == None && s.reserve > 0 && t < |s.pcs| && s.pcs[t] == Idle && s.connList != []
    ensures Alone(s, t, 7) ==
            Alone(s.(connList := s.connList[1..], reserve := s.reserve - 1, lock := Some(t),
                     pcs := s.pcs[t := GetPopped(s.connList[0])]), t, 3)
  {
    hide Alone;
    var s1 := Goto(s, t, Waiting);
    var s2 := Goto(s1.(reserve := s.reserve - 1), t, Granted);
    var s3 := Goto(s2.(lock := Some(t)), t, GetLocked);
    var s4 := Goto(s3.(connList := s.connList[1..]), t, GetPopped(s.connList[0]));
    FourSteps(s, s1, s2, s3, s4, t, 7);
    assert s4.pcs == s.pcs[t := GetPopped(s.connList[0])];
  }

  /** From the pop to the return. */
  lemma GetLeaves(s: State, t: nat, c: nat)
    requires t < |s.pcs| && s.pcs[t] == GetPopped(c)
    ensures Alone(s, t, 3) ==
            s.(lock := None, freeConn := s.freeConn - 1, curConn := s.curConn + 1,
               pcs := s.pcs[t := Holding(Some(c))])
  {
    hide Alone;
    var s1 := Goto(s.(freeConn := s.freeConn - 1), t, GetFreed(c));
    var s2 := Goto(s1.(curConn := s.curConn + 1), t, GetCounted(c));
    var s3 := Goto(s2.(lock := None), t, Holding(Some(c)));
    ThreeSteps(s, s1, s2, s3, t, 3);
    AloneNone(s3, t);
    assert s3.pcs == s.pcs[t := Holding(Some(c))];
  }

  /** An undisturbed release puts the connection behind the others. */
  lemma ReleaseAlone(s: State, t: nat, c: nat)
    requires s.lock == None && t < |s.pcs| && s.pcs[t] == Holding(Some(c))
    ensures Alone(s, t, 7) ==
            s.(connList := s.connList + [c], reserve := s.reserve + 1, freeConn := s.freeConn + 1,
               curConn := s.curConn - 1, pcs := s.pcs[t := Idle])
  {
    hide Alone;
    var s1 := Goto(s, t, Releasing(c));
    var s2 := Goto(s1.(lock := Some(t)), t, RelLocked(c));
    var s3 := Goto(s2.(connList := s.connList + [c]), t, RelPushed);
    var s4 := Goto(s3.(freeConn := s.freeConn + 1), t, RelFreed);
    var s5 := Goto(s4.(curConn := s.curConn - 1), t, RelCounted);
    var s6 := Goto(s5.(lock := None), t, RelUnlocked);
    var s7 := Goto(s6.(reserve := s.reserve + 1), t, Idle);
    FourSteps(s, s1, s2, s3, s4, t, 7);
    ThreeSteps(s4, s5, s6, s7, t, 3);
    AloneNone(s7, t);
    assert s7.pcs == s.pcs[t := Idle];
  }

  lemma AloneNone(s: State, t: nat)
    requires t < |s.pcs|
    ensures Alone(s, t, 0) == s
  {
  }

  lemma ThreeSteps(s: State, s1: State, s2: State, s3: State, t: nat, n: nat)
    requires n >= 3 && t < |s.pcs| == |s1.pcs| == |s2.pcs| == |s3.pcs|
    requires Enabled(s, t) && s1 == Step(s, t) && Enabled(s1, t) && s2 == Step(s1, t)
    requires Enabled(s2, t) && s3 == Step(s2, t)
    ensures Alone(s, t, n) == Alone(s3, t, n - 3)
  {
    hide Step, Enabled, Alone;
    AloneStep(s, t, n);
    AloneStep(s1, t, n - 1);
    AloneStep(s2, t, n - 2);
  }

  lemma FourSteps(s: State, s1: State, s2: State, s3: State, s4: State, t: nat, n: nat)
    requires n >= 4 && t < |s.pcs| == |s1.pcs| == |s2.pcs| == |s3.pcs| == |s4.pcs|
    requires Enabled(s, t) && s1 == Step(s, t) && Enabled(s1, t) && s2 == Step(s1, t)
    requires Enabled(s2, t) && s3 == Step(s2, t) && Enabled(s3, t) && s4 == Step(s3, t)
    ensures Alone(s, t, n) == Alone(s4, t, n - 4)
  {
    hide Step, Enabled, Alone;
    ThreeSteps(s, s1, s2, s3, t, n);
    AloneStep(s3, t, n - 3);
  }

  /** A get followed by a release moves the first connection to the end and changes nothing else; on an
      empty list the caller gets NULL, and giving it back changes nothing. */
  lemma GetThenRelease(s: State, t: nat)
    requires SemInv(s) && Quiet(s) && t < |s.pcs| && s.pcs[t] == Idle
    ensures s.connList != [] ==>
              Alone(Alone(s, t, 7), t, 7) == s.(connList := s.connList[1..] + [s.connList[0]])
    ensures s.connList == [] ==>
              Alone(s, t, 1) == Goto(s, t, Holding(None)) && Alone(Alone(s, t, 1), t, 1) == s
  {
    hide Alone, SemInv, Step, Enabled;
    if s.connList != [] {
      GetAlone(s, t);
      var h := Alone(s, t, 7);
      ReleaseAlone(h, t, s.connList[0]);
      assert h.pcs[t := Idle] == s.pcs;
    } else {
      NullAlone(s, t);
    }
  }

  lemma NullAlone(s: State, t: nat)
    requires t < |s.pcs| && s.pcs[t] == Idle && s.connList == []
    ensures Alone(s, t, 1) == Goto(s, t, Holding(None)) && Alone(Goto(s, t, Holding(None)), t, 1) == s
  {
    hide Alone;
    var h := Goto(s, t, Holding(None));
    AloneStep(s, t, 1);
    AloneNone(h, t);
    AloneStep(h, t, 1);
    AloneNone(s, t);
    assert h.pcs[t := Idle] == s.pcs;
  }
}
