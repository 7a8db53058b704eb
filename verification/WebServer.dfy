/** The web server's timer handlers on the linked list itself. The object carries its history, so that
    its invariant speaks about whole runs. */
module WebServerTimers {
  import opened TimerOrder
  import opened TimerList
  import opened IdleTimers

  /** The list of timers as a list of descriptors. */
  function Fds(v: seq<Entry<UtilTimer>>): (s: seq<Entry<int>>)
    ensures |s| == |v|
    ensures forall i :: 0 <= i < |v| ==> s[i] == Entry(v[i].id.client, v[i].expire)
  {
    if v == [] then [] else [Entry(v[0].id.client, v[0].expire)] + Fds(v[1..])
  }

  lemma FdsInsert(v: seq<Entry<UtilTimer>>, e: Entry<UtilTimer>)
    ensures Fds(Insert(v, e)) == Insert(Fds(v), Entry(e.id.client, e.expire))
  {
    hide Fds, InsertPos;
    var p := InsertPos(v, e.expire);
    InsertPosIs(Fds(v), e.expire, p);
  }

  lemma FdsRemove(v: seq<Entry<UtilTimer>>, k: nat)
    requires k < |v|
    ensures Fds(RemoveAt(v, k)) == RemoveAt(Fds(v), k)
  {
    hide Fds;
    var w := RemoveAt(v, k);
    forall i | 0 <= i < |w| ensures Fds(w)[i] == RemoveAt(Fds(v), k)[i] {
      if i < k { assert w[i] == v[i]; } else { assert w[i] == v[i + 1]; }
    }
  }

  lemma {:induction false} FdsUnexpired(v: seq<Entry<UtilTimer>>, cur: int)
    ensures Fds(Unexpired(v, cur)) == Unexpired(Fds(v), cur)
  {
    if v != [] {
      FdsUnexpired(v[1..], cur);
      assert Fds(v)[1..] == Fds(v[1..]);
    }
  }

  /** Moving a timer on the list is what the model of the run does to the descriptors. */
  lemma ActivityStep(v: seq<Entry<UtilTimer>>, k: nat, timer: UtilTimer, cur: int)
    requires k < |v| && IndexOf(Fds(v), timer.client) == k
    ensures Fds(Insert(RemoveAt(v, k), Entry(timer, cur + IDLE))) ==
            Step(Fds(v), Timed(cur, Activity(timer.client)))
  {
    hide Fds, Insert, IndexOf;
    FdsRemove(v, k);
    FdsInsert(RemoveAt(v, k), Entry(timer, cur + IDLE));
  }

  /** Every listed timer is the one stored for its descriptor. */
  ghost predicate Registered(m: map<int, UtilTimer>, v: seq<Entry<UtilTimer>>) {
    forall e :: e in v ==> e.id.client in m && m[e.id.client] == e.id
  }

  lemma RegisterNew(m: map<int, UtilTimer>, v: seq<Entry<UtilTimer>>, e: Entry<UtilTimer>)
    requires Registered(m, v) && forall x :: x in v ==> x.id.client != e.id.client
    ensures Registered(m[e.id.client := e.id], Insert(v, e))
  {
    hide InsertPos;
    var p := InsertPos(v, e.expire);
    assert forall x :: x in Insert(v, e) ==> x in v[..p] || x == e || x in v[p..];
  }

  lemma RegisterMoved(m: map<int, UtilTimer>, v: seq<Entry<UtilTimer>>, k: nat, x: int)
    requires Registered(m, v) && k < |v|
    ensures Registered(m, Insert(RemoveAt(v, k), Entry(v[k].id, x)))
  {
    hide InsertPos;
    var r := RemoveAt(v, k);
    var p := InsertPos(r, x);
    assert forall y :: y in Insert(r, Entry(v[k].id, x)) ==> y in r[..p] || y == Entry(v[k].id, x) || y in r[p..];
    assert v[k] in v;
  }

  lemma RegisterFewer(m: map<int, UtilTimer>, v: seq<Entry<UtilTimer>>, w: seq<Entry<UtilTimer>>)
    requires Registered(m, v) && forall x :: x in w ==> x in v
    ensures Registered(m, w)
  {
  }

  lemma {:induction false} UnexpiredSubset(v: seq<Entry<UtilTimer>>, cur: int)
    ensures forall x :: x in Unexpired(v, cur) ==> x in v
  {
    if v != [] {
      UnexpiredSubset(v[1..], cur);
    }
  }

  lemma {:induction false} FdsExpired(v: seq<Entry<UtilTimer>>, cur: int)
    ensures Fds(Expired(v, cur)) == Expired(Fds(v), cur)
  {
    if v != [] {
      FdsExpired(v[1..], cur);
      assert Fds(v)[1..] == Fds(v[1..]);
    }
  }

  class WebServer {
    const lst: SortTimerLst
    /** The timer field of `users_timer`. */
    var usersTimer: map<int, UtilTimer>
    ghost var history: seq<Timed>

    ghost predicate Valid()
      reads this, lst, lst.nodes
    {
      && lst.Valid() && Legal(history) && Fds(lst.view) == Replay(history)
      && Registered(usersTimer, lst.view)
    }

    ghost predicate Open(fd: int)
      reads this
    {
      LastTouch(history, fd).Some?
    }

    ghost predicate NotBefore(cur: int)
      reads this
    {
      history != [] ==> history[|history| - 1].at <= cur
    }

    constructor ()
      ensures Valid() && history == [] && fresh(lst)
    {
      lst := new SortTimerLst();
      usersTimer, history := map[], [];
    }

    /** In every state that a run reaches, the linked list is the LRU list of that run. */
    lemma ListIsLru()
      requires Valid()
      ensures IsLru(history, Fds(lst.view))
    {
      RunsAreLru(history);
    }

    lemma Extend(e: Timed)
      requires Legal(history) && NotBefore(e.at)
      requires match e.ev
               case Connect(fd) => !Open(fd)
               case Activity(fd) => Open(fd)
               case Close(fd) => Open(fd)
               case Tick => true
      ensures Legal(history + [e]) && Replay(history + [e]) == Step(Replay(history), e)
    {
      assert (history + [e])[..|history + [e]| - 1] == history;
    }

    /** An open connection's timer is on the list. */
    lemma Locate(fd: int) returns (k: nat)
      requires Valid() && Open(fd)
      ensures k < |lst.nodes| && lst.nodes[k].client == fd && fd in usersTimer && lst.nodes[k] == usersTimer[fd]
      ensures IndexOf(Fds(lst.view), fd) == k
    {
      ListIsLru();
      k := IndexOf(Fds(lst.view), fd);
      assert lst.view[k].id == lst.nodes[k];
    }

    lemma NotListed(fd: int)
      requires Valid() && !Open(fd)
      ensures forall x :: x in lst.view ==> x.id.client != fd
    {
      ListIsLru();
      forall i | 0 <= i < |lst.view| ensures lst.view[i].id.client != fd {
        assert Current(history, Fds(lst.view)[i]);
      }
    }

    /** `timer`: a connection was accepted. */
    method Timer(connfd: int, cur: int)
      requires Valid() && NotBefore(cur) && !Open(connfd)
      modifies this, lst, lst.nodes`prev, lst.nodes`next
      ensures Valid() && history == old(history) + [Timed(cur, Connect(connfd))]
    {
      hide Linked, Sorted, Legal, Replay, Fds, LastTouch, Insert, Registered;
      NotListed(connfd);
      Extend(Timed(cur, Connect(connfd)));
      var timer := new UtilTimer(connfd, cur + 3 * TIMESLOT);
      FdsInsert(lst.view, Entry(timer, timer.expire));
      RegisterNew(usersTimer, lst.view, Entry(timer, timer.expire));
      usersTimer := usersTimer[connfd := timer];
      lst.AddTimer(timer);
      history := history + [Timed(cur, Connect(connfd))];
    }

    /** `adjust_timer`: data arrived on, or was sent to, an open connection. */
    method AdjustTimer(fd: int, cur: int)
      requires Valid() && NotBefore(cur) && Open(fd)
      modifies this, lst, lst.nodes
      ensures Valid() && history == old(history) + [Timed(cur, Activity(fd))]
    {
      hide Linked, Sorted, Legal, Replay, Fds, LastTouch, Insert, RemoveAt, Registered, Step;
      ghost var k := Locate(fd);
      ghost var v := lst.view;
      var timer := usersTimer[fd];
      Extend(Timed(cur, Activity(fd)));
      NoneLater(cur);
      ActivityStep(v, k, timer, cur);
      RegisterMoved(usersTimer, v, k, cur + IDLE);
      lst.SetExpire(timer, k, cur + 3 * TIMESLOT);
      lst.AdjustTimer(timer, k);
      assert lst.view == Insert(RemoveAt(v, k), Entry(timer, cur + IDLE));
      history := history + [Timed(cur, Activity(fd))];
    }

    /** No listed timer expires later than one that is touched now. */
    lemma NoneLater(cur: int)
      requires Valid() && NotBefore(cur)
      ensures forall i :: 0 <= i < |lst.view| ==> lst.view[i].expire <= cur + IDLE
    {
      ListIsLru();
      ExpiriesBounded(history, Fds(lst.view), cur);
      assert forall i :: 0 <= i < |lst.view| ==> Fds(lst.view)[i].expire == lst.view[i].expire;
    }

    /** `deal_timer`: the peer hung up or an operation failed. */
    method DealTimer(fd: int, ghost cur: int)
      requires Valid() && NotBefore(cur) && Open(fd)
      modifies this, lst, lst.nodes`prev, lst.nodes`next
      ensures Valid() && history == old(history) + [Timed(cur, Close(fd))]
    {
      hide Linked, Sorted, Legal, Replay, Fds, LastTouch, Registered;
      ghost var k := Locate(fd);
      ghost var v := lst.view;
      Extend(Timed(cur, Close(fd)));
      FdsRemove(v, k);
      RegisterFewer(usersTimer, v, RemoveAt(v, k));
      lst.DelTimer(usersTimer[fd], k);
      history := history + [Timed(cur, Close(fd))];
    }

    /** `timer_handler`: the sweep. `closed` lists the descriptors that the callback closed. */
    method TimerHandler(cur: int) returns (closed: seq<int>)
      requires Valid() && NotBefore(cur)
      modifies this, lst, lst.nodes`prev
      ensures Valid() && history == old(history) + [Timed(cur, Tick)]
      ensures |closed| == |Expired(old(Fds(lst.view)), cur)|
      ensures forall i :: 0 <= i < |closed| ==> closed[i] == Expired(old(Fds(lst.view)), cur)[i].id
    {
      hide Linked, Sorted, Legal, Replay, Fds, LastTouch, Registered, Unexpired, Expired;
      ghost var v := lst.view;
      Extend(Timed(cur, Tick));
      FdsUnexpired(v, cur);
      FdsExpired(v, cur);
      UnexpiredSubset(v, cur);
      RegisterFewer(usersTimer, v, Unexpired(v, cur));
      var fired := lst.Tick(cur);
      history := history + [Timed(cur, Tick)];
      closed := seq(|fired|, i requires 0 <= i < |fired| => fired[i].client);
    }
  }
}
