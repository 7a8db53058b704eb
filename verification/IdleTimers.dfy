/** How the web server drives the timer list, over whole runs: under a clock that never goes back the
    list is an LRU list of the open connections, and a sweep closes exactly the idle ones. */
module IdleTimers {
  import opened Wrappers
  import opened TimerOrder

  const TIMESLOT: int := 5
  const IDLE: int := 3 * TIMESLOT

  datatype Event = Connect(fd: int) | Activity(fd: int) | Close(fd: int) | Tick

  /** An event and the time at which the server handles it. */
  datatype Timed = Timed(at: int, ev: Event)

  function IndexOf(s: seq<Entry<int>>, fd: int): (k: nat)
    ensures k <= |s|
    ensures k < |s| ==> s[k].id == fd
    ensures forall i :: 0 <= i < k ==> s[i].id != fd
  {
    if s == [] || s[0].id == fd then 0 else 1 + IndexOf(s[1..], fd)
  }

  /** What the handlers do to the list. */
  function Step(s: seq<Entry<int>>, e: Timed): seq<Entry<int>> {
    match e.ev
    case Connect(fd) => Insert(s, Entry(fd, e.at + IDLE))
    case Activity(fd) =>
      var k := IndexOf(s, fd);
      if k < |s| then Insert(RemoveAt(s, k), Entry(fd, e.at + IDLE)) else s
    case Close(fd) =>
      var k := IndexOf(s, fd);
      if k < |s| then RemoveAt(s, k) else s
    case Tick => Unexpired(s, e.at)
  }

  /** The list after a history. */
  function Replay(h: seq<Timed>): seq<Entry<int>> {
    if h == [] then [] else Step(Replay(h[..|h| - 1]), h[|h| - 1])
  }

  /** The same history seen by one connection alone: where it was last touched, if it is still open. */
  function LastTouch(h: seq<Timed>, fd: int): (r: Option<nat>)
    ensures r.Some? ==> r.value < |h|
  {
    if h == [] then None
    else
      var before, e := h[..|h| - 1], h[|h| - 1];
      var last := LastTouch(before, fd);
      match e.ev
      case Connect(f) => if f == fd then Some(|h| - 1) else last
      case Activity(f) => if f == fd then Some(|h| - 1) else last
      case Close(f) => if f == fd then None else last
      case Tick => if last.Some? && h[last.value].at + IDLE <= e.at then None else last
  }

  /** The clock never goes back, connections are opened only while closed, and data and close events
      arrive only on open connections. */
  ghost predicate Legal(h: seq<Timed>) {
    h == [] ||
    (var before, e := h[..|h| - 1], h[|h| - 1];
     && Legal(before)
     && (before != [] ==> before[|before| - 1].at <= e.at)
     && match e.ev
        case Connect(fd) => LastTouch(before, fd).None?
        case Activity(fd) => LastTouch(before, fd).Some?
        case Close(fd) => LastTouch(before, fd).Some?
        case Tick => true)
  }

  /** The entry of an open connection: its last touch plus three slots. */
  ghost predicate Current(h: seq<Timed>, e: Entry<int>) {
    LastTouch(h, e.id).Some? && e.expire == h[LastTouch(h, e.id).value].at + IDLE
  }

  ghost predicate TouchedBefore(h: seq<Timed>, a: int, b: int) {
    LastTouch(h, a).Some? && LastTouch(h, b).Some? && LastTouch(h, a).value < LastTouch(h, b).value
  }

  /** Open connections in the order of their last touch. */
  ghost predicate InTouchOrder(h: seq<Timed>, s: seq<Entry<int>>) {
    && (forall k :: 0 <= k < |s| ==> Current(h, s[k]))
    && (forall j, k :: 0 <= j < k < |s| ==> TouchedBefore(h, s[j].id, s[k].id))
  }

  /** The list holds exactly the open connections, in the order of their last touch. */
  ghost predicate IsLru(h: seq<Timed>, s: seq<Entry<int>>) {
    InTouchOrder(h, s) && forall fd :: LastTouch(h, fd).Some? ==> IndexOf(s, fd) < |s|
  }

  lemma {:induction false} ClockOrder(h: seq<Timed>, i: nat)
    requires Legal(h) && i < |h|
    ensures h[i].at <= h[|h| - 1].at
  {
    if i < |h| - 1 {
      ClockOrder(h[..|h| - 1], i);
    }
  }

  lemma InsertLast(s: seq<Entry<int>>, e: Entry<int>)
    requires forall k :: 0 <= k < |s| ==> s[k].expire <= e.expire
    ensures Insert(s, e) == s + [e]
  {
    InsertPosIs(s, e.expire, |s|);
  }

  lemma LruSorted(h: seq<Timed>, s: seq<Entry<int>>)
    requires Legal(h) && IsLru(h, s)
    ensures Sorted(s)
  {
    forall j, k | 0 <= j < k < |s| ensures s[j].expire <= s[k].expire {
      assert TouchedBefore(h, s[j].id, s[k].id) && Current(h, s[j]) && Current(h, s[k]);
      var a, b := LastTouch(h, s[j].id).value, LastTouch(h, s[k].id).value;
      LegalPrefix(h, b + 1);
      ClockOrder(h[..b + 1], a);
    }
  }

  lemma {:induction false} LegalPrefix(h: seq<Timed>, n: nat)
    requires Legal(h) && n <= |h|
    ensures Legal(h[..n])
  {
    if n < |h| {
      LegalPrefix(h[..|h| - 1], n);
      assert h[..|h| - 1][..n] == h[..n];
    } else {
      assert h[..n] == h;
    }
  }

  lemma {:induction false} IndexOfIs(s: seq<Entry<int>>, fd: int, k: nat)
    requires k < |s| && s[k].id == fd
    ensures IndexOf(s, fd) < |s|
  {
  }

  /** Every expiry on the list is at most three slots ahead of the clock. */
  lemma {:induction false} ExpiriesBounded(h: seq<Timed>, s: seq<Entry<int>>, at: int)
    requires Legal(h) && IsLru(h, s) && (h != [] ==> h[|h| - 1].at <= at)
    ensures forall k :: 0 <= k < |s| ==> s[k].expire <= at + IDLE
  {
    forall k | 0 <= k < |s| ensures s[k].expire <= at + IDLE {
      assert Current(h, s[k]);
      ClockOrder(h, LastTouch(h, s[k].id).value);
    }
  }

  /** An event on one connection leaves the others alone. */
  lemma OthersUntouched(b: seq<Timed>, e: Timed, f: int)
    requires e.ev != Tick && e.ev.fd != f
    ensures LastTouch(b + [e], f) == LastTouch(b, f)
  {
    assert (b + [e])[..|b + [e]| - 1] == b;
  }

  lemma Touched(b: seq<Timed>, e: Timed)
    requires e.ev != Tick
    ensures LastTouch(b + [e], e.ev.fd) == if e.ev.Close? then None else Some(|b|)
  {
    assert (b + [e])[..|b + [e]| - 1] == b;
  }

  /** The order among other connections survives an event. */
  lemma {:induction false} OrderKept(b: seq<Timed>, e: Timed, r: seq<Entry<int>>)
    requires InTouchOrder(b, r) && e.ev != Tick && forall k :: 0 <= k < |r| ==> r[k].id != e.ev.fd
    ensures InTouchOrder(b + [e], r)
  {
    hide LastTouch;
    forall k | 0 <= k < |r| ensures LastTouch(b + [e], r[k].id) == LastTouch(b, r[k].id) {
      OthersUntouched(b, e, r[k].id);
    }
    forall k | 0 <= k < |r| ensures Current(b + [e], r[k]) {
      assert Current(b, r[k]);
    }
    forall j, k | 0 <= j < k < |r| ensures TouchedBefore(b + [e], r[j].id, r[k].id) {
      assert TouchedBefore(b, r[j].id, r[k].id);
    }
  }

  /** A list without `fd` to which a fresh touch of `fd` is appended. */
  lemma {:induction false} Append(b: seq<Timed>, e: Timed, r: seq<Entry<int>>)
    requires e.ev.Connect? || e.ev.Activity?
    requires InTouchOrder(b, r) && forall k :: 0 <= k < |r| ==> r[k].id != e.ev.fd
    requires forall f :: f != e.ev.fd && LastTouch(b, f).Some? ==> IndexOf(r, f) < |r|
    ensures IsLru(b + [e], r + [Entry(e.ev.fd, e.at + IDLE)])
  {
    hide LastTouch, IndexOf;
    var h, fd := b + [e], e.ev.fd;
    var s := r + [Entry(fd, e.at + IDLE)];
    OrderKept(b, e, r);
    Touched(b, e);
    assert Current(h, s[|r|]);
    forall k | 0 <= k < |r| ensures TouchedBefore(h, s[k].id, fd) {
      OthersUntouched(b, e, r[k].id);
      assert Current(b, r[k]);
    }
    forall j, k | 0 <= j < k < |s| ensures TouchedBefore(h, s[j].id, s[k].id) {
      if k < |r| { assert TouchedBefore(h, r[j].id, r[k].id); }
    }
    forall f | LastTouch(h, f).Some? ensures IndexOf(s, f) < |s| {
      if f == fd {
        IndexOfIs(s, f, |r|);
      } else {
        OthersUntouched(b, e, f);
        IndexOfIs(s, f, IndexOf(r, f));
      }
    }
  }

  lemma {:induction false} Distinct(h: seq<Timed>, s: seq<Entry<int>>, j: nat, k: nat)
    requires InTouchOrder(h, s) && j < |s| && k < |s| && j != k
    ensures s[j].id != s[k].id
  {
    hide LastTouch;
    assert if j < k then TouchedBefore(h, s[j].id, s[k].id) else TouchedBefore(h, s[k].id, s[j].id);
  }

  /** What is left when connection number `k` is taken off the list. */
  lemma {:induction false} Without(b: seq<Timed>, s: seq<Entry<int>>, k: nat)
    requires IsLru(b, s) && k < |s|
    ensures var r := RemoveAt(s, k);
            && InTouchOrder(b, r)
            && (forall i :: 0 <= i < |r| ==> r[i].id != s[k].id)
            && (forall f :: f != s[k].id && LastTouch(b, f).Some? ==> IndexOf(r, f) < |r|)
  {
    hide LastTouch, IndexOf, TouchedBefore, Current;
    var r := RemoveAt(s, k);
    assert forall i :: 0 <= i < |r| ==> r[i] == s[if i < k then i else i + 1];
    forall i | 0 <= i < |r| ensures r[i].id != s[k].id {
      Distinct(b, s, if i < k then i else i + 1, k);
    }
    forall f | f != s[k].id && LastTouch(b, f).Some? ensures IndexOf(r, f) < |r| {
      var i := IndexOf(s, f);
      assert i != k;
      IndexOfIs(r, f, if i < k then i else i - 1);
    }
  }

  lemma {:induction false} CloseKeepsLru(b: seq<Timed>, e: Timed, s: seq<Entry<int>>)
    requires IsLru(b, s) && e.ev.Close? && IndexOf(s, e.ev.fd) < |s|
    ensures IsLru(b + [e], Step(s, e))
  {
    hide LastTouch, IndexOf, TouchedBefore, Current;
    var k := IndexOf(s, e.ev.fd);
    Without(b, s, k);
    OrderKept(b, e, RemoveAt(s, k));
    Touched(b, e);
    forall f | LastTouch(b + [e], f).Some? ensures IndexOf(RemoveAt(s, k), f) < |RemoveAt(s, k)| {
      OthersUntouched(b, e, f);
    }
  }

  /** A sweep forgets a connection exactly if its entry has expired. */
  lemma SweptExactly(b: seq<Timed>, e: Timed, x: Entry<int>)
    requires e.ev == Tick && Current(b, x)
    ensures LastTouch(b + [e], x.id) == if x.expire <= e.at then None else LastTouch(b, x.id)
  {
    assert (b + [e])[..|b + [e]| - 1] == b;
  }

  lemma SweptOnlyOpen(b: seq<Timed>, e: Timed, f: int)
    requires e.ev == Tick && LastTouch(b + [e], f).Some?
    ensures LastTouch(b, f).Some?
  {
    assert (b + [e])[..|b + [e]| - 1] == b;
  }

  /** Entries before the sweep's end are forgotten, those behind it stay as they are. */
  lemma {:induction false} Swept(b: seq<Timed>, e: Timed, s: seq<Entry<int>>, k: nat)
    requires e.ev == Tick && Sorted(s) && InTouchOrder(b, s) && k < |s|
    ensures var p := InsertPos(s, e.at); var h := b + [e];
            && LastTouch(h, s[k].id) == (if k < p then None else LastTouch(b, s[k].id))
            && (k >= p ==> e.at < s[k].expire && Current(h, s[k]))
  {
    hide LastTouch, InsertPos;
    var p := InsertPos(s, e.at);
    assert Current(b, s[k]);
    assert k > p ==> s[p].expire <= s[k].expire;
    SweptExactly(b, e, s[k]);
  }

  lemma {:induction false} TickKeepsLru(b: seq<Timed>, e: Timed, s: seq<Entry<int>>)
    requires Legal(b) && IsLru(b, s) && e.ev == Tick
    ensures IsLru(b + [e], Step(s, e))
    ensures forall k :: 0 <= k < |Step(s, e)| ==> e.at < Step(s, e)[k].expire
  {
    hide LastTouch, IndexOf, Legal, InsertPos, Sorted, InTouchOrder;
    LruSorted(b, s);
    ExpiredIsPrefix(s, e.at);
    var p := InsertPos(s, e.at);
    assert Step(s, e) == s[p..];
    SweptOrder(b, e, s);
    forall f | LastTouch(b + [e], f).Some? ensures IndexOf(s[p..], f) < |s[p..]| {
      SweptCovers(b, e, s, f);
    }
  }

  /** What a sweep leaves is in touch order and has not expired. */
  lemma {:induction false} SweptOrder(b: seq<Timed>, e: Timed, s: seq<Entry<int>>)
    requires e.ev == Tick && Sorted(s) && InTouchOrder(b, s)
    ensures var r := s[InsertPos(s, e.at)..];
            InTouchOrder(b + [e], r) && forall k :: 0 <= k < |r| ==> e.at < r[k].expire
  {
    hide LastTouch, InsertPos, Sorted, Current;
    var h, p := b + [e], InsertPos(s, e.at);
    var r := s[p..];
    forall k | 0 <= k < |r| ensures Current(h, r[k]) && e.at < r[k].expire {
      Swept(b, e, s, p + k);
    }
    forall j, k | 0 <= j < k < |r| ensures TouchedBefore(h, r[j].id, r[k].id) {
      assert TouchedBefore(b, s[p + j].id, s[p + k].id);
      Swept(b, e, s, p + j);
      Swept(b, e, s, p + k);
    }
  }

  lemma {:induction false} SweptCovers(b: seq<Timed>, e: Timed, s: seq<Entry<int>>, f: int)
    requires e.ev == Tick && Sorted(s) && IsLru(b, s) && LastTouch(b + [e], f).Some?
    ensures var r := s[InsertPos(s, e.at)..]; IndexOf(r, f) < |r|
  {
    hide LastTouch, InsertPos, Sorted, Current, IndexOf;
    SweptOnlyOpen(b, e, f);
    var i := IndexOf(s, f);
    Swept(b, e, s, i);
    IndexOfIs(s[InsertPos(s, e.at)..], f, i - InsertPos(s, e.at));
  }

  /** In every legal run the list is the LRU list. */
  lemma {:induction false} RunsAreLru(h: seq<Timed>)
    requires Legal(h)
    ensures IsLru(h, Replay(h))
  {
    if h != [] {
      hide LastTouch, IsLru, InTouchOrder;
      var b, e := h[..|h| - 1], h[|h| - 1];
      assert h == b + [e];
      RunsAreLru(b);
      StepKeepsLru(b, e, Replay(b));
    } else {
      assert forall fd :: LastTouch(h, fd) == None;
    }
  }

  lemma {:induction false} StepKeepsLru(b: seq<Timed>, e: Timed, s: seq<Entry<int>>)
    requires Legal(b + [e]) && Legal(b) && IsLru(b, s)
    ensures IsLru(b + [e], Step(s, e))
  {
    hide LastTouch, IndexOf;
    assert (b + [e])[..|b + [e]| - 1] == b;
    ExpiriesBounded(b, s, e.at);
    match e.ev
    case Connect(fd) =>
      forall k | 0 <= k < |s| ensures s[k].id != fd {
        assert Current(b, s[k]);
      }
      InsertLast(s, Entry(fd, e.at + IDLE));
      Append(b, e, s);
    case Activity(fd) =>
      var k := IndexOf(s, fd);
      Without(b, s, k);
      InsertLast(RemoveAt(s, k), Entry(fd, e.at + IDLE));
      Append(b, e, RemoveAt(s, k));
    case Close(fd) => CloseKeepsLru(b, e, s);
    case Tick => TickKeepsLru(b, e, s);
  }

  /** A new or touched connection ends at the tail. */
  lemma {:induction false} TouchedGoesLast(h: seq<Timed>, e: Timed)
    requires Legal(h + [e]) && (e.ev.Connect? || e.ev.Activity?)
    ensures var s := Replay(h + [e]); s != [] && s[|s| - 1] == Entry(e.ev.fd, e.at + 15)
  {
    assert (h + [e])[..|h + [e]| - 1] == h;
    var s := Replay(h);
    RunsAreLru(h);
    ExpiriesBounded(h, s, e.at);
    if e.ev.Connect? {
      InsertLast(s, Entry(e.ev.fd, e.at + IDLE));
    } else {
      var k := IndexOf(s, e.ev.fd);
      InsertLast(RemoveAt(s, k), Entry(e.ev.fd, e.at + IDLE));
    }
  }

  /** After every sweep all remaining expiries lie in (cur, cur + 15]. */
  lemma {:induction false} AfterTick(h: seq<Timed>, e: Timed)
    requires Legal(h + [e]) && e.ev == Tick
    ensures forall k :: 0 <= k < |Replay(h + [e])| ==> e.at < Replay(h + [e])[k].expire <= e.at + 15
  {
    assert (h + [e])[..|h + [e]| - 1] == h;
    RunsAreLru(h);
    TickKeepsLru(h, e, Replay(h));
    ExpiriesBounded(h + [e], Replay(h + [e]), e.at);
  }

  /** A sweep takes an open connection off the list exactly if its last touch is at least 15 ago. */
  lemma {:induction false} TickClosesIdle(h: seq<Timed>, e: Timed, fd: int)
    requires Legal(h + [e]) && e.ev == Tick && LastTouch(h, fd).Some?
    ensures (exists k :: 0 <= k < |Replay(h + [e])| && Replay(h + [e])[k].id == fd) <==>
            e.at < h[LastTouch(h, fd).value].at + 15
  {
    assert (h + [e])[..|h + [e]| - 1] == h;
    RunsAreLru(h + [e]);
    var s := Replay(h + [e]);
    if LastTouch(h + [e], fd).Some? {
      assert IndexOf(s, fd) < |s|;
    }
    if k :| 0 <= k < |s| && s[k].id == fd {
      assert Current(h + [e], s[k]);
    }
  }
}
