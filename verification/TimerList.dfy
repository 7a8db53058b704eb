/** Timers ordered by expiry, as sequences: what the linked list is meant to be. */
module TimerOrder {

  datatype Entry<T> = Entry(id: T, expire: int)

  ghost predicate Sorted<T>(s: seq<Entry<T>>) {
    forall i, j :: 0 <= i < j < |s| ==> s[i].expire <= s[j].expire
  }

  /** First position whose entry expires later than `x`. */
  function InsertPos<T>(s: seq<Entry<T>>, x: int): (p: nat)
    ensures p <= |s|
    ensures forall i :: 0 <= i < p ==> s[i].expire <= x
    ensures p < |s| ==> x < s[p].expire
  {
    if s == [] || x < s[0].expire then 0 else 1 + InsertPos(s[1..], x)
  }

  /** Stable insertion: behind every entry that does not expire later. */
  function Insert<T>(s: seq<Entry<T>>, e: Entry<T>): seq<Entry<T>> {
    var p := InsertPos(s, e.expire);
    s[..p] + [e] + s[p..]
  }

  function RemoveAt<T>(s: seq<Entry<T>>, k: nat): seq<Entry<T>>
    requires k < |s|
  {
    s[..k] + s[k + 1..]
  }

  /** The entries that have expired by `cur`, in order. */
  function Expired<T>(s: seq<Entry<T>>, cur: int): seq<Entry<T>> {
    if s == [] then []
    else if s[0].expire <= cur then [s[0]] + Expired(s[1..], cur)
    else Expired(s[1..], cur)
  }

  function Unexpired<T>(s: seq<Entry<T>>, cur: int): seq<Entry<T>> {
    if s == [] then []
    else if s[0].expire <= cur then Unexpired(s[1..], cur)
    else [s[0]] + Unexpired(s[1..], cur)
  }

  lemma InsertPosIs<T>(s: seq<Entry<T>>, x: int, p: nat)
    requires p <= |s| && (forall i :: 0 <= i < p ==> s[i].expire <= x) && (p < |s| ==> x < s[p].expire)
    ensures InsertPos(s, x) == p
  {
    var q := InsertPos(s, x);
    assert q < |s| ==> x < s[q].expire;
  }

  lemma {:induction false} InsertSorted<T>(s: seq<Entry<T>>, e: Entry<T>)
    requires Sorted(s)
    ensures Sorted(Insert(s, e))
    ensures multiset(Insert(s, e)) == multiset(s) + multiset{e}
  {
    hide InsertPos;
    var p := InsertPos(s, e.expire);
    assert multiset(Insert(s, e)) == multiset(s) + multiset{e} by {
      assert s == s[..p] + s[p..];
    }
    forall i, j | 0 <= i < j < |Insert(s, e)|
      ensures Insert(s, e)[i].expire <= Insert(s, e)[j].expire
    {
      if j > p {
        assert Insert(s, e)[j] == s[j - 1];
        assert s[p].expire <= s[j - 1].expire;
      }
    }
  }

  lemma InsertFew<T>(d: Entry<T>, e: Entry<T>)
    requires d.expire <= e.expire
    ensures Insert([], d) == [d] && Insert([d], e) == [d, e]
  {
    InsertPosIs([d], e.expire, 1);
  }

  lemma RemoveSorted<T>(s: seq<Entry<T>>, k: nat)
    requires k < |s| && Sorted(s)
    ensures Sorted(RemoveAt(s, k))
  {
  }

  /** An entry that still expires before its successor need not move. */
  lemma {:induction false} StayInPlace<T>(s: seq<Entry<T>>, k: nat, e: Entry<T>)
    requires k < |s| && Sorted(RemoveAt(s, k)) && (k + 1 < |s| ==> e.expire < s[k + 1].expire)
    ensures Sorted(s[k := e]) <==> k == 0 || s[k - 1].expire <= e.expire
    ensures k == 0 || s[k - 1].expire <= e.expire ==> s[k := e] == Insert(RemoveAt(s, k), e)
  {
    if k == 0 || s[k - 1].expire <= e.expire {
      hide Sorted;
      PlaceIsRight(s, k, e);
      InsertSorted(RemoveAt(s, k), e);
    } else {
      assert s[k := e][k - 1].expire > s[k := e][k].expire;
    }
  }

  lemma {:induction false} PlaceIsRight<T>(s: seq<Entry<T>>, k: nat, e: Entry<T>)
    requires k < |s| && Sorted(RemoveAt(s, k)) && (k + 1 < |s| ==> e.expire < s[k + 1].expire)
    requires k == 0 || s[k - 1].expire <= e.expire
    ensures s[k := e] == Insert(RemoveAt(s, k), e)
  {
    hide InsertPos;
    var r := RemoveAt(s, k);
    forall i | 0 <= i < k ensures r[i].expire <= e.expire {
      assert r[k - 1] == s[k - 1];
    }
    assert k < |r| ==> r[k] == s[k + 1];
    InsertPosIs(r, e.expire, k);
    assert r[..k] == s[..k] && r[k..] == s[k + 1..];
  }

  /** Everything up to an entry that does not expire after `x` does not either. */
  lemma NotBefore<T>(s: seq<Entry<T>>, k: nat, x: int)
    requires k + 1 < |s| && Sorted(RemoveAt(s, k)) && s[k + 1].expire <= x
    ensures forall i :: 0 <= i <= k ==> RemoveAt(s, k)[i].expire <= x
    ensures k > 0 ==> s[k - 1].expire <= x
  {
    var r := RemoveAt(s, k);
    assert r[k] == s[k + 1];
    assert forall i :: 0 <= i < k ==> r[i] == s[i] && r[i].expire <= r[k].expire;
  }

  lemma {:induction false} ExpiredIsPrefix<T>(s: seq<Entry<T>>, cur: int)
    requires Sorted(s)
    ensures var p := InsertPos(s, cur); Expired(s, cur) == s[..p] && Unexpired(s, cur) == s[p..]
  {
    if s != [] {
      assert Sorted(s[1..]);
      ExpiredIsPrefix(s[1..], cur);
      var p := InsertPos(s, cur);
      if s[0].expire <= cur {
        assert s[..p] == [s[0]] + s[1..][..p - 1];
        assert s[p..] == s[1..][p - 1..];
      } else {
        var p' := InsertPos(s[1..], cur);
        assert |s| > 1 ==> s[0].expire <= s[1].expire == s[1..][0].expire;
        assert p' == 0;
        assert s[1..][..0] == [] && s[1..][0..] == s[1..];
      }
    }
  }

  /** The entries found by stopping at the first one that has not expired. */
  lemma {:induction false} ExpiredIs<T>(s: seq<Entry<T>>, cur: int, n: nat)
    requires Sorted(s) && n <= |s| && (forall i :: 0 <= i < n ==> s[i].expire <= cur)
    requires n < |s| ==> cur < s[n].expire
    ensures Expired(s, cur) == s[..n] && Unexpired(s, cur) == s[n..]
  {
    hide *;
    ExpiredIsPrefix(s, cur);
    InsertPosIs(s, cur, n);
  }

  lemma SliceStep<T>(s: seq<T>, n: nat)
    requires n < |s|
    ensures s[..n] + [s[n]] == s[..n + 1] && s[n..][1..] == s[n + 1..]
  {
  }
}

/** `sort_timer_lst`: a doubly linked list of timers, kept sorted by expiry. */
module TimerList {
  import opened TimerOrder

  class UtilTimer {
    var expire: int
    var prev: UtilTimer?
    var next: UtilTimer?
    const client: int

    constructor (client: int, expire: int)
      ensures this.client == client && this.expire == expire && prev == null && next == null
    {
      this.client, this.expire := client, expire;
      prev, next := null, null;
    }
  }

  /** The nodes are distinct and neighbours point to each other; the ends point to nothing. */
  ghost predicate Linked(nodes: seq<UtilTimer>)
    reads nodes
  {
    && (forall i, j :: 0 <= i < j < |nodes| ==> nodes[i] != nodes[j])
    && (forall i, j :: 0 <= i < j < |nodes| && j == i + 1 ==>
          nodes[i].next == nodes[j] && nodes[j].prev == nodes[i])
    && (nodes != [] ==> nodes[0].prev == null && nodes[|nodes| - 1].next == null)
  }

  /** `view` lists the nodes with their expiries. */
  ghost predicate Synced(nodes: seq<UtilTimer>, view: seq<Entry<UtilTimer>>)
    reads nodes
  {
    |view| == |nodes| &&
    forall i :: 0 <= i < |nodes| ==> view[i].id == nodes[i] && view[i].expire == nodes[i].expire
  }

  /** What a pointer points to. */
  ghost function Target(timer: UtilTimer?): set<UtilTimer> {
    if timer == null then {} else {timer}
  }

  class SortTimerLst {
    var head: UtilTimer?
    var tail: UtilTimer?
    ghost var nodes: seq<UtilTimer>

    ghost var view: seq<Entry<UtilTimer>>

    /** `tail` is meaningful only while the list is not empty. */
    ghost predicate Wired()
      reads this, nodes
    {
      && Linked(nodes)
      && head == (if nodes == [] then null else nodes[0])
      && (nodes != [] ==> tail == nodes[|nodes| - 1])
    }

    ghost predicate Valid()
      reads this, nodes
    {
      Wired() && Synced(nodes, view) && Sorted(view)
    }

    constructor ()
      ensures Valid() && nodes == []
    {
      head, tail, nodes, view := null, null, [], [];
    }

    /** Links `timer` between nodes p - 1 and p. */
    method LinkBetween(timer: UtilTimer, prev: UtilTimer, tmp: UtilTimer, ghost p: nat)
      requires Wired() && timer !in nodes && 0 < p < |nodes| && prev == nodes[p - 1] && tmp == nodes[p]
      modifies this`nodes, nodes`prev, nodes`next, timer`prev, timer`next
      ensures Wired() && nodes == old(nodes)[..p] + [timer] + old(nodes)[p..]
    {
      prev.next := timer;
      timer.next := tmp;
      tmp.prev := timer;
      timer.prev := prev;
      nodes := nodes[..p] + [timer] + nodes[p..];
      ghost var was := old(nodes);
      forall i, j | 0 <= i < j < |nodes| && j == i + 1
        ensures nodes[i].next == nodes[j] && nodes[j].prev == nodes[i]
      {
        if j < p {
          assert nodes[i] == was[i] && nodes[j] == was[j];
        } else if i > p {
          assert nodes[i] == was[i - 1] && nodes[j] == was[j - 1];
        }
      }
    }

    method LinkLast(timer: UtilTimer, prev: UtilTimer)
      requires Wired() && timer !in nodes && nodes != [] && prev == nodes[|nodes| - 1]
      modifies this`tail, this`nodes, nodes`next, timer`prev, timer`next
      ensures Wired() && nodes == old(nodes) + [timer]
    {
      prev.next := timer;
      timer.prev := prev;
      timer.next := null;
      tail := timer;
      nodes := nodes + [timer];
    }

    method LinkFirst(timer: UtilTimer)
      requires Wired() && timer !in nodes && nodes != [] && timer.prev == null
      modifies this`head, this`nodes, nodes`prev, timer`next
      ensures Wired() && nodes == [timer] + old(nodes)
    {
      timer.next := head;
      head.prev := timer;
      head := timer;
      nodes := [timer] + nodes;
      assert forall i :: 0 < i < |nodes| ==> nodes[i] == old(nodes)[i - 1];
    }

    /** The private overload: walks from `lstHead`, which is node `k`. */
    method AddFrom(timer: UtilTimer, lstHead: UtilTimer, ghost k: nat) returns (ghost p: nat)
      requires Wired() && timer !in nodes && k < |nodes| && nodes[k] == lstHead
      modifies this`tail, this`nodes, nodes`prev, nodes`next, timer`prev, timer`next
      ensures Wired()
      ensures k < p <= |old(nodes)| && nodes == old(nodes)[..p] + [timer] + old(nodes)[p..]
      ensures forall i :: k < i < p ==> old(nodes)[i].expire <= timer.expire
      ensures p < |old(nodes)| ==> timer.expire < old(nodes)[p].expire
    {
      var prev := lstHead;
      var tmp := prev.next;
      p := k + 1;
      while tmp != null
        invariant Wired() && nodes == old(nodes)
        invariant k < p <= |nodes| && prev == nodes[p - 1]
        invariant tmp == (if p < |nodes| then nodes[p] else null)
        invariant forall i :: k < i < p ==> nodes[i].expire <= timer.expire
        decreases |nodes| - p
      {
        if timer.expire < tmp.expire {
          LinkBetween(timer, prev, tmp, p);
          return;
        }
        prev := tmp;
        tmp := tmp.next;
        p := p + 1;
      }
      LinkLast(timer, prev);
      assert old(nodes)[..p] == old(nodes) && old(nodes)[p..] == [];
    }

    /** Brings the view up to date after `timer` was linked in as node `p`. */
    ghost method Record(timer: UtilTimer, was: seq<UtilTimer>, p: nat)
      requires Wired() && Synced(was, view) && Sorted(view)
      requires p <= |was| && nodes == was[..p] + [timer] + was[p..]
      requires forall i :: 0 <= i < p ==> view[i].expire <= timer.expire
      requires p < |was| ==> timer.expire < view[p].expire
      modifies this`view
      ensures Valid() && view == Insert(old(view), Entry(timer, timer.expire))
    {
      hide Linked, Sorted, InsertPos;
      InsertPosIs(view, timer.expire, p);
      InsertSorted(view, Entry(timer, timer.expire));
      view := Insert(view, Entry(timer, timer.expire));
    }

    method AddTimer(timer: UtilTimer?)
      requires Valid()
      requires timer != null ==> timer !in nodes && timer.prev == null && timer.next == null
      modifies this, nodes`prev, nodes`next, Target(timer)`prev, Target(timer)`next
      ensures Valid()
      ensures timer == null ==> view == old(view)
      ensures timer != null ==> view == Insert(old(view), Entry(timer, timer.expire))
    {
      if timer == null {
        return;
      }
      if head == null {
        head, tail := timer, timer;
        nodes := [timer];
        Record(timer, [], 0);
      } else if timer.expire < head.expire {
        LinkFirst(timer);
        Record(timer, old(nodes), 0);
      } else {
        InsertFrom(timer, head, 0);
      }
    }

    /** Takes the inner node `timer` out of the chain. */
    method Unlink(timer: UtilTimer, ghost k: nat)
      requires Wired() && 0 < k < |nodes| - 1 && nodes[k] == timer
      modifies this`nodes, nodes`prev, nodes`next
      ensures Wired() && nodes == old(nodes)[..k] + old(nodes)[k + 1..] && timer !in nodes
      ensures timer.next == old(timer.next)
    {
      assert timer.prev == nodes[k - 1] && timer.next == nodes[k + 1];
      timer.prev.next := timer.next;
      timer.next.prev := timer.prev;
      ghost var was := nodes;
      nodes := was[..k] + was[k + 1..];
      forall i, j | 0 <= i < j < |nodes| && j == i + 1
        ensures nodes[i].next == nodes[j] && nodes[j].prev == nodes[i]
      {
        if j < k {
          assert nodes[i] == was[i] && nodes[j] == was[j];
        } else if i >= k {
          assert nodes[i] == was[i + 1] && nodes[j] == was[j + 1];
        }
      }
    }

    /** The list is in order except that the client may have changed the expiry of node `k`. */
    ghost predicate ValidExcept(k: nat)
      reads this, nodes
    {
      && Wired() && k < |nodes| == |view| && Sorted(RemoveAt(view, k))
      && view[k].id == nodes[k]
      && forall i :: 0 <= i < |nodes| && i != k ==>
           view[i].id == nodes[i] && view[i].expire == nodes[i].expire
    }

    /** A client's store to the expiry of node `k`. */
    method SetExpire(timer: UtilTimer, ghost k: nat, x: int)
      requires Valid() && k < |nodes| && nodes[k] == timer
      modifies timer`expire
      ensures ValidExcept(k) && timer.expire == x
    {
      RemoveSorted(view, k);
      timer.expire := x;
    }

    /** Repositions node `k` after the client has set its expiry. The code only ever moves it towards
        the tail, so the list ends up sorted exactly if the new expiry is not below the predecessor's. */
    method AdjustTimer(timer: UtilTimer?, ghost k: nat)
      requires if timer == null then Valid() else ValidExcept(k) && nodes[k] == timer
      modifies this, nodes`prev, nodes`next
      ensures Wired() && Synced(nodes, view)
      ensures timer == null ==> view == old(view)
      ensures timer != null ==>
                (Sorted(view) <==> k == 0 || old(view)[k - 1].expire <= timer.expire)
      ensures timer != null ==>
                view == if k == 0 || old(view)[k - 1].expire <= timer.expire
                        then Insert(RemoveAt(old(view), k), Entry(timer, timer.expire))
                        else old(view)[k := Entry(timer, timer.expire)]
    {
      if timer == null {
        return;
      }
      var tmp := timer.next;
      assert tmp == if k + 1 < |nodes| then nodes[k + 1] else null;
      hide Linked, Sorted, Insert;
      if tmp == null || timer.expire < tmp.expire {
        RecordStay(timer, k);
        return;
      }
      NotBefore(view, k, timer.expire);
      Move(timer, k);
    }

    /** Brings the view up to date for a node that keeps its place. */
    ghost method RecordStay(timer: UtilTimer, k: nat)
      requires ValidExcept(k) && nodes[k] == timer
      requires k + 1 < |nodes| ==> timer.expire < nodes[k + 1].expire
      modifies this`view
      ensures Wired() && Synced(nodes, view) && view == old(view)[k := Entry(timer, timer.expire)]
      ensures Sorted(view) <==> k == 0 || old(view)[k - 1].expire <= timer.expire
      ensures k == 0 || old(view)[k - 1].expire <= timer.expire ==>
                view == Insert(RemoveAt(old(view), k), Entry(timer, timer.expire))
    {
      hide Sorted, Insert;
      StayInPlace(view, k, Entry(timer, timer.expire));
      view := view[k := Entry(timer, timer.expire)];
    }

    /** Takes node `k` out and links it in again further on. */
    method Move(timer: UtilTimer, ghost k: nat)
      requires ValidExcept(k) && nodes[k] == timer
      requires k + 1 < |nodes| && nodes[k + 1].expire <= timer.expire
      modifies this, nodes`prev, nodes`next
      ensures Valid() && view == Insert(RemoveAt(old(view), k), Entry(timer, timer.expire))
    {
      hide Linked, Sorted, Synced, InsertPos, Insert;
      NotBefore(view, k, timer.expire);
      if timer == head {
        DetachHead(timer, k);
        InsertFrom(timer, head, k);
      } else {
        DetachInner(timer, k);
        InsertFrom(timer, timer.next, k);
      }
    }

    method DetachHead(timer: UtilTimer, ghost k: nat)
      requires ValidExcept(k) && nodes[k] == timer == head && k + 1 < |nodes|
      modifies this, nodes`prev, nodes`next
      ensures Valid() && view == RemoveAt(old(view), k) && timer !in nodes
      ensures nodes == old(nodes)[..k] + old(nodes)[k + 1..] && head == nodes[k]
    {
      hide Sorted;
      PopHead(k);
      timer.next := null;
      RecordDetached(old(nodes), k);
    }

    method DetachInner(timer: UtilTimer, ghost k: nat)
      requires ValidExcept(k) && nodes[k] == timer != head && k + 1 < |nodes|
      modifies this, nodes`prev, nodes`next
      ensures Valid() && view == RemoveAt(old(view), k) && timer !in nodes
      ensures nodes == old(nodes)[..k] + old(nodes)[k + 1..] && timer.next == nodes[k]
    {
      hide Sorted;
      assert timer.next == nodes[k + 1];
      Unlink(timer, k);
      RecordDetached(old(nodes), k);
    }

    /** The walk from node `k`, up to which nothing expires after `timer`. */
    method InsertFrom(timer: UtilTimer, lstHead: UtilTimer, ghost k: nat)
      requires Valid() && timer !in nodes && k < |nodes| && nodes[k] == lstHead
      requires forall i :: 0 <= i <= k ==> view[i].expire <= timer.expire
      modifies this`tail, this`nodes, this`view, nodes`prev, nodes`next, timer`prev, timer`next
      ensures Valid() && view == Insert(old(view), Entry(timer, timer.expire))
    {
      hide Linked, Sorted;
      ghost var p := AddFrom(timer, lstHead, k);
      Record(timer, old(nodes), p);
    }

    ghost method RecordDetached(was: seq<UtilTimer>, k: nat)
      requires Wired() && k < |was| == |view| && nodes == was[..k] + was[k + 1..]
      requires Sorted(RemoveAt(view, k))
      requires forall i :: 0 <= i < |was| && i != k ==>
                 view[i].id == was[i] && view[i].expire == was[i].expire
      modifies this`view
      ensures Valid() && view == RemoveAt(old(view), k)
    {
      view := RemoveAt(view, k);
    }

    /** Takes the head, which is node `k`, off a longer list. */
    method PopHead(ghost k: nat)
      requires Wired() && |nodes| > 1 && k < |nodes| && nodes[k] == head
      modifies this`head, this`nodes, nodes`prev
      ensures Wired() && k == 0 && nodes == old(nodes)[..k] + old(nodes)[k + 1..]
      ensures old(nodes)[k] !in nodes
    {
      assert k == 0;
      hide Linked;
      UnlinkHead();
      assert old(nodes)[..0] + old(nodes)[1..] == old(nodes)[1..];
    }

    method UnlinkHead()
      requires Wired() && |nodes| > 1
      modifies this`head, this`nodes, nodes`prev
      ensures Wired() && nodes == old(nodes)[1..] && old(nodes)[0] !in nodes
    {
      assert nodes[0].next == nodes[1];
      head := head.next;
      head.prev := null;
      nodes := nodes[1..];
      assert forall i :: 0 <= i < |nodes| ==> nodes[i] == old(nodes)[i + 1];
    }

    method DelTimer(timer: UtilTimer?, ghost k: nat)
      requires Valid() && (timer != null ==> k < |nodes| && nodes[k] == timer)
      modifies this, nodes`prev, nodes`next
      ensures Valid()
      ensures timer == null ==> view == old(view)
      ensures timer != null ==> view == RemoveAt(old(view), k) && timer !in nodes
    {
      if timer == null {
        return;
      }
      assert |nodes| == 1 ==> head == tail == timer;
      assert timer != head && timer != tail ==> 0 < k < |nodes| - 1;
      hide Sorted, Linked;
      if timer == head && timer == tail {
        PopOnly(k);
      } else if timer == head {
        PopHead(k);
      } else if timer == tail {
        PopTail(k);
      } else {
        Unlink(timer, k);
      }
      RemoveSorted(view, k);
      RecordDetached(old(nodes), k);
    }

    method PopTail(ghost k: nat)
      requires Wired() && |nodes| > 1 && k < |nodes| && nodes[k] == tail
      modifies this`tail, this`nodes, nodes`next
      ensures Wired() && nodes == old(nodes)[..k] + old(nodes)[k + 1..]
      ensures old(nodes)[k] !in nodes
    {
      assert k == |nodes| - 1;
      assert nodes[|nodes| - 1].prev == nodes[|nodes| - 2];
      tail := tail.prev;
      tail.next := null;
      nodes := nodes[..|nodes| - 1];
    }

    /** Takes the only node off. */
    method PopOnly(ghost k: nat)
      requires Wired() && k < |nodes| && nodes[k] == head == tail
      modifies this`head, this`tail, this`nodes
      ensures Wired() && nodes == old(nodes)[..k] + old(nodes)[k + 1..]
      ensures old(nodes)[k] !in nodes
    {
      assert k == 0 && |nodes| == 1;
      head, tail := null, null;
      nodes := [];
    }

    /** Frees the head node of a sweep; `tail` is left as it is, stale if the list becomes empty. */
    method DropHead()
      requires Valid() && nodes != []
      modifies this`head, this`nodes, this`view, nodes`prev
      ensures Valid() && nodes == old(nodes)[1..] && view == old(view)[1..]
    {
      assert |nodes| > 1 ==> nodes[0].next == nodes[1];
      head := head.next;
      if head != null {
        head.prev := null;
      }
      nodes, view := nodes[1..], view[1..];
      assert forall i :: 0 <= i < |nodes| ==> nodes[i] == old(nodes)[i + 1] && view[i] == old(view)[i + 1];
    }

    /** The expiry sweep at time `cur`; `fired` lists the timers whose callback ran, in order. The walk
        stops at the first unexpired node, and yet it finds every expired one. */
    method Tick(cur: int) returns (fired: seq<UtilTimer>)
      requires Valid()
      modifies this, nodes`prev
      ensures Valid()
      ensures view == Unexpired(old(view), cur)
      ensures |fired| == |Expired(old(view), cur)|
      ensures forall i :: 0 <= i < |fired| ==> fired[i] == Expired(old(view), cur)[i].id
    {
      hide Linked, Sorted, Synced, Expired, Unexpired, InsertPos;
      ghost var was, wasView := nodes, view;
      HeadIsFirst();
      fired := [];
      if head == null {
        ExpiredIs(wasView, cur, 0);
        return;
      }
      var tmp := head;
      while tmp != null
        invariant Valid() && tmp == head
        invariant |fired| <= |was| == |wasView| && fired == was[..|fired|]
        invariant nodes == was[|fired|..] && view == wasView[|fired|..]
        invariant forall i :: 0 <= i < |fired| ==> wasView[i].id == fired[i] && wasView[i].expire <= cur
        decreases |nodes|
      {
        HeadIsFirst();
        if cur < tmp.expire {
          break;
        }
        SliceStep(was, |fired|);
        SliceStep(wasView, |fired|);
        fired := fired + [tmp];
        DropHead();
        tmp := head;
      }
      ExpiredIs(wasView, cur, |fired|);
    }

    lemma HeadIsFirst()
      requires Valid()
      ensures |view| == |nodes| && (head == null <==> nodes == [])
      ensures nodes != [] ==> head == nodes[0] == view[0].id && head.expire == view[0].expire
    {
    }
  }

  method TwoTimers(a: int, b: int) returns (list: SortTimerLst, t: UtilTimer, u: UtilTimer)
    requires a <= b
    ensures fresh(list) && fresh(t) && fresh(u) && list.Valid()
    ensures list.nodes == [t, u] && list.view == [Entry(t, a), Entry(u, b)]
  {
    hide Linked, Sorted, Insert;
    list := new SortTimerLst();
    t := new UtilTimer(0, a);
    u := new UtilTimer(1, b);
    InsertFew(Entry(t, a), Entry(u, b));
    list.AddTimer(t);
    list.AddTimer(u);
    assert list.nodes == [t, u];
  }

  /** An expiry lowered below the predecessor's: the timer stays behind a later one. */
  method LoweredExpiry(a: int, b: int, x: int) returns (first: int, second: int)
    requires x < a <= b
    ensures first == a && second == x
  {
    hide Sorted, Insert, RemoveAt;
    var list, t, u := TwoTimers(a, b);
    list.SetExpire(u, 1, x);
    list.AdjustTimer(u, 1);
    assert list.view == [Entry(t, a), Entry(u, x)];
    assert list.nodes[0].next == list.nodes[1];
    first, second := list.head.expire, list.head.next.expire;
  }
}
