/** The consistent-hash ring: lookup by successor with wraparound, and what inserting or erasing a
    virtual node does to it. The ordered map is its in-order sequence of entries. */
module HashRing {

  const SPACE: int := 0x1_0000_0000
  const UINT32_MAX: int := 0xFFFF_FFFF

  type Hash = x: int | 0 <= x < 0x1_0000_0000

  datatype VNode = VNode(nodeId: int, vnodeId: int)
  datatype Entry = Entry(key: Hash, node: VNode)

  ghost predicate Sorted(r: seq<Entry>) {
    forall i, j :: 0 <= i < j < |r| ==> r[i].key < r[j].key
  }

  /** `lower_bound`: the first entry whose key is not below `h`. */
  function LowerBound(r: seq<Entry>, h: int): (k: nat)
    ensures k <= |r|
    ensures forall i :: 0 <= i < k ==> r[i].key < h
    ensures k < |r| ==> h <= r[k].key
  {
    if r == [] || h <= r[0].key then 0 else 1 + LowerBound(r[1..], h)
  }

  lemma LowerBoundIs(r: seq<Entry>, h: int, k: nat)
    requires k <= |r| && (forall i :: 0 <= i < k ==> r[i].key < h) && (k < |r| ==> h <= r[k].key)
    ensures LowerBound(r, h) == k
  {
    var j := LowerBound(r, h);
    assert j < |r| ==> h <= r[j].key;
  }

  function Owner(r: seq<Entry>, h: int): (k: nat)
    requires r != []
    ensures k < |r|
  {
    var k := LowerBound(r, h);
    if k == |r| then 0 else k
  }

  function Find(r: seq<Entry>, h: int): int
    requires r != []
  {
    r[Owner(r, h)].node.nodeId
  }

  ghost predicate HasKey(r: seq<Entry>, key: int) {
    exists i :: 0 <= i < |r| && r[i].key == key
  }

  /** `emplace`: keeps an entry that is already there. */
  function Insert(r: seq<Entry>, key: Hash, node: VNode): seq<Entry> {
    var k := LowerBound(r, key);
    if k < |r| && r[k].key == key then r else r[..k] + [Entry(key, node)] + r[k..]
  }

  function Erase(r: seq<Entry>, key: Hash): seq<Entry> {
    var k := LowerBound(r, key);
    if k < |r| && r[k].key == key then r[..k] + r[k + 1..] else r
  }

  lemma HasKeyAt(r: seq<Entry>, key: int)
    requires Sorted(r)
    ensures HasKey(r, key) <==> LowerBound(r, key) < |r| && r[LowerBound(r, key)].key == key
  {
    if i :| 0 <= i < |r| && r[i].key == key {
      LowerBoundIs(r, key, i);
    }
  }

  lemma InsertSorted(r: seq<Entry>, key: Hash, node: VNode)
    requires Sorted(r)
    ensures Sorted(Insert(r, key, node))
  {
    var k := LowerBound(r, key);
    if !(k < |r| && r[k].key == key) {
      assert forall i :: k <= i < |r| ==> key < r[i].key;
    }
  }

  lemma EraseSorted(r: seq<Entry>, key: Hash)
    requires Sorted(r)
    ensures Sorted(Erase(r, key)) && !HasKey(Erase(r, key), key)
  {
    hide LowerBound;
    var k := LowerBound(r, key);
    var e := Erase(r, key);
    assert e != r ==> forall i :: 0 <= i < |e| ==> e[i] == r[if i < k then i else i + 1];
    assert forall i :: k < i < |r| ==> r[k].key < r[i].key;
  }

  /** `emplace` adds the entry if the key is free and keeps everything, also an entry that is already
      there; in a sorted ring this leaves no other result. */
  lemma InsertExactly(r: seq<Entry>, key: Hash, node: VNode)
    requires Sorted(r)
    ensures HasKey(r, key) ==> Insert(r, key, node) == r
    ensures !HasKey(r, key) ==> multiset(Insert(r, key, node)) == multiset(r) + multiset{Entry(key, node)}
  {
    HasKeyAt(r, key);
    var k := LowerBound(r, key);
    assert r == r[..k] + r[k..];
  }

  /** Erasing takes away exactly the entry at the key. */
  lemma EraseExactly(r: seq<Entry>, key: Hash)
    requires Sorted(r)
    ensures !HasKey(r, key) ==> Erase(r, key) == r
    ensures forall i :: 0 <= i < |r| && r[i].key == key ==> multiset(r) == multiset(Erase(r, key)) + multiset{r[i]}
  {
    hide LowerBound;
    HasKeyAt(r, key);
    var k := LowerBound(r, key);
    if k < |r| {
      assert r == r[..k] + [r[k]] + r[k + 1..];
    }
    forall i | 0 <= i < |r| && r[i].key == key ensures i == k {
      LowerBoundIs(r, key, i);
    }
  }

  // ---- What find means ----

  /** How far one has to go clockwise from `h` to reach `k`. */
  function Distance(h: int, k: int): int {
    if h <= k then k - h else k - h + SPACE
  }

  /** `find` returns the node whose virtual node comes first clockwise from the hash. */
  lemma FindIsClosest(r: seq<Entry>, h: Hash)
    requires r != [] && Sorted(r)
    ensures forall i :: 0 <= i < |r| && i != Owner(r, h) ==>
              Distance(h, r[Owner(r, h)].key) < Distance(h, r[i].key)
  {
  }

  // ---- Minimal remapping ----

  /** The key before `key` on the ring, around the end if need be. */
  function Pred(r: seq<Entry>, key: int): Hash
    requires r != []
  {
    var k := LowerBound(r, key);
    if k == 0 then r[|r| - 1].key else r[k - 1].key
  }

  /** `h` lies on the arc from `p`, exclusive, clockwise to `k`, inclusive. */
  predicate InArc(p: int, k: int, h: int) {
    if p < k then p < h <= k else p < h || h <= k
  }

  /** Inserting at a free key changes the lookup exactly on the arc from the predecessor to the key, and
      there to the new node. */
  lemma InsertRemaps(r: seq<Entry>, key: Hash, node: VNode, h: Hash)
    requires r != [] && Sorted(r) && !HasKey(r, key)
    ensures Find(Insert(r, key, node), h) == if InArc(Pred(r, key), key, h) then node.nodeId else Find(r, h)
  {
    hide LowerBound;
    var k := LowerBound(r, key);
    HasKeyAt(r, key);
    assert forall i :: k <= i < |r| ==> key < r[i].key by {
      assert k < |r| ==> forall i :: k < i < |r| ==> r[k].key < r[i].key;
    }
    LowerBoundInserted(r, k, Entry(key, node), h);
    assert h <= key && 0 < k && h <= r[k - 1].key ==> LowerBound(r, h) < k;
    assert key < h ==> k <= LowerBound(r, h);
  }

  lemma LowerBoundInserted(r: seq<Entry>, k: nat, e: Entry, h: int)
    requires Sorted(r) && k <= |r|
    requires (forall i :: 0 <= i < k ==> r[i].key < e.key) && forall i :: k <= i < |r| ==> e.key < r[i].key
    ensures LowerBound(r[..k] + [e] + r[k..], h) ==
            if e.key < h then LowerBound(r, h) + 1
            else if k == 0 || r[k - 1].key < h then k
            else LowerBound(r, h)
  {
    hide LowerBound;
    var n, j := r[..k] + [e] + r[k..], LowerBound(r, h);
    assert forall i :: 0 <= i < |n| ==> n[i] == if i < k then r[i] else if i == k then e else r[i - 1];
    if e.key < h {
      assert k <= j;
      LowerBoundIs(n, h, j + 1);
    } else if k == 0 || r[k - 1].key < h {
      LowerBoundIs(n, h, k);
    } else {
      assert j < k;
      LowerBoundIs(n, h, j);
    }
  }

  /** The first insertion takes every hash. */
  lemma InsertFirst(key: Hash, node: VNode, h: Hash)
    ensures Insert([], key, node) == [Entry(key, node)] && Find([Entry(key, node)], h) == node.nodeId
  {
  }

  /** Insert then erase is the identity exactly if the key was free. */
  lemma InsertErase(r: seq<Entry>, key: Hash, node: VNode)
    requires Sorted(r)
    ensures Erase(Insert(r, key, node), key) == r <==> !HasKey(r, key)
  {
    hide LowerBound, HasKey;
    var k := LowerBound(r, key);
    var n := Insert(r, key, node);
    HasKeyAt(r, key);
    if HasKey(r, key) {
      assert |Erase(n, key)| == |r| - 1;
    } else {
      LowerBoundIs(n, key, k);
      assert n[..k] == r[..k] && n[k + 1..] == r[k..];
      assert Erase(n, key) == r[..k] + r[k..] == r;
    }
  }

  lemma EraseInsert(r: seq<Entry>, key: Hash)
    requires Sorted(r) && HasKey(r, key)
    ensures Insert(Erase(r, key), key, r[LowerBound(r, key)].node) == r
  {
    hide LowerBound;
    HasKeyAt(r, key);
    var k := LowerBound(r, key);
    var e := Erase(r, key);
    assert e[..k] == r[..k] && e[k..] == r[k + 1..];
    assert r == r[..k] + [r[k]] + r[k + 1..];
    assert k < |e| ==> e[k] == r[k + 1] && key < r[k + 1].key;
    assert forall i :: 0 <= i < k ==> e[i] == r[i];
    LowerBoundIs(e, key, k);
  }

  /** All hashes of the arc that ends at a free key have the same owner. */
  lemma ArcHasOneOwner(r: seq<Entry>, key: Hash, h: Hash)
    requires r != [] && Sorted(r) && !HasKey(r, key) && InArc(Pred(r, key), key, h)
    ensures Find(r, h) == Find(r, key)
  {
    var k := LowerBound(r, key);
    HasKeyAt(r, key);
    if k == 0 && r[|r| - 1].key < h {
      LowerBoundIs(r, h, |r|);
    } else {
      LowerBoundIs(r, h, k);
    }
  }

  /** Erasing changes the lookup only on the arc that ends at the key, and there to the successor. */
  lemma EraseRemaps(r: seq<Entry>, key: Hash, h: Hash)
    requires |r| > 1 && Sorted(r) && HasKey(r, key)
    ensures Erase(r, key) != []
    ensures var e := Erase(r, key);
            && (InArc(Pred(e, key), key, h) ==>
                  Find(r, h) == r[LowerBound(r, key)].node.nodeId && Find(e, h) == Find(e, key))
            && (!InArc(Pred(e, key), key, h) ==> Find(e, h) == Find(r, h))
  {
    var e := Erase(r, key);
    HasKeyAt(r, key);
    EraseSorted(r, key);
    EraseInsert(r, key);
    InsertRemaps(e, key, r[LowerBound(r, key)].node, h);
    if InArc(Pred(e, key), key, h) {
      ArcHasOneOwner(e, key, h);
    }
  }

  // ---- Arc accounting ----

  /** What `Describe` adds up for one node: the arcs that end at its virtual nodes 1 to k. */
  function ArcSum(r: seq<Entry>, id: int, k: nat): (n: int)
    requires k < |r|
  {
    if k == 0 then 0
    else ArcSum(r, id, k - 1) + if r[k].node.nodeId == id then r[k].key - r[k - 1].key else 0
  }

  /** The arc over the end of the hash space, as the code computes it. */
  function WrapArc(r: seq<Entry>): int
    requires r != []
  {
    UINT32_MAX - r[|r| - 1].key + r[0].key
  }

  function Sum(r: seq<Entry>, id: int): int
    requires r != []
  {
    (if r[0].node.nodeId == id then WrapArc(r) else 0) + ArcSum(r, id, |r| - 1)
  }

  /** The hashes that `find` sends to a node. */
  ghost function Owned(r: seq<Entry>, id: int): set<int>
    requires r != []
  {
    set h | 0 <= h < SPACE && Find(r, h) == id
  }

  predicate Between(a: int, h: int, b: int) {
    a < h <= b
  }

  ghost function Interval(a: int, b: int): set<int> {
    set h | a < h <= b && Between(a, h, b)
  }

  lemma {:induction false} IntervalSize(a: int, b: int)
    requires a <= b
    ensures |Interval(a, b)| == b - a
    decreases b - a
  {
    if a < b {
      IntervalSize(a, b - 1);
      assert Interval(a, b) == Interval(a, b - 1) + {b};
    } else {
      assert Interval(a, b) == {};
    }
  }

  /** The owned hashes between the smallest key and key number k. */
  ghost function OwnedUpTo(r: seq<Entry>, id: int, k: nat): set<int>
    requires k < |r|
  {
    set h | r[0].key < h <= r[k].key && Find(r, h) == id
  }

  lemma {:induction false} OwnedUpToSize(r: seq<Entry>, id: int, k: nat)
    requires Sorted(r) && k < |r|
    ensures |OwnedUpTo(r, id, k)| == ArcSum(r, id, k)
  {
    hide Interval, OwnedUpTo, LowerBound, Find;
    if k == 0 {
      OwnedUpToZero(r, id);
    } else {
      OwnedUpToSize(r, id, k - 1);
      OwnedUpToStep(r, id, k);
      IntervalSize(r[k - 1].key, r[k].key);
    }
  }

  lemma OwnedUpToZero(r: seq<Entry>, id: int)
    requires r != []
    ensures OwnedUpTo(r, id, 0) == {}
  {
  }

  ghost function ArcSet(r: seq<Entry>, id: int, k: nat): set<int>
    requires 0 < k < |r|
  {
    if r[k].node.nodeId == id then Interval(r[k - 1].key, r[k].key) else {}
  }

  lemma OwnedUpToStep(r: seq<Entry>, id: int, k: nat)
    requires Sorted(r) && 0 < k < |r|
    ensures OwnedUpTo(r, id, k) == OwnedUpTo(r, id, k - 1) + ArcSet(r, id, k)
    ensures OwnedUpTo(r, id, k - 1) !! ArcSet(r, id, k)
  {
    hide Find, LowerBound;
    var a, b := r[k - 1].key, r[k].key;
    assert r[0].key <= a < b;
    forall h | a < h <= b ensures Find(r, h) == r[k].node.nodeId && Between(a, h, b) {
      ArcOwner(r, h, k);
    }
  }

  lemma ArcOwner(r: seq<Entry>, h: int, k: nat)
    requires Sorted(r) && 0 < k < |r| && r[k - 1].key < h <= r[k].key
    ensures Find(r, h) == r[k].node.nodeId
  {
    LowerBoundIs(r, h, k);
  }

  /** The hashes up to the smallest key and beyond the largest belong to the smallest key's node. */
  lemma WrapOwned(r: seq<Entry>, h: Hash)
    requires r != [] && Sorted(r) && (h <= r[0].key || r[|r| - 1].key < h)
    ensures Find(r, h) == r[0].node.nodeId
  {
    if h <= r[0].key { LowerBoundIs(r, h, 0); } else { LowerBoundIs(r, h, |r|); }
  }

  /** Each node's sum is the number of 32-bit hashes that `find` sends to it, except that it is one less
      for the node that owns the smallest key. */
  lemma ArcAccounting(r: seq<Entry>, id: int)
    requires r != [] && Sorted(r)
    ensures |Owned(r, id)| == Sum(r, id) + if r[0].node.nodeId == id then 1 else 0
  {
    hide Owned, OwnedUpTo, Interval, Find;
    var n := |r| - 1;
    OwnedUpToSize(r, id, n);
    OwnedSplits(r, id);
    IntervalSize(-1, r[0].key);
    IntervalSize(r[n].key, UINT32_MAX);
    assert r[0].node.nodeId == id ==> WrapSet(r, id) == Interval(-1, r[0].key) + Interval(r[n].key, UINT32_MAX);
  }

  /** The owned hashes outside the span of the keys. */
  ghost function WrapSet(r: seq<Entry>, id: int): set<int>
    requires r != []
  {
    if r[0].node.nodeId == id then Interval(-1, r[0].key) + Interval(r[|r| - 1].key, UINT32_MAX) else {}
  }

  lemma OwnedSplits(r: seq<Entry>, id: int)
    requires r != [] && Sorted(r)
    ensures Owned(r, id) == OwnedUpTo(r, id, |r| - 1) + WrapSet(r, id)
    ensures OwnedUpTo(r, id, |r| - 1) !! WrapSet(r, id)
    ensures Interval(-1, r[0].key) !! Interval(r[|r| - 1].key, UINT32_MAX)
  {
    hide Find;
    var n := |r| - 1;
    assert r[0].key <= r[n].key;
    forall h | 0 <= h < SPACE && (h <= r[0].key || r[n].key < h)
      ensures Find(r, h) == r[0].node.nodeId
      ensures Between(-1, h, r[0].key) || Between(r[n].key, h, UINT32_MAX)
    {
      WrapOwned(r, h);
    }
  }

  // ---- The total ----

  function Total(r: seq<Entry>, ids: nat): int
    requires r != []
  {
    if ids == 0 then 0 else Total(r, ids - 1) + Sum(r, ids - 1)
  }

  /** The same total, arc by arc. */
  function ArcTotal(r: seq<Entry>, ids: nat, k: nat): int
    requires k < |r|
  {
    if ids == 0 then 0 else ArcTotal(r, ids - 1, k) + ArcSum(r, ids - 1, k)
  }

  lemma {:induction false} ArcTotalStep(r: seq<Entry>, ids: nat, k: nat)
    requires 0 < k < |r|
    ensures ArcTotal(r, ids, k) == ArcTotal(r, ids, k - 1) +
              if 0 <= r[k].node.nodeId < ids then r[k].key - r[k - 1].key else 0
  {
    if ids > 0 {
      ArcTotalStep(r, ids - 1, k);
    }
  }

  lemma {:induction false} ArcTotalIs(r: seq<Entry>, ids: nat, k: nat)
    requires k < |r| && forall i :: 0 <= i < |r| ==> 0 <= r[i].node.nodeId < ids
    ensures ArcTotal(r, ids, k) == r[k].key - r[0].key
  {
    if k > 0 {
      ArcTotalStep(r, ids, k);
      ArcTotalIs(r, ids, k - 1);
    } else {
      ArcTotalZero(r, ids);
    }
  }

  lemma {:induction false} ArcTotalZero(r: seq<Entry>, ids: nat)
    requires r != []
    ensures ArcTotal(r, ids, 0) == 0
  {
    if ids > 0 { ArcTotalZero(r, ids - 1); }
  }

  lemma {:induction false} TotalSplits(r: seq<Entry>, ids: nat)
    requires r != []
    ensures Total(r, ids) == ArcTotal(r, ids, |r| - 1) +
              if 0 <= r[0].node.nodeId < ids then WrapArc(r) else 0
  {
    if ids > 0 {
      TotalSplits(r, ids - 1);
    }
  }

  /** All sums together are 2^32 - 1. */
  lemma SumsTotal(r: seq<Entry>, ids: nat)
    requires r != [] && forall i :: 0 <= i < |r| ==> 0 <= r[i].node.nodeId < ids
    ensures Total(r, ids) == UINT32_MAX
  {
    TotalSplits(r, ids);
    ArcTotalIs(r, ids, |r| - 1);
  }

  // ---- The object ----

  /** Unsigned 32-bit arithmetic. */
  function Wrap32(x: int): Hash {
    x % SPACE
  }

  class ConsistentHash {
    var nodes: seq<Entry>
    /** The hash of a virtual node: any function into 32 bits. */
    const hash: VNode -> Hash

    ghost predicate Valid()
      reads this
    {
      Sorted(nodes)
    }

    constructor (hash: VNode -> Hash)
      ensures Valid() && nodes == [] && this.hash == hash
    {
      nodes := [];
      this.hash := hash;
    }

    method InsertNode(node: VNode) returns (inserted: bool)
      requires Valid()
      modifies this
      ensures Valid() && nodes == Insert(old(nodes), hash(node), node)
      ensures inserted <==> !HasKey(old(nodes), hash(node))
    {
      var key := hash(node);
      InsertSorted(nodes, key, node);
      HasKeyAt(nodes, key);
      var k := LowerBound(nodes, key);
      inserted := !(k < |nodes| && nodes[k].key == key);
      if inserted {
        nodes := nodes[..k] + [Entry(key, node)] + nodes[k..];
      }
    }

    /** Erases whatever virtual node sits at the hash, and returns how many that were. */
    method EraseNode(node: VNode) returns (count: nat)
      requires Valid()
      modifies this
      ensures Valid() && nodes == Erase(old(nodes), hash(node))
      ensures count == if HasKey(old(nodes), hash(node)) then 1 else 0
    {
      var key := hash(node);
      EraseSorted(nodes, key);
      HasKeyAt(nodes, key);
      var k := LowerBound(nodes, key);
      count := 0;
      if k < |nodes| && nodes[k].key == key {
        nodes := nodes[..k] + nodes[k + 1..];
        count := 1;
      }
    }

    method FindNode(h: Hash) returns (id: int)
      requires Valid() && nodes != []
      ensures id == Find(nodes, h)
    {
      var k := LowerBound(nodes, h);
      if k == |nodes| {
        k := 0;
      }
      return nodes[k].node.nodeId;
    }

    method MaxNodeId() returns (max: int)
      ensures -1 <= max && forall i :: 0 <= i < |nodes| ==> nodes[i].node.nodeId <= max
      ensures max == -1 || exists i :: 0 <= i < |nodes| && nodes[i].node.nodeId == max
    {
      max := -1;
      for i := 0 to |nodes|
        invariant -1 <= max && forall j :: 0 <= j < i ==> nodes[j].node.nodeId <= max
        invariant max == -1 || exists j :: 0 <= j < |nodes| && nodes[j].node.nodeId == max
      {
        if max < nodes[i].node.nodeId {
          max := nodes[i].node.nodeId;
        }
      }
    }

    /** The sums that are printed, one per node id. All differences are taken in 32 bits. */
    method Describe() returns (result: seq<int>)
      requires Valid() && nodes != [] && forall i :: 0 <= i < |nodes| ==> 0 <= nodes[i].node.nodeId
      ensures forall i :: 0 <= i < |nodes| ==> nodes[i].node.nodeId < |result|
      ensures exists i :: 0 <= i < |nodes| && nodes[i].node.nodeId == |result| - 1
      ensures forall id :: 0 <= id < |result| ==> result[id] == Sum(nodes, id)
    {
      var maxNodeId := MaxNodeId();
      assert nodes[0].node.nodeId <= maxNodeId;
      var sums := new int[maxNodeId + 1](_ => 0);
      var last := nodes[|nodes| - 1].key;
      var n: int := Wrap32(Wrap32(UINT32_MAX - last) + nodes[0].key);
      NoWrap(nodes);
      sums[nodes[0].node.nodeId] := sums[nodes[0].node.nodeId] + n;
      var priv := nodes[0].key;
      var i := 1;
      while i < |nodes|
        invariant 1 <= i <= |nodes| && priv == nodes[i - 1].key
        invariant forall id :: 0 <= id < sums.Length ==>
                    sums[id] == (if nodes[0].node.nodeId == id then WrapArc(nodes) else 0) + ArcSum(nodes, id, i - 1)
      {
        var cur := nodes[i].key;
        n := Wrap32(cur - priv);
        assert n == cur - priv;
        sums[nodes[i].node.nodeId] := sums[nodes[i].node.nodeId] + n;
        priv := cur;
        i := i + 1;
      }
      return sums[..];
    }
  }

  /** The wrap arc fits 32 bits. */
  lemma NoWrap(r: seq<Entry>)
    requires r != [] && Sorted(r)
    ensures Wrap32(Wrap32(UINT32_MAX - r[|r| - 1].key) + r[0].key) == WrapArc(r)
  {
    assert r[0].key <= r[|r| - 1].key;
  }
}
