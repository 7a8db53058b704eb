/** `block_queue`: a ring buffer whose indices start at -1, as a bounded FIFO queue. */
module BlockQueue {

  import opened Wrappers

  datatype Access<+T> = NoElement | OutOfBounds | Element(value: T)

  /** The slot of element `i` when the last popped element was in slot `front`. */
  function Slot(front: int, i: nat, max: nat): (k: nat)
    requires -1 <= front < max && i < max
    ensures k < max && k == (front + 1 + i) % max
  {
    var x := front + 1 + i;
    if x < max then x else ModOnce(x, max); x - max
  }

  /** The slot behind the elements is none of theirs. */
  lemma SlotsApart(front: int, size: nat, max: nat)
    requires -1 <= front < max && size < max
    ensures forall i :: 0 <= i < size ==> Slot(front, i, max) != Slot(front, size, max)
  {
  }

  /** Behind the first element the others keep their slots. */
  lemma SlotsShift(front: int, max: nat)
    requires -1 <= front < max && max > 0
    ensures forall i :: 0 <= i < max - 1 ==> Slot(Slot(front, 0, max), i, max) == Slot(front, i + 1, max)
  {
  }

  lemma ModOnce(x: nat, m: nat)
    requires m <= x < 2 * m
    ensures x % m == x - m
  {
  }

  lemma ModSmall(x: nat, m: nat)
    requires m > 0 && x <= m
    ensures x % m == if x == m then 0 else x
  {
  }

  /** The element that `pop` takes next. */
  function NextElement<T>(front: int, a: seq<T>): T
    requires -1 <= front < |a| && a != []
  {
    a[Slot(front, 0, |a|)]
  }

  /** The access that `front` makes: to the slot of the last popped element, which is index -1 before
      the first pop. */
  function FrontAccess<T>(front: int, size: nat, a: seq<T>): Access<T>
    requires -1 <= front < |a|
  {
    if size == 0 then NoElement else if front == -1 then OutOfBounds else Element(a[front])
  }

  class Queue<T(0)> {
    var arr: array<T>
    var size: nat
    const maxSize: nat
    var front: int
    var back: int

    /** Whether an element was popped since the creation or the last `clear`. */
    ghost var popped: bool

    ghost predicate Valid()
      reads this, arr
    {
      && maxSize > 0 && arr.Length == maxSize && size <= maxSize
      && -1 <= front < maxSize && (front == -1 <==> !popped)
      && back == if size == 0 then front else Slot(front, size - 1, maxSize)
    }

    /** The queue's elements, oldest first. */
    ghost function Contents(): (s: seq<T>)
      reads this, arr
      requires Valid()
      ensures |s| == size
    {
      seq(size, i requires 0 <= i < size && Valid() reads this, arr => arr[Slot(front, i, maxSize)])
    }

    lemma NextIsOldest()
      requires Valid() && size > 0
      ensures NextElement(front, arr[..]) == Contents()[0]
    {
    }

    /** A size that is not positive ends the process, which is what null stands for. */
    static method Create(max: int) returns (q: Queue?<T>)
      ensures q == null <==> max <= 0
      ensures q != null ==> fresh(q) && fresh(q.arr) && q.Valid() && q.maxSize == max
      ensures q != null ==> q.Contents() == [] && q.front == q.back == -1 && !q.popped
    {
      if max <= 0 {
        return null;
      }
      q := new Queue.Init(max);
    }

    constructor Init(max: nat)
      requires max > 0
      ensures Valid() && maxSize == max && fresh(arr)
      ensures Contents() == [] && front == back == -1 && !popped
    {
      maxSize := max;
      arr := new T[max];
      size, front, back, popped := 0, -1, -1, false;
    }

    /** The back index is the front index plus the size, modulo the capacity. */
    lemma BackIsFrontPlusSize()
      requires Valid()
      ensures (front + size - back) % maxSize == 0
    {
      var d := front + size - back;
      assert d == 0 || d == maxSize;
      ModOnce(maxSize, maxSize);
    }

    method Clear()
      requires Valid()
      modifies this`size, this`front, this`back, this`popped
      ensures Valid() && Contents() == [] && front == back == -1 && !popped
    {
      size, front, back, popped := 0, -1, -1, false;
    }

    method Full() returns (b: bool)
      requires Valid()
      ensures b <==> |Contents()| == maxSize
    {
      b := size >= maxSize;
    }

    method Empty() returns (b: bool)
      requires Valid()
      ensures b <==> Contents() == []
    {
      b := 0 == size;
    }

    method Back() returns (r: Option<T>)
      requires Valid()
      ensures r == if Contents() == [] then None else Some(Contents()[|Contents()| - 1])
    {
      if 0 == size {
        return None;
      }
      return Some(arr[back]);
    }

    method Push(item: T) returns (ok: bool)
      requires Valid()
      modifies this`size, this`back, arr
      ensures Valid() && arr == old(arr)
      ensures ok <==> |old(Contents())| < maxSize
      ensures Contents() == if ok then old(Contents()) + [item] else old(Contents())
    {
      if size >= maxSize {
        return false;
      }
      ModSmall(back + 1, maxSize);
      back := (back + 1) % maxSize;
      assert back == Slot(front, size, maxSize);
      hide Slot;
      SlotsApart(front, size, maxSize);
      arr[back] := item;
      size := size + 1;
      assert Contents() == old(Contents()) + [item];
      return true;
    }

    /** `pop` once it is past its wait; None where it would wait (or, timed, give up). */
    method Pop() returns (r: Option<T>)
      requires Valid()
      modifies this`size, this`front, this`popped
      ensures Valid() && (popped <==> old(popped) || r.Some?)
      ensures r == if old(Contents()) == [] then None else Some(old(Contents())[0])
      ensures Contents() == if old(Contents()) == [] then [] else old(Contents())[1..]
      ensures r.Some? ==> front >= 0 && r.value == arr[front]
    {
      if size <= 0 {
        return None;
      }
      ModSmall(front + 1, maxSize);
      ghost var was := Contents();
      front := (front + 1) % maxSize;
      assert front == Slot(old(front), 0, maxSize);
      assert back == if size == 1 then front else Slot(front, size - 2, maxSize);
      hide Slot;
      SlotsShift(old(front), maxSize);
      r := Some(arr[front]);
      size, popped := size - 1, true;
      assert Contents() == was[1..];
    }

    /** `front` makes an access with index -1 exactly if nothing was popped yet, and in a full queue it
        returns the newest element. */
    method Front() returns (r: Access<T>)
      requires Valid()
      ensures r == FrontAccess(front, size, arr[..])
      ensures r.OutOfBounds? <==> Contents() != [] && !popped
      ensures r.Element? && size == maxSize ==> r.value == Contents()[size - 1]
    {
      if 0 == size {
        return NoElement;
      }
      if front < 0 {
        return OutOfBounds;
      }
      assert size == maxSize ==> Slot(front, size - 1, maxSize) == front;
      return Element(arr[front]);
    }
  }

  /** In a non-empty queue `front` returns the next element to pop, whatever the slots hold, exactly if
      the capacity is 1 and an element was popped before. */
  lemma FrontIsNextIff<T(!new)>(front: int, size: nat, max: nat, x: T, y: T)
    requires -1 <= front < max && 0 < size <= max && x != y
    ensures (forall a: seq<T> :: |a| == max ==> FrontAccess(front, size, a) == Element(NextElement(front, a)))
            <==> max == 1 && front != -1
  {
    var a := seq(max, i => if i == front then x else y);
    if front == -1 || max > 1 {
      assert FrontAccess(front, size, a) != Element(NextElement(front, a));
    }
  }

  /** The failing family behind a pop: `front` returns the element popped last instead of the next. */
  method FrontAfterPop<T(0)>(max: nat, x: T, y: T) returns (r: Access<T>, next: Option<T>)
    requires max > 1
    ensures r == Element(x) && next == Some(y)
  {
    var q := new Queue<T>.Init(max);
    var a := q.Push(x);
    var b := q.Push(y);
    var c := q.Pop();
    r := q.Front();
    next := q.Pop();
  }

  /** The failing family before the first pop, whatever the capacity: index -1. */
  method FrontBeforePop<T(0)>(max: nat, x: T) returns (r: Access<T>, next: Option<T>)
    requires max > 0
    ensures r == OutOfBounds && next == Some(x)
  {
    var q := new Queue<T>.Init(max);
    var a := q.Push(x);
    r := q.Front();
    next := q.Pop();
  }
}
