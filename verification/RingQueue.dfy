/**
 The fixed-size queue: a ring of items with a flag that tells the full ring from
 the empty one. It is proved to be a bounded double-ended queue.
 */
module RingQueue {
  import opened Numeric

  /** An item and the number of times a reference to it was handed out. */
  datatype Element<T> = Element(item: T, references: nat)

  /** The position k places after start on a ring. */
  function Place(start: nat, k: nat, capacity: nat): nat
    requires start < capacity && k <= capacity
  {
    if start + k < capacity then start + k else start + k - capacity
  }

  lemma PlaceIsModulo(start: nat, k: nat, capacity: nat)
    requires start < capacity && k <= capacity
    ensures (start + k) % capacity == Place(start, k, capacity) < capacity
  {
    ModUnique(start + k, capacity, if start + k < capacity then 0 else 1, Place(start, k, capacity));
  }

  /** The n elements of the ring from head on. */
  function Ring<T>(s: seq<Element<T>>, head: nat, n: nat): (r: seq<Element<T>>)
    requires head < |s| && n <= |s|
    ensures |r| == n && forall k | 0 <= k < n :: r[k] == s[Place(head, k, |s|)]
  {
    seq(n, k requires 0 <= k < n => s[Place(head, k, |s|)])
  }

  function Items<T>(es: seq<Element<T>>): (r: seq<T>)
    ensures |r| == |es| && forall k | 0 <= k < |es| :: r[k] == es[k].item
  {
    seq(|es|, k requires 0 <= k < |es| => es[k].item)
  }

  /** Distinct positions of a ring are distinct places, so a write is seen at its own position alone. */
  lemma RingWrite<T>(s: seq<Element<T>>, head: nat, n: nat, k: nat, e: Element<T>)
    requires head < |s| && k < n <= |s|
    ensures Ring(s[Place(head, k, |s|) := e], head, n) == Ring(s, head, n)[k := e]
    ensures Items(Ring(s, head, n)[k := e]) == Items(Ring(s, head, n))[k := e.item]
  {
  }

  lemma RingAppend<T>(s: seq<Element<T>>, head: nat, n: nat, e: Element<T>)
    requires head < |s| && n < |s|
    ensures Ring(s[Place(head, n, |s|) := e], head, n + 1) == Ring(s, head, n) + [e]
    ensures Items(Ring(s, head, n) + [e]) == Items(Ring(s, head, n)) + [e.item]
  {
  }

  lemma RingDrop<T>(s: seq<Element<T>>, head: nat, n: nat)
    requires head < |s| && 0 < n <= |s|
    ensures Ring(s, Place(head, 1, |s|), n - 1) == Ring(s, head, n)[1..]
    ensures Items(Ring(s, head, n)[1..]) == Items(Ring(s, head, n))[1..]
  {
    forall k | 0 <= k < n - 1 ensures Ring(s, Place(head, 1, |s|), n - 1)[k] == Ring(s, head, n)[1..][k] {
      assert Place(Place(head, 1, |s|), k, |s|) == Place(head, k + 1, |s|);
    }
  }

  lemma RingTake<T>(s: seq<Element<T>>, head: nat, n: nat)
    requires head < |s| && 0 < n <= |s|
    ensures Ring(s, head, n - 1) == Ring(s, head, n)[..n - 1]
    ensures Items(Ring(s, head, n)[..n - 1]) == Items(Ring(s, head, n))[..n - 1]
  {
  }

  class FixedSizeQueue<T> {
    const items: array<Element<T>>
    const capacity: nat
    var head: nat
    var tail: nat
    var full: bool

    ghost predicate Valid()
      reads this
    {
      && 0 < capacity == items.Length && head < capacity && tail < capacity
      && (full ==> head == tail)
    }

    ghost function Length(): (n: nat)
      requires Valid()
      reads this
      ensures n <= capacity && Place(head, n, capacity) == tail
      ensures n == capacity <==> full
    {
      if full then capacity else if tail >= head then tail - head else tail + capacity - head
    }

    ghost function Elements(): (s: seq<Element<T>>)
      requires Valid()
      reads this, items
      ensures |s| == Length()
    {
      Ring(items[..], head, Length())
    }

    /** The queued items, front first. */
    ghost function Contents(): (s: seq<T>)
      requires Valid()
      reads this, items
      ensures |s| == Length()
    {
      Items(Elements())
    }

    /** Lays a queue over the given memory, whatever it held before. */
    constructor (items: array<Element<T>>)
      requires items.Length > 0
      ensures Valid() && this.items == items && capacity == items.Length && Contents() == []
    {
      this.items, capacity := items, items.Length;
      head, tail, full := 0, 0, false;
    }

    /** A full queue drops the item. */
    method Push(item: T)
      requires Valid()
      modifies this`tail, this`full, items
      ensures Valid()
      ensures Contents() == if |old(Contents())| == capacity then old(Contents()) else old(Contents()) + [item]
      ensures Elements() == if |old(Contents())| == capacity then old(Elements()) else old(Elements()) + [Element(item, 0)]
    {
      if full {
        return;
      }
      RingAppend(items[..], head, Length(), Element(item, 0));
      items[tail] := Element(item, 0);
      PlaceIsModulo(tail, 1, capacity);
      tail := (tail + 1) % capacity;
      if tail == head {
        full := true;
      }
    }

    /** On an empty queue the head passes the tail: the queue then claims to hold all but one of its places. */
    method PopFront()
      requires Valid()
      modifies this`head, this`full
      ensures Valid()
      ensures old(Contents()) != [] ==> Contents() == old(Contents())[1..] && Elements() == old(Elements())[1..]
      ensures old(Contents()) == [] ==> |Contents()| == capacity - 1
    {
      PlaceIsModulo(head, 1, capacity);
      if Length() > 0 { RingDrop(items[..], head, Length()); }
      head := (head + 1) % capacity;
      full := false;
    }

    method PopBack()
      requires Valid()
      modifies this`tail, this`full
      ensures Valid()
      ensures var n := |old(Contents())|;
              n > 0 ==> Contents() == old(Contents())[..n - 1] && Elements() == old(Elements())[..n - 1]
      ensures old(Contents()) == [] ==> |Contents()| == capacity - 1
    {
      if Length() > 0 { RingTake(items[..], head, Length()); }
      if tail == 0 {
        tail := capacity - 1;
      } else {
        tail := tail - 1;
      }
      full := false;
    }

    /** Hands out the first item and counts the reference. */
    method Front() returns (item: T)
      requires Valid() && Contents() != []
      modifies items
      ensures Valid() && item == old(Contents())[0] && Contents() == old(Contents())
      ensures Elements() == old(Elements())[0 := Element(item, old(Elements())[0].references + 1)]
    {
      var e := items[head];
      RingWrite(items[..], head, Length(), 0, e.(references := e.references + 1));
      items[head] := e.(references := e.references + 1);
      item := e.item;
    }

    method Back() returns (item: T)
      requires Valid() && Contents() != []
      modifies items
      ensures Valid() && Contents() == old(Contents())
      ensures var last := |old(Contents())| - 1;
              && item == old(Contents())[last]
              && Elements() == old(Elements())[last := Element(item, old(Elements())[last].references + 1)]
    {
      var last := if tail == 0 then capacity - 1 else tail - 1;
      assert last == Place(head, Length() - 1, capacity);
      var e := items[last];
      RingWrite(items[..], head, Length(), Length() - 1, e.(references := e.references + 1));
      items[last] := e.(references := e.references + 1);
      item := e.item;
    }

    method Empty() returns (r: bool)
      requires Valid()
      ensures r <==> Contents() == []
    {
      r := head == tail && !full;
    }

    method Size() returns (n: nat)
      requires Valid()
      ensures n == |Contents()|
    {
      if tail == head {
        if full {
          return capacity;
        }
        return 0;
      }
      if tail >= head {
        return tail - head;
      }
      return tail + capacity - head;
    }

    method IsFull() returns (r: bool)
      requires Valid()
      ensures r <==> |Contents()| == capacity
    {
      var n := Size();
      r := capacity == n;
    }
  }
}
