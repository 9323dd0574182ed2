/**
 The objects of the FIFO queue: the shared queue, the publisher, subscribers and
 the read access a receive hands to its callback. As in RealTimeEndpoints, an
 object mirrors a state t of FifoTopic when its fields are those that t records,
 and each method is proved to leave it mirroring the successor state of its step.
 */
module FifoEndpoints {
  import opened Counting
  import opened Numeric
  import opened FifoTopic

  class MessageQueue<T> {
    const c: Config
    const cells: array<Cell<T>>
    var next: nat
    var numSubscribers: nat

    constructor (c: Config)
      requires 0 < c.invalid
      ensures this.c == c && fresh(cells) && cells.Length == Pow2(c.q)
      ensures Mirrors(Initial(c)) && Inv(c, Initial<T>(c))
    {
      this.c := c;
      var unused: Cell<T> := Cell(0, None, c.invalid, 0, 0);
      cells := new Cell<T>[Pow2(c.q)](_ => unused);
      next, numSubscribers := 0, 0;
      new;
      InitialInv<T>(c);
      assert cells[..] == Initial<T>(c).cells;
    }

    /** The shared memory is as t says. */
    ghost predicate Mirrors(t: Topic<T>)
      reads this, cells
    {
      cells[..] == t.cells && next == t.next && numSubscribers == t.numSubscribers
    }

    /** The message of an id lives in the cell that the id is masked to. */
    function Index(id: nat): (i: nat)
      requires cells.Length == Pow2(c.q)
      ensures i == CellIndex(id, c.q) < cells.Length
    {
      CellIndexIs(id, c.q);
      And(id, cells.Length - 1)
    }

    /** request_writable: the exclusive lock, if nobody holds the flag. */
    method RequestWritable(i: nat) returns (ok: bool)
      requires i < cells.Length
      modifies cells
      ensures ok == (old(cells[i].flag) == 0)
      ensures cells[..] == if ok then old(cells[..])[i := old(cells[i]).(flag := -1)] else old(cells[..])
    {
      ok := cells[i].flag == 0;
      if ok {
        cells[i] := cells[i].(flag := -1);
      }
    }

    /** Emplace through a write access, which is released at the end. */
    method EmplaceAndUnlock(i: nat, references: nat, id: nat, v: T)
      requires i < cells.Length && cells[i].flag == -1
      modifies cells
      ensures cells[..] == old(cells[..])[i := Written(old(cells[i]).(flag := 0), references, id, v)]
      ensures cells[i].value == Some(v) && cells[i].id == id && cells[i].remaining == references
      ensures cells[i].flag == 0 && cells[i].active == old(cells[i]).active
    {
      cells[i] := cells[i].(remaining := references);
      cells[i] := cells[i].(value := Some(v));
      cells[i] := cells[i].(id := id);
      cells[i] := cells[i].(flag := 0);
    }

    method ConsumeAt(i: nat) returns (ok: bool)
      requires i < cells.Length
      modifies cells
      ensures ok == Consume(old(cells[i])).0
      ensures cells[..] == old(cells[..])[i := Consume(old(cells[i])).1]
      ensures var m := old(cells[i]);
              && (ok <==> m.value.Some? && m.active < m.remaining && m.flag != -1)
              && cells[i].flag == (if ok then m.flag + 1 else m.flag)
              && cells[i].active == (if m.value.Some? then m.active + 1 else m.active)
    {
      if cells[i].value.None? {
        return false;
      }
      var ticket := cells[i].active;
      cells[i] := cells[i].(active := ticket + 1);
      if ticket >= cells[i].remaining {
        return false;
      }
      var expected := cells[i].flag;
      if expected == -1 {
        return false;
      }
      cells[i] := cells[i].(flag := expected + 1);
      return true;
    }

    /** The destructor of a read access; the last of the references resets the value. */
    method ReleaseAt(i: nat)
      requires i < cells.Length
      modifies cells
      ensures cells[..] == old(cells[..])[i := Released(old(cells[i]))]
      ensures var m := old(cells[i]);
              && cells[i].remaining == m.remaining - 1 && cells[i].flag == m.flag - 1 && cells[i].active == m.active - 1
              && cells[i].value == if cells[i].remaining == 0 then None else m.value
    {
      var before := cells[i].remaining;
      cells[i] := cells[i].(remaining := before - 1);
      if before == 1 {
        cells[i] := cells[i].(value := None);
      }
      cells[i] := cells[i].(flag := cells[i].flag - 1);
      cells[i] := cells[i].(active := cells[i].active - 1);
    }
  }

  class FifoPublisher<T> {
    const queue: MessageQueue<T>

    constructor (queue: MessageQueue<T>)
      ensures this.queue == queue
    {
      this.queue := queue;
    }

    /** Publishing fails exactly when the cell to be written is being read, and then changes nothing. */
    method Publish(v: T, ghost t: Topic<T>) returns (published: bool)
      requires Inv(queue.c, t) && queue.Mirrors(t) && t.next + 1 < queue.c.invalid
      modifies queue`next, queue.cells
      ensures Inv(queue.c, Apply(queue.c, t, FifoTopic.Publish(v))) && queue.Mirrors(Apply(queue.c, t, FifoTopic.Publish(v)))
      ensures published ==>
                var i := CellIndex(t.next, queue.c.q);
                && i < queue.cells.Length
                && queue.cells[i].value == Some(v) && queue.cells[i].id == old(queue.next) == t.next
                && queue.cells[i].remaining == queue.numSubscribers && queue.next == old(queue.next) + 1
      ensures !published ==> queue.cells[..] == old(queue.cells[..]) && queue.next == old(queue.next)
      ensures published <==> forall a | a in t.accesses :: t.accesses[a].cell != CellIndex(t.next, queue.c.q)
    {
      PublishKeeps(queue.c, t, v);
      PublishSparesReaders(queue.c, t, v, 0);
      published := false;
      var id := queue.next;
      var i := queue.Index(id);
      var locked := queue.RequestWritable(i);
      if locked {
        queue.EmplaceAndUnlock(i, queue.numSubscribers, id, v);
        published := true;
      }
      if published {
        NotifyObservers(id + 1);
        assert |ApplyPublish(queue.c, t, v).log| == |t.log| + 1;
      }
    }

    method NotifyObservers(id: nat)
      modifies queue`next
      ensures queue.next == id
    {
      queue.next := id;
    }
  }

  class FifoSubscriber<T> {
    const queue: MessageQueue<T>
    var nextMessageId: nat

    constructor (queue: MessageQueue<T>)
      ensures this.queue == queue && nextMessageId == 0
    {
      this.queue := queue;
      nextMessageId := 0;
    }

    ghost predicate Mirrors(t: Topic<T>, s: nat)
      reads this, queue, queue.cells
    {
      queue.Mirrors(t) && s in t.subs && t.subs[s].nextId == nextMessageId
    }

    method Subscribe(ghost t: Topic<T>, ghost s: nat)
      requires Inv(queue.c, t) && queue.Mirrors(t) && s !in t.subs
      modifies this, queue`numSubscribers
      ensures Mirrors(Apply(queue.c, t, FifoTopic.Subscribe(s)), s)
      ensures nextMessageId == queue.next && queue.numSubscribers == old(queue.numSubscribers) + 1
    {
      queue.numSubscribers := queue.numSubscribers + 1;
      nextMessageId := queue.next;
    }

    method CancelSubscription(ghost t: Topic<T>, ghost s: nat)
      requires Inv(queue.c, t) && Mirrors(t, s) && forall a | a in t.accesses :: t.accesses[a].owner != s
      modifies queue`numSubscribers
      ensures queue.Mirrors(Apply(queue.c, t, Cancel(s)))
      ensures queue.numSubscribers == old(queue.numSubscribers) - 1
    {
      queue.numSubscribers := queue.numSubscribers - 1;
    }

    /**
     receive up to the call of its callback, once there is data to wait for. An
     attempt counts as one id even when it delivers nothing.
     */
    method Receive(ghost t: Topic<T>, ghost s: nat, ghost a: nat) returns (r: Received)
      requires Inv(queue.c, t) && Mirrors(t, s) && nextMessageId != queue.next && a !in t.accesses
      modifies this, queue.cells
      ensures r == ReceiveOf(queue.c, t.cells, t.next, t.subs[s].nextId).0
      ensures Inv(queue.c, Apply(queue.c, t, FifoTopic.Receive(s, a))) && Mirrors(Apply(queue.c, t, FifoTopic.Receive(s, a)), s)
      ensures nextMessageId == old(nextMessageId) + 1
      ensures r == if t.next - t.subs[s].nextId <= Pow2(queue.c.q)
                   then Delivered(CellIndex(t.subs[s].nextId, queue.c.q)) else Mismatch
      ensures r.Delivered? ==>
                && r.cell < queue.cells.Length && t.subs[s].nextId < |t.log|
                && queue.cells[r.cell].value == Some(t.log[t.subs[s].nextId])
    {
      ReceiveKeeps(queue.c, t, s, a);
      DeliveredUnlessOverwritten(queue.c, t, s);
      var received := queue.next;
      var id := nextMessageId;
      nextMessageId := nextMessageId + 1;
      if received == queue.c.invalid {
        return PublisherDown;
      }
      var i := queue.Index(id);
      if queue.cells[i].id != id {
        return Mismatch;
      }
      var ok := queue.ConsumeAt(i);
      if !ok {
        return NotConsumed;
      }
      return Delivered(i);
    }
  }

  /** What a callback reads through; its destructor runs when the callback has returned. */
  class ReadAccess<T> {
    const queue: MessageQueue<T>
    const cell: nat

    constructor (queue: MessageQueue<T>, cell: nat)
      ensures this.queue == queue && this.cell == cell
    {
      this.queue, this.cell := queue, cell;
    }

    /** This access is the access a of t. */
    ghost predicate Mirrors(t: Topic<T>, a: nat)
      reads queue, queue.cells
    {
      queue.Mirrors(t) && a in t.accesses && t.accesses[a].cell == cell
    }

    /** The value is there and is the published message, however long the callback takes. */
    method Read(ghost t: Topic<T>, ghost a: nat) returns (v: T)
      requires Inv(queue.c, t) && Mirrors(t, a)
      ensures t.accesses[a].id < |t.log| && v == t.log[t.accesses[a].id]
    {
      OpenAccessReads(queue.c, t, a);
      v := queue.cells[cell].value.value;
    }

    method Release(ghost t: Topic<T>, ghost a: nat)
      requires Inv(queue.c, t) && Mirrors(t, a)
      modifies queue.cells
      ensures Inv(queue.c, Apply(queue.c, t, FifoTopic.Release(a))) && queue.Mirrors(Apply(queue.c, t, FifoTopic.Release(a)))
    {
      ReleaseKeeps(queue.c, t, a);
      queue.ReleaseAt(cell);
    }
  }
}
