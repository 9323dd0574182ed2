/**
 The objects of the real-time protocol: the shared message buffer, publishers,
 subscribers and the wrappers that hold a message. An object mirrors a state t
 of RealTimeTopic when its fields are those that t records; each method, called
 on an object that mirrors a state satisfying the invariant, is proved to
 terminate and to leave the object mirroring the successor state of its step.
 */
module RealTimeEndpoints {
  import opened Numeric
  import opened RealTimeLayout
  import opened RealTimeTopic
  import opened RealTimeSafety

  class MessageBuffer<T> {
    const c: Config
    const slots: array<Slot<T>>
    var nextMessageId: nat
    var latestPublishedIdx: nat

    constructor (c: Config)
      ensures this.c == c && slots.Length == c.K() * c.publishers == c.Slots() && fresh(slots)
      ensures Mirrors(Initial(c))
      ensures nextMessageId == latestPublishedIdx == c.Invalid()
    {
      this.c := c;
      var empty: Slot<T> := Slot(None, c.Invalid(), 0);
      slots := new Slot<T>[c.K() * c.publishers](_ => empty);
      nextMessageId, latestPublishedIdx := c.Invalid(), c.Invalid();
      new;
      SpanIsProduct(c.K(), c.publishers);
      assert slots[..] == Initial<T>(c).slots;
    }

    /** The shared memory is as t says. */
    ghost predicate Mirrors(t: Topic<T>)
      reads this, slots
    {
      slots[..] == t.slots && nextMessageId == t.nextMessageId && latestPublishedIdx == t.latest
    }

    method EmplaceAt(i: nat, id: nat, v: T)
      requires i < slots.Length
      modifies slots
      ensures slots[..] == Emplace(old(slots[..]), i, id, v)
    {
      slots[i] := slots[i].(value := Some(v));
      slots[i] := slots[i].(id := id);
    }

    method AcquireUnsafeAt(i: nat)
      requires i < slots.Length
      modifies slots
      ensures slots[..] == AcquireUnsafe(old(slots[..]), i)
    {
      slots[i] := slots[i].(refs := slots[i].refs + 1);
    }

    /** The last of the references resets the value and the id. */
    method ReleaseAt(i: nat)
      requires i < slots.Length && slots[i].refs > 0
      modifies slots
      ensures slots[..] == Release(old(slots[..]), i, c.Invalid())
      ensures OneFewer(c, old(slots[i]), slots[i])
    {
      var before := slots[i].refs;
      slots[i] := slots[i].(refs := before - 1);
      if before == 1 {
        slots[i] := slots[i].(value := None);
        slots[i] := slots[i].(id := c.Invalid());
      }
    }
  }

  /** Where a publication goes, and what it makes of the state. */
  lemma PublishGuide<T>(c: Config, t: Topic<T>, p: nat, v: T, j: nat)
    requires Inv(c, t) && CanPublish(c, t, p, j)
    ensures var pub, i := t.pubs[p], Target(c, t.pubs[p], j);
            && pub.nextLocal < Pow2(c.w)
            && i < |t.slots| && t.slots[i].refs == 0 && pub.prev != Some(i) && PrevLive(t, pub.prev)
            && var t' := Apply(c, t, RealTimeTopic.Publish(p, v, j));
               && t'.slots == PublishSlots(t.slots, i, v, pub.prev, c.Invalid())
               && t'.nextMessageId == (t.nextMessageId + 1) % c.Range() && t'.latest == i
               && p in t'.pubs && t'.pubs[p] == Publisher(pub.offset, (pub.nextLocal + j + 1) % Pow2(c.w), Some(i))
  {
    PublishReady(c, t, p, j);
    assert PublisherOk(c, p, t.pubs[p]);
  }

  class RealTimePublisher<T> {
    const buffer: MessageBuffer<T>
    /** First slot of the assigned area. */
    const offset: nat
    /** Size of the area less one, for masking. */
    const wrapAroundValue: nat
    var nextLocalMessageId: nat
    /** Keeps the last message alive. */
    var prevPublished: Option<nat>

    /** Joining: the entry is one that no publisher has. */
    constructor (buffer: MessageBuffer<T>, entryIdx: nat, ghost t: Topic<T>)
      requires Inv(buffer.c, t) && buffer.Mirrors(t) && entryIdx < buffer.c.publishers && entryIdx !in t.pubs
      ensures Mirrors(Apply(buffer.c, t, JoinPublisher(entryIdx)), entryIdx)
      ensures this.buffer == buffer && offset == entryIdx * buffer.c.K() == Span(buffer.c.K(), entryIdx)
      ensures wrapAroundValue == buffer.c.K() - 1
      ensures nextLocalMessageId == 0 && prevPublished == None
    {
      this.buffer := buffer;
      offset := entryIdx * buffer.c.K();
      wrapAroundValue := buffer.c.K() - 1;
      nextLocalMessageId, prevPublished := 0, None;
      new;
      SpanIsProduct(buffer.c.K(), entryIdx);
      assert entryIdx * buffer.c.K() == buffer.c.K() * entryIdx;
    }

    ghost predicate Mirrors(t: Topic<T>, p: nat)
      reads this, buffer, buffer.slots
    {
      && buffer.Mirrors(t) && wrapAroundValue == buffer.c.K() - 1
      && p in t.pubs && t.pubs[p] == Publisher(offset, nextLocalMessageId, prevPublished)
    }

    /** Probe for a dead slot, construct the message there, announce it and swap the retained reference. */
    method Publish(v: T, ghost t: Topic<T>, ghost p: nat) returns (ghost j: nat)
      requires Inv(buffer.c, t) && Mirrors(t, p)
      modifies this, buffer, buffer.slots
      ensures j < buffer.c.K() && CanPublish(buffer.c, t, p, j)
      ensures Mirrors(Apply(buffer.c, t, RealTimeTopic.Publish(p, v, j)), p)
      ensures var i := buffer.latestPublishedIdx;
              && i < buffer.slots.Length
              && buffer.slots[i] == Slot(Some(v), i, 1) && old(buffer.slots[i].refs) == 0
              && prevPublished == Some(i)
    {
      j := PublishNeverStalls(buffer.c, t, p);
      PublishGuide(buffer.c, t, p, v, j);
      var idx := Probe(j);
      var globalIdx := offset + idx;
      PublishAt(v, globalIdx);
    }

    /** Construct the message in the slot found, announce it and retain it. */
    method PublishAt(v: T, globalIdx: nat)
      requires globalIdx < buffer.slots.Length && buffer.slots[globalIdx].refs == 0 && prevPublished != Some(globalIdx)
      requires prevPublished.Some? ==>
                 prevPublished.value < buffer.slots.Length && buffer.slots[prevPublished.value].refs > 0
      modifies this`prevPublished, buffer, buffer.slots
      ensures buffer.slots[globalIdx] == Slot(Some(v), globalIdx, 1)
      ensures buffer.slots[..] == PublishSlots(old(buffer.slots[..]), globalIdx, v, old(prevPublished), buffer.c.Invalid())
      ensures prevPublished == Some(globalIdx) && buffer.latestPublishedIdx == globalIdx
      ensures buffer.nextMessageId == (old(buffer.nextMessageId) + 1) % buffer.c.Range()
    {
      buffer.EmplaceAt(globalIdx, globalIdx, v);
      NotifySubscribers(globalIdx);
      Retain(globalIdx);
    }

    /** Keep a reference on the message in slot i and give up the one on the message before. */
    method Retain(i: nat)
      requires i < buffer.slots.Length && prevPublished != Some(i)
      requires prevPublished.Some? ==>
                 prevPublished.value < buffer.slots.Length && buffer.slots[prevPublished.value].refs > 0
      modifies this`prevPublished, buffer.slots
      ensures prevPublished == Some(i)
      ensures var s := AcquireUnsafe(old(buffer.slots[..]), i);
              buffer.slots[..] == match old(prevPublished)
                                  case Some(p) => Release(s, p, buffer.c.Invalid())
                                  case None => s
    {
      buffer.AcquireUnsafeAt(i);
      if prevPublished.Some? {
        buffer.ReleaseAt(prevPublished.value);
      }
      prevPublished := Some(i);
    }

    /** The search for a dead slot. */
    method Probe(ghost j: nat) returns (idx: nat)
      requires wrapAroundValue == buffer.c.K() - 1 && nextLocalMessageId < Pow2(buffer.c.w)
      requires ProbeHits(buffer.slots[..], offset, nextLocalMessageId, buffer.c.k, buffer.c.w, buffer.c.Invalid(), j)
      modifies this`nextLocalMessageId
      ensures idx == ProbeIndex(old(nextLocalMessageId), j, buffer.c.K(), buffer.c.w)
      ensures nextLocalMessageId == (old(nextLocalMessageId) + j + 1) % Pow2(buffer.c.w)
    {
      ghost var n := nextLocalMessageId;
      ghost var i := 0;
      ModUnique(n, Pow2(buffer.c.w), 0, n);
      while true
        invariant i <= j && nextLocalMessageId == (n + i) % Pow2(buffer.c.w)
        decreases j - i
      {
        var localMessageId := nextLocalMessageId;
        nextLocalMessageId := (nextLocalMessageId + 1) % Pow2(buffer.c.w);
        NextResidue(n + i, Pow2(buffer.c.w));
        idx := And(localMessageId, wrapAroundValue);
        assert idx == ProbeIndex(n, i, Pow2(buffer.c.k), buffer.c.w);
        if buffer.slots[offset + idx].id == buffer.c.Invalid() {
          assert i == j;
          break;
        }
        i := i + 1;
      }
    }

    /** What the destructor does: the last message is no longer retained. */
    method Leave(ghost t: Topic<T>, ghost p: nat)
      requires Inv(buffer.c, t) && Mirrors(t, p)
      modifies this`prevPublished, buffer.slots
      ensures prevPublished == None && buffer.Mirrors(Apply(buffer.c, t, LeavePublisher(p)))
    {
      PublisherReady(buffer.c, t, p);
      if prevPublished.Some? {
        buffer.ReleaseAt(prevPublished.value);
      }
      prevPublished := None;
    }

    method NotifySubscribers(globalIdx: nat)
      modifies buffer`latestPublishedIdx, buffer`nextMessageId
      ensures buffer.latestPublishedIdx == globalIdx
      ensures buffer.nextMessageId == (old(buffer.nextMessageId) + 1) % buffer.c.Range()
    {
      buffer.latestPublishedIdx := globalIdx;
      buffer.nextMessageId := (buffer.nextMessageId + 1) % buffer.c.Range();
    }
  }

  lemma DeadOrValued<T>(c: Config, t: Topic<T>)
    requires Inv(c, t) && t.latest < |t.slots|
    ensures var m := t.slots[t.latest]; if m.refs > 0 then m.value.Some? else m == Slot(None, c.Invalid(), 0)
  {
    assert SlotOk(t.slots[t.latest], t.latest, References(t, t.latest), c.Invalid());
  }

  class RealTimeSubscriber<T> {
    const buffer: MessageBuffer<T>
    var availableAcquires: int
    var nextMessageId: nat

    /** Joining: the entry s is one that no subscriber has. */
    constructor (buffer: MessageBuffer<T>, ghost t: Topic<T>, ghost s: nat)
      requires Inv(buffer.c, t) && buffer.Mirrors(t) && s < buffer.c.subscribers && s !in t.subs
      ensures Mirrors(Apply(buffer.c, t, JoinSubscriber(s)), s)
      ensures this.buffer == buffer && availableAcquires == buffer.c.acquires && nextMessageId == buffer.nextMessageId
    {
      this.buffer := buffer;
      availableAcquires, nextMessageId := buffer.c.acquires, buffer.nextMessageId;
    }

    ghost predicate Mirrors(t: Topic<T>, s: nat)
      reads this, buffer, buffer.slots
    {
      && buffer.Mirrors(t)
      && s in t.subs && t.subs[s].available == availableAcquires && t.subs[s].nextId == nextMessageId
    }

    /** A fetch refused for lack of credit still counts the publication as seen. */
    method FetchMessage(ghost t: Topic<T>, ghost s: nat, ghost h: nat) returns (r: FetchResult)
      requires Inv(buffer.c, t) && Mirrors(t, s) && h !in t.handles
      modifies this, buffer.slots
      ensures t.nextMessageId != t.subs[s].nextId ==> t.latest < |t.slots|
      ensures r == FetchOf(buffer.c, t, s).0
      ensures Mirrors(Apply(buffer.c, t, RealTimeTopic.FetchMessage(s, h)), s)
      ensures r.Delivered? ==>
                && h in Apply(buffer.c, t, RealTimeTopic.FetchMessage(s, h)).handles
                && Apply(buffer.c, t, RealTimeTopic.FetchMessage(s, h)).handles[h].slot == r.slot
      ensures nextMessageId == if r.NoMessage? then old(nextMessageId) else buffer.nextMessageId
      ensures availableAcquires == old(availableAcquires) - if r.Delivered? then 1 else 0
      ensures r.NoMessage? <==>
                || buffer.nextMessageId == old(nextMessageId)
                || buffer.slots[buffer.latestPublishedIdx].value.None?
      ensures !r.NoMessage? ==> (r.Delivered? <==> old(availableAcquires) > 0)
      ensures r.Delivered? ==> r.slot == buffer.latestPublishedIdx < buffer.slots.Length
      ensures buffer.slots[..] == if r.Delivered? then AcquireUnsafe(old(buffer.slots[..]), r.slot) else old(buffer.slots[..])
    {
      FetchEffect(buffer.c, t, s, h);
      FetchReady(buffer.c, t, s);
      var messageId := buffer.nextMessageId;
      if messageId != nextMessageId {
        DeadOrValued(buffer.c, t);
        r := FetchAt(messageId, buffer.latestPublishedIdx);
        return;
      }
      return NoMessage;
    }

    /** The part of a fetch that looks at the announced slot. */
    method FetchAt(messageId: nat, messageIdx: nat) returns (r: FetchResult)
      requires messageIdx < buffer.slots.Length
      requires var m := buffer.slots[messageIdx]; if m.refs > 0 then m.value.Some? else m == Slot(None, buffer.c.Invalid(), 0)
      modifies this, buffer.slots
      ensures r.NoMessage? <==> old(buffer.slots[messageIdx]).value.None?
      ensures !r.NoMessage? ==> r == if old(availableAcquires) > 0 then Delivered(messageIdx) else LimitExceeded
      ensures nextMessageId == if r.NoMessage? then old(nextMessageId) else messageId
      ensures availableAcquires == old(availableAcquires) - if r.Delivered? then 1 else 0
      ensures buffer.slots[..] == if r.Delivered? then AcquireUnsafe(old(buffer.slots[..]), messageIdx) else old(buffer.slots[..])
    {
      buffer.AcquireUnsafeAt(messageIdx);
      if buffer.slots[messageIdx].value.Some? {
        nextMessageId := messageId;
        var available := availableAcquires;
        availableAcquires := availableAcquires - 1;
        if available <= 0 {
          availableAcquires := availableAcquires + 1;
          buffer.ReleaseAt(messageIdx);
          return LimitExceeded;
        }
        return Delivered(messageIdx);
      }
      buffer.ReleaseAt(messageIdx);
      return NoMessage;
    }
  }

  lemma ReleaseGuide<T>(c: Config, t: Topic<T>, h: nat)
    requires Inv(c, t) && h in t.handles
    ensures var d, t' := t.handles[h], Apply(c, t, ReleaseHandle(h));
            && d.slot < |t.slots| && t.slots[d.slot].refs > 0 && d.owner in t.subs
            && t'.slots == Release(t.slots, d.slot, c.Invalid())
            && t'.nextMessageId == t.nextMessageId && t'.latest == t.latest
            && d.owner in t'.subs && t'.subs[d.owner] == t.subs[d.owner].(available := t.subs[d.owner].available + 1)
  {
    ReleaseFields(c, t, h);
  }

  lemma MoveGuide<T>(c: Config, t: Topic<T>, h: nat, h': nat)
    requires Inv(c, t) && h in t.handles && h' !in t.handles
    ensures var t' := Apply(c, t, MoveHandle(h, h')); h' in t'.handles && t'.handles[h'] == t.handles[h]
  {
  }

  /** Holds one acquired message of a subscriber; empty after it was moved from. */
  class MessageWrapper<T> {
    var counter: RealTimeSubscriber?<T>
    var message: Option<nat>

    constructor (counter: RealTimeSubscriber<T>, message: nat)
      ensures this.counter == counter && this.message == Some(message)
    {
      this.counter, this.message := counter, Some(message);
    }

    constructor Move(other: MessageWrapper<T>, ghost t: Topic<T>, ghost h: nat, ghost h': nat)
      requires other.counter != null ==>
                 Inv(other.counter.buffer.c, t) && other.Mirrors(t, h) && h' !in t.handles
      modifies other
      ensures old(other.counter) != null ==> Mirrors(Apply(old(other.counter).buffer.c, t, MoveHandle(h, h')), h')
      ensures counter == old(other.counter) && message == old(other.message)
      ensures other.counter == null && other.message == None
    {
      counter, message := other.counter, other.message;
      new;
      if other.counter != null { MoveGuide(other.counter.buffer.c, t, h, h'); }
      other.counter, other.message := null, None;
    }

    /** This wrapper is the handle h of t. */
    ghost predicate Mirrors(t: Topic<T>, h: nat)
      reads this
    {
      h in t.handles && counter != null && message == Some(t.handles[h].slot)
    }

    /** What the destructor does: give back the reference and the credit. */
    method Cleanup(ghost t: Topic<T>, ghost h: nat)
      requires counter != null ==>
                 Inv(counter.buffer.c, t) && Mirrors(t, h) && counter.Mirrors(t, t.handles[h].owner)
      modifies this`message, counter, if counter == null then {} else {counter.buffer.slots}
      ensures counter == old(counter)
      ensures counter == null ==> message == old(message)
      ensures counter != null ==>
                && message == None
                && counter.Mirrors(Apply(counter.buffer.c, t, ReleaseHandle(h)), t.handles[h].owner)
                && counter.availableAcquires == old(counter.availableAcquires) + 1
                && var i := t.handles[h].slot;
                   && i < counter.buffer.slots.Length
                   && OneFewer(counter.buffer.c, old(counter.buffer.slots[i]), counter.buffer.slots[i])
    {
      if counter == null {
        return;
      }
      ReleaseGuide(counter.buffer.c, t, h);
      counter.buffer.ReleaseAt(message.value);
      message := None;
      counter.availableAcquires := counter.availableAcquires + 1;
    }
  }
}
