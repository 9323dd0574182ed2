/**
 The real-time publish/subscribe protocol as a state machine: any number of
 publishers and subscribers over shared message slots. Publish, fetch, handle
 release, handle move, joining and leaving are the atomic steps. The slot
 functions are those that the methods of RealTimeEndpoints are proved to compute.
 */
module RealTimeTopic {
  import opened Counting
  import opened Numeric
  import opened RealTimeLayout

  // ----- slots -------------------------------------------------------------------

  datatype Slot<T> = Slot(value: Option<T>, id: nat, refs: nat)

  /** Construct a value in a slot and give it its id. */
  function Emplace<T>(slots: seq<Slot<T>>, i: nat, id: nat, v: T): seq<Slot<T>>
    requires i < |slots|
  {
    slots[i := slots[i].(value := Some(v), id := id)]
  }

  function AcquireUnsafe<T>(slots: seq<Slot<T>>, i: nat): seq<Slot<T>>
    requires i < |slots|
  {
    slots[i := slots[i].(refs := slots[i].refs + 1)]
  }

  /** Give up one reference; the last one resets the slot. */
  function Release<T>(slots: seq<Slot<T>>, i: nat, invalid: nat): seq<Slot<T>>
    requires i < |slots| && slots[i].refs > 0
  {
    slots[i := if slots[i].refs == 1 then Slot(None, invalid, 0) else slots[i].(refs := slots[i].refs - 1)]
  }

  /** A publication: construct in slot i, take the own reference, give up that on the previous message. */
  function PublishSlots<T>(slots: seq<Slot<T>>, i: nat, v: T, prev: Option<nat>, invalid: nat): seq<Slot<T>>
    requires i < |slots|
    requires prev.Some? ==> prev.value < |slots| && prev.value != i && slots[prev.value].refs > 0
  {
    var s := AcquireUnsafe(Emplace(slots, i, i, v), i);
    if prev.Some? then Release(s, prev.value, invalid) else s
  }

  /** j is the number of occupied slots the probing passes before it finds a dead one. */
  ghost predicate ProbeHits<T>(slots: seq<Slot<T>>, offset: nat, n: nat, k: nat, w: nat, invalid: nat, j: nat) {
    && (forall i: nat | i <= j :: offset + ProbeIndex(n, i, Pow2(k), w) < |slots|)
    && (forall i: nat | i < j :: slots[offset + ProbeIndex(n, i, Pow2(k), w)].id != invalid)
    && slots[offset + ProbeIndex(n, j, Pow2(k), w)].id == invalid
  }

  // ----- endpoints -----------------------------------------------------------------

  datatype Config = Config(w: nat, k: nat, publishers: nat, subscribers: nat, acquires: nat) {
    /** Slots per publisher. */
    function K(): nat { Pow2(k) }
    /** Number of values of uint_t. */
    function Range(): nat { Pow2(2 * w) }
    /** invalid_id_v, also the initial value of the shared counters. */
    function Invalid(): nat { Pow2(2 * w) - 1 }

    /** All credits of all subscribers: subscribers * acquires. */
    function Credits(): nat { Span(acquires, subscribers) }
    /** Slots of all areas: K() * publishers. */
    function Slots(): nat { Span(K(), publishers) }

    /** The pool size has room for every handle, and all indices fit their types; see ValidIsComputed. */
    ghost predicate Valid() {
      && 2 <= w && k < w
      && Credits() + 2 <= K() < 2 * (Credits() + 2)
      && Slots() < Pow2(w)
    }
  }

  /**
   A configuration is valid exactly when the pool size is the one that the code
   computes, for a number of handles that the computation is right for, and all
   slot indices fit a half word.
   */
  lemma ValidIsComputed(c: Config)
    requires 2 <= c.w
    ensures c.Valid() <==>
              && c.subscribers * c.acquires + 2 <= Pow2(c.w - 1)
              && PerPublisherPoolSize(c.subscribers, c.acquires, c.w) == Some(c.K())
              && c.K() * c.publishers < Pow2(c.w)
  {
    var need := c.subscribers * c.acquires + 2;
    SpanIsProduct(c.acquires, c.subscribers);
    SpanIsProduct(c.K(), c.publishers);
    PoolSizeExact(c.subscribers, c.acquires, c.w);
    if need <= Pow2(c.w - 1) {
      NoPowerBetween(PerPublisherPoolSize(c.subscribers, c.acquires, c.w).value, c.K());
      if c.k >= c.w { Pow2Monotone(c.w - 1, c.k); }
    } else if c.k < c.w {
      Pow2Monotone(c.k, c.w - 1);
    }
  }

  datatype Publisher = Publisher(offset: nat, nextLocal: nat, prev: Option<nat>)

  /**
   available and nextId are the subscriber's fields. seen is the number of
   publications when nextId was read, received the numbers of those delivered.
   */
  datatype Subscriber = Subscriber(available: int, nextId: nat, seen: nat, received: seq<nat>)

  /** A message held by a subscriber: its slot, and which publication it delivered. */
  datatype Handle = Handle(owner: nat, slot: nat, stamp: nat)

  datatype Entry<T> = Entry(slot: nat, value: T)

  datatype Topic<T> = Topic(
    slots: seq<Slot<T>>,
    nextMessageId: nat,
    latest: nat,
    pubs: map<nat, Publisher>,
    subs: map<nat, Subscriber>,
    handles: map<nat, Handle>,
    /** All publications so far. */
    log: seq<Entry<T>>)

  datatype FetchResult = Delivered(slot: nat) | NoMessage | LimitExceeded

  /** What fetch_message answers and does to the slots. */
  function Fetch<T>(slots: seq<Slot<T>>, nextMessageId: nat, latest: nat, nextId: nat, available: int, invalid: nat)
    : (r: (FetchResult, seq<Slot<T>>))
    requires nextMessageId != nextId ==> latest < |slots|
  {
    if nextMessageId == nextId then (NoMessage, slots)
    else
      var s := AcquireUnsafe(slots, latest);
      if s[latest].value.None? then (NoMessage, Release(s, latest, invalid))
      else if available <= 0 then (LimitExceeded, Release(s, latest, invalid))
      else (Delivered(latest), s)
  }

  // ----- counting references ---------------------------------------------------------

  ghost function OnSlot(i: nat): Handle -> bool {
    (h: Handle) => h.slot == i
  }

  ghost function OwnedBy(s: nat): Handle -> bool {
    (h: Handle) => h.owner == s
  }

  ghost function OwnedBelow(n: nat): Handle -> bool {
    (h: Handle) => h.owner < n
  }

  ghost function Retains(i: nat): Publisher -> bool {
    (p: Publisher) => p.prev == Some(i)
  }

  /** References on slot i: handles on it, and publishers whose last message it holds. */
  ghost function References<T>(t: Topic<T>, i: nat): nat {
    Count(t.handles, OnSlot(i)) + Count(t.pubs, Retains(i))
  }

  /** Number of the last publication into slot i, or -1. */
  ghost function LastStamp<T>(log: seq<Entry<T>>, i: nat): (n: int)
    ensures -1 <= n < |log|
    ensures n >= 0 ==> log[n].slot == i
  {
    if log == [] then -1
    else if log[|log| - 1].slot == i then |log| - 1
    else LastStamp(log[..|log| - 1], i)
  }

  // ----- invariant ---------------------------------------------------------------------

  /** The shared message counter after n publications. */
  ghost function Word(c: Config, n: nat): (x: nat)
    ensures x < c.Range()
  {
    if n == 0 then c.Invalid() else if Word(c, n - 1) + 1 < c.Range() then Word(c, n - 1) + 1 else 0
  }

  ghost predicate SlotOk<T>(s: Slot<T>, i: nat, references: nat, invalid: nat) {
    && s.refs == references
    && (s.value.Some? <==> s.refs > 0)
    && s.id == if s.refs > 0 then i else invalid
  }

  /** The value in a slot is that of the last publication into it. */
  ghost predicate ValueOk<T>(s: Slot<T>, i: nat, log: seq<Entry<T>>) {
    s.value.Some? ==> LastStamp(log, i) >= 0 && s.value == Some(log[LastStamp(log, i)].value)
  }

  ghost predicate PublisherOk(c: Config, p: nat, pub: Publisher) {
    && p < c.publishers
    && pub.offset == Span(c.K(), p)
    && pub.nextLocal < Pow2(c.w)
    && (pub.prev.Some? ==> pub.offset <= pub.prev.value < pub.offset + c.K())
  }

  ghost predicate SubscriberOk<T>(c: Config, t: Topic<T>, s: nat, sub: Subscriber) {
    && s < c.subscribers
    && sub.available >= 0
    && sub.available + Count(t.handles, OwnedBy(s)) == c.acquires
    && sub.seen <= |t.log| && sub.nextId == Word(c, sub.seen)
    && Ascending(sub.received) && (sub.received != [] ==> sub.received[|sub.received| - 1] < sub.seen)
  }

  ghost predicate InOrder(s: seq<nat>, i: nat, j: nat)
    requires i < |s| && j < |s|
  {
    s[i] < s[j]
  }

  ghost predicate Ascending(s: seq<nat>) {
    forall i, j | 0 <= i < j < |s| :: InOrder(s, i, j)
  }

  ghost predicate HandleOk<T>(t: Topic<T>, h: Handle) {
    && h.owner in t.subs
    && h.slot < |t.slots|
    && LastStamp(t.log, h.slot) == h.stamp
  }

  ghost predicate CountersOk<T>(c: Config, t: Topic<T>) {
    && t.nextMessageId == Word(c, |t.log|)
    && t.latest == (if t.log == [] then c.Invalid() else t.log[|t.log| - 1].slot)
    && forall e | e in t.log :: e.slot < |t.slots|
  }

  ghost predicate SlotsOk<T>(c: Config, t: Topic<T>) {
    && |t.slots| == c.Slots()
    && (forall i | 0 <= i < |t.slots| :: SlotOk(t.slots[i], i, References(t, i), c.Invalid()))
    && (forall i | 0 <= i < |t.slots| :: ValueOk(t.slots[i], i, t.log))
  }

  ghost predicate EndpointsOk<T>(c: Config, t: Topic<T>) {
    && (forall p | p in t.pubs :: PublisherOk(c, p, t.pubs[p]))
    && (forall s | s in t.subs :: SubscriberOk(c, t, s, t.subs[s]))
    && (forall h | h in t.handles :: HandleOk(t, t.handles[h]))
  }

  ghost predicate Inv<T>(c: Config, t: Topic<T>) {
    c.Valid() && CountersOk(c, t) && SlotsOk(c, t) && EndpointsOk(c, t)
  }

  // ----- steps ---------------------------------------------------------------------------

  datatype Action<T> =
    | Publish(p: nat, value: T, probes: nat)
    | FetchMessage(s: nat, h: nat)
    | ReleaseHandle(h: nat)
    | MoveHandle(h: nat, h': nat)
    | JoinPublisher(p: nat)
    | LeavePublisher(p: nat)
    | JoinSubscriber(s: nat)
    | LeaveSubscriber(s: nat)

  ghost predicate Enabled<T>(c: Config, t: Topic<T>, a: Action<T>) {
    match a
    case Publish(p, v, j) => CanPublish(c, t, p, j)
    case FetchMessage(s, h) => s in t.subs && h !in t.handles
    case ReleaseHandle(h) => h in t.handles
    case MoveHandle(h, h') => h in t.handles && h' !in t.handles
    case JoinPublisher(p) => p < c.publishers && p !in t.pubs
    case LeavePublisher(p) => p in t.pubs
    case JoinSubscriber(s) => s < c.subscribers && s !in t.subs
    case LeaveSubscriber(s) => s in t.subs && forall h | h in t.handles :: t.handles[h].owner != s
  }

  /** Global index of the slot that a publication after j passed probes uses. */
  function Target(c: Config, pub: Publisher, j: nat): nat {
    pub.offset + ProbeIndex(pub.nextLocal, j, c.K(), c.w)
  }

  ghost predicate PrevLive<T>(t: Topic<T>, prev: Option<nat>) {
    prev.Some? ==> prev.value < |t.slots| && t.slots[prev.value].refs > 0
  }

  function FetchOf<T>(c: Config, t: Topic<T>, s: nat): (FetchResult, seq<Slot<T>>)
    requires s in t.subs && (t.nextMessageId != t.subs[s].nextId ==> t.latest < |t.slots|)
  {
    Fetch(t.slots, t.nextMessageId, t.latest, t.subs[s].nextId, t.subs[s].available, c.Invalid())
  }

  /** The handle at h continues at h'. */
  function Renamed(m: map<nat, Handle>, h: nat, h': nat): map<nat, Handle>
    requires h in m
  {
    (m - {h})[h' := m[h]]
  }

  ghost predicate CanPublish<T>(c: Config, t: Topic<T>, p: nat, j: nat) {
    p in t.pubs && ProbeHits(t.slots, t.pubs[p].offset, t.pubs[p].nextLocal, c.k, c.w, c.Invalid(), j)
  }

  ghost function ApplyPublish<T>(c: Config, t: Topic<T>, p: nat, v: T, j: nat): Topic<T>
    requires Inv(c, t) && CanPublish(c, t, p, j)
  {
    PublishReady(c, t, p, j);
    var pub := t.pubs[p];
    var i := Target(c, pub, j);
    t.(slots := PublishSlots(t.slots, i, v, pub.prev, c.Invalid()),
       nextMessageId := (t.nextMessageId + 1) % c.Range(),
       latest := i,
       pubs := t.pubs[p := pub.(nextLocal := (pub.nextLocal + j + 1) % Pow2(c.w), prev := Some(i))],
       log := t.log + [Entry(i, v)])
  }

  ghost function ApplyFetch<T>(c: Config, t: Topic<T>, s: nat, h: nat): Topic<T>
    requires Inv(c, t) && s in t.subs && h !in t.handles
  {
    FetchReady(c, t, s);
    var (r, slots) := FetchOf(c, t, s);
    var sub := t.subs[s];
    match r
    case NoMessage => t.(slots := slots)
    case LimitExceeded => t.(slots := slots, subs := t.subs[s := sub.(nextId := t.nextMessageId, seen := |t.log|)])
    case Delivered(i) =>
      t.(slots := slots,
         subs := t.subs[s := Subscriber(sub.available - 1, t.nextMessageId, |t.log|, sub.received + [Newest(t)])],
         handles := t.handles[h := Handle(s, i, Newest(t))])
  }

  ghost function ApplyRelease<T>(c: Config, t: Topic<T>, h: nat): Topic<T>
    requires Inv(c, t) && h in t.handles
  {
    HandleLive(c, t, h);
    var d := t.handles[h];
    t.(slots := Release(t.slots, d.slot, c.Invalid()),
       handles := t.handles - {h},
       subs := t.subs[d.owner := t.subs[d.owner].(available := t.subs[d.owner].available + 1)])
  }

  /** A publisher that joins starts its ids over; what its area still holds stays. */
  ghost function ApplyJoinPublisher<T>(c: Config, t: Topic<T>, p: nat): Topic<T> {
    t.(pubs := t.pubs[p := Publisher(Span(c.K(), p), 0, None)])
  }

  ghost function ApplyLeavePublisher<T>(c: Config, t: Topic<T>, p: nat): Topic<T>
    requires Inv(c, t) && p in t.pubs
  {
    PublisherReady(c, t, p);
    t.(slots := if t.pubs[p].prev.Some? then Release(t.slots, t.pubs[p].prev.value, c.Invalid()) else t.slots,
       pubs := t.pubs - {p})
  }

  ghost function ApplyJoinSubscriber<T>(c: Config, t: Topic<T>, s: nat): Topic<T> {
    t.(subs := t.subs[s := Subscriber(c.acquires, t.nextMessageId, |t.log|, [])])
  }

  ghost function Apply<T>(c: Config, t: Topic<T>, a: Action<T>): Topic<T>
    requires Inv(c, t) && Enabled(c, t, a)
  {
    match a
    case Publish(p, v, j) => ApplyPublish(c, t, p, v, j)
    case FetchMessage(s, h) => ApplyFetch(c, t, s, h)
    case ReleaseHandle(h) => ApplyRelease(c, t, h)
    case MoveHandle(h, h') => t.(handles := Renamed(t.handles, h, h'))
    case JoinPublisher(p) => ApplyJoinPublisher(c, t, p)
    case LeavePublisher(p) => ApplyLeavePublisher(c, t, p)
    case JoinSubscriber(s) => ApplyJoinSubscriber(c, t, s)
    case LeaveSubscriber(s) => t.(subs := t.subs - {s})
  }

  /** Number of the newest publication. */
  function Newest<T>(t: Topic<T>): nat {
    if |t.log| == 0 then 0 else |t.log| - 1
  }

  // ----- what the steps rely on --------------------------------------------------------------

  lemma PublisherReady<T>(c: Config, t: Topic<T>, p: nat)
    requires Inv(c, t) && p in t.pubs
    ensures PrevLive(t, t.pubs[p].prev)
    ensures t.pubs[p].offset + c.K() <= |t.slots|
  {
    var pub := t.pubs[p];
    assert PublisherOk(c, p, pub);
    SpanMonotone(c.K(), p, c.publishers);
    if pub.prev.Some? {
      var i := pub.prev.value;
      assert SlotOk(t.slots[i], i, References(t, i), c.Invalid());
      CountZero(t.pubs, Retains(i));
    }
  }

  lemma PublishReady<T>(c: Config, t: Topic<T>, p: nat, j: nat)
    requires Inv(c, t) && CanPublish(c, t, p, j)
    ensures var i := Target(c, t.pubs[p], j);
            && i < |t.slots| && t.slots[i].refs == 0
            && t.pubs[p].offset <= i < t.pubs[p].offset + c.K()
            && PrevLive(t, t.pubs[p].prev) && t.pubs[p].prev != Some(i)
  {
    PublisherReady(c, t, p);
    var i := Target(c, t.pubs[p], j);
    ProbeIndexIs(t.pubs[p].nextLocal, j, c.k, c.w);
    assert SlotOk(t.slots[i], i, References(t, i), c.Invalid());
    SlotsBelowInvalid(c, t);
  }

  lemma SlotsBelowInvalid<T>(c: Config, t: Topic<T>)
    requires c.Valid() && |t.slots| == c.Slots()
    ensures |t.slots| < c.Invalid()
  {
    Pow2Monotone(c.w, 2 * c.w);
    assert Pow2(0) == 1;
    Pow2Monotone(1, c.w);
  }

  lemma FetchReady<T>(c: Config, t: Topic<T>, s: nat)
    requires Inv(c, t) && s in t.subs
    ensures t.nextMessageId != t.subs[s].nextId ==>
              t.latest < |t.slots| && t.log != [] && t.subs[s].seen < |t.log|
  {
    assert SubscriberOk(c, t, s, t.subs[s]);
    if t.log != [] {
      assert t.log[|t.log| - 1] in t.log;
    }
  }

  lemma HandleLive<T>(c: Config, t: Topic<T>, h: nat)
    requires Inv(c, t) && h in t.handles
    ensures HandleOk(t, t.handles[h]) && t.slots[t.handles[h].slot].refs > 0
  {
    var i := t.handles[h].slot;
    assert HandleOk(t, t.handles[h]);
    assert SlotOk(t.slots[i], i, References(t, i), c.Invalid());
    CountZero(t.handles, OnSlot(i));
  }
}
