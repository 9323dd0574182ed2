/**
 What every step of the real-time protocol keeps: reference conservation,
 live slots holding the last value published into them, and credit accounting.
 From these follow that publishing never stalls, that a held message never
 changes and that delivery is fresh and ordered, over whole runs.
 */
module RealTimeSafety {
  import opened Counting
  import opened Numeric
  import opened RealTimeLayout
  import opened RealTimeTopic

  // ----- small facts -----------------------------------------------------------------

  lemma LastStampAppend<T>(log: seq<Entry<T>>, e: Entry<T>, i: nat)
    ensures LastStamp(log + [e], i) == if e.slot == i then |log| else LastStamp(log, i)
  {
    assert (log + [e])[..|log|] == log;
  }

  lemma WordStep(c: Config, n: nat)
    ensures (Word(c, n) + 1) % c.Range() == Word(c, n + 1)
  {
    var x, m := Word(c, n), c.Range();
    ModUnique(x + 1, m, if x + 1 < m then 0 else 1, if x + 1 < m then x + 1 else 0);
  }

  lemma {:induction false} WordIs(c: Config, n: nat)
    ensures Word(c, n) == (n + c.Invalid()) % c.Range()
  {
    if n == 0 {
      ModUnique(c.Invalid(), c.Range(), 0, c.Invalid());
    } else {
      WordIs(c, n - 1);
      WordStep(c, n - 1);
      NextResidue(n - 1 + c.Invalid(), c.Range());
    }
  }

  /** Two publication counts show the same counter value exactly when they differ by a multiple of its range. */
  lemma WordsEqual(c: Config, a: nat, b: nat)
    requires a <= b
    ensures Word(c, a) == Word(c, b) <==> (b - a) % c.Range() == 0
  {
    WordIs(c, a);
    WordIs(c, b);
    SameRemainder(a + c.Invalid(), b - a, c.Range());
  }

  lemma SameRemainder(x: nat, d: nat, m: nat)
    requires m > 0
    ensures x % m == (x + d) % m <==> d % m == 0
  {
    var q, r := QuotientRemainder(x, m);
    var p, s := QuotientRemainder(d, m);
    assert x + d == m * (q + p) + r + s by { assert m * (q + p) == m * q + m * p; }
    if r + s < m {
      ModUnique(x + d, m, q + p, r + s);
    } else {
      assert m * (q + p + 1) == m * (q + p) + m;
      ModUnique(x + d, m, q + p + 1, r + s - m);
    }
  }

  /** A fetch that hands out no message leaves the slots as they were. */
  lemma RefusedFetchKeepsSlots<T>(c: Config, t: Topic<T>, s: nat)
    requires Inv(c, t) && s in t.subs
    ensures t.nextMessageId != t.subs[s].nextId ==> t.latest < |t.slots|
    ensures FetchOf(c, t, s).0.Delivered? || FetchOf(c, t, s).1 == t.slots
  {
    FetchReady(c, t, s);
    if t.nextMessageId != t.subs[s].nextId {
      var i := t.latest;
      assert SlotOk(t.slots[i], i, References(t, i), c.Invalid());
      var r := Release(AcquireUnsafe(t.slots, i), i, c.Invalid());
      assert r[i] == t.slots[i];
      assert r == t.slots;
    }
  }

  lemma AscendingAppend(s: seq<nat>, n: nat)
    requires Ascending(s)
    ensures (s != [] ==> s[|s| - 1] < n) ==> Ascending(s + [n])
  {
    var s' := s + [n];
    if s != [] ==> s[|s| - 1] < n {
      forall i, j | 0 <= i < j < |s'| ensures InOrder(s', i, j) {
        if j < |s| {
          assert InOrder(s, i, j);
        } else if i < |s| - 1 {
          assert InOrder(s, i, |s| - 1);
        }
      }
    }
  }

  // ----- publish ---------------------------------------------------------------------

  lemma PublishKeepsSlot<T>(c: Config, t: Topic<T>, p: nat, v: T, j: nat, k: nat)
    requires Inv(c, t) && CanPublish(c, t, p, j) && k < |t.slots|
    ensures var t' := ApplyPublish(c, t, p, v, j);
            && k < |t'.slots|
            && SlotOk(t'.slots[k], k, References(t', k), c.Invalid()) && ValueOk(t'.slots[k], k, t'.log)
  {
    var t' := ApplyPublish(c, t, p, v, j);
    PublishReady(c, t, p, j);
    assert SlotOk(t.slots[k], k, References(t, k), c.Invalid()) && ValueOk(t.slots[k], k, t.log);
    CountUpdate(t.pubs, p, t'.pubs[p], Retains(k));
    LastStampAppend(t.log, Entry(Target(c, t.pubs[p], j), v), k);
  }

  lemma PublishKeepsSlots<T>(c: Config, t: Topic<T>, p: nat, v: T, j: nat)
    requires Inv(c, t) && CanPublish(c, t, p, j)
    ensures SlotsOk(c, ApplyPublish(c, t, p, v, j))
  {
    var t' := ApplyPublish(c, t, p, v, j);
    PublishReady(c, t, p, j);
    assert |t'.slots| == |t.slots|;
    forall k | 0 <= k < |t'.slots|
      ensures SlotOk(t'.slots[k], k, References(t', k), c.Invalid()) && ValueOk(t'.slots[k], k, t'.log)
    {
      PublishKeepsSlot(c, t, p, v, j, k);
    }
  }

  lemma PublishKeepsEndpoints<T>(c: Config, t: Topic<T>, p: nat, v: T, j: nat)
    requires Inv(c, t) && CanPublish(c, t, p, j)
    ensures EndpointsOk(c, ApplyPublish(c, t, p, v, j))
  {
    var t' := ApplyPublish(c, t, p, v, j);
    var i := Target(c, t.pubs[p], j);
    PublishReady(c, t, p, j);
    assert SlotOk(t.slots[i], i, References(t, i), c.Invalid());
    forall q | q in t'.pubs ensures PublisherOk(c, q, t'.pubs[q]) {
      assert PublisherOk(c, q, t.pubs[q]);
    }
    forall s | s in t'.subs ensures SubscriberOk(c, t', s, t'.subs[s]) {
      assert SubscriberOk(c, t, s, t.subs[s]);
    }
    CountZero(t.handles, OnSlot(i));
    forall h | h in t'.handles ensures HandleOk(t', t'.handles[h]) {
      assert HandleOk(t, t.handles[h]);
      assert !OnSlot(i)(t.handles[h]);
      LastStampAppend(t.log, Entry(i, v), t.handles[h].slot);
    }
  }

  lemma PublishKeeps<T>(c: Config, t: Topic<T>, p: nat, v: T, j: nat)
    requires Inv(c, t) && CanPublish(c, t, p, j)
    ensures Inv(c, ApplyPublish(c, t, p, v, j))
  {
    PublishKeepsSlots(c, t, p, v, j);
    PublishKeepsEndpoints(c, t, p, v, j);
    PublishReady(c, t, p, j);
    WordStep(c, |t.log|);
  }

  // ----- fetch -----------------------------------------------------------------------

  lemma LatestIsNewest<T>(c: Config, t: Topic<T>)
    requires Inv(c, t) && t.log != []
    ensures LastStamp(t.log, t.latest) == |t.log| - 1 && t.latest < |t.slots|
  {
    assert t.log[|t.log| - 1] in t.log;
  }

  /** What a fetch changes: a delivery takes a reference and a credit, a refusal for lack of a credit marks the news seen. */
  lemma FetchOutcome<T>(c: Config, t: Topic<T>, s: nat, h: nat)
    requires Inv(c, t) && s in t.subs && h !in t.handles
    ensures t.nextMessageId != t.subs[s].nextId ==> t.latest < |t.slots|
    ensures var t' := ApplyFetch(c, t, s, h);
            && s in t'.subs && t'.subs == t.subs[s := t'.subs[s]]
            && t' == t.(slots := t'.slots, subs := t'.subs, handles := t'.handles)
            && (if FetchOf(c, t, s).0.Delivered? then
                  t.log != [] && t.latest < |t.slots| && t.slots[t.latest].refs > 0 && Delivery(t, t', s, h)
                else
                  && t'.slots == t.slots && t'.handles == t.handles
                  && Refusal(t, t', s, FetchOf(c, t, s).0.LimitExceeded?))
  {
    FetchReady(c, t, s);
    if FetchOf(c, t, s).0.Delivered? {
      DeliveryShape(c, t, s, h);
    } else {
      RefusedFetchKeepsSlots(c, t, s);
    }
  }

  /** The same without saying which case it is. */
  lemma FetchShape<T>(c: Config, t: Topic<T>, s: nat, h: nat)
    requires Inv(c, t) && s in t.subs && h !in t.handles
    ensures var t' := ApplyFetch(c, t, s, h);
            && s in t'.subs && t'.subs == t.subs[s := t'.subs[s]]
            && t' == t.(slots := t'.slots, subs := t'.subs, handles := t'.handles)
            && ((t.log != [] && t.latest < |t.slots| && t.slots[t.latest].refs > 0 && Delivery(t, t', s, h))
                || (t'.slots == t.slots && t'.handles == t.handles
                    && (Refusal(t, t', s, true) || Refusal(t, t', s, false))))
  {
    FetchOutcome(c, t, s, h);
  }

  lemma DeliveryShape<T>(c: Config, t: Topic<T>, s: nat, h: nat)
    requires Inv(c, t) && s in t.subs && h !in t.handles
    requires t.nextMessageId != t.subs[s].nextId ==> t.latest < |t.slots|
    requires FetchOf(c, t, s).0.Delivered?
    ensures t.log != [] && t.latest < |t.slots| && t.slots[t.latest].refs > 0
    ensures var t' := ApplyFetch(c, t, s, h); s in t'.subs && Delivery(t, t', s, h)
  {
    FetchReady(c, t, s);
    assert SlotOk(t.slots[t.latest], t.latest, References(t, t.latest), c.Invalid());
  }

  ghost predicate Delivery<T>(t: Topic<T>, t': Topic<T>, s: nat, h: nat)
    requires s in t.subs && s in t'.subs && t.latest < |t.slots|
  {
    var sub := t.subs[s];
    && t'.slots == AcquireUnsafe(t.slots, t.latest)
    && t'.handles == t.handles[h := Handle(s, t.latest, Newest(t))]
    && sub.available > 0 && sub.seen < |t.log|
    && t'.subs[s] == Subscriber(sub.available - 1, t.nextMessageId, |t.log|, sub.received + [Newest(t)])
  }

  /** Without a message the subscriber stays as it is, unless only a credit was missing: then the news count as seen. */
  ghost predicate Refusal<T>(t: Topic<T>, t': Topic<T>, s: nat, limit: bool)
    requires s in t.subs && s in t'.subs
  {
    t'.subs[s] == if limit then t.subs[s].(nextId := t.nextMessageId, seen := |t.log|) else t.subs[s]
  }

  lemma FetchKeepsSlot<T>(c: Config, t: Topic<T>, s: nat, h: nat, k: nat)
    requires Inv(c, t) && s in t.subs && h !in t.handles && k < |t.slots|
    ensures var t' := ApplyFetch(c, t, s, h);
            && k < |t'.slots|
            && SlotOk(t'.slots[k], k, References(t', k), c.Invalid()) && ValueOk(t'.slots[k], k, t'.log)
  {
    FetchShape(c, t, s, h);
    assert SlotOk(t.slots[k], k, References(t, k), c.Invalid()) && ValueOk(t.slots[k], k, t.log);
    CountUpdate(t.handles, h, Handle(s, t.latest, Newest(t)), OnSlot(k));
  }

  lemma FetchKeepsOther<T>(c: Config, t: Topic<T>, s: nat, h: nat, o: nat)
    requires Inv(c, t) && s in t.subs && h !in t.handles && o in t.subs && o != s
    ensures var t' := ApplyFetch(c, t, s, h); o in t'.subs && SubscriberOk(c, t', o, t'.subs[o])
  {
    FetchShape(c, t, s, h);
    assert SubscriberOk(c, t, o, t.subs[o]);
    CountUpdate(t.handles, h, Handle(s, t.latest, Newest(t)), OwnedBy(o));
  }

  lemma FetchKeepsFetcher<T>(c: Config, t: Topic<T>, s: nat, h: nat)
    requires Inv(c, t) && s in t.subs && h !in t.handles
    ensures var t' := ApplyFetch(c, t, s, h); s in t'.subs && SubscriberOk(c, t', s, t'.subs[s])
  {
    FetchShape(c, t, s, h);
    assert SubscriberOk(c, t, s, t.subs[s]);
    AscendingAppend(t.subs[s].received, Newest(t));
    CountUpdate(t.handles, h, Handle(s, t.latest, Newest(t)), OwnedBy(s));
  }

  lemma FetchKeepsHandle<T>(c: Config, t: Topic<T>, s: nat, h: nat, g: nat)
    requires Inv(c, t) && s in t.subs && h !in t.handles && g in ApplyFetch(c, t, s, h).handles
    ensures var t' := ApplyFetch(c, t, s, h); HandleOk(t', t'.handles[g])
  {
    FetchShape(c, t, s, h);
    if t.log != [] { LatestIsNewest(c, t); }
    if g != h { assert HandleOk(t, t.handles[g]); }
  }

  lemma FetchKeeps<T>(c: Config, t: Topic<T>, s: nat, h: nat)
    requires Inv(c, t) && s in t.subs && h !in t.handles
    ensures Inv(c, ApplyFetch(c, t, s, h))
  {
    var t' := ApplyFetch(c, t, s, h);
    FetchShape(c, t, s, h);
    forall k | 0 <= k < |t'.slots|
      ensures SlotOk(t'.slots[k], k, References(t', k), c.Invalid()) && ValueOk(t'.slots[k], k, t'.log)
    {
      FetchKeepsSlot(c, t, s, h, k);
    }
    forall g | g in t'.handles ensures HandleOk(t', t'.handles[g]) {
      FetchKeepsHandle(c, t, s, h, g);
    }
    forall o | o in t'.subs ensures SubscriberOk(c, t', o, t'.subs[o]) {
      if o != s { FetchKeepsOther(c, t, s, h, o); } else { FetchKeepsFetcher(c, t, s, h); }
    }
  }

  // ----- handles -----------------------------------------------------------------------

  lemma ReleaseKeepsSlots<T>(c: Config, t: Topic<T>, h: nat)
    requires Inv(c, t) && h in t.handles
    ensures SlotsOk(c, ApplyRelease(c, t, h))
  {
    var t' := ApplyRelease(c, t, h);
    HandleLive(c, t, h);
    forall k | 0 <= k < |t'.slots|
      ensures SlotOk(t'.slots[k], k, References(t', k), c.Invalid()) && ValueOk(t'.slots[k], k, t'.log)
    {
      assert SlotOk(t.slots[k], k, References(t, k), c.Invalid()) && ValueOk(t.slots[k], k, t.log);
      CountRemove(t.handles, h, OnSlot(k));
    }
  }

  lemma ReleaseKeeps<T>(c: Config, t: Topic<T>, h: nat)
    requires Inv(c, t) && h in t.handles
    ensures Inv(c, ApplyRelease(c, t, h))
  {
    var t' := ApplyRelease(c, t, h);
    HandleLive(c, t, h);
    ReleaseKeepsSlots(c, t, h);
    forall s | s in t'.subs ensures SubscriberOk(c, t', s, t'.subs[s]) {
      assert SubscriberOk(c, t, s, t.subs[s]);
      CountRemove(t.handles, h, OwnedBy(s));
    }
    forall g | g in t'.handles ensures HandleOk(t', t'.handles[g]) {
      assert HandleOk(t, t.handles[g]);
    }
  }

  lemma CountMoved(m: map<nat, Handle>, h: nat, h': nat, p: Handle -> bool)
    requires h in m && h' !in m
    ensures Count(Renamed(m, h, h'), p) == Count(m, p)
  {
    var rest: map<nat, Handle> := m - {h};
    CountRemove(m, h, p);
    assert h' !in rest;
    CountUpdate(rest, h', m[h], p);
  }

  /** Moving a handle changes no count. */
  lemma MoveKeeps<T>(c: Config, t: Topic<T>, h: nat, h': nat)
    requires Inv(c, t) && h in t.handles && h' !in t.handles
    ensures Inv(c, t.(handles := Renamed(t.handles, h, h')))
  {
    var t' := t.(handles := Renamed(t.handles, h, h'));
    forall k | 0 <= k < |t'.slots|
      ensures SlotOk(t'.slots[k], k, References(t', k), c.Invalid()) && ValueOk(t'.slots[k], k, t'.log)
    {
      assert SlotOk(t.slots[k], k, References(t, k), c.Invalid()) && ValueOk(t.slots[k], k, t.log);
      CountMoved(t.handles, h, h', OnSlot(k));
    }
    forall s | s in t'.subs ensures SubscriberOk(c, t', s, t'.subs[s]) {
      assert SubscriberOk(c, t, s, t.subs[s]);
      CountMoved(t.handles, h, h', OwnedBy(s));
    }
    forall g | g in t'.handles ensures HandleOk(t', t'.handles[g]) {
      assert HandleOk(t, t.handles[if g == h' then h else g]);
    }
  }

  // ----- joining and leaving --------------------------------------------------------------

  /** A change of publishers and slots alone keeps what holds of subscribers and handles. */
  lemma SubscribersKept<T>(c: Config, t: Topic<T>, t': Topic<T>)
    requires EndpointsOk(c, t) && t'.subs == t.subs && t'.handles == t.handles && t'.log == t.log
    requires |t'.slots| == |t.slots| && forall p | p in t'.pubs :: PublisherOk(c, p, t'.pubs[p])
    ensures EndpointsOk(c, t')
  {
    forall s | s in t'.subs ensures SubscriberOk(c, t', s, t'.subs[s]) {
      assert SubscriberOk(c, t, s, t.subs[s]);
    }
    forall h | h in t'.handles ensures HandleOk(t', t'.handles[h]) {
      assert HandleOk(t, t.handles[h]);
    }
  }

  lemma JoinPublisherKeeps<T>(c: Config, t: Topic<T>, p: nat)
    requires Inv(c, t) && p < c.publishers && p !in t.pubs
    ensures Inv(c, ApplyJoinPublisher(c, t, p))
  {
    var t' := ApplyJoinPublisher(c, t, p);
    forall k | 0 <= k < |t'.slots|
      ensures SlotOk(t'.slots[k], k, References(t', k), c.Invalid()) && ValueOk(t'.slots[k], k, t'.log)
    {
      assert SlotOk(t.slots[k], k, References(t, k), c.Invalid()) && ValueOk(t.slots[k], k, t.log);
      CountUpdate(t.pubs, p, t'.pubs[p], Retains(k));
    }
    SubscribersKept(c, t, t');
  }

  lemma LeavePublisherKeeps<T>(c: Config, t: Topic<T>, p: nat)
    requires Inv(c, t) && p in t.pubs
    ensures Inv(c, ApplyLeavePublisher(c, t, p))
  {
    var t' := ApplyLeavePublisher(c, t, p);
    PublisherReady(c, t, p);
    forall k | 0 <= k < |t'.slots|
      ensures SlotOk(t'.slots[k], k, References(t', k), c.Invalid()) && ValueOk(t'.slots[k], k, t'.log)
    {
      assert SlotOk(t.slots[k], k, References(t, k), c.Invalid()) && ValueOk(t.slots[k], k, t.log);
      CountRemove(t.pubs, p, Retains(k));
    }
    SubscribersKept(c, t, t');
  }

  /** A change of one subscriber without handles keeps everything else. */
  lemma SubscriberChangeKeeps<T>(c: Config, t: Topic<T>, subs: map<nat, Subscriber>, s: nat)
    requires Inv(c, t) && forall h | h in t.handles :: t.handles[h].owner != s
    requires forall o | o in subs && o != s :: o in t.subs && subs[o] == t.subs[o]
    requires forall o | o in t.subs && o != s :: o in subs
    requires s in subs ==> s < c.subscribers && subs[s] == Subscriber(c.acquires, t.nextMessageId, |t.log|, [])
    ensures Inv(c, t.(subs := subs))
  {
    var t' := t.(subs := subs);
    forall k | 0 <= k < |t'.slots|
      ensures SlotOk(t'.slots[k], k, References(t', k), c.Invalid()) && ValueOk(t'.slots[k], k, t'.log)
    {
      assert SlotOk(t.slots[k], k, References(t, k), c.Invalid()) && ValueOk(t.slots[k], k, t.log);
    }
    forall h | h in t'.handles ensures HandleOk(t', t'.handles[h]) {
      assert HandleOk(t, t.handles[h]);
    }
    CountZero(t.handles, OwnedBy(s));
    forall o | o in t'.subs ensures SubscriberOk(c, t', o, t'.subs[o]) {
      if o != s { assert SubscriberOk(c, t, o, t.subs[o]); }
    }
  }

  // ----- whole runs --------------------------------------------------------------------------

  lemma StepKeeps<T>(c: Config, t: Topic<T>, a: Action<T>)
    requires Inv(c, t) && Enabled(c, t, a)
    ensures Inv(c, Apply(c, t, a))
  {
    match a
    case Publish(p, v, j) => PublishKeeps(c, t, p, v, j);
    case FetchMessage(s, h) => FetchKeeps(c, t, s, h);
    case ReleaseHandle(h) => ReleaseKeeps(c, t, h);
    case MoveHandle(h, h') => MoveKeeps(c, t, h, h');
    case JoinPublisher(p) => JoinPublisherKeeps(c, t, p);
    case LeavePublisher(p) => LeavePublisherKeeps(c, t, p);
    case JoinSubscriber(s) =>
      NoStrayHandles(c, t, s);
      SubscriberChangeKeeps(c, t, ApplyJoinSubscriber(c, t, s).subs, s);
    case LeaveSubscriber(s) => SubscriberChangeKeeps(c, t, t.subs - {s}, s);
  }

  lemma NoStrayHandles<T>(c: Config, t: Topic<T>, s: nat)
    requires Inv(c, t) && s !in t.subs
    ensures forall h | h in t.handles :: t.handles[h].owner != s
  {
    forall h | h in t.handles ensures t.handles[h].owner != s {
      assert HandleOk(t, t.handles[h]);
    }
  }

  ghost predicate EnabledAll<T>(c: Config, t: Topic<T>, run: seq<Action<T>>)
    requires Inv(c, t)
    decreases |run|
  {
    run == [] || (Enabled(c, t, run[0]) && (StepKeeps(c, t, run[0]); EnabledAll(c, Apply(c, t, run[0]), run[1..])))
  }

  ghost function ApplyAll<T>(c: Config, t: Topic<T>, run: seq<Action<T>>): Topic<T>
    requires Inv(c, t) && EnabledAll(c, t, run)
    decreases |run|
  {
    if run == [] then t else (StepKeeps(c, t, run[0]); ApplyAll(c, Apply(c, t, run[0]), run[1..]))
  }

  /** The buffer as init_at leaves it, before anyone joined. */
  ghost function Initial<T>(c: Config): Topic<T> {
    Topic(seq(c.Slots(), _ => Slot(None, c.Invalid(), 0)), c.Invalid(), c.Invalid(), map[], map[], map[], [])
  }

  lemma InitialInv<T>(c: Config)
    requires c.Valid()
    ensures Inv(c, Initial<T>(c))
  {
    var t := Initial<T>(c);
    forall i | 0 <= i < |t.slots| ensures SlotOk(t.slots[i], i, References(t, i), c.Invalid()) {
      CountZero(t.handles, OnSlot(i));
      CountZero(t.pubs, Retains(i));
    }
  }

  /** Every state of every run from the initial buffer satisfies the invariant. */
  lemma {:induction false} RunKeeps<T>(c: Config, t: Topic<T>, run: seq<Action<T>>)
    requires Inv(c, t) && EnabledAll(c, t, run)
    ensures Inv(c, ApplyAll(c, t, run))
    decreases |run|
  {
    if run != [] {
      StepKeeps(c, t, run[0]);
      RunKeeps(c, Apply(c, t, run[0]), run[1..]);
    }
  }

  // ----- references and credits ------------------------------------------------------------

  /**
   In every reachable state a slot's counter is the number of handles on it plus
   the publishers retaining it, it is alive exactly while that is positive, and a
   subscriber's credit and handles add up to the configured limit.
   */
  lemma Conservation<T>(c: Config, run: seq<Action<T>>, i: nat, s: nat)
    requires c.Valid()
    requires Inv(c, Initial<T>(c)) && EnabledAll(c, Initial(c), run)
    ensures var t := ApplyAll(c, Initial(c), run);
            && (i < |t.slots| ==>
                  && t.slots[i].refs == Count(t.handles, OnSlot(i)) + Count(t.pubs, Retains(i))
                  && (t.slots[i].value.Some? <==> t.slots[i].refs > 0)
                  && (t.slots[i].id != c.Invalid() <==> t.slots[i].refs > 0))
            && (s in t.subs ==> t.subs[s].available + Count(t.handles, OwnedBy(s)) == c.acquires)
  {
    RunKeeps(c, Initial<T>(c), run);
    var t := ApplyAll(c, Initial(c), run);
    if i < |t.slots| {
      assert SlotOk(t.slots[i], i, References(t, i), c.Invalid());
      SlotsBelowInvalid(c, t);
    }
    if s in t.subs { assert SubscriberOk(c, t, s, t.subs[s]); }
  }

  // ----- publishing never stalls -----------------------------------------------------------

  lemma HandlesOfOne<T>(c: Config, t: Topic<T>, s: nat)
    requires Inv(c, t)
    ensures Count(t.handles, OwnedBy(s)) <= c.acquires
  {
    if s in t.subs {
      assert SubscriberOk(c, t, s, t.subs[s]);
    } else {
      NoStrayHandles(c, t, s);
      CountZero(t.handles, OwnedBy(s));
    }
  }

  ghost predicate HoldsAtMost(m: map<nat, Handle>, s: nat, a: nat) {
    Count(m, OwnedBy(s)) <= a
  }

  /** All handles together are at most one per credit. */
  lemma {:induction false} HandlesBelow(m: map<nat, Handle>, a: nat, n: nat)
    requires forall s: nat | s < n :: HoldsAtMost(m, s, a)
    ensures Count(m, OwnedBelow(n)) <= Span(a, n)
  {
    if n == 0 {
      CountZero(m, OwnedBelow(0));
    } else {
      HandlesBelow(m, a, n - 1);
      assert HoldsAtMost(m, n - 1, a);
      CountSplit(m, OwnedBelow(n), OwnedBelow(n - 1), OwnedBy(n - 1));
    }
  }

  lemma HandlesBounded<T>(c: Config, t: Topic<T>)
    requires Inv(c, t)
    ensures |t.handles| <= c.Credits()
  {
    forall s: nat | s < c.subscribers ensures HoldsAtMost(t.handles, s, c.acquires) {
      HandlesOfOne(c, t, s);
    }
    HandlesBelow(t.handles, c.acquires, c.subscribers);
    forall h | h in t.handles ensures t.handles[h].owner < c.subscribers {
      assert HandleOk(t, t.handles[h]);
      assert SubscriberOk(c, t, t.handles[h].owner, t.subs[t.handles[h].owner]);
    }
    CountAll(t.handles, OwnedBelow(c.subscribers));
  }

  ghost function HeldSlots(m: map<nat, Handle>): set<nat> {
    set h | h in m :: m[h].slot
  }

  lemma {:induction false} HeldSlotsBounded(m: map<nat, Handle>)
    ensures |HeldSlots(m)| <= |m|
    decreases |m|
  {
    if m == map[] {
      assert HeldSlots(m) == {};
    } else {
      var h :| h in m;
      var rest: map<nat, Handle> := m - {h};
      assert m.Keys == rest.Keys + {h};
      HeldSlotsBounded(rest);
      assert forall k | k in m :: k == h || k in rest;
      assert HeldSlots(m) <= HeldSlots(rest) + {m[h].slot};
      SubsetSize(HeldSlots(m), HeldSlots(rest) + {m[h].slot});
    }
  }

  /** Live slots in the area of publisher p. */
  ghost function LiveInArea<T>(c: Config, t: Topic<T>, p: nat): set<nat>
    requires p in t.pubs && t.pubs[p].offset + c.K() <= |t.slots|
  {
    set i: nat | t.pubs[p].offset <= i < t.pubs[p].offset + c.K() && t.slots[i].refs > 0
  }

  lemma SameArea(i: nat, k: nat, p: nat, q: nat)
    requires Span(k, p) <= i < Span(k, p) + k && Span(k, q) <= i < Span(k, q) + k
    ensures p == q
  {
    if p < q { SpanMonotone(k, p, q); }
    if q < p { SpanMonotone(k, q, p); }
  }

  /** A live slot in p's area is p's own last message or held by some subscriber. */
  lemma LiveIsHeld<T>(c: Config, t: Topic<T>, p: nat, i: nat)
    requires Inv(c, t) && p in t.pubs
    requires t.pubs[p].offset <= i < t.pubs[p].offset + c.K() <= |t.slots| && t.slots[i].refs > 0
    ensures i in HeldSlots(t.handles) || t.pubs[p].prev == Some(i)
  {
    assert SlotOk(t.slots[i], i, References(t, i), c.Invalid());
    CountZero(t.handles, OnSlot(i));
    CountZero(t.pubs, Retains(i));
    if Count(t.handles, OnSlot(i)) == 0 {
      var q :| q in t.pubs && Retains(i)(t.pubs[q]);
      assert PublisherOk(c, p, t.pubs[p]) && PublisherOk(c, q, t.pubs[q]);
      SameArea(i, c.K(), p, q);
    }
  }

  /** With S subscribers of A credits each, an area has at most S * A + 1 live slots. */
  lemma LiveBounded<T>(c: Config, t: Topic<T>, p: nat)
    requires Inv(c, t) && p in t.pubs
    ensures t.pubs[p].offset + c.K() <= |t.slots|
    ensures |LiveInArea(c, t, p)| <= c.Credits() + 1
  {
    PublisherReady(c, t, p);
    var own: set<nat> := if t.pubs[p].prev.Some? then {t.pubs[p].prev.value} else {};
    forall i | i in LiveInArea(c, t, p) ensures i in HeldSlots(t.handles) + own {
      LiveIsHeld(c, t, p, i);
    }
    SubsetSize(LiveInArea(c, t, p), HeldSlots(t.handles) + own);
    HeldSlotsBounded(t.handles);
    HandlesBounded(c, t);
  }

  ghost function Interval(a: nat, b: nat): (s: set<nat>)
    ensures forall i: nat :: i in s <==> a <= i < b
    ensures a <= b ==> |s| == b - a
    decreases b
  {
    if a < b then Interval(a, b - 1) + {b - 1} else {}
  }

  lemma AreaNotFull<T>(c: Config, t: Topic<T>, p: nat) returns (i: nat)
    requires Inv(c, t) && p in t.pubs
    ensures t.pubs[p].offset + c.K() <= |t.slots|
    ensures t.pubs[p].offset <= i < t.pubs[p].offset + c.K() && t.slots[i].refs == 0
  {
    LiveBounded(c, t, p);
    var area, live := Interval(t.pubs[p].offset, t.pubs[p].offset + c.K()), LiveInArea(c, t, p);
    i := SomeOutside(area, live);
  }

  lemma SomeOutside(a: set<nat>, b: set<nat>) returns (i: nat)
    requires |b| < |a|
    ensures i in a && i !in b
  {
    if a <= b {
      SubsetSize(a, b);
      assert false;
    }
    i :| i in a && i !in b;
  }

  lemma DeadSlotExists<T>(c: Config, t: Topic<T>, p: nat) returns (x: nat)
    requires Inv(c, t) && p in t.pubs
    ensures x < c.K() && t.pubs[p].offset + x < |t.slots| && t.slots[t.pubs[p].offset + x].id == c.Invalid()
  {
    var i := AreaNotFull(c, t, p);
    assert SlotOk(t.slots[i], i, References(t, i), c.Invalid());
    x := i - t.pubs[p].offset;
  }

  /** The first of the probes that finds a dead slot. */
  lemma {:induction false} FirstHit<T>(slots: seq<Slot<T>>, offset: nat, n: nat, k: nat, w: nat, invalid: nat, i: nat)
      returns (j: nat)
    requires k <= w && offset + Pow2(k) <= |slots|
    requires offset + ProbeIndex(n, i, Pow2(k), w) < |slots|
    requires slots[offset + ProbeIndex(n, i, Pow2(k), w)].id == invalid
    ensures j <= i && ProbeHits(slots, offset, n, k, w, invalid, j)
  {
    forall m: nat ensures offset + ProbeIndex(n, m, Pow2(k), w) < |slots| {
      ProbeIndexIs(n, m, k, w);
    }
    if m: nat :| m < i && slots[offset + ProbeIndex(n, m, Pow2(k), w)].id == invalid {
      j := FirstHit(slots, offset, n, k, w, invalid, m);
    } else {
      j := i;
    }
  }

  /** In every state a publisher finds a dead slot within as many probes as its area has slots. */
  lemma PublishNeverStalls<T>(c: Config, t: Topic<T>, p: nat) returns (j: nat)
    requires Inv(c, t) && p in t.pubs
    ensures j < c.K() && CanPublish(c, t, p, j)
  {
    PublisherReady(c, t, p);
    var x := DeadSlotExists(c, t, p);
    var i := ProbesVisitAll(t.pubs[p].nextLocal, c.k, c.w, x);
    j := FirstHit(t.slots, t.pubs[p].offset, t.pubs[p].nextLocal, c.k, c.w, c.Invalid(), i);
  }

  // ----- a held message never changes --------------------------------------------------------

  /** The handle keeps its name throughout the run: it is neither released nor moved. */
  ghost predicate Untouched<T>(run: seq<Action<T>>, h: nat) {
    forall a | a in run :: !(a.ReleaseHandle? && a.h == h) && !(a.MoveHandle? && a.h == h)
  }

  /** What a subscriber sees through a handle. */
  ghost function Seen<T>(t: Topic<T>, h: nat): Option<T>
    requires h in t.handles && t.handles[h].slot < |t.slots|
  {
    t.slots[t.handles[h].slot].value
  }

  /** Through a handle one sees the publication it delivered. */
  lemma SeenIsPublished<T>(c: Config, t: Topic<T>, h: nat)
    requires Inv(c, t) && h in t.handles
    ensures t.handles[h].slot < |t.slots| && t.handles[h].stamp < |t.log|
    ensures Seen(t, h) == Some(t.log[t.handles[h].stamp].value)
  {
    HandleLive(c, t, h);
    var i := t.handles[h].slot;
    assert SlotOk(t.slots[i], i, References(t, i), c.Invalid()) && ValueOk(t.slots[i], i, t.log);
  }

  /** The log of t' starts with that of t, and the handle is unchanged. */
  ghost predicate Continues<T>(t: Topic<T>, t': Topic<T>, h: nat)
    requires h in t.handles
  {
    h in t'.handles && t'.handles[h] == t.handles[h] && t.log <= t'.log
  }

  lemma FetchContinues<T>(c: Config, t: Topic<T>, s: nat, g: nat, h: nat)
    requires Inv(c, t) && s in t.subs && g !in t.handles && h in t.handles
    ensures Continues(t, ApplyFetch(c, t, s, g), h)
  {
    FetchShape(c, t, s, g);
  }

  lemma ReleaseContinues<T>(c: Config, t: Topic<T>, g: nat, h: nat)
    requires Inv(c, t) && g in t.handles && h in t.handles && g != h
    ensures Continues(t, ApplyRelease(c, t, g), h)
  {
  }

  lemma StepKeepsHandle<T>(c: Config, t: Topic<T>, a: Action<T>, h: nat)
    requires Inv(c, t) && Enabled(c, t, a) && h in t.handles
    requires a != ReleaseHandle(h) && !(a.MoveHandle? && a.h == h)
    ensures Continues(t, Apply(c, t, a), h)
  {
    match a
    case FetchMessage(s, g) => FetchContinues(c, t, s, g, h);
    case Publish(p, v, j) => assert t.log <= ApplyPublish(c, t, p, v, j).log;
    case ReleaseHandle(g) => ReleaseContinues(c, t, g, h);
    case MoveHandle(_, _) =>
    case JoinPublisher(_) =>
    case LeavePublisher(p) => assert ApplyLeavePublisher(c, t, p).log == t.log;
    case JoinSubscriber(_) =>
    case LeaveSubscriber(_) =>
  }

  lemma {:induction false} RunKeepsHandle<T>(c: Config, t: Topic<T>, run: seq<Action<T>>, h: nat)
    requires Inv(c, t) && EnabledAll(c, t, run) && h in t.handles && Untouched(run, h)
    ensures Continues(t, ApplyAll(c, t, run), h)
    decreases |run|
  {
    if run != [] {
      StepKeeps(c, t, run[0]);
      StepKeepsHandle(c, t, run[0], h);
      RunKeepsHandle(c, Apply(c, t, run[0]), run[1..], h);
    }
  }

  /** Whatever everyone else does, the value behind a handle stays the one acquired until it is released. */
  lemma HeldValueStable<T>(c: Config, t: Topic<T>, run: seq<Action<T>>, h: nat)
    requires Inv(c, t) && EnabledAll(c, t, run) && h in t.handles && Untouched(run, h)
    ensures t.handles[h].slot < |t.slots| && t.handles[h].stamp < |t.log|
    ensures var t' := ApplyAll(c, t, run);
            && h in t'.handles && t'.handles[h].slot < |t'.slots|
            && Seen(t', h) == Seen(t, h) == Some(t.log[t.handles[h].stamp].value)
  {
    RunKeeps(c, t, run);
    RunKeepsHandle(c, t, run, h);
    SeenIsPublished(c, t, h);
    SeenIsPublished(c, ApplyAll(c, t, run), h);
  }

  // ----- freshness and order --------------------------------------------------------------------

  ghost predicate Announced<T>(t: Topic<T>) {
    t.log != [] && t.latest < |t.slots| && t.slots[t.latest].value.Some?
  }

  /** As long as the publisher that announced last has not left, the announced slot is live. */
  lemma AnnouncedWhilePublisherStays<T>(c: Config, t: Topic<T>, p: nat)
    requires Inv(c, t) && t.log != [] && p in t.pubs && t.pubs[p].prev == Some(t.latest)
    ensures Announced(t)
  {
    PublisherReady(c, t, p);
    assert SlotOk(t.slots[t.latest], t.latest, References(t, t.latest), c.Invalid());
  }

  /** A publication is what its publisher retains until that publisher publishes again or leaves. */
  lemma PublisherRetainsAnnounced<T>(c: Config, t: Topic<T>, a: Action<T>)
    requires Inv(c, t) && Enabled(c, t, a) && a.Publish?
    ensures var t' := Apply(c, t, a); t'.pubs[a.p].prev == Some(t'.latest) && t'.log != []
  {
  }

  /** Some publisher retains the announced slot. */
  ghost predicate AnnouncerStays<T>(t: Topic<T>) {
    t.log == [] || exists p :: p in t.pubs && t.pubs[p].prev == Some(t.latest)
  }

  lemma StepKeepsAnnouncer<T>(c: Config, t: Topic<T>, a: Action<T>)
    requires Inv(c, t) && Enabled(c, t, a) && AnnouncerStays(t) && !a.LeavePublisher?
    ensures AnnouncerStays(Apply(c, t, a))
  {
    var t' := Apply(c, t, a);
    if a.Publish? {
      PublisherRetainsAnnounced(c, t, a);
      assert a.p in t'.pubs;
    } else if t.log != [] {
      OnlyPublishAnnounces(c, t, a);
      var p :| p in t.pubs && t.pubs[p].prev == Some(t.latest);
      assert p in t'.pubs && t'.pubs[p].prev == Some(t'.latest);
    } else {
      OnlyPublishAnnounces(c, t, a);
    }
  }

  lemma OnlyPublishAnnounces<T>(c: Config, t: Topic<T>, a: Action<T>)
    requires Inv(c, t) && Enabled(c, t, a) && !a.Publish? && !a.LeavePublisher?
    ensures var t' := Apply(c, t, a);
            && t'.log == t.log && t'.latest == t.latest
            && forall p | p in t.pubs :: p in t'.pubs && t'.pubs[p] == t.pubs[p]
  {
    if a.FetchMessage? { FetchShape(c, t, a.s, a.h); }
  }

  lemma {:induction false} RunKeepsAnnouncer<T>(c: Config, t: Topic<T>, run: seq<Action<T>>)
    requires Inv(c, t) && EnabledAll(c, t, run) && AnnouncerStays(t)
    requires forall a | a in run :: !a.LeavePublisher?
    ensures AnnouncerStays(ApplyAll(c, t, run))
    decreases |run|
  {
    if run != [] {
      StepKeeps(c, t, run[0]);
      StepKeepsAnnouncer(c, t, run[0]);
      RunKeepsAnnouncer(c, Apply(c, t, run[0]), run[1..]);
    }
  }

  /** On every run in which no publisher leaves, the announced slot is live once anything was published. */
  lemma AnnouncedAlwaysLive<T>(c: Config, run: seq<Action<T>>)
    requires c.Valid() && Inv(c, Initial<T>(c)) && EnabledAll(c, Initial(c), run)
    requires forall a | a in run :: !a.LeavePublisher?
    ensures var t := ApplyAll(c, Initial(c), run); t.log != [] ==> Announced(t)
  {
    var t := ApplyAll(c, Initial(c), run);
    RunKeeps(c, Initial<T>(c), run);
    RunKeepsAnnouncer(c, Initial<T>(c), run);
    if t.log != [] {
      var p :| p in t.pubs && t.pubs[p].prev == Some(t.latest);
      AnnouncedWhilePublisherStays(c, t, p);
    }
  }

  /**
   A fetch delivers exactly when there are new publications, not a multiple of
   the counter's range many, the announced slot is live and a credit is left.
   What it delivers is the globally last publication, with its value.
   */
  lemma FetchExact<T>(c: Config, t: Topic<T>, s: nat)
    requires Inv(c, t) && s in t.subs
    ensures t.nextMessageId != t.subs[s].nextId ==> t.latest < |t.slots|
    ensures var news := |t.log| - t.subs[s].seen;
            && news >= 0
            && (t.nextMessageId != t.subs[s].nextId <==> news % c.Range() != 0)
            && (FetchOf(c, t, s).0.Delivered? <==> news % c.Range() != 0 && Announced(t) && t.subs[s].available > 0)
            && (FetchOf(c, t, s).0.LimitExceeded? <==> news % c.Range() != 0 && Announced(t) && t.subs[s].available <= 0)
    ensures FetchOf(c, t, s).0.Delivered? ==>
              && t.log != [] && FetchOf(c, t, s).0.slot == t.log[|t.log| - 1].slot
              && t.slots[FetchOf(c, t, s).0.slot].value == Some(t.log[|t.log| - 1].value)
  {
    FetchReady(c, t, s);
    assert SubscriberOk(c, t, s, t.subs[s]);
    WordsEqual(c, t.subs[s].seen, |t.log|);
    if t.log != [] {
      LatestIsNewest(c, t);
      assert ValueOk(t.slots[t.latest], t.latest, t.log);
    }
  }

  /** Each subscriber receives publications in strictly increasing order, none twice, on every run. */
  lemma ReceivedInOrder<T>(c: Config, run: seq<Action<T>>, s: nat, i: nat, j: nat)
    requires c.Valid() && Inv(c, Initial<T>(c)) && EnabledAll(c, Initial(c), run)
    requires var t := ApplyAll(c, Initial(c), run); s in t.subs && i < j < |t.subs[s].received|
    ensures var t := ApplyAll(c, Initial(c), run);
            t.subs[s].received[i] < t.subs[s].received[j] < |t.log|
  {
    RunKeeps(c, Initial<T>(c), run);
    var t := ApplyAll(c, Initial(c), run);
    var r := t.subs[s].received;
    assert SubscriberOk(c, t, s, t.subs[s]);
    assert InOrder(r, i, j);
    if j < |r| - 1 { assert InOrder(r, j, |r| - 1); }
  }

  // ----- what each step does, in plain terms ---------------------------------------------------------

  /** Slot i has one reference fewer; without any it is reset. */
  ghost predicate OneFewer<T>(c: Config, before: Slot<T>, after: Slot<T>) {
    && after.refs + 1 == before.refs
    && (after.refs > 0 ==> after.value == before.value && after.id == before.id)
    && (after.refs == 0 ==> after.value.None? && after.id == c.Invalid())
  }

  ghost predicate SameBut<T>(before: seq<Slot<T>>, after: seq<Slot<T>>, i: nat) {
    |after| == |before| && forall k | 0 <= k < |before| && k != i :: after[k] == before[k]
  }

  /**
   A publication logs v, announces the slot that now holds v with one reference,
   that of its publisher, and takes that reference from the message before. No
   other slot and no subscriber is touched.
   */
  lemma PublishEffect<T>(c: Config, t: Topic<T>, p: nat, v: T, j: nat)
    requires Inv(c, t) && CanPublish(c, t, p, j)
    ensures var t' := ApplyPublish(c, t, p, v, j); var i, prev := t'.latest, t.pubs[p].prev;
            && t'.log == t.log + [Entry(i, v)]
            && t'.nextMessageId == Word(c, |t'.log|)
            && t'.subs == t.subs && t'.handles == t.handles
            && p in t'.pubs && t'.pubs == t.pubs[p := t'.pubs[p]] && t'.pubs[p].prev == Some(i)
            && i < |t'.slots| == |t.slots| && t'.slots[i] == Slot(Some(v), i, 1) && t.slots[i].refs == 0
            && (prev.Some? ==> prev.value < |t.slots| && OneFewer(c, t.slots[prev.value], t'.slots[prev.value]))
            && (forall k | 0 <= k < |t.slots| && k != i && prev != Some(k) :: t'.slots[k] == t.slots[k])
  {
    PublishReady(c, t, p, j);
    var i := Target(c, t.pubs[p], j);
    assert SlotOk(t.slots[i], i, References(t, i), c.Invalid());
    WordStep(c, |t.log|);
  }

  /** Releasing a handle takes its reference and gives its owner one credit more. */
  lemma ReleaseEffect<T>(c: Config, t: Topic<T>, h: nat)
    requires Inv(c, t) && h in t.handles
    ensures HandleOk(t, t.handles[h])
    ensures var t' := ApplyRelease(c, t, h); var i, o := t.handles[h].slot, t.handles[h].owner;
            && t' == t.(slots := t'.slots, handles := t.handles - {h}, subs := t'.subs)
            && t'.subs == t.subs[o := t.subs[o].(available := t.subs[o].available + 1)]
            && |t'.slots| == |t.slots| && OneFewer(c, t.slots[i], t'.slots[i])
            && SameBut(t.slots, t'.slots, i)
  {
    ReleaseFields(c, t, h);
    ReleaseIsOneFewer(c, t.slots, t.handles[h].slot);
  }

  lemma ReleaseFields<T>(c: Config, t: Topic<T>, h: nat)
    requires Inv(c, t) && h in t.handles
    ensures HandleOk(t, t.handles[h]) && t.slots[t.handles[h].slot].refs > 0
    ensures var d := t.handles[h];
            ApplyRelease(c, t, h) ==
              t.(slots := Release(t.slots, d.slot, c.Invalid()), handles := t.handles - {h},
                 subs := t.subs[d.owner := t.subs[d.owner].(available := t.subs[d.owner].available + 1)])
  {
    HandleLive(c, t, h);
  }

  lemma ReleaseIsOneFewer<T>(c: Config, slots: seq<Slot<T>>, i: nat)
    requires i < |slots| && slots[i].refs > 0
    ensures var slots' := Release(slots, i, c.Invalid());
            |slots'| == |slots| && OneFewer(c, slots[i], slots'[i]) && SameBut(slots, slots', i)
  {
  }

  /** A publisher that leaves takes its own reference with it and nothing else. */
  lemma LeaveEffect<T>(c: Config, t: Topic<T>, p: nat)
    requires Inv(c, t) && p in t.pubs
    ensures var t' := ApplyLeavePublisher(c, t, p); var prev := t.pubs[p].prev;
            && t' == t.(slots := t'.slots, pubs := t.pubs - {p}) && |t'.slots| == |t.slots|
            && (prev.Some? ==> prev.value < |t.slots| && OneFewer(c, t.slots[prev.value], t'.slots[prev.value]))
            && (forall k | 0 <= k < |t.slots| && prev != Some(k) :: t'.slots[k] == t.slots[k])
  {
    PublisherReady(c, t, p);
  }

  // ----- what was published is what is fetched -----------------------------------------------------------

  /** p retains the announced message, which is the last of the log. */
  ghost predicate LastIs<T>(t: Topic<T>, p: nat, log: seq<Entry<T>>) {
    t.log == log && p in t.pubs && t.pubs[p].prev == Some(t.latest)
  }

  lemma StepKeepsLast<T>(c: Config, t: Topic<T>, a: Action<T>, p: nat, log: seq<Entry<T>>)
    requires Inv(c, t) && Enabled(c, t, a) && LastIs(t, p, log) && !a.Publish? && a != LeavePublisher(p)
    ensures LastIs(Apply(c, t, a), p, log)
  {
    match a
    case FetchMessage(s, h) => FetchShape(c, t, s, h);
    case ReleaseHandle(h) => ReleaseEffect(c, t, h);
    case LeavePublisher(q) => LeaveEffect(c, t, q);
    case MoveHandle(_, _) =>
    case JoinPublisher(_) =>
    case JoinSubscriber(_) =>
    case LeaveSubscriber(_) =>
  }

  lemma {:induction false} RunKeepsLast<T>(c: Config, t: Topic<T>, run: seq<Action<T>>, p: nat, log: seq<Entry<T>>)
    requires Inv(c, t) && EnabledAll(c, t, run) && LastIs(t, p, log)
    requires forall a | a in run :: !a.Publish? && a != LeavePublisher(p)
    ensures LastIs(ApplyAll(c, t, run), p, log)
    decreases |run|
  {
    if run != [] {
      StepKeeps(c, t, run[0]);
      StepKeepsLast(c, t, run[0], p, log);
      RunKeepsLast(c, Apply(c, t, run[0]), run[1..], p, log);
    }
  }

  /**
   After p published v, and whatever happened then short of another publication or
   p's leaving, a subscriber with a credit to which it is news fetches v.
   */
  lemma PublishedIsFetched<T>(c: Config, t: Topic<T>, p: nat, v: T, j: nat, run: seq<Action<T>>, s: nat)
    requires Inv(c, t) && CanPublish(c, t, p, j)
    requires Inv(c, ApplyPublish(c, t, p, v, j)) && EnabledAll(c, ApplyPublish(c, t, p, v, j), run)
    requires forall a | a in run :: !a.Publish? && a != LeavePublisher(p)
    requires var u := ApplyAll(c, ApplyPublish(c, t, p, v, j), run);
             s in u.subs && u.subs[s].available > 0 && u.nextMessageId != u.subs[s].nextId
    ensures var u := ApplyAll(c, ApplyPublish(c, t, p, v, j), run);
            && Inv(c, u) && u.latest < |u.slots|
            && FetchOf(c, u, s).0 == Delivered(u.latest) && u.slots[u.latest].value == Some(v)
  {
    var t' := ApplyPublish(c, t, p, v, j);
    PublishEffect(c, t, p, v, j);
    var u := ApplyAll(c, t', run);
    RunKeeps(c, t', run);
    RunKeepsLast(c, t', run, p, t'.log);
    AnnouncedWhilePublisherStays(c, u, p);
    LatestIsNewest(c, u);
    assert ValueOk(u.slots[u.latest], u.latest, u.log);
  }

  // ----- what was seen is not fetched again ----------------------------------------------------------------

  ghost predicate UpToDate<T>(t: Topic<T>, s: nat) {
    s in t.subs && t.subs[s].nextId == t.nextMessageId
  }

  lemma StepKeepsUpToDate<T>(c: Config, t: Topic<T>, a: Action<T>, s: nat)
    requires Inv(c, t) && Enabled(c, t, a) && UpToDate(t, s) && !a.Publish? && a != LeaveSubscriber(s)
    ensures UpToDate(Apply(c, t, a), s)
  {
    match a
    case FetchMessage(o, h) => FetchShape(c, t, o, h);
    case ReleaseHandle(h) => ReleaseEffect(c, t, h);
    case LeavePublisher(q) => LeaveEffect(c, t, q);
    case MoveHandle(_, _) =>
    case JoinPublisher(_) =>
    case JoinSubscriber(_) =>
    case LeaveSubscriber(_) =>
  }

  lemma {:induction false} RunKeepsUpToDate<T>(c: Config, t: Topic<T>, run: seq<Action<T>>, s: nat)
    requires Inv(c, t) && EnabledAll(c, t, run) && UpToDate(t, s)
    requires forall a | a in run :: !a.Publish? && a != LeaveSubscriber(s)
    ensures UpToDate(ApplyAll(c, t, run), s)
    decreases |run|
  {
    if run != [] {
      StepKeeps(c, t, run[0]);
      StepKeepsUpToDate(c, t, run[0], s);
      RunKeepsUpToDate(c, Apply(c, t, run[0]), run[1..], s);
    }
  }

  /**
   A fetch that was answered with a message, or refused for lack of a credit, is
   the last to get one until somebody publishes, whatever is released meanwhile.
   */
  lemma NothingTwice<T>(c: Config, t: Topic<T>, s: nat, h: nat, run: seq<Action<T>>)
    requires Inv(c, t) && s in t.subs && h !in t.handles
    requires t.nextMessageId != t.subs[s].nextId ==> t.latest < |t.slots|
    requires !FetchOf(c, t, s).0.NoMessage?
    requires Inv(c, ApplyFetch(c, t, s, h)) && EnabledAll(c, ApplyFetch(c, t, s, h), run)
    requires forall a | a in run :: !a.Publish? && a != LeaveSubscriber(s)
    ensures var u := ApplyAll(c, ApplyFetch(c, t, s, h), run);
            && s in u.subs && u.nextMessageId == u.subs[s].nextId
            && FetchOf(c, u, s).0 == NoMessage
  {
    FetchOutcome(c, t, s, h);
    RunKeepsUpToDate(c, ApplyFetch(c, t, s, h), run, s);
  }

  /** What a fetch answers and leaves behind in each of its four cases. */
  lemma FetchEffect<T>(c: Config, t: Topic<T>, s: nat, h: nat)
    requires Inv(c, t) && s in t.subs && h !in t.handles
    ensures var t', sub := ApplyFetch(c, t, s, h), t.subs[s];
            if t.nextMessageId == sub.nextId || !Announced(t) then t' == t
            else if sub.available <= 0 then
              t' == t.(subs := t.subs[s := sub.(nextId := t.nextMessageId, seen := |t.log|)])
            else
              && t' == t.(slots := t'.slots, subs := t'.subs, handles := t.handles[h := Handle(s, t.latest, |t.log| - 1)])
              && t'.slots == t.slots[t.latest := t.slots[t.latest].(refs := t.slots[t.latest].refs + 1)]
              && t'.subs == t.subs[s := Subscriber(sub.available - 1, t.nextMessageId, |t.log|, sub.received + [|t.log| - 1])]
  {
    FetchOutcome(c, t, s, h);
    FetchExact(c, t, s);
    assert t.subs[s := t.subs[s]] == t.subs;
  }
}
