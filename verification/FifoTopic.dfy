/**
 Delivery through the FIFO message queue: one publisher, any subscribers, with
 publish, the acquiring part of receive, release of the access, subscribe and
 cancel as steps. Admission inside a step is FifoMessage's business.
 */
module FifoTopic {
  import opened Counting
  import opened Numeric

  // ----- one message ---------------------------------------------------------------------

  datatype Cell<T> = Cell(flag: int, value: Option<T>, id: nat, remaining: int, active: int)

  /** The write of a publication; the active counter is left as it is. */
  function Written<T>(m: Cell<T>, references: nat, id: nat, v: T): Cell<T> {
    Cell(m.flag, Some(v), id, references, m.active)
  }

  /** consume: no value, too many accesses (the active counter stays raised), write locked, or an access. */
  function Consume<T>(m: Cell<T>): (bool, Cell<T>) {
    if m.value.None? then (false, m)
    else if m.active >= m.remaining || m.flag == -1 then (false, m.(active := m.active + 1))
    else (true, m.(active := m.active + 1, flag := m.flag + 1))
  }

  /** The destructor of a read access. */
  function Released<T>(m: Cell<T>): Cell<T> {
    Cell(m.flag - 1, if m.remaining == 1 then None else m.value, m.id, m.remaining - 1, m.active - 1)
  }

  /** Index of a message id in a queue of Pow2(q) cells. */
  function CellIndex(id: nat, q: nat): nat {
    And(id, Pow2(q) - 1)
  }

  lemma CellIndexIs(id: nat, q: nat)
    ensures CellIndex(id, q) == id % Pow2(q) < Pow2(q)
  {
    AndMask(id, q);
  }

  /** Elements of `element` bytes that a memory of `bytes` can hold behind a header, rounded down to a power of two. */
  function QueueSize(bytes: nat, header: nat, element: nat, w: nat): Option<nat>
    requires header <= bytes && 0 < element
  {
    FloorToPowerOfTwo((bytes - header) / element, w)
  }

  /** A queue that passes the size check has a power of two of cells, all inside the memory, and no larger one fits. */
  lemma QueueFits(bytes: nat, header: nat, element: nat, w: nat)
    requires 0 < element && header + element <= bytes < Pow2(w)
    ensures var n := QueueSize(bytes, header, element, w);
            && n.Some? && IsPow2(n.value) && header + element * n.value <= bytes < header + element * (2 * n.value)
  {
    var q := QuotientBounds(bytes - header, element);
    FloorIsGreatest(q, w);
    var n := FloorToPowerOfTwo(q, w).value;
    Scale(element, n, q);
    Scale(element, q + 1, 2 * n);
  }

  lemma QuotientBounds(x: nat, e: nat) returns (q: nat)
    requires 0 < e <= x
    ensures q == x / e && 0 < q <= x
    ensures e * q <= x < e * (q + 1)
  {
    var r;
    q, r := QuotientRemainder(x, e);
    assert e * (q + 1) == e * q + e;
    if q == 0 {
      assert false;
    }
    Scale(q, 1, e);
    assert q * e == e * q;
  }

  // ----- the topic -------------------------------------------------------------------------

  /** nextId is _next_message_id; delivered are the ids handed to the callback so far. */
  datatype Subscriber = Subscriber(nextId: nat, delivered: seq<nat>)

  /** A read access in use by a subscriber's callback. */
  datatype Access = Access(owner: nat, cell: nat, id: nat)

  datatype Topic<T> = Topic(
    cells: seq<Cell<T>>,
    next: nat,
    numSubscribers: nat,
    subs: map<nat, Subscriber>,
    accesses: map<nat, Access>,
    log: seq<T>)

  /** Pow2(q) cells; invalid is the largest id, which no message carries. */
  datatype Config = Config(q: nat, invalid: nat)

  datatype Received = Delivered(cell: nat) | PublisherDown | Mismatch | NotConsumed

  ghost function OnCell(i: nat): Access -> bool {
    (a: Access) => a.cell == i
  }

  /** Subscribers that have not tried to receive the message of this id. */
  ghost function Awaiting(id: nat): Subscriber -> bool {
    (s: Subscriber) => s.nextId <= id
  }

  /**
   A cell holds the last published id that is masked to it, and its remaining
   references cover the accesses in use and every subscriber still to come.
   */
  ghost predicate CellOk<T>(c: Config, t: Topic<T>, i: nat)
    requires i < |t.cells|
  {
    var m := t.cells[i];
    && m.flag == m.active == Count(t.accesses, OnCell(i))
    && (if m.id == c.invalid then m.value.None? && m.flag == m.remaining == 0 && t.next <= i else Holds(c, t, i))
    && (m.remaining > 0 ==> m.value.Some?)
  }

  ghost predicate Holds<T>(c: Config, t: Topic<T>, i: nat)
    requires i < |t.cells|
  {
    var m := t.cells[i];
    && m.id < |t.log| && m.id % Pow2(c.q) == i && t.next <= m.id + Pow2(c.q)
    && (m.value.Some? ==> m.value == Some(t.log[m.id]))
    && Count(t.subs, Awaiting(m.id)) + m.flag <= m.remaining
  }

  ghost predicate AccessOk<T>(t: Topic<T>, a: Access) {
    a.cell < |t.cells| && t.cells[a.cell].id == a.id && a.owner in t.subs
  }

  ghost predicate InOrder(s: seq<nat>, i: nat, j: nat)
    requires i < |s| && j < |s|
  {
    s[i] < s[j]
  }

  ghost predicate SubscriberOk<T>(t: Topic<T>, s: Subscriber) {
    && s.nextId <= t.next
    && (forall i, j | 0 <= i < j < |s.delivered| :: InOrder(s.delivered, i, j))
    && (s.delivered != [] ==> s.delivered[|s.delivered| - 1] < s.nextId)
  }

  ghost predicate Inv<T>(c: Config, t: Topic<T>) {
    && |t.cells| == Pow2(c.q)
    && t.next == |t.log| < c.invalid
    && t.numSubscribers == |t.subs|
    && (forall i | 0 <= i < |t.cells| :: CellOk(c, t, i))
    && (forall a | a in t.accesses :: AccessOk(t, t.accesses[a]))
    && (forall s | s in t.subs :: SubscriberOk(t, t.subs[s]))
  }

  // ----- steps -----------------------------------------------------------------------------

  datatype Action<T> =
    | Publish(value: T)
    | Receive(s: nat, a: nat)
    | Release(a: nat)
    | Subscribe(s: nat)
    | Cancel(s: nat)

  /** Publishing is considered up to the last id before the invalid one; receiving waits for a new id. */
  ghost predicate Enabled<T>(c: Config, t: Topic<T>, x: Action<T>) {
    match x
    case Publish(_) => t.next + 1 < c.invalid
    case Receive(s, a) => s in t.subs && t.subs[s].nextId != t.next && a !in t.accesses
    case Release(a) => a in t.accesses
    case Subscribe(s) => s !in t.subs
    case Cancel(s) => s in t.subs && forall a | a in t.accesses :: t.accesses[a].owner != s
  }

  function ReceiveOf<T>(c: Config, cells: seq<Cell<T>>, next: nat, nextId: nat): (Received, seq<Cell<T>>)
    requires |cells| == Pow2(c.q)
  {
    CellIndexIs(nextId, c.q);
    var i := CellIndex(nextId, c.q);
    if next == c.invalid then (PublisherDown, cells)
    else if cells[i].id != nextId then (Mismatch, cells)
    else
      var (ok, m) := Consume(cells[i]);
      (if ok then Delivered(i) else NotConsumed, cells[i := m])
  }

  function ApplyPublish<T>(c: Config, t: Topic<T>, v: T): Topic<T>
    requires |t.cells| == Pow2(c.q)
  {
    CellIndexIs(t.next, c.q);
    var i := CellIndex(t.next, c.q);
    if t.cells[i].flag != 0 then t
    else t.(cells := t.cells[i := Written(t.cells[i], t.numSubscribers, t.next, v)], next := t.next + 1, log := t.log + [v])
  }

  function ApplyReceive<T>(c: Config, t: Topic<T>, s: nat, a: nat): Topic<T>
    requires |t.cells| == Pow2(c.q) && s in t.subs
  {
    var sub := t.subs[s];
    var (r, cells) := ReceiveOf(c, t.cells, t.next, sub.nextId);
    if r.Delivered? then
      t.(cells := cells, subs := t.subs[s := Subscriber(sub.nextId + 1, sub.delivered + [sub.nextId])],
         accesses := t.accesses[a := Access(s, r.cell, sub.nextId)])
    else t.(cells := cells, subs := t.subs[s := sub.(nextId := sub.nextId + 1)])
  }

  function ApplyRelease<T>(t: Topic<T>, a: nat): Topic<T>
    requires a in t.accesses && t.accesses[a].cell < |t.cells|
  {
    var i := t.accesses[a].cell;
    t.(cells := t.cells[i := Released(t.cells[i])], accesses := t.accesses - {a})
  }

  function ApplySubscribe<T>(t: Topic<T>, s: nat): Topic<T> {
    t.(numSubscribers := t.numSubscribers + 1, subs := t.subs[s := Subscriber(t.next, [])])
  }

  /** Cancelling does not take back the references counted for messages not yet read. */
  function ApplyCancel<T>(t: Topic<T>, s: nat): Topic<T>
    requires t.numSubscribers > 0
  {
    t.(numSubscribers := t.numSubscribers - 1, subs := t.subs - {s})
  }

  ghost function Apply<T>(c: Config, t: Topic<T>, x: Action<T>): Topic<T>
    requires Inv(c, t) && Enabled(c, t, x)
  {
    match x
    case Publish(v) => ApplyPublish(c, t, v)
    case Receive(s, a) => ApplyReceive(c, t, s, a)
    case Release(a) => assert AccessOk(t, t.accesses[a]); ApplyRelease(t, a)
    case Subscribe(s) => ApplySubscribe(t, s)
    case Cancel(s) => ApplyCancel(t, s)
  }

  // ----- every step keeps the invariant ------------------------------------------------------

  /** The cell that is written: every subscriber's reference is counted. */
  lemma PublishFillsCell<T>(c: Config, t: Topic<T>, v: T)
    requires Inv(c, t) && t.next + 1 < c.invalid && t.cells[CellIndexOf(c, t, t.next)].flag == 0
    ensures var i, t' := CellIndexOf(c, t, t.next), ApplyPublish(c, t, v); i < |t'.cells| && CellOk(c, t', i)
  {
    var i := CellIndexOf(c, t, t.next);
    assert CellOk(c, t, i);
    forall s | s in t.subs ensures Awaiting(t.next)(t.subs[s]) {
      assert SubscriberOk(t, t.subs[s]);
    }
    CountAll(t.subs, Awaiting(t.next));
  }

  /** Any other cell: the new id is not one that would go there. */
  lemma PublishSparesCell<T>(c: Config, t: Topic<T>, v: T, k: nat)
    requires Inv(c, t) && t.next + 1 < c.invalid && k < |t.cells| && k != CellIndexOf(c, t, t.next)
    ensures var t' := ApplyPublish(c, t, v); k < |t'.cells| && CellOk(c, t', k)
  {
    assert CellOk(c, t, k);
    NotItsTurn(t.next, Pow2(c.q), t.cells[k].id, k);
  }

  lemma NotItsTurn(next: nat, n: nat, id: nat, k: nat)
    requires k < n && next % n != k
    ensures next != k && (id % n == k ==> next != id + n)
  {
    ModUnique(k, n, 0, k);
    if next == id + n {
      var q, r := QuotientRemainder(id, n);
      assert n * (q + 1) == n * q + n;
      ModUnique(next, n, q + 1, r);
    }
  }

  function CellIndexOf<T>(c: Config, t: Topic<T>, id: nat): (i: nat)
    requires |t.cells| == Pow2(c.q)
    ensures i == CellIndex(id, c.q) == id % Pow2(c.q) < |t.cells|
  {
    CellIndexIs(id, c.q);
    CellIndex(id, c.q)
  }

  lemma PublishKeeps<T>(c: Config, t: Topic<T>, v: T)
    requires Inv(c, t) && t.next + 1 < c.invalid
    ensures Inv(c, ApplyPublish(c, t, v))
  {
    var i := CellIndexOf(c, t, t.next);
    var t' := ApplyPublish(c, t, v);
    if t.cells[i].flag == 0 {
      assert CellOk(c, t, i);
      CountZero(t.accesses, OnCell(i));
      forall k | 0 <= k < |t'.cells| ensures CellOk(c, t', k) {
        if k == i { PublishFillsCell(c, t, v); } else { PublishSparesCell(c, t, v, k); }
      }
      forall a | a in t'.accesses ensures AccessOk(t', t'.accesses[a]) {
        assert AccessOk(t, t.accesses[a]);
        assert !OnCell(i)(t.accesses[a]);
      }
      forall s | s in t'.subs ensures SubscriberOk(t', t'.subs[s]) {
        assert SubscriberOk(t, t.subs[s]);
      }
    }
  }

  /** The reference of a subscriber that is still to come is there for it: its consume is not refused. */
  lemma ReferenceKept<T>(c: Config, t: Topic<T>, s: nat, i: nat)
    requires Inv(c, t) && s in t.subs && i < |t.cells| && t.cells[i].id == t.subs[s].nextId < c.invalid
    ensures Consume(t.cells[i]).0
  {
    assert CellOk(c, t, i);
    CountZero(t.subs, Awaiting(t.cells[i].id));
    assert Awaiting(t.cells[i].id)(t.subs[s]);
  }

  lemma ReceiveKeepsCell<T>(c: Config, t: Topic<T>, s: nat, a: nat, k: nat)
    requires Inv(c, t) && s in t.subs && t.subs[s].nextId != t.next && a !in t.accesses && k < |t.cells|
    ensures var t' := ApplyReceive(c, t, s, a); k < |t'.cells| && CellOk(c, t', k)
  {
    var t' := ApplyReceive(c, t, s, a);
    CellIndexIs(t.subs[s].nextId, c.q);
    var i := CellIndex(t.subs[s].nextId, c.q);
    assert CellOk(c, t, k) && SubscriberOk(t, t.subs[s]);
    CountUpdate(t.subs, s, t'.subs[s], Awaiting(t.cells[k].id));
    if t.cells[i].id == t.subs[s].nextId { ReferenceKept(c, t, s, i); }
    if a in t'.accesses { CountUpdate(t.accesses, a, t'.accesses[a], OnCell(k)); }
  }

  lemma DeliveredAppend(s: seq<nat>, n: nat)
    requires forall i, j | 0 <= i < j < |s| :: InOrder(s, i, j)
    requires s != [] ==> s[|s| - 1] < n
    ensures var s' := s + [n]; forall i, j | 0 <= i < j < |s'| :: InOrder(s', i, j)
  {
    var s' := s + [n];
    forall i, j | 0 <= i < j < |s'| ensures InOrder(s', i, j) {
      if j < |s| { assert InOrder(s, i, j); } else if i < |s| - 1 { assert InOrder(s, i, |s| - 1); }
    }
  }

  lemma ReceiveKeepsSubscribers<T>(c: Config, t: Topic<T>, s: nat, a: nat, o: nat)
    requires Inv(c, t) && s in t.subs && t.subs[s].nextId != t.next && o in t.subs
    ensures var t' := ApplyReceive(c, t, s, a); o in t'.subs && SubscriberOk(t', t'.subs[o])
  {
    assert SubscriberOk(t, t.subs[s]) && SubscriberOk(t, t.subs[o]);
    DeliveredAppend(t.subs[s].delivered, t.subs[s].nextId);
  }

  lemma ReceiveKeeps<T>(c: Config, t: Topic<T>, s: nat, a: nat)
    requires Inv(c, t) && s in t.subs && t.subs[s].nextId != t.next && a !in t.accesses
    ensures Inv(c, ApplyReceive(c, t, s, a))
  {
    var t' := ApplyReceive(c, t, s, a);
    CellIndexIs(t.subs[s].nextId, c.q);
    forall k | 0 <= k < |t'.cells| ensures CellOk(c, t', k) {
      ReceiveKeepsCell(c, t, s, a, k);
    }
    forall b | b in t'.accesses ensures AccessOk(t', t'.accesses[b]) {
      if b != a { assert AccessOk(t, t.accesses[b]); }
    }
    assert t'.subs.Keys == t.subs.Keys;
    forall o | o in t'.subs ensures SubscriberOk(t', t'.subs[o]) {
      ReceiveKeepsSubscribers(c, t, s, a, o);
    }
  }

  lemma ReleaseKeeps<T>(c: Config, t: Topic<T>, a: nat)
    requires Inv(c, t) && a in t.accesses
    ensures AccessOk(t, t.accesses[a]) && Inv(c, ApplyRelease(t, a))
  {
    assert AccessOk(t, t.accesses[a]);
    var i := t.accesses[a].cell;
    var t' := ApplyRelease(t, a);
    CountZero(t.accesses, OnCell(i));
    assert OnCell(i)(t.accesses[a]);
    forall k | 0 <= k < |t'.cells| ensures CellOk(c, t', k) {
      assert CellOk(c, t, k);
      CountRemove(t.accesses, a, OnCell(k));
    }
    forall b | b in t'.accesses ensures AccessOk(t', t'.accesses[b]) {
      assert AccessOk(t, t.accesses[b]);
    }
    forall s | s in t'.subs ensures SubscriberOk(t', t'.subs[s]) {
      assert SubscriberOk(t, t.subs[s]);
    }
  }

  /** A new subscriber awaits nothing that is already published. */
  lemma SubscribeKeepsCell<T>(c: Config, t: Topic<T>, s: nat, k: nat)
    requires Inv(c, t) && s !in t.subs && k < |t.cells|
    ensures CellOk(c, ApplySubscribe(t, s), k)
  {
    assert CellOk(c, t, k);
    CountUpdate(t.subs, s, Subscriber(t.next, []), Awaiting(t.cells[k].id));
  }

  lemma SubscribeKeepsEndpoints<T>(c: Config, t: Topic<T>, s: nat)
    requires Inv(c, t) && s !in t.subs
    ensures var t' := ApplySubscribe(t, s);
            && (forall a | a in t'.accesses :: AccessOk(t', t'.accesses[a]))
            && (forall o | o in t'.subs :: SubscriberOk(t', t'.subs[o]))
  {
    var t' := ApplySubscribe(t, s);
    forall a | a in t'.accesses ensures AccessOk(t', t'.accesses[a]) {
      assert AccessOk(t, t.accesses[a]);
    }
    forall o | o in t'.subs ensures SubscriberOk(t', t'.subs[o]) {
      if o != s { assert SubscriberOk(t, t.subs[o]); }
    }
  }

  lemma MapGrows<K, V>(m: map<K, V>, k: K, v: V)
    requires k !in m
    ensures |m[k := v]| == |m| + 1
  {
    assert m[k := v].Keys == m.Keys + {k};
  }

  lemma SubscribeKeeps<T>(c: Config, t: Topic<T>, s: nat)
    requires Inv(c, t) && s !in t.subs
    ensures Inv(c, ApplySubscribe(t, s))
  {
    var t' := ApplySubscribe(t, s);
    forall k | 0 <= k < |t'.cells| ensures CellOk(c, t', k) {
      SubscribeKeepsCell(c, t, s, k);
    }
    MapGrows(t.subs, s, Subscriber(t.next, []));
    SubscribeKeepsEndpoints(c, t, s);
  }

  lemma CancelKeeps<T>(c: Config, t: Topic<T>, s: nat)
    requires Inv(c, t) && s in t.subs && forall a | a in t.accesses :: t.accesses[a].owner != s
    ensures Inv(c, ApplyCancel(t, s))
  {
    var t' := ApplyCancel(t, s);
    forall k | 0 <= k < |t'.cells| ensures CellOk(c, t', k) {
      assert CellOk(c, t, k);
      CountRemove(t.subs, s, Awaiting(t.cells[k].id));
    }
    assert t'.subs.Keys == t.subs.Keys - {s};
    forall a | a in t'.accesses ensures AccessOk(t', t'.accesses[a]) {
      assert AccessOk(t, t.accesses[a]);
    }
    forall o | o in t'.subs ensures SubscriberOk(t', t'.subs[o]) {
      assert SubscriberOk(t, t.subs[o]);
    }
  }

  lemma StepKeeps<T>(c: Config, t: Topic<T>, x: Action<T>)
    requires Inv(c, t) && Enabled(c, t, x)
    ensures Inv(c, Apply(c, t, x))
  {
    match x
    case Publish(v) => PublishKeeps(c, t, v);
    case Receive(s, a) => ReceiveKeeps(c, t, s, a);
    case Release(a) => ReleaseKeeps(c, t, a);
    case Subscribe(s) => SubscribeKeeps(c, t, s);
    case Cancel(s) => CancelKeeps(c, t, s);
  }

  ghost predicate EnabledAll<T>(c: Config, t: Topic<T>, run: seq<Action<T>>)
    requires Inv(c, t)
    decreases |run|
  {
    run == [] || (Enabled(c, t, run[0]) && (StepKeeps(c, t, run[0]); EnabledAll(c, Apply(c, t, run[0]), run[1..])))
  }

  ghost function ApplyAll<T>(c: Config, t: Topic<T>, run: seq<Action<T>>): Topic<T>
    requires Inv(c, t) && EnabledAll(c, t, run)
    decreases |run|
  {
    if run == [] then t else (StepKeeps(c, t, run[0]); ApplyAll(c, Apply(c, t, run[0]), run[1..]))
  }

  /** The queue as init_at leaves it. */
  ghost function Initial<T>(c: Config): Topic<T> {
    Topic(seq(Pow2(c.q), _ => Cell(0, None, c.invalid, 0, 0)), 0, 0, map[], map[], [])
  }

  lemma InitialInv<T>(c: Config)
    requires 0 < c.invalid
    ensures Inv(c, Initial<T>(c))
  {
    var t := Initial<T>(c);
    forall i | 0 <= i < |t.cells| ensures CellOk(c, t, i) {
      CountZero(t.accesses, OnCell(i));
    }
  }

  lemma {:induction false} RunKeeps<T>(c: Config, t: Topic<T>, run: seq<Action<T>>)
    requires Inv(c, t) && EnabledAll(c, t, run)
    ensures Inv(c, ApplyAll(c, t, run))
    decreases |run|
  {
    if run != [] {
      StepKeeps(c, t, run[0]);
      RunKeeps(c, Apply(c, t, run[0]), run[1..]);
    }
  }

  // ----- delivery ------------------------------------------------------------------------------

  /**
   No message is lost but by being overwritten: a receive delivers the published
   message of the id that is the subscriber's turn exactly when no more than the
   queue's size of messages were published since; otherwise it is a mismatch.
   Too many accesses, a held lock or a missing value never stand in the way.
   */
  lemma DeliveredUnlessOverwritten<T>(c: Config, t: Topic<T>, s: nat)
    requires Inv(c, t) && s in t.subs && t.subs[s].nextId != t.next
    ensures var id := t.subs[s].nextId; var (r, cells) := ReceiveOf(c, t.cells, t.next, id);
            && id < |t.log|
            && (t.next - id <= Pow2(c.q) ==>
                  r == Delivered(CellIndex(id, c.q)) && r.cell < |cells| && cells[r.cell].value == Some(t.log[id]))
            && (t.next - id > Pow2(c.q) ==> r == Mismatch && cells == t.cells)
  {
    var id, n := t.subs[s].nextId, Pow2(c.q);
    assert SubscriberOk(t, t.subs[s]);
    CellIndexIs(id, c.q);
    var i := CellIndex(id, c.q);
    assert CellOk(c, t, i);
    if t.cells[i].id == id {
      ReferenceKept(c, t, s, i);
    } else {
      Overwritten(c, t, id);
    }
  }

  /** A cell that does not hold a published id any more holds one at least a queue's size later. */
  lemma Overwritten<T>(c: Config, t: Topic<T>, id: nat)
    requires Inv(c, t) && id < t.next && t.cells[CellIndexOf(c, t, id)].id != id
    ensures t.next > id + Pow2(c.q)
  {
    var n, i := Pow2(c.q), CellIndexOf(c, t, id);
    assert CellOk(c, t, i);
    var q, r := QuotientRemainder(id, n);
    Scale(n, 0, q);
    assert r <= id;
    var q', r' := QuotientRemainder(t.cells[i].id, n);
    SameResidue(n, q, q', r);
  }

  /** Two numbers of one residue lie a whole modulus apart. */
  lemma SameResidue(n: nat, q: nat, q': nat, r: nat)
    ensures q < q' ==> n * q + r + n <= n * q' + r
    ensures q > q' ==> n * q' + r + n <= n * q + r
  {
    if q < q' { Scale(n, q + 1, q'); assert n * (q + 1) == n * q + n; }
    if q > q' { Scale(n, q' + 1, q); assert n * (q' + 1) == n * q' + n; }
  }

  /** The value under an open access is the published message of its id. */
  lemma OpenAccessReads<T>(c: Config, t: Topic<T>, a: nat)
    requires Inv(c, t) && a in t.accesses
    ensures var x := t.accesses[a];
            && x.cell < |t.cells| && x.id < |t.log|
            && t.cells[x.cell].value == Some(t.log[x.id]) && t.cells[x.cell].flag > 0
  {
    var x := t.accesses[a];
    assert AccessOk(t, x) && CellOk(c, t, x.cell);
    CountZero(t.accesses, OnCell(x.cell));
    assert OnCell(x.cell)(x);
  }

  /** On every run, whatever is published meanwhile, an open access reads the published message of its id. */
  lemma OpenAccessReadsTheLog<T>(c: Config, run: seq<Action<T>>, a: nat)
    requires 0 < c.invalid && Inv(c, Initial<T>(c)) && EnabledAll(c, Initial(c), run)
    requires a in ApplyAll(c, Initial(c), run).accesses
    ensures var t := ApplyAll(c, Initial(c), run); var x := t.accesses[a];
            x.cell < |t.cells| && x.id < |t.log| && t.cells[x.cell].value == Some(t.log[x.id])
  {
    RunKeeps(c, Initial<T>(c), run);
    OpenAccessReads(c, ApplyAll(c, Initial(c), run), a);
  }

  /** A publication fails, changing nothing, exactly when its cell is being read; it never touches a cell being read. */
  lemma PublishSparesReaders<T>(c: Config, t: Topic<T>, v: T, a: nat)
    requires Inv(c, t)
    ensures var t' := ApplyPublish(c, t, v);
            && (t' == t <==> exists x :: x in t.accesses && t.accesses[x].cell == CellIndex(t.next, c.q))
            && (a in t.accesses ==> t.accesses[a].cell < |t.cells| && t.accesses[a].cell < |t'.cells|
                                    && t'.cells[t.accesses[a].cell] == t.cells[t.accesses[a].cell])
  {
    var i := CellIndex(t.next, c.q);
    CellIndexIs(t.next, c.q);
    assert CellOk(c, t, i);
    CountZero(t.accesses, OnCell(i));
    if t.cells[i].flag != 0 {
      var x :| x in t.accesses && OnCell(i)(t.accesses[x]);
      assert t.accesses[x].cell == i;
    }
    if a in t.accesses {
      OpenAccessReads(c, t, a);
    }
  }

  /** Ids delivered to a subscriber strictly increase, and nothing is delivered before it was published. */
  lemma DeliveredInOrder<T>(c: Config, run: seq<Action<T>>, s: nat, i: nat, j: nat)
    requires 0 < c.invalid && Inv(c, Initial<T>(c)) && EnabledAll(c, Initial(c), run)
    requires var t := ApplyAll(c, Initial(c), run); s in t.subs && i < j < |t.subs[s].delivered|
    ensures var t := ApplyAll(c, Initial(c), run);
            t.subs[s].delivered[i] < t.subs[s].delivered[j] < |t.log|
  {
    RunKeeps(c, Initial<T>(c), run);
    OrderOf(c, ApplyAll(c, Initial(c), run), s, i, j);
  }

  lemma OrderOf<T>(c: Config, t: Topic<T>, s: nat, i: nat, j: nat)
    requires Inv(c, t) && s in t.subs && i < j < |t.subs[s].delivered|
    ensures t.subs[s].delivered[i] < t.subs[s].delivered[j] < |t.log|
  {
    var d := t.subs[s].delivered;
    assert SubscriberOk(t, t.subs[s]);
    assert InOrder(d, i, j);
    if j < |d| - 1 { assert InOrder(d, j, |d| - 1); }
  }

  /** The delivery guarantee at the end of every run. */
  lemma NothingLost<T>(c: Config, run: seq<Action<T>>, s: nat)
    requires 0 < c.invalid && Inv(c, Initial<T>(c)) && EnabledAll(c, Initial(c), run)
    requires var t := ApplyAll(c, Initial(c), run); s in t.subs && t.subs[s].nextId != t.next
    ensures Inv(c, ApplyAll(c, Initial(c), run))
    ensures var t := ApplyAll(c, Initial(c), run); var id := t.subs[s].nextId; var t' := ApplyReceive(c, t, s, 0);
            t'.subs[s].delivered == t.subs[s].delivered + if t.next - id <= Pow2(c.q) then [id] else []
  {
    RunKeeps(c, Initial<T>(c), run);
    DeliveredUnlessOverwritten(c, ApplyAll(c, Initial(c), run), s);
  }

  // ----- what each step does, in plain terms --------------------------------------------------------

  /**
   Unless its cell is being read, a publication puts v under the next id into its
   cell with one reference per subscriber and appends v to what was published;
   nothing else changes.
   */
  lemma PublishEffect<T>(c: Config, t: Topic<T>, v: T)
    requires Inv(c, t) && t.next + 1 < c.invalid
    ensures var i, t' := CellIndexOf(c, t, t.next), ApplyPublish(c, t, v);
            if exists x :: x in t.accesses && t.accesses[x].cell == i then t' == t
            else
              && t' == t.(log := t.log + [v], next := t.next + 1, cells := t'.cells)
              && |t'.cells| == |t.cells| && (forall k | 0 <= k < |t.cells| && k != i :: t'.cells[k] == t.cells[k])
              && t'.cells[i] == Cell(0, Some(v), t.next, |t.subs|, 0)
  {
    var i := CellIndexOf(c, t, t.next);
    PublishSparesReaders(c, t, v, 0);
    assert CellOk(c, t, i);
    CountZero(t.accesses, OnCell(i));
  }

  /**
   A receive moves its subscriber on by one id, whatever it finds. A delivery
   opens an access, which the cell counts; anything else leaves the cells alone.
   */
  lemma ReceiveEffect<T>(c: Config, t: Topic<T>, s: nat, a: nat)
    requires Inv(c, t) && s in t.subs && t.subs[s].nextId != t.next && a !in t.accesses
    ensures var t', id := ApplyReceive(c, t, s, a), t.subs[s].nextId;
            var i, delivered := CellIndexOf(c, t, id), t.next - id <= Pow2(c.q);
            && t' == t.(cells := t'.cells, subs := t'.subs, accesses := t'.accesses)
            && t'.subs == t.subs[s := Subscriber(id + 1, t.subs[s].delivered + if delivered then [id] else [])]
            && t'.accesses == (if delivered then t.accesses[a := Access(s, i, id)] else t.accesses)
            && t'.cells == (if delivered then t.cells[i := t.cells[i].(flag := t.cells[i].flag + 1, active := t.cells[i].active + 1)]
                            else t.cells)
  {
    DeliveredUnlessOverwritten(c, t, s);
    assert t.subs[s].delivered + [] == t.subs[s].delivered;
  }

  /** A release gives up one reference, one lock and one active access of its cell; the value goes exactly with the last reference. */
  lemma ReleaseEffect<T>(c: Config, t: Topic<T>, a: nat)
    requires Inv(c, t) && a in t.accesses
    ensures AccessOk(t, t.accesses[a])
    ensures var i, t' := t.accesses[a].cell, ApplyRelease(t, a); var m := t.cells[i];
            && t' == t.(cells := t'.cells, accesses := t.accesses - {a})
            && |t'.cells| == |t.cells| && (forall k | 0 <= k < |t.cells| && k != i :: t'.cells[k] == t.cells[k])
            && t'.cells[i] == Cell(m.flag - 1, t'.cells[i].value, m.id, m.remaining - 1, m.active - 1)
            && (t'.cells[i].value == m.value || t'.cells[i].value == None)
            && (t'.cells[i].value.Some? <==> t'.cells[i].remaining > 0)
  {
    assert AccessOk(t, t.accesses[a]);
    OpenAccessReads(c, t, a);
    assert CellOk(c, t, t.accesses[a].cell);
  }

  // ----- a publication reaches its subscribers -----------------------------------------------------

  lemma StepExtendsLog<T>(c: Config, t: Topic<T>, x: Action<T>)
    requires Inv(c, t) && Enabled(c, t, x)
    ensures t.log <= Apply(c, t, x).log
  {
    if x.Release? { ReleaseKeeps(c, t, x.a); }
  }

  lemma {:induction false} RunExtendsLog<T>(c: Config, t: Topic<T>, run: seq<Action<T>>)
    requires Inv(c, t) && EnabledAll(c, t, run)
    ensures t.log <= ApplyAll(c, t, run).log
    decreases |run|
  {
    if run != [] {
      StepKeeps(c, t, run[0]);
      StepExtendsLog(c, t, run[0]);
      RunExtendsLog(c, Apply(c, t, run[0]), run[1..]);
    }
  }

  /**
   What was published is what is received: after any run that follows a successful
   publication of v, a subscriber whose turn it is gets v, unless more than a
   queue's size of messages have been published since its id.
   */
  lemma PublishedIsReceived<T>(c: Config, t: Topic<T>, v: T, run: seq<Action<T>>, s: nat)
    requires Inv(c, t) && t.next + 1 < c.invalid && t.cells[CellIndexOf(c, t, t.next)].flag == 0
    requires Inv(c, ApplyPublish(c, t, v)) && EnabledAll(c, ApplyPublish(c, t, v), run)
    requires var u := ApplyAll(c, ApplyPublish(c, t, v), run); s in u.subs && u.subs[s].nextId == t.next
    ensures var u := ApplyAll(c, ApplyPublish(c, t, v), run);
            && Inv(c, u) && u.next > t.next
            && var (r, cells) := ReceiveOf(c, u.cells, u.next, t.next);
               if u.next - t.next <= Pow2(c.q) then r.Delivered? && r.cell < |cells| && cells[r.cell].value == Some(v)
               else r == Mismatch
  {
    var t' := ApplyPublish(c, t, v);
    RunKeeps(c, t', run);
    RunExtendsLog(c, t', run);
    assert t'.log == t.log + [v] && t'.log[t.next] == v;
    DeliveredUnlessOverwritten(c, ApplyAll(c, t', run), s);
  }

  // ----- a value is reset when its last reader is done ------------------------------------------------

  /** The references that remain are exactly those in use and those still to be claimed. */
  ghost predicate SettledCell<T>(c: Config, t: Topic<T>, i: nat)
    requires i < |t.cells|
  {
    var m := t.cells[i];
    m.id != c.invalid ==> m.remaining == Count(t.subs, Awaiting(m.id)) + m.flag
  }

  ghost predicate Settled<T>(c: Config, t: Topic<T>) {
    forall i | 0 <= i < |t.cells| :: SettledCell(c, t, i)
  }

  lemma PublishSettles<T>(c: Config, t: Topic<T>, v: T, k: nat)
    requires Inv(c, t) && Settled(c, t) && t.next + 1 < c.invalid && k < |t.cells|
    ensures var t' := ApplyPublish(c, t, v); k < |t'.cells| && SettledCell(c, t', k)
  {
    assert SettledCell(c, t, k);
    PublishEffect(c, t, v);
    forall s | s in t.subs ensures Awaiting(t.next)(t.subs[s]) {
      assert SubscriberOk(t, t.subs[s]);
    }
    CountAll(t.subs, Awaiting(t.next));
  }

  lemma ReceiveSettles<T>(c: Config, t: Topic<T>, s: nat, a: nat, k: nat)
    requires Inv(c, t) && Settled(c, t) && s in t.subs && t.subs[s].nextId != t.next && a !in t.accesses && k < |t.cells|
    ensures var t' := ApplyReceive(c, t, s, a); k < |t'.cells| && SettledCell(c, t', k)
  {
    var t' := ApplyReceive(c, t, s, a);
    assert SettledCell(c, t, k) && CellOk(c, t, k);
    ReceiveEffect(c, t, s, a);
    CountUpdate(t.subs, s, t'.subs[s], Awaiting(t.cells[k].id));
    var id := t.subs[s].nextId;
    assert id < c.invalid by { assert SubscriberOk(t, t.subs[s]); }
    if t.cells[CellIndexOf(c, t, id)].id != id { Overwritten(c, t, id); }
  }

  lemma ReleaseSettles<T>(c: Config, t: Topic<T>, a: nat, k: nat)
    requires Inv(c, t) && Settled(c, t) && a in t.accesses && k < |t.cells|
    ensures AccessOk(t, t.accesses[a])
    ensures var t' := ApplyRelease(t, a); k < |t'.cells| && SettledCell(c, t', k)
  {
    assert SettledCell(c, t, k);
    ReleaseEffect(c, t, a);
  }

  lemma SubscribeSettles<T>(c: Config, t: Topic<T>, s: nat, k: nat)
    requires Inv(c, t) && Settled(c, t) && s !in t.subs && k < |t.cells|
    ensures SettledCell(c, ApplySubscribe(t, s), k)
  {
    assert SettledCell(c, t, k) && CellOk(c, t, k);
    CountUpdate(t.subs, s, Subscriber(t.next, []), Awaiting(t.cells[k].id));
  }

  lemma StepKeepsSettled<T>(c: Config, t: Topic<T>, x: Action<T>)
    requires Inv(c, t) && Settled(c, t) && Enabled(c, t, x) && !x.Cancel?
    ensures Settled(c, Apply(c, t, x))
  {
    var t' := Apply(c, t, x);
    StepKeeps(c, t, x);
    forall k | 0 <= k < |t'.cells| ensures SettledCell(c, t', k) {
      match x
      case Publish(v) => PublishSettles(c, t, v, k);
      case Receive(s, a) => ReceiveSettles(c, t, s, a, k);
      case Release(a) => ReleaseSettles(c, t, a, k);
      case Subscribe(s) => SubscribeSettles(c, t, s, k);
    }
  }

  lemma {:induction false} RunKeepsSettled<T>(c: Config, t: Topic<T>, run: seq<Action<T>>)
    requires Inv(c, t) && Settled(c, t) && EnabledAll(c, t, run) && forall x | x in run :: !x.Cancel?
    ensures Settled(c, ApplyAll(c, t, run))
    decreases |run|
  {
    if run != [] {
      StepKeeps(c, t, run[0]);
      StepKeepsSettled(c, t, run[0]);
      RunKeepsSettled(c, Apply(c, t, run[0]), run[1..]);
    }
  }

  /** The release of a resets the value exactly when nobody else reads it and no subscriber is still to come. */
  lemma LastReaderResets<T>(c: Config, t: Topic<T>, a: nat)
    requires Inv(c, t) && Settled(c, t) && a in t.accesses
    ensures AccessOk(t, t.accesses[a])
    ensures var i, id, t' := t.accesses[a].cell, t.accesses[a].id, ApplyRelease(t, a);
            && i < |t'.cells|
            && (t'.cells[i].value.None? <==>
                  && (forall x | x in t'.accesses :: t'.accesses[x].cell != i)
                  && (forall s | s in t'.subs :: t'.subs[s].nextId > id))
  {
    var i, id, t' := t.accesses[a].cell, t.accesses[a].id, ApplyRelease(t, a);
    OpenAccessReads(c, t, a);
    ReleaseEffect(c, t, a);
    ReleaseKeeps(c, t, a);
    ReleaseSettles(c, t, a, i);
    assert CellOk(c, t, i) && CellOk(c, t', i);
    CountZero(t'.accesses, OnCell(i));
    CountZero(t'.subs, Awaiting(id));
    assert forall x | x in t'.accesses :: OnCell(i)(t'.accesses[x]) <==> t'.accesses[x].cell == i;
    assert forall s | s in t'.subs :: Awaiting(id)(t'.subs[s]) <==> t'.subs[s].nextId <= id;
  }

  /** On every run in which nobody cancels. */
  lemma ValueLivesUntilAllHaveRead<T>(c: Config, run: seq<Action<T>>, a: nat)
    requires 0 < c.invalid && Inv(c, Initial<T>(c)) && EnabledAll(c, Initial(c), run)
    requires (forall x | x in run :: !x.Cancel?) && a in ApplyAll(c, Initial(c), run).accesses
    ensures Inv(c, ApplyAll(c, Initial(c), run)) && Settled(c, ApplyAll(c, Initial(c), run))
    ensures var t := ApplyAll(c, Initial(c), run);
            && AccessOk(t, t.accesses[a])
            && var i, id, t' := t.accesses[a].cell, t.accesses[a].id, ApplyRelease(t, a);
               && i < |t'.cells|
               && (t'.cells[i].value.None? <==>
                     && (forall x | x in t'.accesses :: t'.accesses[x].cell != i)
                     && (forall s | s in t'.subs :: t'.subs[s].nextId > id))
  {
    var t0 := Initial<T>(c);
    forall i | 0 <= i < |t0.cells| ensures SettledCell(c, t0, i) {}
    RunKeeps(c, t0, run);
    RunKeepsSettled(c, t0, run);
    LastReaderResets(c, ApplyAll(c, t0, run), a);
  }
}
