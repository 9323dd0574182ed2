/**
 Sizes and indices of the real-time message buffer. w is the width of
 uint_half_t; its arithmetic wraps at Pow2(w).
 */
module RealTimeLayout {
  import opened Numeric

  /** Slots per publisher: room for every handle of every subscriber, the own last message and one more. */
  function PerPublisherPoolSize(subscribers: nat, acquires: nat, w: nat): Option<nat> {
    CeilToPowerOfTwo((subscribers * acquires + 2) % Pow2(w), w)
  }

  /** Slots of all publishers, multiplied in half words. */
  function MessageBufferSize(poolSize: nat, publishers: nat, w: nat): nat {
    (poolSize * publishers) % Pow2(w)
  }

  /** Global index of a publisher's local message id. */
  function GetIndex(publisher: nat, localId: nat, poolSize: nat, w: nat): nat
    requires 0 < poolSize
  {
    (publisher * poolSize + And(localId, poolSize - 1)) % Pow2(w)
  }

  /** Index in the area of the i-th id tried after n, ids wrapping at Pow2(w). */
  function ProbeIndex(n: nat, i: nat, poolSize: nat, w: nat): nat
    requires 0 < poolSize
  {
    And((n + i) % Pow2(w), poolSize - 1)
  }

  /**
   The pool size has room for all handles, the retained message and one dead
   slot exactly as long as that number is at most half the range of the word.
   Beyond, the rounding is undefined or the sum has wrapped.
   */
  lemma PoolSizeExact(subscribers: nat, acquires: nat, w: nat)
    requires 2 <= w
    ensures var need, size := subscribers * acquires + 2, PerPublisherPoolSize(subscribers, acquires, w);
            && (size.Some? && need <= size.value <==> need <= Pow2(w - 1))
            && (need <= Pow2(w - 1) ==> IsPow2(size.value) && size.value <= Pow2(w - 1) && size.value < 2 * need)
  {
    var need := subscribers * acquires + 2;
    Pow2Monotone(w - 1, w);
    var low := need % Pow2(w);
    if need < Pow2(w) {
      ModUnique(need, Pow2(w), 0, need);
      CeilIsLeast(need, w);
    } else {
      var q, r := QuotientRemainder(need, Pow2(w));
      if low > 0 { CeilIsLeast(low, w); }
    }
  }

  /** The test in init_at that the capacity fits a half word can never fail: the product has wrapped before. */
  lemma CapacityTestNeverRejects(poolSize: nat, publishers: nat, w: nat)
    ensures !(MessageBufferSize(poolSize, publishers, w) > Pow2(w) - 1)
    ensures MessageBufferSize(poolSize, publishers, w) == poolSize * publishers <==> poolSize * publishers < Pow2(w)
  {
    var q, r := QuotientRemainder(poolSize * publishers, Pow2(w));
    if poolSize * publishers < Pow2(w) {
      ModUnique(poolSize * publishers, Pow2(w), 0, poolSize * publishers);
    }
  }

  lemma AreaFits(publisher: nat, publishers: nat, poolSize: nat)
    requires publisher < publishers
    ensures publisher * poolSize + poolSize <= poolSize * publishers
  {
    Scale(poolSize, publisher + 1, publishers);
    assert poolSize * (publisher + 1) == publisher * poolSize + poolSize;
  }

  /** As long as all indices fit the half word, an index is the publisher's base plus the id modulo the pool size. */
  lemma GetIndexIs(publisher: nat, publishers: nat, localId: nat, k: nat, w: nat)
    requires publisher < publishers && Pow2(k) * publishers <= Pow2(w)
    ensures var x := GetIndex(publisher, localId, Pow2(k), w);
            && x == publisher * Pow2(k) + localId % Pow2(k)
            && publisher * Pow2(k) <= x < publisher * Pow2(k) + Pow2(k) <= Pow2(k) * publishers
  {
    AndMask(localId, k);
    AreaFits(publisher, publishers, Pow2(k));
    var x := publisher * Pow2(k) + localId % Pow2(k);
    assert 0 <= publisher * Pow2(k) <= x < Pow2(w);
    ModUnique(x, Pow2(w), 0, x);
  }

  /** Indices collide only for the same publisher and the same residue, so areas never overlap. */
  lemma GetIndexInjective(p: nat, q: nat, publishers: nat, m: nat, n: nat, k: nat, w: nat)
    requires p < publishers && q < publishers && Pow2(k) * publishers <= Pow2(w)
    ensures GetIndex(p, m, Pow2(k), w) == GetIndex(q, n, Pow2(k), w) <==> p == q && m % Pow2(k) == n % Pow2(k)
    ensures GetIndex(p, m, Pow2(k), w) < Pow2(k) * publishers
  {
    GetIndexIs(p, publishers, m, k, w);
    GetIndexIs(q, publishers, n, k, w);
    if p < q { AreaFits(p, q, Pow2(k)); assert Pow2(k) * q == q * Pow2(k); }
    if q < p { AreaFits(q, p, Pow2(k)); assert Pow2(k) * p == p * Pow2(k); }
  }

  lemma ProbeIndexIs(n: nat, i: nat, k: nat, w: nat)
    requires k <= w
    ensures ProbeIndex(n, i, Pow2(k), w) == Residue(n, i, Pow2(k))
  {
    AndMask((n + i) % Pow2(w), k);
    WrapKeepsMask(n + i, k, w);
  }

  /** Any poolSize consecutive ids visit every slot of the area exactly once, also across the wrap of the id. */
  lemma ProbesVisitAll(n: nat, k: nat, w: nat, x: nat) returns (i: nat)
    requires k <= w && x < Pow2(k)
    ensures i < Pow2(k) && ProbeIndex(n, i, Pow2(k), w) == x
    ensures forall j: nat | j < Pow2(k) && ProbeIndex(n, j, Pow2(k), w) == x :: j == i
  {
    i := ResidueHit(n, Pow2(k), x);
    ProbeIndexIs(n, i, k, w);
    forall j: nat | j < Pow2(k) && ProbeIndex(n, j, Pow2(k), w) == x ensures j == i {
      ProbeIndexIs(n, j, k, w);
    }
  }
}
