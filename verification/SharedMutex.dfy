/**
 The spin locks of mutex.h, one step per atomic operation, for any number of
 threads. A thread may act on a value of the flag that is stale by then.
 compare_exchange_weak is taken to fail only when the values differ.
 */
module SharedMutex {
  import opened Counting

  /** Where a thread stands in one of the shared_mutex operations. */
  datatype Thread =
    | Idle
    /** lock_shared or try_lock_shared: the flag was loaded and is not -1. */
    | Loaded(expected: int)
    /** try_lock_shared(retries): r attempts failed; since is the change count when the call began. */
    | Retry(r: nat, retries: nat, since: nat)
    | RetryLoaded(r: nat, retries: nat, since: nat, expected: int, at: nat)
    | Writing
    | Reading

  /** flag is the lock word; changes counts the operations that altered it. */
  datatype Lock = Lock(flag: int, threads: map<nat, Thread>, changes: nat)

  ghost function IsWriting(): Thread -> bool { (t: Thread) => t.Writing? }

  ghost function IsReading(): Thread -> bool { (t: Thread) => t.Reading? }

  ghost predicate ThreadOk(l: Lock, t: Thread) {
    match t
    case Loaded(e) => e >= 0
    case Retry(r, retries, since) => since + r <= l.changes
    case RetryLoaded(r, retries, since, e, at) =>
      e >= 0 && since + r <= at <= l.changes && (at == l.changes ==> l.flag == e)
    case _ => true
  }

  ghost predicate Inv(l: Lock) {
    && (if l.flag == -1 then Count(l.threads, IsWriting()) == 1 && Count(l.threads, IsReading()) == 0
        else Count(l.threads, IsWriting()) == 0 && l.flag == Count(l.threads, IsReading()))
    && forall i | i in l.threads :: ThreadOk(l, l.threads[i])
  }

  datatype Action =
    /** One round of lock, or try_lock. */
    | TryLock(i: nat)
    | Unlock(i: nat)
    /** One round of lock_shared, or try_lock_shared: load, then compare and exchange. */
    | LoadShared(i: nat)
    | CasShared(i: nat)
    | UnlockShared(i: nat)
    /** try_lock_shared(retries): entry, and the two halves of an attempt. */
    | BeginRetry(i: nat, retries: nat)
    | RetryLoad(i: nat)
    | RetryCas(i: nat)

  predicate Enabled(l: Lock, a: Action) {
    a.i in l.threads &&
    match a
    case TryLock(i) => l.threads[i].Idle?
    case Unlock(i) => l.threads[i].Writing?
    case LoadShared(i) => l.threads[i].Idle?
    case CasShared(i) => l.threads[i].Loaded?
    case UnlockShared(i) => l.threads[i].Reading?
    case BeginRetry(i, _) => l.threads[i].Idle?
    case RetryLoad(i) => l.threads[i].Retry?
    case RetryCas(i) => l.threads[i].RetryLoaded?
  }

  function At(l: Lock, i: nat, t: Thread): Lock {
    l.(threads := l.threads[i := t])
  }

  function Change(l: Lock, flag: int, i: nat, t: Thread): Lock {
    Lock(flag, l.threads[i := t], l.changes + 1)
  }

  function Apply(l: Lock, a: Action): Lock
    requires Enabled(l, a)
  {
    match a
    case TryLock(i) => if l.flag == 0 then Change(l, -1, i, Writing) else l
    case Unlock(i) => Change(l, 0, i, Idle)
    case LoadShared(i) => if l.flag == -1 then l else At(l, i, Loaded(l.flag))
    case CasShared(i) =>
      if l.flag == l.threads[i].expected then Change(l, l.flag + 1, i, Reading) else At(l, i, Idle)
    case UnlockShared(i) => Change(l, l.flag - 1, i, Idle)
    case BeginRetry(i, retries) => At(l, i, Retry(0, retries, l.changes))
    case RetryLoad(i) =>
      var t := l.threads[i];
      if Exhausted(t) || l.flag == -1 then At(l, i, Idle)
      else At(l, i, RetryLoaded(t.r, t.retries, t.since, l.flag, l.changes))
    case RetryCas(i) =>
      var t := l.threads[i];
      if l.flag == t.expected then Change(l, l.flag + 1, i, Reading)
      else At(l, i, Retry(t.r + 1, t.retries, t.since))
  }

  /** The loop of try_lock_shared(retries) is over without success. */
  predicate Exhausted(t: Thread) {
    t.Retry? && t.r >= t.retries + 1
  }

  lemma OneThreadMoves(m: map<nat, Thread>, i: nat, t: Thread)
    requires i in m
    ensures Count(m[i := t], IsWriting()) == Count(m, IsWriting()) - (if m[i].Writing? then 1 else 0) + (if t.Writing? then 1 else 0)
    ensures Count(m[i := t], IsReading()) == Count(m, IsReading()) - (if m[i].Reading? then 1 else 0) + (if t.Reading? then 1 else 0)
  {
    CountUpdate(m, i, t, IsWriting());
    CountUpdate(m, i, t, IsReading());
  }

  lemma StepKeeps(l: Lock, a: Action)
    requires Inv(l) && Enabled(l, a)
    ensures Inv(Apply(l, a))
  {
    var l' := Apply(l, a);
    OneThreadMoves(l.threads, a.i, l'.threads[a.i]);
    assert l'.threads == l.threads[a.i := l'.threads[a.i]];
    forall i | i in l'.threads ensures ThreadOk(l', l'.threads[i]) {
      assert ThreadOk(l, l.threads[i]);
      assert ThreadOk(l, l.threads[a.i]);
    }
  }

  ghost predicate EnabledAll(l: Lock, run: seq<Action>)
    decreases |run|
  {
    run == [] || (Enabled(l, run[0]) && EnabledAll(Apply(l, run[0]), run[1..]))
  }

  function ApplyAll(l: Lock, run: seq<Action>): Lock
    requires EnabledAll(l, run)
    decreases |run|
  {
    if run == [] then l else ApplyAll(Apply(l, run[0]), run[1..])
  }

  ghost predicate Fresh(l: Lock) {
    l.flag == 0 && forall i | i in l.threads :: l.threads[i] == Idle
  }

  lemma FreshInv(l: Lock)
    requires Fresh(l)
    ensures Inv(l)
  {
    CountZero(l.threads, IsWriting());
    CountZero(l.threads, IsReading());
  }

  lemma {:induction false} RunKeeps(l: Lock, run: seq<Action>)
    requires Inv(l) && EnabledAll(l, run)
    ensures Inv(ApplyAll(l, run))
    decreases |run|
  {
    if run != [] {
      StepKeeps(l, run[0]);
      RunKeeps(Apply(l, run[0]), run[1..]);
    }
  }

  /**
   On every run of any number of threads: a writer excludes everybody else, and
   without one the flag is the number of readers.
   */
  lemma Exclusion(l: Lock, run: seq<Action>, i: nat, j: nat)
    requires Fresh(l) && EnabledAll(l, run)
    requires var l' := ApplyAll(l, run); i in l'.threads && j in l'.threads && i != j
    ensures var l' := ApplyAll(l, run);
            && (l'.threads[i].Writing? ==> !l'.threads[j].Writing? && !l'.threads[j].Reading? && l'.flag == -1)
            && (l'.flag != -1 ==> l'.flag == Count(l'.threads, IsReading()))
            && (l'.flag == -1 ==> Count(l'.threads, IsWriting()) == 1)
  {
    FreshInv(l);
    RunKeeps(l, run);
    var l' := ApplyAll(l, run);
    CountZero(l'.threads, IsWriting());
    CountZero(l'.threads, IsReading());
    if l'.threads[i].Writing? && l'.threads[j].Writing? {
      CountUnique(l'.threads, IsWriting(), i, j);
    }
  }

  /**
   Failed attempts of a bounded retry never exceed the changes of the flag since
   the call began; it runs out only after more changes than it has retries.
   */
  lemma FailuresAreInterference(l: Lock, run: seq<Action>, i: nat)
    requires Fresh(l) && EnabledAll(l, run) && i in ApplyAll(l, run).threads
    ensures var l' := ApplyAll(l, run); var t := l'.threads[i];
            && (t.Retry? || t.RetryLoaded? ==> t.r <= l'.changes - t.since)
            && (Exhausted(t) ==> l'.changes - t.since > t.retries)
  {
    FreshInv(l);
    RunKeeps(l, run);
    assert ThreadOk(ApplyAll(l, run), ApplyAll(l, run).threads[i]);
  }

  // ----- who gets in -----------------------------------------------------------------------

  ghost predicate Holding(l: Lock, i: nat) {
    i in l.threads && (l.threads[i].Writing? || l.threads[i].Reading?)
  }

  /** The flag tells who holds the lock. */
  lemma FlagTells(l: Lock)
    requires Inv(l)
    ensures l.flag == 0 <==> forall i :: !Holding(l, i)
    ensures l.flag == -1 <==> exists i :: i in l.threads && l.threads[i].Writing?
  {
    CountZero(l.threads, IsWriting());
    CountZero(l.threads, IsReading());
    if w :| w in l.threads && l.threads[w].Writing? { assert IsWriting()(l.threads[w]) && Holding(l, w); }
    if l.flag == -1 {
      var w :| w in l.threads && IsWriting()(l.threads[w]);
      assert Holding(l, w);
    } else if l.flag > 0 {
      var r :| r in l.threads && IsReading()(l.threads[r]);
      assert Holding(l, r);
    } else {
      assert forall i | i in l.threads :: !IsWriting()(l.threads[i]) && !IsReading()(l.threads[i]);
    }
  }

  /** An attempt at the exclusive lock succeeds exactly when nobody holds the lock; a failed one changes nothing. */
  lemma WriterGetsIn(l: Lock, i: nat)
    requires Inv(l) && Enabled(l, TryLock(i))
    ensures Apply(l, TryLock(i)).threads[i].Writing? <==> forall j :: !Holding(l, j)
    ensures Holding(Apply(l, TryLock(i)), i) || Apply(l, TryLock(i)) == l
  {
    FlagTells(l);
  }

  /** A reader that nobody interrupts gets in exactly when there is no writer, in either of the shared operations. */
  lemma ReaderGetsIn(l: Lock, i: nat, retries: nat)
    requires Inv(l) && i in l.threads && l.threads[i].Idle?
    ensures var writer := exists j :: j in l.threads && l.threads[j].Writing?;
            var loaded := Apply(l, LoadShared(i));
            var begun := Apply(l, BeginRetry(i, retries));
            && (writer ==> loaded == l)
            && (!writer ==> Enabled(loaded, CasShared(i)) && GotIn(l, Apply(loaded, CasShared(i)), i))
            && Enabled(begun, RetryLoad(i))
            && (writer ==> Apply(begun, RetryLoad(i)) == l)
            && (!writer ==>
                  && Enabled(Apply(begun, RetryLoad(i)), RetryCas(i))
                  && GotIn(l, Apply(Apply(begun, RetryLoad(i)), RetryCas(i)), i))
  {
    FlagTells(l);
    assert l.threads[i := Idle] == l.threads;
  }

  /** Thread i reads, is counted in the flag, and no other thread moved. */
  ghost predicate GotIn(l: Lock, l': Lock, i: nat) {
    l'.flag == l.flag + 1 && l'.threads == l.threads[i := Reading]
  }

  /** An exchange with a value that is stale by then fails: it leaves the flag and does not let the thread in. */
  lemma StaleExchangeFails(l: Lock, i: nat)
    requires i in l.threads
    ensures l.threads[i].Loaded? && l.flag != l.threads[i].expected ==>
              Apply(l, CasShared(i)).flag == l.flag && Apply(l, CasShared(i)).threads[i].Idle?
    ensures l.threads[i].RetryLoaded? && l.flag != l.threads[i].expected ==>
              Apply(l, RetryCas(i)).flag == l.flag && Apply(l, RetryCas(i)).threads[i].Retry?
  {
  }

  /** A thread within an operation is never blocked. */
  lemma NeverBlocked(l: Lock, i: nat, retries: nat)
    requires i in l.threads
    ensures match l.threads[i]
            case Idle => Enabled(l, TryLock(i)) && Enabled(l, LoadShared(i)) && Enabled(l, BeginRetry(i, retries))
            case Loaded(_) => Enabled(l, CasShared(i))
            case Retry(_, _, _) => Enabled(l, RetryLoad(i))
            case RetryLoaded(_, _, _, _, _) => Enabled(l, RetryCas(i))
            case Writing => Enabled(l, Unlock(i))
            case Reading => Enabled(l, UnlockShared(i))
  {
  }

  /** After a writer's unlock anyone gets in; a reader's unlock takes that reader alone out. */
  lemma UnlockLetsOthersIn(l: Lock, i: nat, j: nat)
    requires Inv(l) && i in l.threads && j in l.threads && l.threads[j].Idle?
    ensures l.threads[i].Writing? ==> Apply(Apply(l, Unlock(i)), TryLock(j)).threads[j].Writing?
    ensures l.threads[i].Reading? ==>
              && Apply(l, UnlockShared(i)).threads == l.threads[i := Idle]
              && ((forall k :: Holding(l, k) ==> k == i) ==>
                    Apply(Apply(l, UnlockShared(i)), TryLock(j)).threads[j].Writing?)
  {
    if l.threads[i].Reading? {
      var l' := Apply(l, UnlockShared(i));
      StepKeeps(l, UnlockShared(i));
      if forall k :: Holding(l, k) ==> k == i {
        assert forall k :: Holding(l', k) ==> Holding(l, k);
        WriterGetsIn(l', j);
      }
    }
  }

  // ----- the exclusive mutex ---------------------------------------------------------------

  /** flag, and the threads that exchanged false for true and have not stored false since. */
  datatype Mutex = Mutex(flag: bool, owners: set<nat>)

  /** One exchange of lock, try_lock or try_lock(retries). */
  function Exchange(m: Mutex, i: nat): Mutex {
    Mutex(true, if m.flag then m.owners else m.owners + {i})
  }

  function Store(m: Mutex, i: nat): Mutex {
    Mutex(false, m.owners - {i})
  }

  ghost predicate MutexInv(m: Mutex) {
    if m.flag then exists i :: m.owners == {i} else m.owners == {}
  }

  /** Exchanges by anyone and unlocks by the owner keep: locked means exactly one owner. */
  lemma MutexKeeps(m: Mutex, i: nat)
    requires MutexInv(m)
    ensures MutexInv(Exchange(m, i))
    ensures i in m.owners ==> MutexInv(Store(m, i)) && Store(m, i).owners == {}
  {
    if !m.flag { assert Exchange(m, i).owners == {i}; }
  }

  /** An exchange makes its thread the owner exactly when the mutex was free, and after the owner's unlock it is. */
  lemma MutexGetsIn(m: Mutex, i: nat, j: nat)
    requires MutexInv(m) && j !in m.owners
    ensures j in Exchange(m, j).owners <==> !m.flag
    ensures m.flag ==> Exchange(m, j) == m
    ensures i in m.owners ==> Exchange(Store(m, i), j).owners == {j}
  {
    if i in m.owners { MutexKeeps(m, i); }
  }
}
