/**
 Admission of readers to one message of the FIFO queue, one step per atomic
 operation, any number of consuming threads. A generation starts when the
 writer, still holding the lock, has emplaced a value for `references` readers
 while no consume is in flight, and lasts until the next successful write lock.
 */
module FifoMessage {
  import opened Counting
  import opened Numeric

  /** Where a thread stands in consume, or in the destructor of its read access. */
  datatype Consumer =
    | Idle
    /** The value was seen to be present. */
    | Checked
    /** The fetch_add on the active counter returned ticket. */
    | Ticketed(ticket: int)
    /** Admitted; r attempts to take the read lock failed out of at most limit + 1. */
    | Trying(r: nat, limit: int)
    /** The flag was loaded when it had changed `at` times. */
    | Loaded(r: nat, limit: int, expected: int, at: nat)
    /** Consume succeeded; the value is in use. */
    | Reading
    /** The destructor took the last remaining reference and is about to reset the value. */
    | Resetting
    | Unlocking
    | Leaving

  /** The message fields, the consumers, and counts of what happened in this generation. */
  datatype Message<T> = Message(
    flag: int,
    value: Option<T>,
    remaining: int,
    initial: int,
    active: int,
    threads: map<nat, Consumer>,
    /** The writer of this generation has not unlocked yet. */
    writing: bool,
    admitted: nat,
    refused: nat,
    denied: nat,
    locks: nat,
    unlocks: nat,
    released: nat,
    resets: nat)

  /** What the generation was started with: the value, its readers and the active counter at that time. */
  datatype Generation<T> = Generation(value: T, references: nat, activeBefore: nat)

  ghost predicate Start<T>(g: Generation<T>, m: Message<T>) {
    && m.flag == -1 && m.writing
    && m.value == Some(g.value)
    && m.remaining == m.initial == g.references
    && m.active == g.activeBefore
    && (forall i | i in m.threads :: m.threads[i] == Idle)
    && m.admitted == m.refused == m.denied == m.locks == m.unlocks == m.released == m.resets == 0
  }

  // ----- steps ---------------------------------------------------------------------------

  datatype Action =
    | CheckValue(i: nat)
    | TakeTicket(i: nat)
    /** Load the remaining references, compare, and read the initial ones for the retry limit. */
    | Admit(i: nat)
    | LoadFlag(i: nat)
    | CasFlag(i: nat)
    | SubRemaining(i: nat)
    | ResetValue(i: nat)
    | UnlockShared(i: nat)
    | SubActive(i: nat)
    | WriterUnlock

  predicate Enabled<T>(m: Message<T>, a: Action) {
    match a
    case CheckValue(i) => i in m.threads && m.threads[i].Idle?
    case TakeTicket(i) => i in m.threads && m.threads[i].Checked?
    case Admit(i) => i in m.threads && m.threads[i].Ticketed?
    case LoadFlag(i) => i in m.threads && m.threads[i].Trying?
    case CasFlag(i) => i in m.threads && m.threads[i].Loaded?
    case SubRemaining(i) => i in m.threads && m.threads[i].Reading?
    case ResetValue(i) => i in m.threads && m.threads[i].Resetting?
    case UnlockShared(i) => i in m.threads && m.threads[i].Unlocking?
    case SubActive(i) => i in m.threads && m.threads[i].Leaving?
    case WriterUnlock => m.writing
  }

  function At<T>(m: Message<T>, i: nat, c: Consumer): Message<T> {
    m.(threads := m.threads[i := c])
  }

  /** Changes that readers made to the flag. */
  function Changes<T>(m: Message<T>): nat {
    m.locks + m.unlocks
  }

  function Ticket<T>(m: Message<T>, i: nat): Message<T> {
    At(m, i, Ticketed(m.active)).(active := m.active + 1)
  }

  function Admission<T>(m: Message<T>, i: nat, ticket: int): Message<T> {
    if ticket >= m.remaining then At(m, i, Idle).(refused := m.refused + 1)
    else At(m, i, Trying(0, m.initial * 2 + 1)).(admitted := m.admitted + 1)
  }

  function FlagLoad<T>(m: Message<T>, i: nat, r: nat, limit: int): Message<T> {
    if r >= limit + 1 || m.flag == -1 then At(m, i, Idle).(denied := m.denied + 1)
    else At(m, i, Loaded(r, limit, m.flag, Changes(m)))
  }

  function FlagCas<T>(m: Message<T>, i: nat, c: Consumer): Message<T>
    requires c.Loaded?
  {
    if m.flag == c.expected then At(m, i, Reading).(flag := m.flag + 1, locks := m.locks + 1)
    else At(m, i, Trying(c.r + 1, c.limit))
  }

  function GiveUp<T>(m: Message<T>, i: nat): Message<T> {
    At(m, i, if m.remaining == 1 then Resetting else Unlocking).(remaining := m.remaining - 1, released := m.released + 1)
  }

  function Apply<T>(m: Message<T>, a: Action): Message<T>
    requires Enabled(m, a)
  {
    match a
    case CheckValue(i) => if m.value.Some? then At(m, i, Checked) else m
    case TakeTicket(i) => Ticket(m, i)
    case Admit(i) => Admission(m, i, m.threads[i].ticket)
    case LoadFlag(i) => FlagLoad(m, i, m.threads[i].r, m.threads[i].limit)
    case CasFlag(i) => FlagCas(m, i, m.threads[i])
    case SubRemaining(i) => GiveUp(m, i)
    case ResetValue(i) => At(m, i, Unlocking).(value := None, resets := m.resets + 1)
    case UnlockShared(i) => At(m, i, Leaving).(flag := m.flag - 1, unlocks := m.unlocks + 1)
    case SubActive(i) => At(m, i, Idle).(active := m.active - 1)
    case WriterUnlock => m.(flag := 0, writing := false)
  }

  // ----- counts ----------------------------------------------------------------------------

  ghost function IsTicketed(): Consumer -> bool { (c: Consumer) => c.Ticketed? }

  /** Tickets that would be admitted if the remaining references are n. */
  ghost function Below(n: int): Consumer -> bool { (c: Consumer) => c.Ticketed? && c.ticket < n }

  ghost function IsTrying(): Consumer -> bool { (c: Consumer) => c.Trying? || c.Loaded? }

  ghost function IsReading(): Consumer -> bool { (c: Consumer) => c.Reading? }

  ghost function IsResetting(): Consumer -> bool { (c: Consumer) => c.Resetting? }

  ghost function IsUnlocking(): Consumer -> bool { (c: Consumer) => c.Unlocking? }

  ghost function IsLeaving(): Consumer -> bool { (c: Consumer) => c.Leaving? }

  /** How many threads are at each of the places that matter. */
  datatype Census = Census(ticketed: nat, below: nat, trying: nat, reading: nat, resetting: nat, unlocking: nat, leaving: nat)

  ghost function Take(threads: map<nat, Consumer>, remaining: int): Census {
    Census(Count(threads, IsTicketed()), Count(threads, Below(remaining)), Count(threads, IsTrying()),
           Count(threads, IsReading()), Count(threads, IsResetting()), Count(threads, IsUnlocking()),
           Count(threads, IsLeaving()))
  }

  /** What one thread contributes. */
  ghost function One(c: Consumer, remaining: int): Census {
    Census(if c.Ticketed? then 1 else 0, if c.Ticketed? && c.ticket < remaining then 1 else 0,
           if c.Trying? || c.Loaded? then 1 else 0, if c.Reading? then 1 else 0, if c.Resetting? then 1 else 0,
           if c.Unlocking? then 1 else 0, if c.Leaving? then 1 else 0)
  }

  ghost predicate Balance(n: Census, out: Census, n': Census, into: Census) {
    && n'.ticketed + out.ticketed == n.ticketed + into.ticketed
    && n'.below + out.below == n.below + into.below
    && n'.trying + out.trying == n.trying + into.trying
    && n'.reading + out.reading == n.reading + into.reading
    && n'.resetting + out.resetting == n.resetting + into.resetting
    && n'.unlocking + out.unlocking == n.unlocking + into.unlocking
    && n'.leaving + out.leaving == n.leaving + into.leaving
  }

  lemma OneThreadMoves(threads: map<nat, Consumer>, i: nat, c: Consumer, remaining: int)
    requires i in threads
    ensures Balance(Take(threads, remaining), One(threads[i], remaining),
                    Take(threads[i := c], remaining), One(c, remaining))
  {
    CountUpdate(threads, i, c, IsTicketed());
    CountUpdate(threads, i, c, Below(remaining));
    CountUpdate(threads, i, c, IsTrying());
    CountUpdate(threads, i, c, IsReading());
    CountUpdate(threads, i, c, IsResetting());
    CountUpdate(threads, i, c, IsUnlocking());
    CountUpdate(threads, i, c, IsLeaving());
  }

  lemma FewerBelow(threads: map<nat, Consumer>, n: int)
    ensures Count(threads, Below(n - 1)) <= Count(threads, Below(n))
  {
    CountWeaker(threads, Below(n - 1), Below(n));
  }

  // ----- invariant ---------------------------------------------------------------------------

  /** The admission bound and the accounting of the three counters. */
  ghost predicate Accounts<T>(g: Generation<T>, m: Message<T>, n: Census) {
    && m.initial == g.references
    && m.remaining == g.references - m.released
    && m.active == g.activeBefore + n.ticketed + n.trying + n.reading + n.resetting + n.unlocking + n.leaving + m.refused + m.denied
    && n.trying + n.reading + m.denied + n.below <= m.remaining
    && m.admitted == n.trying + n.reading + m.denied + m.released
    && m.locks == n.reading + m.released
    && m.unlocks + n.resetting + n.unlocking == m.released
  }

  /** The value is reset by the last release and by nobody else. */
  ghost predicate Resets<T>(g: Generation<T>, m: Message<T>, n: Census) {
    && n.resetting + m.resets == (if g.references > 0 && m.remaining == 0 then 1 else 0)
    && m.value == if m.resets > 0 then None else Some(g.value)
  }

  ghost predicate Locked<T>(m: Message<T>, n: Census) {
    if m.writing then m.flag == -1 && Changes(m) == 0 && n.reading + n.resetting + n.unlocking == 0
    else m.flag == n.reading + n.resetting + n.unlocking
  }

  ghost predicate ThreadOk<T>(g: Generation<T>, m: Message<T>, c: Consumer) {
    match c
    case Trying(r, limit) => limit == g.references * 2 + 1 && r <= Changes(m)
    case Loaded(r, limit, e, at) =>
      && limit == g.references * 2 + 1 && !m.writing
      && r <= at <= Changes(m) && (at == Changes(m) ==> m.flag == e)
    case _ => true
  }

  ghost predicate CountsOk<T>(g: Generation<T>, m: Message<T>, n: Census) {
    Accounts(g, m, n) && Resets(g, m, n) && Locked(m, n)
  }

  ghost predicate Inv<T>(g: Generation<T>, m: Message<T>) {
    CountsOk(g, m, Take(m.threads, m.remaining)) && forall i | i in m.threads :: ThreadOk(g, m, m.threads[i])
  }

  lemma StartInv<T>(g: Generation<T>, m: Message<T>)
    requires Start(g, m)
    ensures Inv(g, m)
  {
    CountZero(m.threads, IsTicketed());
    CountZero(m.threads, Below(m.remaining));
    CountZero(m.threads, IsTrying());
    CountZero(m.threads, IsReading());
    CountZero(m.threads, IsResetting());
    CountZero(m.threads, IsUnlocking());
    CountZero(m.threads, IsLeaving());
  }

  /** A thread that still tries is one of the admitted that never held the lock: the others changed the flag at most twice each. */
  lemma InterferenceBounded<T>(g: Generation<T>, m: Message<T>, i: nat)
    requires Inv(g, m) && i in m.threads && IsTrying()(m.threads[i])
    ensures 0 < g.references && Changes(m) <= 2 * (g.references - 1)
    ensures m.threads[i].r <= 2 * (g.references - 1) < m.threads[i].limit
  {
    CountZero(m.threads, IsTrying());
    assert ThreadOk(g, m, m.threads[i]);
  }

  /** A thread that uses the value is counted among the remaining references. */
  lemma ReaderCounted<T>(g: Generation<T>, m: Message<T>, i: nat)
    requires Inv(g, m) && i in m.threads && m.threads[i].Reading?
    ensures m.remaining >= 1 && m.value == Some(g.value)
  {
    CountZero(m.threads, IsReading());
  }

  lemma TicketFits<T>(g: Generation<T>, m: Message<T>, i: nat)
    requires Inv(g, m) && i in m.threads && m.threads[i].Checked?
    ensures var n := Take(m.threads, m.remaining);
            m.active < m.remaining ==> n.trying + n.reading + m.denied + n.below + 1 <= m.remaining
  {
    CountWeaker(m.threads, Below(m.remaining), IsTicketed());
  }

  // ----- every step keeps the invariant ----------------------------------------------------------

  /** Thread i went from out to into and no other moved. */
  ghost predicate Moved<T>(m: Message<T>, out: Consumer, n: Census, into: Consumer, n': Census) {
    Balance(n, One(out, m.remaining), n', One(into, m.remaining))
  }

  lemma TicketKeepsCounts<T>(g: Generation<T>, m: Message<T>, i: nat, n: Census, n': Census)
    requires CountsOk(g, m, n) && Moved(m, Checked, n, Ticketed(m.active), n')
    requires m.active < m.remaining ==> n.trying + n.reading + m.denied + n.below + 1 <= m.remaining
    ensures CountsOk(g, Ticket(m, i), n')
  {
  }

  lemma AdmitKeepsCounts<T>(g: Generation<T>, m: Message<T>, i: nat, ticket: int, n: Census, n': Census)
    requires CountsOk(g, m, n)
    requires Moved(m, Ticketed(ticket), n, if ticket >= m.remaining then Idle else Trying(0, m.initial * 2 + 1), n')
    ensures CountsOk(g, Admission(m, i, ticket), n')
  {
  }

  lemma LoadKeepsCounts<T>(g: Generation<T>, m: Message<T>, i: nat, r: nat, limit: int, n: Census, n': Census)
    requires CountsOk(g, m, n)
    requires Moved(m, Trying(r, limit), n,
                   if r >= limit + 1 || m.flag == -1 then Idle else Loaded(r, limit, m.flag, Changes(m)), n')
    ensures CountsOk(g, FlagLoad(m, i, r, limit), n')
  {
  }

  lemma CasKeepsCounts<T>(g: Generation<T>, m: Message<T>, i: nat, c: Consumer, n: Census, n': Census)
    requires CountsOk(g, m, n) && c.Loaded? && ThreadOk(g, m, c)
    requires Moved(m, c, n, if m.flag == c.expected then Reading else Trying(c.r + 1, c.limit), n')
    ensures CountsOk(g, FlagCas(m, i, c), n')
  {
  }

  lemma GiveUpKeepsCounts<T>(g: Generation<T>, m: Message<T>, i: nat, n: Census, n': Census, below: nat)
    requires CountsOk(g, m, n) && below <= n'.below
    requires Moved(m, Reading, n, if m.remaining == 1 then Resetting else Unlocking, n')
    ensures CountsOk(g, GiveUp(m, i), n'.(below := below))
  {
  }

  lemma ExitKeepsCounts<T>(g: Generation<T>, m: Message<T>, a: Action, n: Census, n': Census)
    requires CountsOk(g, m, n) && Enabled(m, a) && (a.CheckValue? || a.ResetValue? || a.UnlockShared? || a.SubActive?)
    requires Moved(m, m.threads[a.i], n, Apply(m, a).threads[a.i], n')
    ensures CountsOk(g, Apply(m, a), n')
  {
  }

  /** The flag changes only when a change is counted, or when the writer unlocks. */
  lemma FlagChangesCounted<T>(m: Message<T>, a: Action)
    requires Enabled(m, a)
    ensures var m' := Apply(m, a);
            && Changes(m) <= Changes(m') && (!m.writing ==> !m'.writing)
            && (!m.writing && Changes(m) == Changes(m') ==> m'.flag == m.flag)
  {
  }

  lemma OtherThreadOk<T>(g: Generation<T>, m: Message<T>, a: Action, i: nat)
    requires Inv(g, m) && Enabled(m, a) && i in m.threads && (a.WriterUnlock? || i != a.i)
    ensures var m' := Apply(m, a); i in m'.threads && ThreadOk(g, m', m'.threads[i])
  {
    assert ThreadOk(g, m, m.threads[i]);
    FlagChangesCounted(m, a);
    OthersStay(m, a, i);
    ThreadOkKept(g, m, Apply(m, a), m.threads[i]);
  }

  lemma OthersStay<T>(m: Message<T>, a: Action, i: nat)
    requires Enabled(m, a) && i in m.threads && (a.WriterUnlock? || i != a.i)
    ensures i in Apply(m, a).threads && Apply(m, a).threads[i] == m.threads[i]
  {
  }

  lemma ThreadOkKept<T>(g: Generation<T>, m: Message<T>, m': Message<T>, c: Consumer)
    requires ThreadOk(g, m, c) && Changes(m) <= Changes(m') && (!m.writing ==> !m'.writing)
    requires !m.writing && Changes(m) == Changes(m') ==> m'.flag == m.flag
    ensures ThreadOk(g, m', c)
  {
  }

  lemma MoverOk<T>(g: Generation<T>, m: Message<T>, a: Action)
    requires Inv(g, m) && Enabled(m, a) && !a.WriterUnlock?
    ensures var m' := Apply(m, a); a.i in m'.threads && ThreadOk(g, m', m'.threads[a.i])
  {
    assert ThreadOk(g, m, m.threads[a.i]);
  }

  lemma StepKeeps<T>(g: Generation<T>, m: Message<T>, a: Action)
    requires Inv(g, m) && Enabled(m, a)
    ensures Inv(g, Apply(m, a))
  {
    StepKeepsThreads(g, m, a);
    StepKeepsCounts(g, m, a);
  }

  lemma StepKeepsThreads<T>(g: Generation<T>, m: Message<T>, a: Action)
    requires Inv(g, m) && Enabled(m, a)
    ensures var m' := Apply(m, a); forall i | i in m'.threads :: ThreadOk(g, m', m'.threads[i])
  {
    var m' := Apply(m, a);
    forall i | i in m'.threads ensures ThreadOk(g, m', m'.threads[i]) {
      if a.WriterUnlock? || i != a.i { OtherThreadOk(g, m, a, i); } else { MoverOk(g, m, a); }
    }
  }

  lemma TicketStep<T>(g: Generation<T>, m: Message<T>, i: nat)
    requires Inv(g, m) && i in m.threads && m.threads[i].Checked?
    ensures var m' := Ticket(m, i); CountsOk(g, m', Take(m'.threads, m'.remaining))
  {
    var c := m.threads[i];
    var into := Ticketed(m.active);
    var n, n' := Take(m.threads, m.remaining), Take(m.threads[i := into], m.remaining);
    OneThreadMoves(m.threads, i, into, m.remaining);
    TicketFits(g, m, i);
    TicketKeepsCounts(g, m, i, n, n');
  }

  lemma AdmitStep<T>(g: Generation<T>, m: Message<T>, i: nat)
    requires Inv(g, m) && i in m.threads && m.threads[i].Ticketed?
    ensures var m' := Admission(m, i, m.threads[i].ticket); CountsOk(g, m', Take(m'.threads, m'.remaining))
  {
    var c := m.threads[i];
    var into := if c.ticket >= m.remaining then Idle else Trying(0, m.initial * 2 + 1);
    var n, n' := Take(m.threads, m.remaining), Take(m.threads[i := into], m.remaining);
    OneThreadMoves(m.threads, i, into, m.remaining);
    AdmitKeepsCounts(g, m, i, c.ticket, n, n');
  }

  lemma LoadStep<T>(g: Generation<T>, m: Message<T>, i: nat)
    requires Inv(g, m) && i in m.threads && m.threads[i].Trying?
    ensures var m' := FlagLoad(m, i, m.threads[i].r, m.threads[i].limit); CountsOk(g, m', Take(m'.threads, m'.remaining))
  {
    var c := m.threads[i];
    var into := if c.r >= c.limit + 1 || m.flag == -1 then Idle else Loaded(c.r, c.limit, m.flag, Changes(m));
    var n, n' := Take(m.threads, m.remaining), Take(m.threads[i := into], m.remaining);
    OneThreadMoves(m.threads, i, into, m.remaining);
    LoadKeepsCounts(g, m, i, c.r, c.limit, n, n');
  }

  lemma CasStep<T>(g: Generation<T>, m: Message<T>, i: nat)
    requires Inv(g, m) && i in m.threads && m.threads[i].Loaded?
    ensures var m' := FlagCas(m, i, m.threads[i]); CountsOk(g, m', Take(m'.threads, m'.remaining))
  {
    var c := m.threads[i];
    var into := if m.flag == c.expected then Reading else Trying(c.r + 1, c.limit);
    var n, n' := Take(m.threads, m.remaining), Take(m.threads[i := into], m.remaining);
    OneThreadMoves(m.threads, i, into, m.remaining);
    assert ThreadOk(g, m, c);
    CasKeepsCounts(g, m, i, c, n, n');
  }

  lemma GiveUpStep<T>(g: Generation<T>, m: Message<T>, i: nat)
    requires Inv(g, m) && i in m.threads && m.threads[i].Reading?
    ensures var m' := GiveUp(m, i); CountsOk(g, m', Take(m'.threads, m'.remaining))
  {
    var c := m.threads[i];
    var into := if m.remaining == 1 then Resetting else Unlocking;
    var n, n' := Take(m.threads, m.remaining), Take(m.threads[i := into], m.remaining);
    OneThreadMoves(m.threads, i, into, m.remaining);
    FewerBelow(m.threads[i := into], m.remaining);
    GiveUpKeepsCounts(g, m, i, n, n', Count(m.threads[i := into], Below(m.remaining - 1)));
  }

  lemma ExitStep<T>(g: Generation<T>, m: Message<T>, a: Action)
    requires Inv(g, m) && Enabled(m, a) && (a.CheckValue? || a.ResetValue? || a.UnlockShared? || a.SubActive?)
    ensures var m' := Apply(m, a); CountsOk(g, m', Take(m'.threads, m.remaining))
  {
    var into := Apply(m, a).threads[a.i];
    OneThreadMoves(m.threads, a.i, into, m.remaining);
    assert Apply(m, a).threads == m.threads[a.i := into];
    ExitKeepsCounts(g, m, a, Take(m.threads, m.remaining), Take(Apply(m, a).threads, m.remaining));
  }

  lemma StepKeepsCounts<T>(g: Generation<T>, m: Message<T>, a: Action)
    requires Inv(g, m) && Enabled(m, a)
    ensures var m' := Apply(m, a); CountsOk(g, m', Take(m'.threads, m'.remaining))
  {
    match a
    case TakeTicket(i) => TicketStep(g, m, i);
    case Admit(i) => AdmitStep(g, m, i);
    case LoadFlag(i) => LoadStep(g, m, i);
    case CasFlag(i) => CasStep(g, m, i);
    case SubRemaining(i) => GiveUpStep(g, m, i);
    case WriterUnlock =>
    case CheckValue(_) => ExitStep(g, m, a);
    case ResetValue(_) => ExitStep(g, m, a);
    case UnlockShared(_) => ExitStep(g, m, a);
    case SubActive(_) => ExitStep(g, m, a);
  }

  ghost predicate EnabledAll<T>(m: Message<T>, run: seq<Action>)
    decreases |run|
  {
    run == [] || (Enabled(m, run[0]) && EnabledAll(Apply(m, run[0]), run[1..]))
  }

  function ApplyAll<T>(m: Message<T>, run: seq<Action>): Message<T>
    requires EnabledAll(m, run)
    decreases |run|
  {
    if run == [] then m else ApplyAll(Apply(m, run[0]), run[1..])
  }

  lemma {:induction false} RunKeeps<T>(g: Generation<T>, m: Message<T>, run: seq<Action>)
    requires Inv(g, m) && EnabledAll(m, run)
    ensures Inv(g, ApplyAll(m, run))
    decreases |run|
  {
    if run != [] {
      StepKeeps(g, m, run[0]);
      RunKeeps(g, Apply(m, run[0]), run[1..]);
    }
  }

  // ----- what follows on every run ----------------------------------------------------------------

  /**
   At most as many consumes are admitted as the value was emplaced for, however
   many threads try and whatever the active counter was before.
   */
  lemma AdmissionBound<T>(g: Generation<T>, m: Message<T>, run: seq<Action>)
    requires Start(g, m) && EnabledAll(m, run)
    ensures var m' := ApplyAll(m, run);
            && m'.admitted <= g.references
            && m'.locks <= m'.admitted
            && Count(m'.threads, IsTrying()) + Count(m'.threads, IsReading()) + Count(m'.threads, Below(m'.remaining)) <= m'.remaining
  {
    StartInv(g, m);
    RunKeeps(g, m, run);
  }

  /** While anyone uses the value it is the one emplaced, and nobody is resetting it. */
  lemma ReadersSeeTheValue<T>(g: Generation<T>, m: Message<T>, run: seq<Action>, i: nat)
    requires Start(g, m) && EnabledAll(m, run)
    requires i in ApplyAll(m, run).threads && ApplyAll(m, run).threads[i].Reading?
    ensures var m' := ApplyAll(m, run);
            && m'.value == Some(g.value) && m'.flag > 0
            && forall j | j in m'.threads :: !m'.threads[j].Resetting?
  {
    StartInv(g, m);
    RunKeeps(g, m, run);
    var m' := ApplyAll(m, run);
    ReaderCounted(g, m', i);
    CountZero(m'.threads, IsReading());
    CountZero(m'.threads, IsResetting());
  }

  /** The value goes exactly when the last of its readers releases it, once, by one thread. */
  lemma ResetExactlyOnce<T>(g: Generation<T>, m: Message<T>, run: seq<Action>)
    requires Start(g, m) && EnabledAll(m, run)
    ensures var m' := ApplyAll(m, run);
            && m'.resets <= 1
            && (m'.value.None? <==> m'.resets == 1)
            && (Count(m'.threads, IsResetting()) + m'.resets == 1 <==> 0 < g.references == m'.released)
            && m'.released <= g.references
            && (m'.denied > 0 ==> m'.resets == 0 && m'.value == Some(g.value))
  {
    StartInv(g, m);
    RunKeeps(g, m, run);
  }

  /**
   An admitted reader is turned away only if it finds the writer of this very
   value still holding the lock; it never runs out of attempts, because the
   others change the flag at most twice each.
   */
  lemma LockDeniedOnlyByWriter<T>(g: Generation<T>, m: Message<T>, run: seq<Action>, i: nat)
    requires Start(g, m) && EnabledAll(m, run) && Enabled(ApplyAll(m, run), LoadFlag(i))
    ensures var m' := ApplyAll(m, run);
            && (Apply(m', LoadFlag(i)).threads[i].Idle? <==> m'.writing)
            && (Apply(m', LoadFlag(i)).threads[i].Loaded? <==> !m'.writing)
            && m'.threads[i].r <= 2 * (g.references - 1)
  {
    StartInv(g, m);
    RunKeeps(g, m, run);
    InterferenceBounded(g, ApplyAll(m, run), i);
  }

  /** The window exists: a reader admitted between emplace and unlock is turned away. */
  lemma DeniedBeforeUnlock<T>(v: T)
    ensures var m := Message(-1, Some(v), 1, 1, 0, map[0 := Idle], true, 0, 0, 0, 0, 0, 0, 0);
            var run := [CheckValue(0), TakeTicket(0), Admit(0), LoadFlag(0)];
            && Start(Generation(v, 1, 0), m) && EnabledAll(m, run)
            && ApplyAll(m, run).admitted == 1 && ApplyAll(m, run).denied == 1
  {
    var m0 := Message(-1, Some(v), 1, 1, 0, map[0 := Idle], true, 0, 0, 0, 0, 0, 0, 0);
    var m1 := Apply(m0, CheckValue(0));
    var m2 := Apply(m1, TakeTicket(0));
    var m3 := Apply(m2, Admit(0));
    var m4 := Apply(m3, LoadFlag(0));
    var run := [CheckValue(0), TakeTicket(0), Admit(0), LoadFlag(0)];
    assert run[1..] == [TakeTicket(0), Admit(0), LoadFlag(0)];
    assert run[1..][1..] == [Admit(0), LoadFlag(0)];
    assert run[1..][1..][1..] == [LoadFlag(0)];
    assert run[1..][1..][1..][1..] == [];
    assert EnabledAll(m4, []) && ApplyAll(m4, []) == m4;
    assert EnabledAll(m3, [LoadFlag(0)]) && ApplyAll(m3, [LoadFlag(0)]) == m4;
    assert EnabledAll(m2, [Admit(0), LoadFlag(0)]) && ApplyAll(m2, [Admit(0), LoadFlag(0)]) == m4;
  }

  lemma StepDeniesNobody<T>(g: Generation<T>, m: Message<T>, a: Action)
    requires Inv(g, m) && !m.writing && Enabled(m, a)
    ensures Apply(m, a).denied == m.denied && !Apply(m, a).writing
  {
    if a.LoadFlag? { InterferenceBounded(g, m, a.i); }
  }

  /** After the writer has unlocked no admitted reader is turned away any more. */
  lemma {:induction false} NoDenialAfterUnlock<T>(g: Generation<T>, m: Message<T>, run: seq<Action>)
    requires Inv(g, m) && !m.writing && EnabledAll(m, run)
    ensures ApplyAll(m, run).denied == m.denied
    decreases |run|
  {
    if run != [] {
      StepKeeps(g, m, run[0]);
      StepDeniesNobody(g, m, run[0]);
      NoDenialAfterUnlock(g, Apply(m, run[0]), run[1..]);
    }
  }

  /** A thread within a call is never blocked: its next atomic operation is possible in every state. */
  lemma NeverBlocked<T>(m: Message<T>, i: nat)
    requires i in m.threads
    ensures match m.threads[i]
            case Idle => Enabled(m, CheckValue(i))
            case Checked => Enabled(m, TakeTicket(i))
            case Ticketed(_) => Enabled(m, Admit(i))
            case Trying(_, _) => Enabled(m, LoadFlag(i))
            case Loaded(_, _, _, _) => Enabled(m, CasFlag(i))
            case Reading => Enabled(m, SubRemaining(i))
            case Resetting => Enabled(m, ResetValue(i))
            case Unlocking => Enabled(m, UnlockShared(i))
            case Leaving => Enabled(m, SubActive(i))
  {
  }

  /** An exchange with a value of the flag that is stale by then fails, costs one attempt and changes nothing else. */
  lemma StaleExchangeFails<T>(m: Message<T>, i: nat)
    requires i in m.threads && m.threads[i].Loaded? && m.flag != m.threads[i].expected
    ensures Apply(m, CasFlag(i)) == m.(threads := m.threads[i := Trying(m.threads[i].r + 1, m.threads[i].limit)])
  {
  }

  // ----- calls that nobody interrupts -----------------------------------------------------------

  lemma RunOfOneMore<T>(m: Message<T>, a: Action, rest: seq<Action>)
    ensures EnabledAll(m, [a] + rest) <==> Enabled(m, a) && EnabledAll(Apply(m, a), rest)
    ensures EnabledAll(m, [a] + rest) ==> ApplyAll(m, [a] + rest) == ApplyAll(Apply(m, a), rest)
  {
    assert ([a] + rest)[0] == a && ([a] + rest)[1..] == rest;
  }

  /** The atomic operations of a whole call of consume by thread i, up to where it is turned away or let in. */
  function ConsumeRun<T>(m: Message<T>, i: nat): seq<Action> {
    if m.value.None? then [CheckValue(i)]
    else if m.active >= m.remaining then [CheckValue(i), TakeTicket(i), Admit(i)]
    else if m.writing then [CheckValue(i), TakeTicket(i), Admit(i), LoadFlag(i)]
    else [CheckValue(i), TakeTicket(i), Admit(i), LoadFlag(i), CasFlag(i)]
  }

  lemma RunOf1<T>(m: Message<T>, a: Action)
    requires Enabled(m, a)
    ensures EnabledAll(m, [a]) && ApplyAll(m, [a]) == Apply(m, a)
  {
    RunOfOneMore(m, a, []);
    assert [a] == [a] + [];
  }

  lemma RunOf3<T>(m: Message<T>, a: Action, b: Action, c: Action)
    requires Enabled(m, a) && Enabled(Apply(m, a), b) && Enabled(Apply(Apply(m, a), b), c)
    ensures EnabledAll(m, [a, b, c]) && ApplyAll(m, [a, b, c]) == Apply(Apply(Apply(m, a), b), c)
  {
    var m1, m2 := Apply(m, a), Apply(Apply(m, a), b);
    RunOf1(m2, c);
    RunOfOneMore(m1, b, [c]);
    RunOfOneMore(m, a, [b, c]);
    assert [b, c] == [b] + [c] && [a, b, c] == [a] + [b, c];
  }

  lemma RunAppend<T>(m: Message<T>, run: seq<Action>, a: Action)
    requires EnabledAll(m, run) && Enabled(ApplyAll(m, run), a)
    ensures EnabledAll(m, run + [a]) && ApplyAll(m, run + [a]) == Apply(ApplyAll(m, run), a)
    decreases |run|
  {
    if run == [] {
      RunOf1(m, a);
      assert run + [a] == [a];
    } else {
      RunAppend(Apply(m, run[0]), run[1..], a);
      RunOfOneMore(m, run[0], run[1..] + [a]);
      assert run + [a] == [run[0]] + (run[1..] + [a]);
    }
  }

  /**
   A consume that nobody interrupts is let in exactly when there is a value, the
   active counter is below the remaining references and the writer has unlocked.
   */
  lemma ConsumeAlone<T>(g: Generation<T>, m: Message<T>, i: nat)
    requires Inv(g, m) && i in m.threads && m.threads[i].Idle?
    ensures EnabledAll(m, ConsumeRun(m, i))
    ensures var m' := ApplyAll(m, ConsumeRun(m, i));
            && (i in m'.threads && m'.threads[i].Reading? <==> m.value.Some? && m.active < m.remaining && !m.writing)
            && (m.value.None? ==> m' == m)
            && (m.value.Some? ==> m'.active == m.active + 1)
            && m'.remaining == m.remaining && m'.value == m.value
            && m'.threads == m.threads[i := if m'.flag == m.flag then Idle else Reading]
            && m'.flag == m.flag + (if m.value.Some? && m.active < m.remaining && !m.writing then 1 else 0)
  {
    assert m.threads[i := Idle] == m.threads;
    FlagWhileWriting(g, m);
    if m.value.None? {
      RunOf1(m, CheckValue(i));
    } else if m.active >= m.remaining {
      ConsumeAloneAdmission(m, i);
    } else {
      ConsumeAloneLock(m, i);
    }
  }

  lemma FlagWhileWriting<T>(g: Generation<T>, m: Message<T>)
    requires Inv(g, m)
    ensures m.initial >= 0 && (if m.writing then m.flag == -1 else m.flag >= 0)
  {
  }

  lemma ConsumeAloneLock<T>(m: Message<T>, i: nat)
    requires i in m.threads && m.threads[i].Idle? && m.value.Some? && m.active < m.remaining
    requires m.initial >= 0 && (if m.writing then m.flag == -1 else m.flag >= 0)
    ensures EnabledAll(m, ConsumeRun(m, i))
    ensures ApplyAll(m, ConsumeRun(m, i)) ==
              if m.writing then m.(active := m.active + 1, admitted := m.admitted + 1, denied := m.denied + 1)
              else m.(active := m.active + 1, admitted := m.admitted + 1, flag := m.flag + 1, locks := m.locks + 1,
                      threads := m.threads[i := Reading])
  {
    ConsumeAloneAdmission(m, i);
    var limit := m.initial * 2 + 1;
    var run := [CheckValue(i), TakeTicket(i), Admit(i)];
    var m3 := ApplyAll(m, run);
    RunAppend(m, run, LoadFlag(i));
    assert run + [LoadFlag(i)] == [CheckValue(i), TakeTicket(i), Admit(i), LoadFlag(i)];
    if m.writing {
      assert m.threads[i := Trying(0, limit)][i := Idle] == m.threads;
    } else {
      RunAppend(m, run + [LoadFlag(i)], CasFlag(i));
      assert run + [LoadFlag(i)] + [CasFlag(i)] == ConsumeRun(m, i);
      var loaded := Loaded(0, limit, m.flag, Changes(m));
      assert m.threads[i := Trying(0, limit)][i := loaded][i := Reading] == m.threads[i := Reading];
    }
  }

  lemma ConsumeAloneAdmission<T>(m: Message<T>, i: nat)
    requires i in m.threads && m.threads[i].Idle? && m.value.Some?
    ensures var run := [CheckValue(i), TakeTicket(i), Admit(i)];
            && EnabledAll(m, run)
            && ApplyAll(m, run) ==
                 if m.active >= m.remaining then m.(active := m.active + 1, refused := m.refused + 1)
                 else m.(active := m.active + 1, admitted := m.admitted + 1,
                         threads := m.threads[i := Trying(0, m.initial * 2 + 1)])
  {
    RunOf3(m, CheckValue(i), TakeTicket(i), Admit(i));
    assert m.threads[i := Checked][i := Ticketed(m.active)][i := Idle] == m.threads;
    assert m.threads[i := Checked][i := Ticketed(m.active)][i := Trying(0, m.initial * 2 + 1)]
        == m.threads[i := Trying(0, m.initial * 2 + 1)];
  }

  /** The atomic operations of the destructor of thread i's access. */
  function ReleaseRun<T>(m: Message<T>, i: nat): seq<Action> {
    if m.remaining == 1 then [SubRemaining(i), ResetValue(i), UnlockShared(i), SubActive(i)]
    else [SubRemaining(i), UnlockShared(i), SubActive(i)]
  }

  /** A release gives up one reference, one lock and one active access, and resets the value exactly with the last reference. */
  lemma ReleaseAlone<T>(m: Message<T>, i: nat)
    requires i in m.threads && m.threads[i].Reading?
    ensures EnabledAll(m, ReleaseRun(m, i))
    ensures var m' := ApplyAll(m, ReleaseRun(m, i));
            && m'.threads == m.threads[i := Idle]
            && m'.remaining == m.remaining - 1 && m'.flag == m.flag - 1 && m'.active == m.active - 1
            && m'.value == if m'.remaining == 0 then None else m.value
  {
    if m.remaining == 1 {
      RunOf3(m, SubRemaining(i), ResetValue(i), UnlockShared(i));
      var run := [SubRemaining(i), ResetValue(i), UnlockShared(i)];
      RunAppend(m, run, SubActive(i));
      assert run + [SubActive(i)] == ReleaseRun(m, i);
    } else {
      RunOf3(m, SubRemaining(i), UnlockShared(i), SubActive(i));
    }
  }

  /**
   So in any state that a run can reach, a further consume is let in as long as
   fewer accesses are active than references remain.
   */
  lemma NextConsumeGetsIn<T>(g: Generation<T>, m: Message<T>, run: seq<Action>, i: nat)
    requires Start(g, m) && EnabledAll(m, run)
    requires var u := ApplyAll(m, run); i in u.threads && u.threads[i].Idle? && !u.writing && u.active < u.remaining
    ensures var u := ApplyAll(m, run);
            && EnabledAll(u, [CheckValue(i), TakeTicket(i), Admit(i), LoadFlag(i), CasFlag(i)])
            && ApplyAll(u, [CheckValue(i), TakeTicket(i), Admit(i), LoadFlag(i), CasFlag(i)]).threads == u.threads[i := Reading]
  {
    StartInv(g, m);
    RunKeeps(g, m, run);
    var u := ApplyAll(m, run);
    ActiveCounts(g, u);
    ConsumeAlone(g, u, i);
  }

  /** While references are free beyond the active accesses, the value is there. */
  lemma ActiveCounts<T>(g: Generation<T>, m: Message<T>)
    requires Inv(g, m) && m.active < m.remaining
    ensures m.value == Some(g.value)
  {
  }
}
