/**
 The FIFO topic takes a whole consume and a whole release as one step; FifoMessage
 takes each of their atomic operations as one. A call that nobody interrupts does
 to the message exactly what the topic's step does to the cell.
 */
module FifoRefinement {
  import opened Numeric
  import M = FifoMessage
  import T = FifoTopic

  /** The message as a cell of the queue; the id belongs to the queue alone. */
  function CellOf<V>(m: M.Message<V>, id: nat): T.Cell<V> {
    T.Cell(m.flag, m.value, id, m.remaining, m.active)
  }

  /** Whatever state a run has led to, a consume has the same effect and the same answer in both. */
  lemma ConsumeRefines<V>(g: M.Generation<V>, m: M.Message<V>, run: seq<M.Action>, i: nat, id: nat)
    requires M.Start(g, m) && M.EnabledAll(m, run)
    requires var u := M.ApplyAll(m, run); i in u.threads && u.threads[i].Idle?
    ensures var u := M.ApplyAll(m, run);
            && M.EnabledAll(u, M.ConsumeRun(u, i))
            && var u' := M.ApplyAll(u, M.ConsumeRun(u, i));
               && T.Consume(CellOf(u, id)) == (i in u'.threads && u'.threads[i].Reading?, CellOf(u', id))
  {
    M.StartInv(g, m);
    M.RunKeeps(g, m, run);
    var u := M.ApplyAll(m, run);
    M.ConsumeAlone(g, u, i);
    M.FlagWhileWriting(g, u);
  }

  lemma ReleaseRefines<V>(m: M.Message<V>, i: nat, id: nat)
    requires i in m.threads && m.threads[i].Reading?
    ensures M.EnabledAll(m, M.ReleaseRun(m, i))
    ensures CellOf(M.ApplyAll(m, M.ReleaseRun(m, i)), id) == T.Released(CellOf(m, id))
  {
    M.ReleaseAlone(m, i);
  }

  /**
   A publication into a cell on which no call is in flight starts a generation
   with as many references as it was given, and its unlock leaves the written cell.
   */
  lemma PublishStartsGeneration<V>(cell: T.Cell<V>, references: nat, id: nat, v: V, threads: map<nat, M.Consumer>)
    requires cell.flag == 0 && cell.active >= 0 && forall i | i in threads :: threads[i] == M.Idle
    ensures var m := M.Message(-1, Some(v), references, references, cell.active, threads, true, 0, 0, 0, 0, 0, 0, 0);
            && M.Start(M.Generation(v, references, cell.active), m)
            && M.Enabled(m, M.WriterUnlock)
            && CellOf(M.Apply(m, M.WriterUnlock), id) == T.Written(cell, references, id, v)
  {
  }
}
