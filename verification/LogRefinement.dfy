/**
 The methods of the log (src/wal.c) are steps of the log's state machine: what the queue, the
 writer and recovery do to their objects, `GroupCommit.Run` does to the state they stand for,
 so every property of every run holds of them.
 */
module LogRefinement {
  import opened Bytes
  import opened WalRecord
  import opened WalScan
  import opened Mutation
  import opened WalWriter
  import G = GroupCommit
  import D = Durability
  import HashTable
  import LogFile
  import R = Recovery

  ghost predicate SameFile(file: LogFile.File, l: G.Log)
    reads file
  {
    file.content == l.file && file.durable == l.durable
  }

  ghost predicate SameQueue(q: Queue, l: G.Log)
    reads q, q.contents
  {
    && |q.contents| == |l.queue|
    && (forall i :: 0 <= i < |l.queue| ==> q.contents[i].record == l.queue[i].record)
    && q.nextSequence == l.nextSequence && q.stopping == l.stopping
  }

  ghost predicate Represents(q: Queue, w: Writer, l: G.Log)
    reads q, q.contents, w, w.file
  {
    && q.Valid() && SameQueue(q, l) && SameFile(w.file, l)
    && l.mode.Running? && (l.sticky <==> w.sticky != NoError)
  }

  // ------------------------------------------------------------ runs

  lemma {:induction false} RunConcat(l: G.Log, a: seq<G.Action>, b: seq<G.Action>)
    ensures G.Run(l, a + b) == G.Run(G.Run(l, a), b)
    decreases |a|
  {
    hide G.Next;
    if a == [] {
      assert a + b == b;
    } else {
      assert (a + b)[1..] == a[1..] + b;
      RunConcat(G.Next(l, a[0]), a[1..], b);
    }
  }

  lemma RunOne(l: G.Log, a: G.Action)
    ensures G.Run(l, [a]) == G.Next(l, a)
  {
    hide G.Next;
    assert G.Run(G.Next(l, a), []) == G.Next(l, a);
  }

  lemma RunTwo(l: G.Log, a: G.Action, b: G.Action)
    ensures G.Run(l, [a, b]) == G.Next(G.Next(l, a), b)
  {
    hide G.Next, G.Run;
    assert [a, b] == [a] + [b];
    RunConcat(l, [a], [b]);
    RunOne(l, a);
    RunOne(G.Next(l, a), b);
  }

  // ------------------------------------------------------------ the queue

  method Submit(q: Queue, w: Writer, request: Request, ghost l: G.Log, ghost worker: nat, ghost conn: nat)
    returns (error: Error, ghost l': G.Log)
    requires Represents(q, w, l) && request !in q.contents && request.record.Valid()
    modifies q, request, q.tail
    ensures l' == old(G.Next(l, G.Submit(request.record.opcode, request.record.key, request.record.val, worker, conn)))
    ensures Represents(q, w, l')
    ensures error == NoError <==> l' != l
  {
    var r := request.record;
    l' := G.Next(l, G.Submit(r.opcode, r.key, r.val, worker, conn));
    ghost var before := q.contents;
    error := q.Submit(request);
    if error == NoError {
      assert forall i :: 0 <= i < |before| ==> before[i] in before;
    }
  }

  method Take(q: Queue, w: Writer, batch: array<Request?>, ghost l: G.Log) returns (count: nat, ghost l': G.Log)
    requires Represents(q, w, l) && l.pc.Idle? && q.contents != [] && batch.Length == l.batchMax
    modifies q, batch, q.contents
    ensures l' == G.Next(l, G.Take) && Represents(q, w, l')
    ensures count == |l'.batch| <= batch.Length
    ensures forall i :: 0 <= i < count ==> batch[i] != null && batch[i].record == l'.batch[i].record
  {
    ghost var before := q.contents;
    l' := G.Next(l, G.Take);
    count := q.TakeBatch(batch);
    assert forall i :: 0 <= i < |before| ==> before[i] in before;
  }

  // ------------------------------------------------------------ the writer

  /** Where a batch ends up when `written` of its bytes reach the file. */
  function Committed(l: G.Log, written: nat, ok: bool): G.Log
    requires AllValid(G.Records(l.batch)) && written <= |EncodeAll(G.Records(l.batch))|
  {
    var m := l.(file := l.file + EncodeAll(G.Records(l.batch))[..written], pc := G.Writing(written));
    if ok then G.DoSync(m) else G.DoFail(m)
  }

  lemma CommitRun(l: G.Log, written: nat, ok: bool) returns (actions: seq<G.Action>)
    requires l.mode.Running? && l.pc == G.Writing(0) && l.batch != [] && AllValid(G.Records(l.batch))
    requires written <= |EncodeAll(G.Records(l.batch))|
    requires ok ==> written == |EncodeAll(G.Records(l.batch))|
    ensures G.Run(l, actions) == Committed(l, written, ok)
  {
    hide G.Run, EncodeAll, ScanFrom;
    var last := if ok then G.Sync(true) else G.WriteFail;
    if written > 0 {
      actions := [G.Write(written), last];
      RunTwo(l, actions[0], last);
    } else {
      actions := [last];
      RunOne(l, last);
      assert l.file + EncodeAll(G.Records(l.batch))[..0] == l.file;
    }
  }

  /** The writer's work on a batch is a run of the machine up to the point where the batch is completed,
      with the outcome the batch is completed with. */
  method Commit(q: Queue, w: Writer, batch: seq<Record>, realloc: bool, ghost l: G.Log)
    returns (error: Error, ghost actions: seq<G.Action>)
    requires Represents(q, w, l) && D.Inv(l) && batch == G.Records(l.batch)
    requires l.pc == G.Writing(0) || l.pc == G.Completing(false)
    modifies w`sticky, w`buf, w.buf, w.file
    ensures var m := G.Run(l, actions);
            && Represents(q, w, m)
            && m.pc == G.Completing(error == NoError)
            && m.batch == l.batch && m.completed == l.completed && m.queue == l.queue
  {
    hide EncodeAll, ScanFrom, G.Records, G.Reqs;
    D.BatchIsHistory(l);
    ghost var written;
    error, written := w.Commit(batch, realloc);
    if l.pc == G.Writing(0) {
      actions := CommitRun(l, written, error == NoError);
    } else {
      actions := [];
    }
  }

  function Outcomes(rs: seq<G.Req>, ok: bool): (out: seq<G.Done>)
    ensures |out| == |rs|
    ensures forall i :: 0 <= i < |rs| ==> out[i] == G.Done(rs[i], ok)
  {
    seq(|rs|, i requires 0 <= i < |rs| => G.Done(rs[i], ok))
  }

  /** The part of the state that the queue, the writer and the file stand for. */
  ghost predicate Same(l: G.Log, m: G.Log)
  {
    && m.mode == l.mode && m.file == l.file && m.durable == l.durable
    && m.queue == l.queue && m.sticky == l.sticky
    && m.nextSequence == l.nextSequence && m.stopping == l.stopping
  }

  lemma RepresentsSame(q: Queue, w: Writer, l: G.Log, m: G.Log)
    requires Represents(q, w, l) && Same(l, m)
    ensures Represents(q, w, m)
  {
  }

  lemma CompleteStep(l: G.Log)
    requires l.mode.Running? && l.pc.Completing? && l.batch != []
    ensures var n := G.Next(l, G.Complete);
            && n.batch == l.batch[1..] && n.pc == (if |l.batch| == 1 then G.Idle else l.pc) && Same(l, n)
            && n.completed == l.completed + [G.Done(l.batch[0], l.pc.ok)]
    ensures Outcomes(l.batch, l.pc.ok) == [G.Done(l.batch[0], l.pc.ok)] + Outcomes(l.batch[1..], l.pc.ok)
  {
    hide EncodeAll, ScanFrom, AllValid, G.Records;
  }

  lemma TakeStep(l: G.Log)
    requires l.batchMax > 0 && l.mode.Running? && l.pc.Idle? && l.queue != []
    ensures var n := G.Next(l, G.Take);
            l.queue == n.batch + n.queue && 0 < |n.batch| <= l.batchMax
  {
    hide EncodeAll, ScanFrom, AllValid, G.Records;
  }

  /** complete_batch completes the batch in order, every request with the same outcome. */
  lemma {:induction false} CompleteRun(l: G.Log) returns (actions: seq<G.Action>)
    requires l.mode.Running? && l.pc.Completing? && l.batch != []
    ensures var m := G.Run(l, actions);
            && m.pc.Idle? && m.batch == [] && m.mode.Running?
            && m.completed == l.completed + Outcomes(l.batch, l.pc.ok)
            && Same(l, m)
    decreases |l.batch|
  {
    hide G.Next, G.Run, Outcomes;
    var n := G.Next(l, G.Complete);
    CompleteStep(l);
    RunOne(l, G.Complete);
    if |l.batch| == 1 {
      actions := [G.Complete];
    } else {
      var rest := CompleteRun(n);
      actions := [G.Complete] + rest;
      RunConcat(l, [G.Complete], rest);
    }
  }

  method Snapshot(batch: array<Request?>, count: nat, ghost l: G.Log) returns (records: seq<Record>)
    requires count == |l.batch| <= batch.Length
    requires forall i :: 0 <= i < count ==> batch[i] != null && batch[i].record == l.batch[i].record
    ensures records == G.Records(l.batch)
  {
    hide G.Records;
    records := [];
    for i := 0 to count
      invariant records == G.Records(l.batch)[..i]
    {
      records := records + [batch[i].record];
    }
  }

  /** Taking a batch, bringing it to an outcome and completing it, put together. */
  lemma TurnRun(l: G.Log, writing: seq<G.Action>, ok: bool) returns (actions: seq<G.Action>)
    requires D.Inv(l) && l.mode.Running? && l.pc.Idle? && l.queue != []
    requires var taken := G.Next(l, G.Take);
             var m := G.Run(taken, writing);
             && m.pc == G.Completing(ok) && m.mode.Running?
             && m.batch == taken.batch && m.completed == l.completed && m.queue == taken.queue
    ensures var m := G.Run(l, actions);
            && Same(G.Run(G.Next(l, G.Take), writing), m) && D.Inv(m) && m.pc.Idle?
            && TakenFrom(l, m, ok)
  {
    hide G.Next, G.Run, D.Inv, Outcomes;
    D.BatchMaxIsPositive(l);
    var taken := G.Next(l, G.Take);
    TakeStep(l);
    RunOne(l, G.Take);
    var m := G.Run(taken, writing);
    var completing := CompleteRun(m);
    actions := [G.Take] + writing + completing;
    RunConcat(l, [G.Take], writing);
    RunConcat(l, [G.Take] + writing, completing);
    D.RunKeeps(l, actions);
  }

  /** A batch off the front of l's queue is what m has completed more than l, all with the same outcome. */
  ghost predicate TakenFrom(l: G.Log, m: G.Log, ok: bool)
  {
    && 0 < |l.queue| - |m.queue| <= l.batchMax
    && l.queue == l.queue[..|l.queue| - |m.queue|] + m.queue
    && m.completed == l.completed + Outcomes(l.queue[..|l.queue| - |m.queue|], ok)
  }

  /** One turn of writer_main is a run of the machine that takes a batch, completes all of it with the
      outcome it had, and leaves the writer idle. */
  method Turn(q: Queue, w: Writer, batch: array<Request?>, realloc: bool, ghost l: G.Log)
    returns (error: Error, ghost actions: seq<G.Action>)
    requires Represents(q, w, l) && D.Inv(l) && l.pc.Idle? && q.contents != [] && batch.Length == l.batchMax
    modifies q, batch, q.contents, w`sticky, w`buf, w.buf, w.file
    ensures var m := G.Run(l, actions);
            && Represents(q, w, m) && D.Inv(m) && m.pc.Idle?
            && TakenFrom(l, m, error == NoError)
  {
    hide EncodeAll, ScanFrom, G.Records, G.Run, TakenFrom, D.Inv, SameFile, D.Recovered;
    ghost var taken, writing;
    var count;
    assert l.queue != [];
    count, taken := Take(q, w, batch, l);
    D.NextKeeps(l, G.Take);
    var records := Snapshot(batch, count, taken);
    error, writing := Commit(q, w, records, realloc, taken);
    actions := TurnRun(l, writing, error == NoError);
    RepresentsSame(q, w, G.Run(taken, writing), G.Run(l, actions));
  }

  // ------------------------------------------------------------ recovery

  /** Starting the server is a run of the machine too: it starts exactly when recovery succeeds, leaves a
      sequence number to use and the writer can be set up, and then the table holds the replay of the
      recovered history. */
  method Restart(file: LogFile.File, chunk: nat, fileOk: bool, bufferAlloc: bool, writerOk: bool,
                 table: HashTable.Table, memory: nat -> Memory, ghost l: G.Log)
    returns (started: bool, error: R.Error, stats: R.Stats, ghost actions: seq<G.Action>)
    requires D.Inv(l) && l.mode.Down? && SameFile(file, l) && file.pos == 0
    requires table.Valid() && table.M == map[] && file !in table.Repr
    modifies table.Repr, file
    ensures started <==> error == R.NoError && stats.last != MAX_U64 && writerOk
    ensures var m := G.Run(l, actions);
            && D.Inv(m) && SameFile(file, m)
            && (m.mode.Running? <==> started)
            && (started ==>
                 && m.history == D.Recovered(l.file) && m.pc.Idle? && !m.sticky && !m.stopping && m.queue == []
                 && m.nextSequence == stats.last + 1
                 && table.Valid() && table.M == Replay(map[], m.history))
  {
    hide D.Inv, ScanFrom, EncodeAll, Replay, HashTable.Table.Valid, G.Run;
    ghost var done;
    error, stats, done := R.Recover(file, chunk, fileOk, bufferAlloc, table, memory);
    started := error == R.NoError && stats.last != MAX_U64 && writerOk;
    ScanAfterRepair(l.file, 0);
    actions := RestartRun(l, R.Finished(error), file.content);
    if !started {
      RunConcat(l, actions, [G.Kill]);
      RunOne(G.Run(l, actions), G.Kill);
      actions := actions + [G.Kill];
    }
    D.RunKeeps(l, actions);
  }

  lemma CutStep(l: G.Log)
    requires l.mode.Recovering? && !ScanFrom(l.file, 0).repair.NoRepair?
    ensures var s := ScanFrom(l.file, 0);
            var m := G.Next(l, G.Truncate);
            && s.valid <= |l.file|
            && m.mode.Repairing? && m.file == l.file[..s.valid] && m.durable == l.durable
  {
    hide ScanFrom, EncodeAll, AllValid, G.Records;
    ScanShape(l.file, 0);
  }

  lemma StartStep(l: G.Log)
    requires ScanFrom(l.file, 0).repair.NoRepair?
    ensures !l.mode.Running? ==> Restarted(l, G.Next(l, G.Start), l.mode.Recovering?, l.file)
  {
    hide ScanFrom, EncodeAll, AllValid, G.Records;
  }

  lemma SyncStep(l: G.Log, ok: bool)
    requires l.mode.Repairing?
    ensures var m := G.Next(l, G.RepairSync(ok));
            m.file == l.file && if ok then m.mode.Recovering? && m.durable == l.file else m.mode.Down? && m.durable == l.durable
  {
    hide ScanFrom, EncodeAll, AllValid, G.Records;
  }

  lemma BootStep(l: G.Log)
    requires l.mode.Down?
    ensures G.Next(l, G.Boot) == l.(mode := G.Recovering)
  {
  }

  /** Cutting off the bad tail, and starting if that could be made durable. */
  lemma RepairRun(l: G.Log, ok: bool) returns (actions: seq<G.Action>)
    requires l.mode.Down? && ScanFrom(l.file, 0).valid <= |l.file| && !ScanFrom(l.file, 0).repair.NoRepair?
    ensures var s := ScanFrom(l.file, 0);
            Restarted(l, G.Run(l, actions), ok, l.file[..s.valid])
  {
    hide ScanFrom, G.Next, G.Run;
    ScanAfterRepair(l.file, 0);
    actions := [G.Boot, G.Truncate] + [G.RepairSync(ok), G.Start];
    RunConcat(l, [G.Boot, G.Truncate], [G.RepairSync(ok), G.Start]);
    RunTwo(l, G.Boot, G.Truncate);
    BootStep(l);
    CutStep(l.(mode := G.Recovering));
    var cut := G.Run(l, [G.Boot, G.Truncate]);
    RunTwo(cut, G.RepairSync(ok), G.Start);
    SyncStep(cut, ok);
    StartStep(G.Next(cut, G.RepairSync(ok)));
  }

  ghost predicate Restarted(l: G.Log, m: G.Log, ok: bool, content: seq<byte>)
  {
    var s := ScanFrom(l.file, 0);
    && m.file == content
    && m.durable == (if ok && !s.repair.NoRepair? then content else l.durable)
    && (m.mode.Running? <==> ok && s.last != MAX_U64)
    && (m.mode.Running? ==>
         && m.history == s.records && m.pc.Idle? && !m.sticky && !m.stopping && m.queue == []
         && m.nextSequence == s.last + 1)
  }

  lemma RestartRun(l: G.Log, ok: bool, content: seq<byte>) returns (actions: seq<G.Action>)
    requires l.mode.Down? && ScanFrom(l.file, 0).valid <= |l.file|
    requires var valid := l.file[..ScanFrom(l.file, 0).valid];
             content == valid || (!ok && content == l.file)
    ensures Restarted(l, G.Run(l, actions), ok, content)
  {
    assert G.Run(l, []) == l;
    hide ScanFrom, G.Next, G.Run;
    ScanShape(l.file, 0);
    if content == l.file && !ok {
      actions := [];
    } else if ScanFrom(l.file, 0).repair.NoRepair? {
      assert content == l.file;
      actions := [G.Boot, G.Start];
      RunTwo(l, G.Boot, G.Start);
      BootStep(l);
      StartStep(l.(mode := G.Recovering));
    } else {
      actions := RepairRun(l, ok);
    }
  }
}
