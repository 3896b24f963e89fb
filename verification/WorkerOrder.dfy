/**
 Whether memory and the log agree once everything is durable and applied (src/main.c). Each worker
 applies its own completions in log order, but nothing orders the workers among themselves: with one
 worker the table is what a restart would rebuild, with two or more it need not be.
 */
module WorkerOrder {
  import opened Bytes
  import opened WalRecord
  import opened WalScan
  import opened Mutation
  import opened Options
  import opened Sequences
  import opened Server
  import opened ServerSafety
  import Answers
  import G = GroupCommit
  import D = Durability

  /** Nothing has failed, the log has nothing left to do, and every worker has handled its completions. */
  ghost predicate Settled(s: State)
  {
    && s.log.mode.Running? && s.tableOk && !s.log.sticky && s.log.pc.Idle? && s.log.queue == []
    && forall w :: 0 <= w < |s.workers| ==> s.workers[w].applied == Mine(s.log.completed, w)
  }

  /** In every settled state of a server with n workers, the table is the replay of the whole log. */
  ghost predicate MemoryMatchesLog(n: nat)
  {
    forall s :: Reachable(s) && |s.workers| == n && Settled(s) ==> s.table == Replay(map[], s.log.history)
  }

  // ------------------------------------------------------------ one worker

  lemma SettledLog(s: State)
    requires Inv(s) && Settled(s) && |s.workers| == 1
    ensures s.log.base + |s.workers[0].applied| == |s.log.history|
    ensures s.workers[0].applied != [] ==> s.log.acked == |s.log.history|
    ensures s.log.acked <= |s.log.history|
  {
    hide Replay, TableInv, EffectsInv, WorkerInv, D.Recovered, EncodeAll, G.Records;
    var l := s.log;
    assert l.accepted == G.Reqs(l.completed);
    forall i | 0 <= i < |l.completed|
      ensures l.completed[i].req.worker == 0
    {
      assert l.accepted[i] == l.completed[i].req;
    }
    MineAll(l.completed);
    if l.completed != [] {
      assert l.completed[|l.completed| - 1].ok;
    }
  }

  lemma OneWorkerMatches(s: State)
    requires Reachable(s) && |s.workers| == 1 && Settled(s)
    ensures s.table == Replay(map[], s.log.history)
  {
    hide Replay, Inv, Reachable;
    ReachableInv(s);
    SettledLog(s);
    TableIsAReplay(s);
    assert s.log.history[..|s.log.history|] == s.log.history;
  }

  // ------------------------------------------------------------ reaching a state step by step

  lemma {:induction false} RunExtends(s: State, actions: seq<Action>, a: Action)
    ensures Run(s, actions + [a]) == Next(Run(s, actions), a)
    decreases |actions|
  {
    hide Next;
    if actions == [] {
      assert Run(Next(s, a), []) == Next(s, a);
    } else {
      assert (actions + [a])[1..] == actions[1..] + [a];
      RunExtends(Next(s, actions[0]), actions[1..], a);
    }
  }

  lemma ReachableNext(s: State, a: Action)
    requires Reachable(s)
    ensures Reachable(Next(s, a))
  {
    hide Next, Run;
    var batchMax: nat, actions :| batchMax > 0 && s == Run(Init(batchMax), actions);
    RunExtends(Init(batchMax), actions, a);
  }

  /** The writer completes the next request and rings its worker's bell. */
  lemma Signalled(s: State) returns (t: State)
    requires Reachable(s) && CanPush(s) && !s.workers[s.log.batch[0].worker].flag
    ensures var w := s.log.batch[0].worker;
            var k := s.workers[w];
            && Reachable(t)
            && t == s.(log := G.DoComplete(s.log),
                       workers := s.workers[w := k.(stack := [G.Done(s.log.batch[0], s.log.pc.ok)] + k.stack,
                                                    flag := true, eventfd := true)])
  {
    hide Reachable;
    var a := Next(s, Push);
    var b := Next(a, Exchange);
    t := Next(b, Ring);
    ReachableNext(s, Push);
    ReachableNext(a, Exchange);
    ReachableNext(b, Ring);
  }

  /** A worker whose bell has rung detaches its stack. */
  lemma Detached(s: State, w: nat) returns (t: State)
    requires Reachable(s) && s.log.mode.Running? && w < |s.workers| && s.workers[w].stack != []
    requires s.workers[w].at.Polling? && !s.workers[w].exited && s.workers[w].eventfd
    ensures var k := s.workers[w];
            && Reachable(t)
            && t == Set(s, w, k.(stack := [], detached := Rev(k.stack), flag := false, eventfd := false, at := Processing))
  {
    hide Reachable, Rev;
    var a := Next(s, Wake(w));
    var b := Next(a, Drain(w));
    var c := Next(b, Clear(w));
    t := Next(c, Detach(w));
    ReachableNext(s, Wake(w));
    ReachableNext(a, Drain(w));
    ReachableNext(b, Clear(w));
    ReachableNext(c, Detach(w));
  }

  /** It handles the one completion it found. */
  lemma HandledOne(s: State, w: nat, d: Done) returns (t: State)
    requires Reachable(s) && s.log.mode.Running? && w < |s.workers| && s.workers[w].stack == [d]
    requires s.workers[w].at.Polling? && !s.workers[w].exited && s.workers[w].eventfd && d.ok
    ensures Reachable(t) && t.log == s.log && t.signal == s.signal && |t.workers| == |s.workers|
    ensures t.tableOk == s.tableOk && t.table == Apply(s.table, d.req.record)
    ensures t.workers[w].applied == s.workers[w].applied + [d]
    ensures forall v :: 0 <= v < |s.workers| && v != w ==> t.workers[v] == s.workers[v]
  {
    hide Reachable;
    var a := Detached(s, w);
    assert Rev([d]) == [d];
    t := Next(a, Process(w, true));
    ReachableNext(a, Process(w, true));
  }

  // ------------------------------------------------------------ two workers set one key

  const KEY: seq<byte> := [0]

  function Wish(w: nat): G.Action
  {
    G.Submit(OP_SET, KEY, [if w == 0 then 1 else 2], w, 0)
  }

  /** The two mutations as logged, worker 0's first. */
  function Logged(w: nat): Req
    requires w < 2
  {
    G.Req(Record(OP_SET, w + 1, KEY, [w + 1]), w, 0)
  }

  const STARTED := G.Log(G.Running, [], [], {}, 0, [], [], G.Idle, false, false, 1, 2, [], 0, 0, [], [])

  /** A freshly started server on an empty log. */
  lemma Started(n: nat) returns (s: State)
    ensures Reachable(s) && s == State(STARTED, seq(n, _ => FRESH), Quiet, map[], true, [], [], [])
  {
    hide Reachable;
    var i := Init(2);
    assert Reachable(i) by { ReachableInit(); }
    var b := Next(i, Repair(G.Boot));
    ReachableNext(i, Repair(G.Boot));
    assert ScanFrom([], 0) == Scan([], 0, 0, NoRepair);
    s := Next(b, Start(n));
    ReachableNext(b, Start(n));
  }

  lemma ReachableInit()
    ensures Reachable(Init(2))
  {
    assert Run(Init(2), []) == Init(2);
  }

  /** A new connection of a worker sends its mutation to the log. */
  lemma Asked(s: State, w: nat) returns (t: State)
    requires Reachable(s) && s.log.mode.Running? && w < |s.workers| && s.workers[w] == FRESH
    requires G.CanSubmit(s.log, Wish(w))
    ensures Reachable(t) && t.log == G.DoSubmit(s.log, Wish(w)) && |t.workers| == |s.workers|
    ensures t.signal == s.signal && t.table == s.table && t.tableOk == s.tableOk
    ensures forall v :: 0 <= v < |s.workers| && v != w ==> t.workers[v] == s.workers[v]
    ensures Waiting(t.workers[w])
  {
    hide Reachable;
    var a := Next(s, Accept(w, 0));
    ReachableNext(s, Accept(w, 0));
    t := Next(a, Mutate(w, Wish(w)));
    ReachableNext(a, Mutate(w, Wish(w)));
  }

  predicate Waiting(k: Worker)
  {
    k.stack == [] && !k.flag && k.at.Polling? && !k.exited && k.applied == []
  }

  /** Both mutations are written in one batch and synced. */
  lemma Synced(s: State) returns (t: State)
    requires Reachable(s) && s.signal.Quiet?
    requires s.log == STARTED.(queue := [Logged(0), Logged(1)], accepted := [Logged(0), Logged(1)],
                               history := [Logged(0).record, Logged(1).record], nextSequence := 3)
    ensures Reachable(t) && t.workers == s.workers && t.signal.Quiet? && t.table == s.table && t.tableOk == s.tableOk
    ensures t.log == s.log.(queue := [], batch := s.log.queue, pc := G.Completing(true),
                            file := t.log.file, durable := t.log.file, floor := |t.log.file|)
  {
    hide Reachable, Next, EncodeAll, ScanFrom;
    assert s.log.queue[..2] == s.log.queue && s.log.queue[2..] == [];
    BatchIsLong();
    t := WriterGoes(s, G.Take);
    t := WriterGoes(t, G.Write(|EncodeAll(G.Records(s.log.queue))|));
    t := WriterGoes(t, G.Sync(true));
  }

  lemma WriterGoes(s: State, step: G.Action) returns (t: State)
    requires Reachable(s) && s.signal.Quiet? && WriterStep(step)
    ensures Reachable(t) && t == s.(log := G.Next(s.log, step))
  {
    hide Reachable, G.Next;
    t := Next(s, Writer(step));
    ReachableNext(s, Writer(step));
  }

  lemma BatchIsLong()
    ensures AllValid(G.Records([Logged(0), Logged(1)]))
    ensures |EncodeAll(G.Records([Logged(0), Logged(1)]))| > 0
  {
    hide Encode;
  }

  const BOTH := [G.Done(Logged(0), true), G.Done(Logged(1), true)]

  /** Both mutations are completed and both bells rung. */
  lemma Completed(n: nat) returns (s: State)
    requires n >= 2
    ensures Reachable(s) && |s.workers| == n && s.log.mode.Running? && s.tableOk && s.table == map[]
    ensures s.log.completed == BOTH && s.log.history == [Logged(0).record, Logged(1).record]
    ensures !s.log.sticky && s.log.pc.Idle? && s.log.queue == []
    ensures forall w :: 0 <= w < 2 ==> Rung(s.workers[w], BOTH[w])
    ensures forall w :: 2 <= w < n ==> s.workers[w] == FRESH
  {
    hide Reachable, Next, EncodeAll;
    s := Started(n);
    s := Asked(s, 0);
    s := Asked(s, 1);
    s := Synced(s);
    s := Signalled(s);
    assert s.log.batch == [Logged(1)];
    s := Signalled(s);
  }

  predicate Rung(k: Worker, d: Done)
  {
    k.stack == [d] && k.eventfd && k.at.Polling? && !k.exited && k.applied == []
  }

  lemma MineOfBoth(w: nat)
    ensures Mine(BOTH, w) == if w < 2 then [BOTH[w]] else []
  {
    assert BOTH[..1] == [BOTH[0]] && BOTH[..1][..0] == [];
    assert Mine([BOTH[0]], w) == if w == 0 then [BOTH[0]] else [];
  }

  lemma OrderMatters()
    ensures Apply(Apply(map[], Logged(1).record), Logged(0).record) != Replay(map[], [Logged(0).record, Logged(1).record])
  {
    var rs := [Logged(0).record, Logged(1).record];
    ReplayExtends(map[], rs[..1], rs[1]);
    assert rs == rs[..1] + [rs[1]];
    assert Replay(map[], rs)[KEY] == [2];
    assert Apply(Apply(map[], Logged(1).record), Logged(0).record)[KEY] == [1];
  }

  /** Two workers can disagree with the log: it has the second worker's value last, the table the
      first's, and after a restart the key reads differently. */
  lemma TwoWorkersDisagree(n: nat) returns (s: State)
    requires n >= 2
    ensures Reachable(s) && |s.workers| == n && Settled(s)
    ensures s.table != Replay(map[], s.log.history)
  {
    hide Reachable, Mine, Apply, Replay;
    var rung := Completed(n);
    var one := HandledOne(rung, 1, BOTH[1]);
    s := HandledOne(one, 0, BOTH[0]);
    forall w | 0 <= w < n
      ensures s.workers[w].applied == Mine(s.log.completed, w)
    {
      MineOfBoth(w);
    }
    OrderMatters();
  }

  /** Memory agrees with the log in every settled state exactly when there is one worker. */
  lemma MatchesIffOneWorker(n: nat)
    requires n > 0
    ensures MemoryMatchesLog(n) <==> n == 1
  {
    hide Reachable, Replay;
    if n == 1 {
      forall s | Reachable(s) && |s.workers| == n && Settled(s)
        ensures s.table == Replay(map[], s.log.history)
      {
        OneWorkerMatches(s);
      }
    } else {
      var s := TwoWorkersDisagree(n);
    }
  }

  // ------------------------------------------------------------ keys of one worker

  /** The records of one key, in order. */
  function OnKey(rs: seq<Record>, key: seq<byte>): seq<Record>
  {
    if rs == [] then [] else
      var n := |rs| - 1;
      OnKey(rs[..n], key) + if rs[n].key == key then [rs[n]] else []
  }

  lemma {:induction false} OnKeyConcat(rs: seq<Record>, qs: seq<Record>, key: seq<byte>)
    ensures OnKey(rs + qs, key) == OnKey(rs, key) + OnKey(qs, key)
    decreases |qs|
  {
    if qs == [] {
      assert rs + qs == rs;
    } else {
      var n := |qs| - 1;
      assert (rs + qs)[..|rs| + n] == rs + qs[..n];
      OnKeyConcat(rs, qs[..n], key);
    }
  }

  lemma ApplyOnKey(m: Store, k: Store, r: Record, key: seq<byte>)
    requires ValueAt(m, key) == ValueAt(k, key)
    ensures ValueAt(Apply(m, r), key) == ValueAt(if r.key == key then Apply(k, r) else k, key)
  {
  }

  /** Replaying is, for one key, replaying its own records. */
  lemma {:induction false} ReplayOnKey(m: Store, rs: seq<Record>, key: seq<byte>)
    ensures ValueAt(Replay(m, rs), key) == ValueAt(Replay(m, OnKey(rs, key)), key)
  {
    if rs != [] {
      var n := |rs| - 1;
      ReplayOnKey(m, rs[..n], key);
      ReplayExtends(m, OnKey(rs[..n], key), rs[n]);
      assert OnKey(rs[..n], key) + [] == OnKey(rs[..n], key);
      ApplyOnKey(Replay(m, rs[..n]), Replay(m, OnKey(rs[..n], key)), rs[n], key);
    }
  }

  /** Dropping the other workers' requests drops no record of a key that is only this worker's. */
  lemma {:induction false} OnKeyOfMine(rs: seq<Req>, w: nat, key: seq<byte>)
    requires forall i :: 0 <= i < |rs| && rs[i].record.key == key ==> rs[i].worker == w
    ensures OnKey(G.Records(MineReqs(rs, w)), key) == OnKey(G.Records(rs), key)
  {
    if rs != [] {
      var n := |rs| - 1;
      OnKeyOfMine(rs[..n], w, key);
      RecordsAppend(rs[..n], rs[n]);
      assert rs == rs[..n] + [rs[n]];
      OnKeyConcat(G.Records(rs[..n]), [rs[n].record], key);
      if rs[n].worker == w {
        RecordsAppend(MineReqs(rs[..n], w), rs[n]);
        OnKeyConcat(G.Records(MineReqs(rs[..n], w)), [rs[n].record], key);
      } else {
        OnKeyOther(rs[n].record, key);
        assert MineReqs(rs, w) == MineReqs(rs[..n], w);
      }
    }
  }

  lemma RecordsAppend(rs: seq<Req>, r: Req)
    ensures G.Records(rs + [r]) == G.Records(rs) + [r.record]
  {
  }

  lemma OnKeyOther(r: Record, key: seq<byte>)
    requires r.key != key
    ensures OnKey([r], key) == []
  {
    assert [r][..0] == [];
  }

  lemma {:induction false} AllOks(ds: seq<Done>)
    requires forall i :: 0 <= i < |ds| ==> ds[i].ok
    ensures Oks(ds) == ds
  {
    if ds != [] {
      AllOks(ds[..|ds| - 1]);
    }
  }

  /** In a settled state a worker has applied exactly its own accepted requests. */
  lemma SettledEffects(s: State, w: nat)
    requires Inv(s) && Settled(s) && w < |s.workers|
    ensures MineReqs(s.effects, w) == MineReqs(s.log.accepted, w)
  {
    hide Inv, EffectsInv, D.Inv, MineReqs, Mine, Oks, G.Reqs;
    var l := s.log;
    Answers.LogNow(s);
    Answers.EffectsNow(s);
    EffectsOf(s, w);
    SettledCompletions(l);
    MineReqsOfDone(l.completed, w);
    forall i | 0 <= i < |Mine(l.completed, w)|
      ensures Mine(l.completed, w)[i].ok
    {
      var j := Answers.MineAt(l.completed, w, i);
    }
    AllOks(Mine(l.completed, w));
  }

  lemma EffectsOf(s: State, w: nat)
    requires EffectsInv(s) && s.tableOk && w < |s.workers|
    ensures MineReqs(s.effects, w) == G.Reqs(Oks(s.workers[w].applied))
  {
    hide Replay, MineReqs, Oks, G.Reqs, G.Records;
  }

  /** When the writer is idle and has not failed, and nothing is queued, everything accepted is durable. */
  lemma SettledCompletions(l: G.Log)
    requires D.Inv(l) && l.mode.Running? && !l.sticky && l.pc.Idle? && l.queue == []
    ensures l.accepted == G.Reqs(l.completed)
    ensures forall i :: 0 <= i < |l.completed| ==> l.completed[i].ok
  {
    hide D.DiskInv, D.BaseInv, G.Records, G.Reqs, EncodeAll;
    assert G.Reqs(l.completed) + [] + [] == G.Reqs(l.completed);
  }

  /** What reaches the table was accepted. */
  lemma EffectsAccepted(s: State, i: nat)
    requires Inv(s) && Settled(s) && i < |s.effects| && s.effects[i].worker < |s.workers|
    ensures s.effects[i] in s.log.accepted
  {
    hide Inv, Settled, MineReqs;
    var r := s.effects[i];
    SettledEffects(s, r.worker);
    MineReqsIn(s.effects, r.worker, r);
    MineReqsIn(s.log.accepted, r.worker, r);
  }

  lemma AcceptedHistory(s: State)
    requires Inv(s) && Settled(s)
    ensures s.log.base <= |s.log.history|
    ensures s.log.history == s.log.history[..s.log.base] + G.Records(s.log.accepted)
    ensures s.table == Replay(map[], s.log.history[..s.log.base] + G.Records(s.effects))
  {
    hide Replay, TableInv, WorkerInv, D.DiskInv, D.WriterInv, G.Records, MineReqs, Mine, Oks, G.Reqs;
  }

  /** With any number of workers: a key that only one worker has mutated since the start reads, once
      everything is durable and handled, as the log has it. */
  lemma OwnKeyMatches(s: State, w: nat, key: seq<byte>)
    requires Reachable(s) && Settled(s) && w < |s.workers|
    requires forall i :: 0 <= i < |s.log.accepted| && s.log.accepted[i].record.key == key ==>
               s.log.accepted[i].worker == w
    ensures ValueAt(s.table, key) == ValueAt(Replay(map[], s.log.history), key)
  {
    hide Inv, Settled, Reachable, Replay, OnKey, MineReqs, G.Records;
    Answers.ReachableAnswers(s);
    var l := s.log;
    var recovered := l.history[..l.base];
    AcceptedHistory(s);
    forall i | 0 <= i < |s.effects| && s.effects[i].record.key == key
      ensures s.effects[i].worker == w
    {
      EffectsAccepted(s, i);
    }
    SettledEffects(s, w);
    OnKeyOfMine(s.effects, w, key);
    OnKeyOfMine(l.accepted, w, key);
    OnKeyConcat(recovered, G.Records(s.effects), key);
    OnKeyConcat(recovered, G.Records(l.accepted), key);
    ReplayOnKey(map[], recovered + G.Records(s.effects), key);
    ReplayOnKey(map[], l.history, key);
  }
}
