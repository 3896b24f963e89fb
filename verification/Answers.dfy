/**
 What the server's clients are told (src/main.c): where each GET read from, and what an OK to a
 mutation is worth, over every run, crash and restart.
 */
module Answers {
  import opened Bytes
  import opened WalRecord
  import opened WalScan
  import opened Mutation
  import opened Sequences
  import opened Server
  import opened ServerSafety
  import P = Protocol
  import G = GroupCommit
  import D = Durability

  // ------------------------------------------------------------ the invariant

  /** The table as it was when the first `at` mutations since the start had reached it. */
  ghost function Past(s: State, at: nat): Store
    requires s.log.base <= |s.log.history| && at <= |s.effects|
  {
    Replay(map[], s.log.history[..s.log.base] + G.Records(s.effects[..at]))
  }

  /** A GET read the table of its moment; a mutation answered OK was the last to reach it. */
  ghost predicate SaidOk(s: State, x: Said)
    requires s.log.base <= |s.log.history|
  {
    && x.at <= |s.effects|
    && (x.Got? ==> x.reply == P.GetReply(Past(s, x.at), x.key))
    && (x.Told? && x.ok ==> x.at > 0 && s.effects[x.at - 1] == x.req && x.req in s.promised)
  }

  /** An acknowledged record, at its own place in the history. */
  ghost predicate Kept(l: G.Log, r: Record)
  {
    1 <= r.sequence <= l.acked <= |l.history| && l.history[r.sequence - 1] == r
  }

  ghost predicate AnswersInv(s: State)
  {
    && s.log.base <= |s.log.history|
    && (forall i :: 0 <= i < |s.said| ==> SaidOk(s, s.said[i]))
    && (forall i, j :: 0 <= i < j < |s.said| ==> s.said[i].at <= s.said[j].at)
    && (forall i :: 0 <= i < |s.promised| ==> Kept(s.log, s.promised[i].record))
    && (forall i :: 0 <= i < |s.effects| ==> s.effects[i].worker < |s.workers|)
  }

  // ------------------------------------------------------------ steps of the log

  lemma KeptStays(l: G.Log, a: G.Action, r: Record)
    requires D.Inv(l) && Kept(l, r)
    ensures Kept(G.Next(l, a), r)
  {
    hide G.Next, D.Inv;
    D.AckedStays(l, a);
    D.NextKeeps(l, a);
    var m := G.Next(l, a);
    AckedBound(m);
    assert m.history[..l.acked][r.sequence - 1] == l.history[..l.acked][r.sequence - 1];
  }

  /** Only a start forgets where the recovered part of the history ends. */
  lemma BaseStays(l: G.Log, a: G.Action)
    requires !a.Start?
    ensures G.Next(l, a).base == l.base && l.history <= G.Next(l, a).history
  {
    hide ScanFrom, EncodeAll, AllValid, G.Records;
  }

  /** A step that says nothing and only adds to what has happened. */
  lemma QuietKeeps(s: State, t: State)
    requires AnswersInv(s) && t.said == s.said && t.promised == s.promised && s.effects == t.effects
    requires t.log.base == s.log.base && s.log.history <= t.log.history
    requires |t.workers| == |s.workers|
    requires forall i :: 0 <= i < |s.promised| ==> Kept(t.log, s.promised[i].record)
    ensures AnswersInv(t)
  {
    hide Replay, Kept;
    assert t.log.history[..s.log.base] == s.log.history[..s.log.base];
    forall i | 0 <= i < |t.said|
      ensures SaidOk(t, t.said[i])
    {
      assert SaidOk(s, s.said[i]);
    }
  }

  lemma LogStepKeeps(s: State, t: State, a: G.Action)
    requires AnswersInv(s) && D.Inv(s.log) && !a.Start? && t.log == G.Next(s.log, a)
    requires t.said == s.said && t.promised == s.promised && t.effects == s.effects && |t.workers| == |s.workers|
    ensures AnswersInv(t)
  {
    hide G.Next, D.Inv, SaidOk, Kept;
    BaseStays(s.log, a);
    forall i | 0 <= i < |s.promised|
      ensures Kept(t.log, s.promised[i].record)
    {
      KeptStays(s.log, a, s.promised[i].record);
    }
    QuietKeeps(s, t);
  }

  // ------------------------------------------------------------ steps that answer

  lemma GetKeeps(s: State, w: nat, c: nat, key: seq<byte>)
    requires AnswersInv(s) && EffectsInv(s)
    ensures AnswersInv(DoGet(s, w, c, key))
  {
    hide Replay, Kept, MineReqs, Oks;
    var t := DoGet(s, w, c, key);
    assert s.effects[..|s.effects|] == s.effects;
    forall i | 0 <= i < |t.said|
      ensures SaidOk(t, t.said[i])
    {
      if i < |s.said| {
        assert SaidOk(s, s.said[i]);
      }
    }
  }

  /** A completion without error that a worker is about to handle is an acknowledged record. */
  lemma HandledIsKept(s: State, w: nat)
    requires Inv(s) && s.log.mode.Running? && w < |s.workers| && s.workers[w].detached != []
    requires s.workers[w].detached[0].ok
    ensures Kept(s.log, s.workers[w].detached[0].req.record)
  {
    hide InFlight, Mine, Alive, Rev, TableInv, EffectsInv, D.DiskInv, D.WriterInv, G.Records;
    var k, l := s.workers[w], s.log;
    assert WorkerInv(s, w);
    assert Mine(l.completed, w)[|k.applied|] == k.detached[0];
    var i := MineAt(l.completed, w, |k.applied|);
    CompletedSequence(l, i);
    CompletedRecord(l, i);
    assert l.base + i < l.acked;
    AckedBound(l);
  }

  lemma AckedBound(l: G.Log)
    requires D.Inv(l)
    ensures l.acked <= |l.history|
  {
  }

  lemma CompletedRecord(l: G.Log, i: nat)
    requires D.Inv(l) && l.mode.Running? && i < |l.completed|
    ensures l.base + i < |l.history| && l.history[l.base + i] == l.completed[i].req.record
  {
    hide EncodeAll, D.Recovered, G.Records, G.Reqs;
    assert l.accepted[i] == l.completed[i].req;
    assert l.history[l.base..][i] == l.history[l.base + i];
  }

  lemma {:induction false} MineAt(ds: seq<Done>, w: nat, j: nat) returns (i: nat)
    requires j < |Mine(ds, w)|
    ensures i < |ds| && ds[i] == Mine(ds, w)[j]
  {
    var n := |ds| - 1;
    if j < |Mine(ds[..n], w)| {
      i := MineAt(ds[..n], w, j);
    } else {
      i := n;
    }
  }

  lemma ProcessKeepsSaid(s: State, w: nat, alloc: bool)
    requires AnswersInv(s) && w < |s.workers| && s.workers[w].detached != []
    requires s.workers[w].detached[0].req.worker == w
    requires s.workers[w].detached[0].ok ==> Kept(s.log, s.workers[w].detached[0].req.record)
    ensures AnswersInv(DoProcess(s, w, alloc))
  {
    hide Replay, Kept, Apply, G.Records;
    var t := DoProcess(s, w, alloc);
    forall i | 0 <= i < |t.said|
      ensures SaidOk(t, t.said[i])
    {
      if i < |s.said| {
        assert SaidOk(s, s.said[i]);
        assert t.effects[..s.said[i].at] == s.effects[..s.said[i].at];
      }
    }
  }

  lemma ProcessKeeps(s: State, w: nat, alloc: bool)
    requires AnswersInv(s) && Inv(s) && s.log.mode.Running?
    requires w < |s.workers| && s.workers[w].detached != []
    ensures AnswersInv(DoProcess(s, w, alloc))
  {
    hide AnswersInv, Kept, DoProcess;
    assert s.workers[w].detached[0].req.worker == w by {
      hide D.Inv, TableInv, EffectsInv;
      assert WorkerInv(s, w);
      DetachedIsOwn(s, w);
    }
    if s.workers[w].detached[0].ok {
      HandledIsKept(s, w);
    }
    ProcessKeepsSaid(s, w, alloc);
  }

  // ------------------------------------------------------------ every step

  lemma WorkerKeepsAnswers(s: State, a: Action)
    requires AnswersInv(s) && Inv(s) && s.log.mode.Running? && WorkerStep(a) && a.w < |s.workers|
    ensures AnswersInv(WorkerNext(s, a))
  {
    hide AnswersInv, Inv, DoGet, DoProcess, CloseConn, CloseAll, CanMutate, EffectsInv;
    var t := WorkerNext(s, a);
    if a.Get? {
      assert EffectsInv(s) by { EffectsNow(s); }
      GetKeeps(s, a.w, a.c, a.key);
    } else if a.Process? {
      if s.workers[a.w].detached != [] {
        ProcessKeeps(s, a.w, a.alloc);
      }
    } else if a.Mutate? {
      if CanMutate(s, a.w, a.submit) {
        MutateIsSubmit(s, a.w, a.submit);
        LogNow(s);
        LogStepKeeps(s, t, a.submit);
      }
    } else {
      WorkersOnly(s, t);
    }
  }

  lemma EffectsNow(s: State)
    requires Inv(s) && s.log.mode.Running?
    ensures EffectsInv(s)
  {
  }

  lemma LogNow(s: State)
    requires Inv(s)
    ensures D.Inv(s.log)
  {
  }

  lemma MutateIsSubmit(s: State, w: nat, a: G.Action)
    requires CanMutate(s, w, a)
    ensures a.Submit? && DoMutate(s, w, a).log == G.Next(s.log, a)
  {
  }

  lemma SaidSame(s: State, t: State, x: Said)
    requires s.log.base <= |s.log.history| && SaidOk(s, x)
    requires t.log == s.log && t.effects == s.effects && t.promised == s.promised
    ensures SaidOk(t, x)
  {
    hide Replay;
  }

  lemma StartKeepsAnswers(s: State, n: nat)
    requires AnswersInv(s) && Inv(s)
    ensures AnswersInv(Next(s, Start(n)))
  {
    hide D.Inv, SaidOk, Kept, ScanFrom, Replay;
    LogNow(s);
    forall i | 0 <= i < |s.promised|
      ensures Kept(G.Next(s.log, G.Action.Start), s.promised[i].record)
    {
      KeptStays(s.log, G.Action.Start, s.promised[i].record);
    }
  }

  lemma LogSideStep(s: State, a: Action) returns (step: G.Action)
    requires a.Writer? || a.Stop? || a.Fail? || a.Repair?
    ensures !step.Start?
    ensures Next(s, a) == s || Next(s, a) == s.(log := G.Next(s.log, step))
  {
    hide G.Next, WorkerNext;
    step := if a.Writer? || a.Repair? then a.step else if a.Fail? then a.crash else G.Stop;
    if step.Start? {
      assert Next(s, a) == s;
      step := G.Stop;
    }
  }

  /** The steps of the log writer, of stopping, of crashes and of recovery. */
  lemma LogSideKeeps(s: State, a: Action)
    requires AnswersInv(s) && Inv(s) && (a.Writer? || a.Stop? || a.Fail? || a.Repair?)
    ensures AnswersInv(Next(s, a))
  {
    hide AnswersInv, Inv, G.Next, Next;
    LogNow(s);
    var step := LogSideStep(s, a);
    if Next(s, a) != s {
      LogStepKeeps(s, Next(s, a), step);
    }
  }

  /** The steps of the hand-over. */
  lemma HandOverKeeps(s: State, a: Action)
    requires AnswersInv(s) && Inv(s) && (a.Push? || a.Exchange? || a.Ring?)
    ensures AnswersInv(Next(s, a))
  {
    hide AnswersInv, Inv, G.Next, G.DoComplete;
    var t := Next(s, a);
    if a.Push? {
      if CanPush(s) {
        LogNow(s);
        PushIsComplete(s);
        LogStepKeeps(s, t, G.Complete);
      }
    } else {
      WorkersOnly(s, t);
    }
  }

  lemma NextKeepsAnswers(s: State, a: Action)
    requires AnswersInv(s) && Inv(s)
    ensures AnswersInv(Next(s, a))
  {
    hide AnswersInv, Inv;
    if a.Writer? || a.Stop? || a.Fail? || a.Repair? {
      LogSideKeeps(s, a);
    } else if a.Push? || a.Exchange? || a.Ring? {
      HandOverKeeps(s, a);
    } else if a.Start? {
      StartKeepsAnswers(s, a.workers);
    } else if s.log.mode.Running? && a.w < |s.workers| {
      WorkerKeepsAnswers(s, a);
      hide WorkerNext;
      assert Next(s, a) == WorkerNext(s, a);
    }
  }

  lemma PushIsComplete(s: State)
    requires CanPush(s)
    ensures DoPush(s).log == G.Next(s.log, G.Complete)
  {
  }

  lemma WorkersOnly(s: State, t: State)
    requires AnswersInv(s) && t == s.(workers := t.workers, signal := t.signal) && |t.workers| == |s.workers|
    ensures AnswersInv(t)
  {
    hide SaidOk, Kept;
    forall i | 0 <= i < |t.said|
      ensures SaidOk(t, t.said[i])
    {
      SaidSame(s, t, s.said[i]);
    }
  }

  lemma {:induction false} RunKeepsAnswers(s: State, actions: seq<Action>)
    requires AnswersInv(s) && Inv(s)
    ensures AnswersInv(Run(s, actions)) && Inv(Run(s, actions))
    decreases |actions|
  {
    hide AnswersInv, Inv, Next;
    if actions != [] {
      NextKeepsAnswers(s, actions[0]);
      NextKeeps(s, actions[0]);
      RunKeepsAnswers(Next(s, actions[0]), actions[1..]);
    }
  }

  lemma ReachableAnswers(s: State)
    requires Reachable(s)
    ensures AnswersInv(s) && Inv(s)
  {
    hide Inv, Run;
    var batchMax: nat, actions :| batchMax > 0 && s == Run(Init(batchMax), actions);
    InitHolds(batchMax);
    RunKeepsAnswers(Init(batchMax), actions);
  }

  // ------------------------------------------------------------ where a GET reads from

  /** With any number of workers, each GET since the start was answered from the recovered state with some
      of the mutations that have reached the table, in the order they did, and later answers never from
      fewer than earlier ones. */
  lemma GetsReadThePast(s: State)
    requires Reachable(s)
    ensures s.log.base <= |s.log.history|
    ensures forall i :: 0 <= i < |s.said| ==> s.said[i].at <= |s.effects|
    ensures forall i :: 0 <= i < |s.said| && s.said[i].Got? ==>
              s.said[i].reply == P.GetReply(Past(s, s.said[i].at), s.said[i].key)
    ensures forall i, j :: 0 <= i < j < |s.said| ==> s.said[i].at <= s.said[j].at
  {
    hide Inv, Past, Kept;
    ReachableAnswers(s);
    forall i | 0 <= i < |s.said|
      ensures SaidOk(s, s.said[i])
    {
    }
  }

  lemma {:induction false} MineReqsAll(rs: seq<Req>)
    requires forall i :: 0 <= i < |rs| ==> rs[i].worker == 0
    ensures MineReqs(rs, 0) == rs
  {
    if rs != [] {
      MineReqsAll(rs[..|rs| - 1]);
    }
  }

  lemma {:induction false} OksArePrefix(ds: seq<Done>, m: int)
    requires forall i :: 0 <= i < |ds| ==> (ds[i].ok <==> i < m)
    ensures Oks(ds) == if m < 0 then [] else if m < |ds| then ds[..m] else ds
  {
    if ds != [] {
      OksArePrefix(ds[..|ds| - 1], m);
    }
  }

  lemma OneWorkerOks(s: State)
    requires AnswersInv(s) && EffectsInv(s) && |s.workers| == 1 && s.tableOk
    ensures s.effects == G.Reqs(Oks(s.workers[0].applied))
  {
    hide Replay, Oks, SaidOk, Kept, G.Reqs, G.Records;
    MineReqsAll(s.effects);
  }

  /** With one worker the mutations that reached the table are the history from the recovered part on. */
  lemma OneWorkerEffects(s: State)
    requires Inv(s) && AnswersInv(s) && s.log.mode.Running? && |s.workers| == 1 && s.tableOk
    ensures s.log.base + |s.effects| <= |s.log.history| && s.log.base + |s.effects| <= D.Covered(s.log)
    ensures G.Records(s.effects) == s.log.history[s.log.base..s.log.base + |s.effects|]
  {
    hide Inv, AnswersInv, EffectsInv, Oks, D.Inv, G.Records, G.Reqs;
    var l, applied := s.log, s.workers[0].applied;
    EffectsNow(s);
    OneWorkerOks(s);
    OneWorkerOrder(s);
    LogNow(s);
    CompletionsOk(l);
    OksArePrefix(applied, l.acked - l.base);
    BaseNow(s);
    if s.effects != [] {
      CompletedRecord(l, |s.effects| - 1);
    }
    forall i | 0 <= i < |s.effects|
      ensures l.base + i < |l.history| && G.Records(s.effects)[i] == l.history[l.base + i]
    {
      CompletedRecord(l, i);
    }
  }

  lemma BaseNow(s: State)
    requires AnswersInv(s)
    ensures s.log.base <= |s.log.history|
  {
  }

  lemma CompletionsOk(l: G.Log)
    requires D.Inv(l) && l.mode.Running?
    ensures forall i :: 0 <= i < |l.completed| ==> (l.completed[i].ok <==> l.base + i < l.acked)
  {
    hide D.DiskInv, D.WriterInv;
  }

  lemma OneWorkerPast(s: State, at: nat)
    requires s.log.base + |s.effects| <= |s.log.history| && at <= |s.effects|
    requires G.Records(s.effects) == s.log.history[s.log.base..s.log.base + |s.effects|]
    ensures Past(s, at) == Replay(map[], s.log.history[..s.log.base + at])
    ensures at > 0 ==> s.effects[at - 1].record == s.log.history[s.log.base + at - 1]
  {
    hide Replay, G.Records;
    assert G.Records(s.effects[..at]) == G.Records(s.effects)[..at];
    assert s.log.history[..s.log.base + at] == s.log.history[..s.log.base] + G.Records(s.effects[..at]);
  }

  /** With one worker and memory enough, the answers follow the log: each GET reads the replay of a prefix
      of it, made of what was recovered and of mutations acknowledged as durable, each OK is given for the
      last record of such a prefix, and the prefix never gets shorter from one answer to the next. */
  lemma OneWorkerAnswers(s: State)
    requires Reachable(s) && s.log.mode.Running? && |s.workers| == 1 && s.tableOk
    ensures forall i :: 0 <= i < |s.said| ==>
              s.log.base + s.said[i].at <= |s.log.history| && s.log.base + s.said[i].at <= D.Covered(s.log)
    ensures forall i :: 0 <= i < |s.said| && s.said[i].Got? ==>
              s.said[i].reply
              == P.GetReply(Replay(map[], s.log.history[..s.log.base + s.said[i].at]), s.said[i].key)
    ensures forall i :: 0 <= i < |s.said| && s.said[i].Told? && s.said[i].ok ==>
              s.said[i].at > 0 && s.said[i].req.record == s.log.history[s.log.base + s.said[i].at - 1]
    ensures forall i, j :: 0 <= i < j < |s.said| ==> s.said[i].at <= s.said[j].at
  {
    hide Inv, Reachable, Past, Kept, Replay, G.Records;
    ReachableAnswers(s);
    OneWorkerEffects(s);
    forall i | 0 <= i < |s.said|
      ensures SaidOk(s, s.said[i])
      ensures Past(s, s.said[i].at) == Replay(map[], s.log.history[..s.log.base + s.said[i].at])
      ensures s.said[i].at > 0 ==> s.effects[s.said[i].at - 1].record == s.log.history[s.log.base + s.said[i].at - 1]
    {
      OneWorkerPast(s, s.said[i].at);
    }
  }

  /** The reply is what the records say about the key: the value of its last record if that is a set, and
      nothing if that is a delete or there is none. */
  ghost predicate Reads(rs: seq<Record>, key: seq<byte>, reply: P.Response)
  {
    && (forall i: nat :: LastOfKey(rs, i) && rs[i].key == key ==>
          reply == if rs[i].opcode == OP_SET then P.Response(P.STATUS_OK, rs[i].val)
                   else P.Response(P.STATUS_NOT_FOUND, []))
    && ((forall i :: 0 <= i < |rs| ==> rs[i].key != key) ==> reply == P.Response(P.STATUS_NOT_FOUND, []))
  }

  lemma GetReads(rs: seq<Record>, key: seq<byte>)
    requires AllValid(rs)
    ensures Reads(rs, key, P.GetReply(Replay(map[], rs), key))
  {
    hide Replay;
    forall i: nat | LastOfKey(rs, i) && rs[i].key == key
      ensures P.GetReply(Replay(map[], rs), key)
           == if rs[i].opcode == OP_SET then P.Response(P.STATUS_OK, rs[i].val)
              else P.Response(P.STATUS_NOT_FOUND, [])
    {
      ReplayReadsLast(map[], rs, i);
    }
    if forall i :: 0 <= i < |rs| ==> rs[i].key != key {
      ReplayReadsNone(map[], rs, key);
    }
  }

  /** With one worker and memory enough, a GET answers by the last mutation of its key in the log up to its
      moment: after a delete that it found nothing, after a set with the value set. */
  lemma GetsReadTheLast(s: State, i: nat)
    requires Reachable(s) && s.log.mode.Running? && |s.workers| == 1 && s.tableOk
    requires i < |s.said| && s.said[i].Got?
    ensures s.log.base + s.said[i].at <= |s.log.history|
    ensures Reads(s.log.history[..s.log.base + s.said[i].at], s.said[i].key, s.said[i].reply)
  {
    hide Reachable, Reads, Replay;
    OneWorkerAnswers(s);
    HistoryValid(s);
    GetReads(s.log.history[..s.log.base + s.said[i].at], s.said[i].key);
  }

  lemma HistoryValid(s: State)
    requires Reachable(s)
    ensures AllValid(s.log.history)
  {
    ReachableAnswers(s);
    LogNow(s);
  }

  // ------------------------------------------------------------ what an OK is worth

  lemma PromisedStays(s: State, a: Action)
    ensures s.promised <= Next(s, a).promised
  {
    hide G.Next, G.DoComplete, G.DoSubmit, ScanFrom, Replay, Apply;
  }

  lemma {:induction false} PromisedStaysForever(s: State, actions: seq<Action>)
    ensures s.promised <= Run(s, actions).promised
    decreases |actions|
  {
    hide Next;
    if actions != [] {
      PromisedStays(s, actions[0]);
      PromisedStaysForever(Next(s, actions[0]), actions[1..]);
    }
  }

  lemma KeptIsRecovered(l: G.Log, r: Record, f: seq<byte>)
    requires D.Inv(l) && Kept(l, r) && G.CrashOutcome(l, f)
    ensures r.sequence <= |D.Recovered(f)| && D.Recovered(f)[r.sequence - 1] == r
  {
    hide D.Recovered, G.CrashOutcome, D.QueueInv, D.WriterInv, EncodeAll;
    D.CrashKeepsAcked(l, f);
    assert l.history[..l.acked][r.sequence - 1] == r;
  }

  /** A mutation a client was told OK about is recovered, at its own sequence number, from whatever any
      crash of any later state leaves, through any number of restarts. */
  lemma OkIsForever(s: State, i: nat, actions: seq<Action>, f: seq<byte>)
    requires Reachable(s) && i < |s.said| && s.said[i].Told? && s.said[i].ok
    requires G.CrashOutcome(Run(s, actions).log, f)
    ensures var r := s.said[i].req.record;
            1 <= r.sequence <= |D.Recovered(f)| && D.Recovered(f)[r.sequence - 1] == r
  {
    hide Run, Inv, Reachable, AnswersInv, G.CrashOutcome, D.Recovered, Kept;
    var t, req := Run(s, actions), s.said[i].req;
    ReachableAnswers(s);
    var j := OkIsPromised(s, i);
    RunKeepsAnswers(s, actions);
    PromisedStaysForever(s, actions);
    PromisedIsKept(t, j);
    LogNow(t);
    KeptSequence(t.log, req.record);
    KeptIsRecovered(t.log, req.record, f);
  }

  lemma OkIsPromised(s: State, i: nat) returns (j: nat)
    requires AnswersInv(s) && i < |s.said| && s.said[i].Told? && s.said[i].ok
    ensures j < |s.promised| && s.promised[j] == s.said[i].req
  {
    hide Past, Kept;
    assert SaidOk(s, s.said[i]);
    j :| 0 <= j < |s.promised| && s.promised[j] == s.said[i].req;
  }

  lemma PromisedIsKept(s: State, j: nat)
    requires AnswersInv(s) && j < |s.promised|
    ensures Kept(s.log, s.promised[j].record)
  {
    hide SaidOk, Kept;
  }

  lemma KeptSequence(l: G.Log, r: Record)
    requires Kept(l, r)
    ensures 1 <= r.sequence
  {
  }
}
