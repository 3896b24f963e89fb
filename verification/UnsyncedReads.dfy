/**
 What a client has read need not survive (src/wal.c, src/main.c). Recovery replays and serves what the
 file holds, but syncs it only after a repair, so the recovered part of the table may still be lost to a
 power failure until the first sync of the new run.
 */
module UnsyncedReads {
  import opened Bytes
  import opened WalRecord
  import opened WalScan
  import opened Mutation
  import opened Server
  import opened ServerSafety
  import opened WorkerOrder
  import P = Protocol
  import G = GroupCommit
  import D = Durability
  import Answers

  /** What was recovered at the start is out of the reach of every crash. */
  ghost predicate RecoveredIsSafe(l: G.Log)
  {
    l.base <= |l.history| && AllValid(l.history) && |EncodeAll(l.history[..l.base])| <= l.floor
  }

  /** A prefix that reaches beyond what was recovered survives; the recovered part alone survives if it was
      safe to begin with or has been synced since. */
  lemma ShownSurvivesIff(l: G.Log, k: nat)
    requires D.Inv(l) && l.mode.Running? && l.base <= k <= D.Covered(l)
    ensures k <= |l.history|
    ensures D.Survives(l, k) <==> k > l.base || RecoveredIsSafe(l)
  {
    hide D.Inv, EncodeAll, D.Survives;
    D.SurvivesIff(l, k);
    if k > l.base {
      AckedIsSafe(l, k);
    }
  }

  lemma AckedIsSafe(l: G.Log, k: nat)
    requires D.Inv(l) && k <= l.acked
    ensures k <= |l.history| && AllValid(l.history) && |EncodeAll(l.history[..k])| <= l.floor
  {
    hide EncodeAll, D.Recovered, D.QueueInv, D.WriterInv, D.BaseInv;
    D.PrefixEncodes(l.history, k, l.acked);
  }

  /** With one worker and memory enough: the table's contents survive every crash of the moment if and only
      if some mutation of this run is in them or what was recovered is safe. */
  lemma TableSurvivesIff(s: State)
    requires Reachable(s) && s.log.mode.Running? && |s.workers| == 1 && s.tableOk
    ensures Shown(s) <= |s.log.history|
    ensures D.Survives(s.log, Shown(s)) <==> Shown(s) > s.log.base || RecoveredIsSafe(s.log)
  {
    hide Inv, Reachable, D.Inv, D.Survives, Shown, RecoveredIsSafe;
    TableIsAReplay(s);
    Answers.ReachableAnswers(s);
    Answers.LogNow(s);
    ShownSurvivesIff(s.log, Shown(s));
  }

  /** The same of each GET: what it read survives every crash of the moment if and only if some mutation of
      this run had reached the table by then or what was recovered is safe. */
  lemma GetSurvivesIff(s: State, i: nat)
    requires Reachable(s) && s.log.mode.Running? && |s.workers| == 1 && s.tableOk
    requires i < |s.said| && s.said[i].Got?
    ensures s.log.base + s.said[i].at <= |s.log.history|
    ensures s.said[i].reply == P.GetReply(Replay(map[], s.log.history[..s.log.base + s.said[i].at]), s.said[i].key)
    ensures D.Survives(s.log, s.log.base + s.said[i].at) <==> s.said[i].at > 0 || RecoveredIsSafe(s.log)
  {
    hide Inv, Reachable, D.Inv, D.Survives, Replay, RecoveredIsSafe, Answers.AnswersInv;
    Answers.OneWorkerAnswers(s);
    Answers.ReachableAnswers(s);
    Answers.LogNow(s);
    ShownSurvivesIff(s.log, s.log.base + s.said[i].at);
  }

  // ------------------------------------------------------------ a value read and lost

  const ASKED := STARTED.(queue := [Logged(0)], accepted := [Logged(0)], history := [Logged(0).record], nextSequence := 2)

  const TAKEN := ASKED.(queue := [], batch := [Logged(0)], pc := G.Writing(0))

  lemma TakeAsked()
    ensures G.Next(ASKED, G.Take) == TAKEN
  {
    hide EncodeAll, ScanFrom, AllValid, G.Records;
    assert [Logged(0)][..1] == [Logged(0)];
  }

  lemma WriteTaken(size: nat)
    requires AllValid([Logged(0).record]) && size == |EncodeAll([Logged(0).record])| > 0
    ensures G.Next(TAKEN, G.Write(size)) == TAKEN.(file := EncodeAll([Logged(0).record]), pc := G.Writing(size))
  {
    hide EncodeAll, ScanFrom, AllValid, G.Records;
    OneRecord();
    var bytes := EncodeAll([Logged(0).record]);
    assert [] + bytes[0..size] == bytes;
  }

  /** The mutation is written and not yet synced. */
  lemma Written(s: State) returns (t: State)
    requires Reachable(s) && s.signal.Quiet? && s.log == ASKED
    ensures Reachable(t) && t.log.durable == [] && t.log.floor == 0
    ensures t.log.file == EncodeAll([Logged(0).record])
  {
    hide Reachable, Next, G.Next, EncodeAll;
    OneIsValid();
    TakeAsked();
    WriteTaken(|EncodeAll([Logged(0).record])|);
    t := WriterGoes(s, G.Take);
    t := WriterGoes(t, G.Write(|EncodeAll([Logged(0).record])|));
  }

  lemma OneRecord()
    ensures G.Records([Logged(0)]) == [Logged(0).record]
  {
  }

  /** The server is killed after writing a mutation and before syncing it. */
  lemma KilledUnsynced() returns (s: State)
    ensures Reachable(s) && s.log.mode.Down? && s.log.durable == [] && s.log.floor == 0
    ensures s.log.file == EncodeAll([Logged(0).record])
  {
    hide Reachable, Next, EncodeAll, ScanFrom;
    s := Started(1);
    s := Asked(s, 0);
    s := Written(s);
    s := Crashed(s, G.Kill);
  }

  lemma OneIsValid()
    ensures Logged(0).record.Valid() && AllValid([Logged(0).record])
    ensures |EncodeAll([Logged(0).record])| > 0
  {
    hide Encode;
    EncodeAllOne(Logged(0).record);
  }

  lemma Crashed(s: State, crash: G.Action) returns (t: State)
    requires Reachable(s) && crash.Kill?
    ensures Reachable(t) && t == s.(log := G.Next(s.log, crash))
  {
    hide Reachable, G.Next;
    t := Next(s, Fail(crash));
    ReachableNext(s, Fail(crash));
  }

  /** It starts again and serves what the file holds. */
  lemma StartedAgain(s: State) returns (t: State)
    requires Reachable(s) && s.log.mode.Down? && s.log.file == EncodeAll([Logged(0).record])
    ensures Reachable(t) && t.log.mode.Running? && t.workers == [FRESH] && t.tableOk && t.said == [] && t.effects == []
    ensures t.log.file == s.log.file && t.log.durable == s.log.durable && t.log.floor == s.log.floor
    ensures t.table == map[KEY := [1]]
  {
    hide Reachable, EncodeAll, ScanFrom;
    var r := Logged(0).record;
    OneIsValid();
    ScanOfOne(r);
    t := Next(s, Repair(G.Boot));
    ReachableNext(s, Repair(G.Boot));
    ReachableNext(t, Start(1));
    t := Next(t, Start(1));
    assert Replay(map[], [r]) == map[KEY := [1]] by { assert [r][..0] == []; }
  }

  lemma ScanOfOne(r: Record)
    requires r.Valid() && r.sequence == 1
    ensures ScanFrom(EncodeAll([r]), 0) == Scan([r], |EncodeAll([r])|, 1, NoRepair)
  {
    hide EncodeAll, Decode;
    ScanOfLog([r], 0, []);
    assert EncodeAll([r]) + [] == EncodeAll([r]) && [r] + [] == [r];
  }

  /** A client reads a value that a power loss of that very moment takes back. */
  lemma ReadIsLost() returns (s: State)
    ensures Reachable(s) && s.log.mode.Running? && |s.workers| == 1 && s.tableOk
    ensures s.said == [Got(0, 0, KEY, P.Response(P.STATUS_OK, [1]), 0)]
    ensures G.CrashOutcome(s.log, []) && D.Recovered([]) == []
  {
    hide Reachable, EncodeAll, ScanFrom;
    var t := KilledUnsynced();
    t := StartedAgain(t);
    s := Next(t, Accept(0, 0));
    ReachableNext(t, Accept(0, 0));
    ReachableNext(s, Get(0, 0, KEY));
    s := Next(s, Get(0, 0, KEY));
    NothingRecovered();
  }

  lemma NothingRecovered()
    ensures D.Recovered([]) == []
  {
  }
}
