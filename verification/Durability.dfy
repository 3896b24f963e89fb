/**
 What every run of the log keeps: whatever was completed without error survives every crash,
 and what survives is always a prefix of the order in which mutations were accepted.
 */
module Durability {
  import opened Bytes
  import opened WalRecord
  import opened WalScan
  import opened GroupCommit

  /** The records recovery would accept from these bytes. */
  function Recovered(f: seq<byte>): seq<Record>
  {
    ScanFrom(f, 0).records
  }

  // ------------------------------------------------------------ the invariant

  /** Bytes a crash may bring back: they agree with the file as far as no crash reaches, and recover no
      more than it does. */
  ghost predicate Behind(l: Log, g: seq<byte>)
  {
    l.floor <= |g| && l.floor <= |l.file| && g[..l.floor] == l.file[..l.floor] && Recovered(g) <= Recovered(l.file)
  }

  /** The encodings of every acknowledged mutation are at the front of the file and beyond the
      reach of any crash; what can be recovered is a prefix of the history. */
  ghost predicate DiskInv(l: Log)
  {
    && IsLog(l.history, 0)
    && l.acked <= |l.history|
    && l.floor <= |l.file|
    && |EncodeAll(l.history[..l.acked])| <= l.floor
    && EncodeAll(l.history[..l.acked]) <= l.file
    && Recovered(l.file) <= l.history
    && Behind(l, l.durable)
    && (forall p :: p in l.past ==> Behind(l, p))
  }

  /** The file starts with everything that was recovered from it. */
  ghost predicate BaseInv(l: Log)
    requires DiskInv(l)
  {
    l.base <= |l.history| && EncodeAll(l.history[..l.base]) <= l.file
  }

  /** Every accepted request is in exactly one place, in acceptance order, and the completions
      without error are exactly those of the acknowledged prefix. */
  ghost predicate QueueInv(l: Log)
  {
    && l.accepted == Reqs(l.completed) + l.batch + l.queue
    && l.base + |l.accepted| == |l.history|
    && l.history[l.base..] == Records(l.accepted)
    && l.nextSequence == (if |l.history| == MAX_U64 then 0 else |l.history| + 1)
    && l.acked <= l.base + |l.completed|
    && (forall i :: 0 <= i < |l.completed| ==> (l.completed[i].ok <==> l.base + i < l.acked))
  }

  /** Where the writer is, and what it has put in the file so far while nothing has failed. */
  ghost predicate WriterInv(l: Log)
    requires DiskInv(l) && QueueInv(l)
  {
    var p := l.base + |l.completed|;
    var q := p + |l.batch|;
    match l.pc
    case Idle => l.batch == [] && (!l.sticky ==> AllOk(l) && l.file == EncodeAll(l.history[..p]))
    case Exited => l.batch == [] && l.queue == [] && l.stopping && (!l.sticky ==> AllOk(l))
    case Writing(w) =>
      && l.batch != [] && !l.sticky && AllOk(l)
      && l.file <= EncodeAll(l.history[..q])
      && |l.file| == |EncodeAll(l.history[..p])| + w
    case Completing(ok) =>
      && l.batch != [] && ok == !l.sticky
      && (ok ==> AllOk(l) && l.durable == l.file == EncodeAll(l.history[..q]) && l.floor == |l.file|)
  }

  ghost predicate AllOk(l: Log)
  {
    forall i :: 0 <= i < |l.completed| ==> l.completed[i].ok
  }

  ghost predicate Inv(l: Log)
  {
    && l.batchMax > 0
    && DiskInv(l)
    && (l.mode.Running? ==> QueueInv(l) && WriterInv(l) && BaseInv(l))
  }

  lemma BatchMaxIsPositive(l: Log)
    requires Inv(l)
    ensures l.batchMax > 0
  {
    hide DiskInv, QueueInv, WriterInv, BaseInv;
  }

  // ------------------------------------------------------------ facts about files

  lemma PrefixEncodes(h: seq<Record>, i: nat, j: nat)
    requires AllValid(h) && i <= j <= |h|
    ensures EncodeAll(h[..i]) <= EncodeAll(h[..j])
  {
    hide EncodeAll;
    LogSplitsAt(h[..j], i);
    assert h[..j][..i] == h[..i];
  }

  /** A file that starts with the encoding of a log recovers at least that log. */
  lemma RecoversWhatItStartsWith(h: seq<Record>, f: seq<byte>)
    requires IsLog(h, 0) && EncodeAll(h) <= f
    ensures h <= Recovered(f)
  {
    hide EncodeAll, ScanFrom;
    var tail := f[|EncodeAll(h)|..];
    assert f == EncodeAll(h) + tail;
    ScanOfLog(h, 0, tail);
  }

  /** A file that is a prefix of the encoding of a log recovers a prefix of that log. */
  lemma RecoversAPrefix(h: seq<Record>, f: seq<byte>)
    requires IsLog(h, 0) && f <= EncodeAll(h)
    ensures Recovered(f) <= h
  {
    hide EncodeAll, ScanFrom;
    assert f == EncodeAll(h)[..|f|];
    TornLog(h, 0, |f|);
  }

  lemma RecoversLess(f: seq<byte>, g: seq<byte>)
    requires f <= g
    ensures Recovered(f) <= Recovered(g)
  {
    hide ScanFrom;
    assert f == g[..|f|];
    ScanOfPrefix(g, |f|, 0);
  }

  /** Whatever a crash leaves is the start of something that agrees with the file out of its reach. */
  lemma CrashSource(l: Log, f: seq<byte>) returns (g: seq<byte>)
    requires DiskInv(l) && CrashOutcome(l, f)
    ensures f <= g && Behind(l, g) && l.floor <= |f|
  {
    hide EncodeAll, Recovered;
    if f <= l.file {
      g := l.file;
    } else if f <= l.durable {
      g := l.durable;
    } else {
      g :| g in l.past && f <= g;
    }
  }

  /** Durability in one state: whatever the crash leaves, recovery replays a prefix of the
      history that contains every acknowledged mutation. */
  lemma CrashKeepsAcked(l: Log, f: seq<byte>)
    requires DiskInv(l) && CrashOutcome(l, f)
    ensures Recovered(f) <= l.history
    ensures l.history[..l.acked] <= Recovered(f)
    ensures EncodeAll(l.history[..l.acked]) <= f
  {
    hide EncodeAll, Recovered;
    var g := CrashSource(l, f);
    RecoversLess(f, g);
    var head := EncodeAll(l.history[..l.acked]);
    assert head <= l.file[..l.floor] && g[..l.floor] <= f;
    RecoversWhatItStartsWith(l.history[..l.acked], f);
  }

  // ------------------------------------------------------------ what survives

  /** How much of the history a running server may have shown: what it recovered and what it has
      acknowledged. */
  function Covered(l: Log): nat
  {
    if l.acked < l.base then l.base else l.acked
  }

  /** No crash of this state loses any of the first k mutations. */
  ghost predicate Survives(l: Log, k: nat)
    requires k <= |l.history|
  {
    forall f :: CrashOutcome(l, f) ==> l.history[..k] <= Recovered(f)
  }

  /** A crash may leave exactly what is out of its reach. */
  lemma FloorIsAnOutcome(l: Log)
    requires DiskInv(l)
    ensures CrashOutcome(l, l.file[..l.floor])
  {
    hide EncodeAll, Recovered;
  }

  lemma ShortOfSome(rs: seq<Record>, f: seq<byte>)
    requires IsLog(rs, 0) && f < EncodeAll(rs)
    ensures |Recovered(f)| < |rs|
  {
    hide EncodeAll, ScanFrom, WholeRecords;
    assert f == EncodeAll(rs)[..|f|];
    TornLog(rs, 0, |f|);
    WholeRecordsFit(rs, |f|);
    assert rs[..|rs|] == rs;
  }

  lemma StartsWith(l: Log, k: nat)
    requires Inv(l) && l.mode.Running? && k <= Covered(l)
    ensures k <= |l.history| && AllValid(l.history) && EncodeAll(l.history[..k]) <= l.file
  {
    hide EncodeAll, Recovered, QueueInv, WriterInv;
    PrefixEncodes(l.history, k, Covered(l));
  }

  /** Recovered is not durable: recovery syncs only what it repairs. So the first k mutations shown survive
      every crash if and only if their records are out of its reach. */
  lemma SurvivesIff(l: Log, k: nat)
    requires Inv(l) && l.mode.Running? && k <= Covered(l)
    ensures k <= |l.history| && AllValid(l.history)
    ensures Survives(l, k) <==> |EncodeAll(l.history[..k])| <= l.floor
  {
    hide EncodeAll, Recovered, CrashOutcome, QueueInv, WriterInv;
    StartsWith(l, k);
    var shown := l.history[..k];
    if |EncodeAll(shown)| <= l.floor {
      forall f | CrashOutcome(l, f)
        ensures shown <= Recovered(f)
      {
        var g := CrashSource(l, f);
        assert EncodeAll(shown) <= l.file[..l.floor] && g[..l.floor] <= f;
        RecoversWhatItStartsWith(shown, f);
      }
    } else {
      var f := l.file[..l.floor];
      FloorIsAnOutcome(l);
      ShortOfSome(shown, f);
    }
  }

  // ------------------------------------------------------------ every step keeps it

  lemma SubmitKeepsDisk(l: Log, a: Action)
    requires DiskInv(l) && QueueInv(l) && a.Submit? && CanSubmit(l, a)
    ensures DiskInv(DoSubmit(l, a))
  {
    hide EncodeAll, Recovered, Records, Reqs;
    assert DoSubmit(l, a).history[..l.acked] == l.history[..l.acked];
  }

  lemma SubmitKeepsQueue(l: Log, a: Action)
    requires DiskInv(l) && QueueInv(l) && a.Submit? && CanSubmit(l, a)
    ensures QueueInv(DoSubmit(l, a))
  {
    hide DiskInv, Records, Reqs;
    var m := DoSubmit(l, a);
    var r := Request(l, a);
    assert Records(l.accepted + [r]) == Records(l.accepted) + [r.record];
    assert m.history[l.base..] == l.history[l.base..] + [r.record];
    assert m.accepted == Reqs(l.completed) + l.batch + (l.queue + [r]);
  }

  lemma SubmitKeeps(l: Log, a: Action)
    requires Inv(l) && a.Submit? && CanSubmit(l, a)
    ensures Inv(DoSubmit(l, a))
  {
    hide EncodeAll, Recovered, Records, Reqs;
    var m := DoSubmit(l, a);
    SubmitKeepsDisk(l, a);
    SubmitKeepsQueue(l, a);
    assert m.history[..l.base] == l.history[..l.base];
    assert m.history[..l.base + |l.completed|] == l.history[..l.base + |l.completed|];
    assert m.history[..l.base + |l.completed| + |l.batch|] == l.history[..l.base + |l.completed| + |l.batch|];
  }

  lemma IdleHasNoBatch(l: Log)
    requires Inv(l) && l.mode.Running? && l.pc.Idle?
    ensures l.batch == []
  {
    hide DiskInv, QueueInv, EncodeAll;
  }

  lemma TakeSplits(l: Log)
    ensures l.queue == DoTake(l).batch + DoTake(l).queue
    ensures l.batchMax > 0 && l.queue != [] ==> DoTake(l).batch != []
  {
  }

  lemma TakeKeeps(l: Log)
    requires Inv(l) && l.mode.Running? && l.pc.Idle? && l.queue != []
    ensures Inv(DoTake(l))
  {
    hide EncodeAll, Recovered, Records, Reqs;
    var m := DoTake(l);
    var p := l.base + |l.completed|;
    TakeSplits(l);
    assert Reqs(l.completed) + [] + l.queue == Reqs(m.completed) + m.batch + m.queue;
    PrefixEncodes(l.history, p, p + |m.batch|);
  }

  /** The batch being written is the next stretch of the history. */
  lemma BatchIsHistory(l: Log)
    requires DiskInv(l) && QueueInv(l)
    ensures var p := l.base + |l.completed|;
            && Records(l.batch) == l.history[p..p + |l.batch|]
            && AllValid(Records(l.batch))
            && EncodeAll(l.history[..p + |l.batch|]) == EncodeAll(l.history[..p]) + EncodeAll(Records(l.batch))
  {
    hide EncodeAll, Recovered, Records, Reqs;
    var p := l.base + |l.completed|;
    var q := p + |l.batch|;
    forall i | 0 <= i < |l.batch|
      ensures Records(l.batch)[i] == l.history[p + i]
    {
      assert l.accepted[|l.completed| + i] == l.batch[i];
      assert l.history[l.base..][|l.completed| + i] == l.history[p + i];
    }
    LogSplitsAt(l.history[..q], p);
    assert l.history[..q][..p] == l.history[..p] && l.history[..q][p..] == l.history[p..q];
  }

  lemma NextPiece(head: seq<byte>, body: seq<byte>, file: seq<byte>, w: nat, n: nat)
    requires file <= head + body && |file| == |head| + w && w + n <= |body|
    ensures file + body[w..w + n] <= head + body
  {
    assert (head + body)[|file|..|file| + n] == body[w..w + n];
  }

  lemma WriteKeeps(l: Log, n: nat)
    requires Inv(l) && l.mode.Running? && l.pc.Writing? && AllValid(Records(l.batch))
    requires l.pc.written + n <= |EncodeAll(Records(l.batch))|
    ensures Inv(DoWrite(l, n))
  {
    hide EncodeAll, Recovered, Records, Reqs;
    var m := DoWrite(l, n);
    var p := l.base + |l.completed|;
    var q := p + |l.batch|;
    BatchIsHistory(l);
    NextPiece(EncodeAll(l.history[..p]), EncodeAll(Records(l.batch)), l.file, l.pc.written, n);
    RecoversAPrefix(l.history[..q], m.file);
    RecoversLess(l.file, m.file);
  }

  lemma SyncKeeps(l: Log)
    requires Inv(l) && l.mode.Running? && l.pc.Writing? && AllValid(Records(l.batch))
    requires l.pc.written == |EncodeAll(Records(l.batch))|
    ensures Inv(DoSync(l))
  {
    hide EncodeAll, Recovered, Records, Reqs;
    BatchIsHistory(l);
  }

  lemma CompleteKeeps(l: Log)
    requires Inv(l) && l.mode.Running? && l.pc.Completing? && l.batch != []
    ensures Inv(DoComplete(l))
  {
    hide EncodeAll, Recovered, Records;
    var m := DoComplete(l);
    var p := l.base + |l.completed|;
    assert l.batch == [l.batch[0]] + m.batch;
    assert Reqs(m.completed) == Reqs(l.completed) + [l.batch[0]];
    assert m.accepted == Reqs(m.completed) + m.batch + m.queue;
    if l.pc.ok {
      PrefixEncodes(l.history, p + 1, p + |l.batch|);
    }
  }

  lemma PowerLossKeeps(l: Log, f: seq<byte>)
    requires Inv(l) && CrashOutcome(l, f)
    ensures Inv(DoPowerLoss(l, f))
  {
    hide EncodeAll, Recovered;
    CrashKeepsAcked(l, f);
    PrefixEncodes(l.history, l.acked, l.acked);
  }

  lemma TruncateKeeps(l: Log)
    requires Inv(l) && l.mode.Recovering? && ScanFrom(l.file, 0).valid <= |l.file|
    ensures Inv(DoTruncate(l))
  {
    hide EncodeAll, ScanFrom;
    var s := ScanFrom(l.file, 0);
    ScanShape(l.file, 0);
    ScanAfterRepair(l.file, 0);
    RecoversWhatItStartsWith(l.history[..l.acked], l.file);
    PrefixEncodes(s.records, l.acked, |s.records|);
    assert s.records[..|s.records|] == s.records;
    assert s.records[..l.acked] == l.history[..l.acked];
  }

  lemma StartKeeps(l: Log)
    requires Inv(l) && l.mode.Recovering? && ScanFrom(l.file, 0).repair.NoRepair?
    ensures Inv(DoStart(l))
  {
    hide EncodeAll, ScanFrom;
    var s := ScanFrom(l.file, 0);
    var m := DoStart(l);
    ScanShape(l.file, 0);
    RecoversWhatItStartsWith(l.history[..l.acked], l.file);
    assert s.records[..l.acked] == l.history[..l.acked];
    assert s.records[..|s.records|] == s.records && l.file[..|l.file|] == l.file;
    assert m.accepted == Reqs(m.completed) + m.batch + m.queue;
  }

  lemma FailKeeps(l: Log)
    requires Inv(l) && l.mode.Running? && l.pc.Writing?
    ensures Inv(DoFail(l))
  {
    hide EncodeAll, Recovered, Records, Reqs;
  }

  lemma StopsKeep(l: Log)
    requires Inv(l)
    ensures l.mode.Running? ==> Inv(l.(stopping := true))
    ensures l.mode.Running? && l.pc.Idle? && l.stopping && l.queue == [] ==> Inv(l.(pc := Exited))
  {
    hide EncodeAll, Recovered, Records, Reqs;
  }

  lemma RestartsKeep(l: Log)
    requires Inv(l)
    ensures Inv(l.(mode := Down)) && Inv(l.(mode := Recovering))
    ensures Inv(l.(mode := Recovering, durable := l.file, past := {}, floor := |l.file|))
  {
    hide EncodeAll, Recovered;
  }

  lemma NextKeeps(l: Log, a: Action)
    requires Inv(l)
    ensures Inv(Next(l, a))
  {
    hide Inv, EncodeAll, ScanFrom, AllValid, Records, CanSubmit, CrashOutcome,
      DoSubmit, DoTake, DoFail, DoWrite, DoSync, DoComplete, DoPowerLoss, DoTruncate, DoStart;
    match a
    case Submit(_, _, _, _, _) => if CanSubmit(l, a) { SubmitKeeps(l, a); }
    case Take => if l.mode.Running? && l.pc.Idle? && l.queue != [] { TakeKeeps(l); }
    case EncodeFail => if l.mode.Running? && l.pc.Writing? { FailKeeps(l); }
    case WriteFail => if l.mode.Running? && l.pc.Writing? { FailKeeps(l); }
    case Write(n) =>
      if l.mode.Running? && l.pc.Writing? && AllValid(Records(l.batch))
         && l.pc.written + n <= |EncodeAll(Records(l.batch))| { WriteKeeps(l, n); }
    case Sync(ok) =>
      if l.mode.Running? && l.pc.Writing? && AllValid(Records(l.batch))
         && l.pc.written == |EncodeAll(Records(l.batch))| { SyncKeeps(l); FailKeeps(l); }
    case Complete => if l.mode.Running? && l.pc.Completing? && l.batch != [] { CompleteKeeps(l); }
    case Stop => StopsKeep(l);
    case Exit => StopsKeep(l);
    case Kill => RestartsKeep(l);
    case Boot => RestartsKeep(l);
    case RepairSync(ok) => RestartsKeep(l);
    case PowerLoss(left) => if CrashOutcome(l, left) { PowerLossKeeps(l, left); }
    case Truncate =>
      ScanShape(l.file, 0);
      if l.mode.Recovering? { TruncateKeeps(l); }
    case Start => if l.mode.Recovering? && ScanFrom(l.file, 0).repair.NoRepair? { StartKeeps(l); }
  }

  // ------------------------------------------------------------ over every run

  lemma InitHolds(batchMax: nat)
    requires batchMax > 0
    ensures Inv(Init(batchMax))
  {
  }

  lemma {:induction false} RunKeeps(l: Log, actions: seq<Action>)
    requires Inv(l)
    ensures Inv(Run(l, actions))
    decreases |actions|
  {
    hide Inv, Next;
    if actions != [] {
      NextKeeps(l, actions[0]);
      RunKeeps(Next(l, actions[0]), actions[1..]);
    }
  }

  /** Durability: after any run from an empty disk, whatever a crash leaves behind recovers to a
      prefix of the accepted order that contains everything ever acknowledged. */
  lemma EveryRunIsDurable(batchMax: nat, actions: seq<Action>, f: seq<byte>)
    requires batchMax > 0
    requires CrashOutcome(Run(Init(batchMax), actions), f)
    ensures var l := Run(Init(batchMax), actions);
            && l.acked <= |l.history|
            && Recovered(f) <= l.history
            && l.history[..l.acked] <= Recovered(f)
  {
    hide Run, Recovered, CrashOutcome;
    InitHolds(batchMax);
    RunKeeps(Init(batchMax), actions);
    CrashKeepsAcked(Run(Init(batchMax), actions), f);
  }

  /** What has been acknowledged stays in the history, at the same place, through every restart. */
  lemma AckedStays(l: Log, a: Action)
    requires Inv(l)
    ensures var m := Next(l, a);
            && l.acked <= m.acked
            && l.acked <= |l.history| && l.acked <= |m.history|
            && m.history[..l.acked] == l.history[..l.acked]
  {
    hide EncodeAll, ScanFrom, Records, Reqs;
    if a.Start? && l.mode.Recovering? {
      RecoversWhatItStartsWith(l.history[..l.acked], l.file);
      ScanShape(l.file, 0);
    }
    if a.Truncate? {
      ScanShape(l.file, 0);
    }
  }

  lemma {:induction false} AckedStaysForever(l: Log, actions: seq<Action>)
    requires Inv(l)
    ensures var m := Run(l, actions);
            && l.acked <= m.acked
            && l.acked <= |l.history| && l.acked <= |m.history|
            && m.history[..l.acked] == l.history[..l.acked]
    decreases |actions|
  {
    hide Next, EncodeAll, Recovered;
    if actions != [] {
      var n := Next(l, actions[0]);
      AckedStays(l, actions[0]);
      NextKeeps(l, actions[0]);
      AckedStaysForever(n, actions[1..]);
      var m := Run(l, actions);
      assert m.history[..l.acked] == m.history[..n.acked][..l.acked];
      assert n.history[..l.acked] == n.history[..n.acked][..l.acked];
    }
  }

  /** A mutation completed without error is recovered, at its own sequence number, after every
      later crash of every run, whatever happens in between. */
  lemma CompletedSurvives(batchMax: nat, before: seq<Action>, after: seq<Action>, i: nat, f: seq<byte>)
    requires batchMax > 0
    requires var l := Run(Init(batchMax), before);
             l.mode.Running? && i < |l.completed| && l.completed[i].ok
    requires CrashOutcome(Run(Run(Init(batchMax), before), after), f)
    ensures var r := Run(Init(batchMax), before).completed[i].req.record;
            1 <= r.sequence <= |Recovered(f)| && Recovered(f)[r.sequence - 1] == r
  {
    hide Run, Next, EncodeAll, Recovered, CrashOutcome, Records, Reqs;
    var l := Run(Init(batchMax), before);
    var m := Run(l, after);
    InitHolds(batchMax);
    RunKeeps(Init(batchMax), before);
    RunKeeps(l, after);
    AckedStaysForever(l, after);
    CrashKeepsAcked(m, f);
    var k := l.base + i;
    assert l.accepted[i] == l.completed[i].req;
    assert l.history[k] == l.history[l.base..][i] == l.completed[i].req.record;
    assert l.history[k] == l.history[..l.acked][k];
    assert m.history[k] == m.history[..l.acked][k];
    assert m.history[k] == m.history[..m.acked][k];
    assert Recovered(f)[k] == m.history[k];
  }

  /** Group commit loses and repeats nothing: at any time every request accepted since the start
      is completed, being written or queued, in the order of its consecutive sequence numbers,
      and once the writer has exited all of them are completed. */
  lemma EveryRequestInOnePlace(batchMax: nat, actions: seq<Action>)
    requires batchMax > 0
    ensures var l := Run(Init(batchMax), actions);
            l.mode.Running? ==>
              && l.accepted == Reqs(l.completed) + l.batch + l.queue
              && (forall i :: 0 <= i < |l.accepted| ==> l.accepted[i].record.sequence == l.base + i + 1)
              && (l.pc.Exited? ==> l.accepted == Reqs(l.completed))
  {
    hide Run, EncodeAll, Recovered, Records, Reqs;
    var l := Run(Init(batchMax), actions);
    InitHolds(batchMax);
    RunKeeps(Init(batchMax), actions);
    if l.mode.Running? {
      forall i | 0 <= i < |l.accepted|
        ensures l.accepted[i].record.sequence == l.base + i + 1
      {
        assert l.history[l.base..][i] == l.history[l.base + i];
      }
    }
  }

  predicate Restarts(a: Action)
  {
    a.Kill? || a.PowerLoss? || a.Boot? || a.Truncate? || a.RepairSync? || a.Start?
  }

  lemma FailureStep(l: Log, a: Action)
    requires Inv(l) && l.mode.Running? && !Restarts(a)
    ensures var m := Next(l, a);
            && m.mode.Running?
            && l.accepted <= m.accepted && l.completed <= m.completed
            && (l.sticky ==> m.sticky && m.file == l.file && m.acked == l.acked)
  {
    hide EncodeAll, ScanFrom, Records, Reqs;
  }

  /** After the first failure of a run nothing more is appended, and nothing more is acknowledged;
      accepted requests and completions are only ever added. */
  lemma {:induction false} FailureIsFinal(l: Log, actions: seq<Action>)
    requires Inv(l) && l.mode.Running?
    requires forall i :: 0 <= i < |actions| ==> !Restarts(actions[i])
    ensures var m := Run(l, actions);
            && m.mode.Running?
            && l.accepted <= m.accepted && l.completed <= m.completed
            && (l.sticky ==> m.sticky && m.file == l.file && m.acked == l.acked)
    decreases |actions|
  {
    hide Inv, Next;
    if actions != [] {
      NextKeeps(l, actions[0]);
      FailureStep(l, actions[0]);
      FailureIsFinal(Next(l, actions[0]), actions[1..]);
    }
  }
}
